/** Carving reserved ranges out of the available memory (boot/amd64/src/main.rs).  Every region the boot
    loader hands to the kernel goes through the recursive `apply`, once per reserved range. */
module Carve {
  import opened Wrappers

  const PAGE := 0x1000

  datatype Region = Region(base: nat, size: nat)

  datatype Range = Range(bottom: nat, top: nat)

  predicate Aligned(a: nat)
  {
    a % PAGE == 0
  }

  function Down(a: nat): (d: nat)
    ensures Aligned(d) && d <= a < d + PAGE
  {
    a / PAGE * PAGE
  }

  function Up(a: nat): (u: nat)
    ensures Aligned(u) && a <= u < a + PAGE
  {
    (a + (PAGE - 1)) / PAGE * PAGE
  }

  /** What is left of start..end beside one reserved range. */
  function Pieces(start: nat, end: nat, r: Range): seq<(nat, nat)>
  {
    if r.bottom <= start && end <= r.top then []
    else if r.bottom < end && end <= r.top then [(start, r.bottom)]
    else if r.bottom <= start && start < r.top then [(r.top, end)]
    else if start <= r.bottom && r.top <= end then [(start, r.bottom), (r.top, end)]
    else [(start, end)]
  }

  /** `apply`.  None stands for a subtraction that goes below zero. */
  function Apply(base: nat, size: nat, reserved: seq<Range>): Option<seq<Region>>
    decreases |reserved|, 2
  {
    if reserved == [] then Some([Region(base, size)])
    else
      var pieces := Pieces(base, base + size, reserved[0]);
      if pieces == [] then Some([])
      else if |pieces| == 1 then Keep(pieces[0].0, pieces[0].1, reserved)
      else
        var left, right := Keep(pieces[0].0, pieces[0].1, reserved), Keep(pieces[1].0, pieces[1].1, reserved);
        if left.Some? && right.Some? then Some(left.value + right.value) else None
  }

  /** The inner `apply`: a piece is shrunk to whole pages and goes on to the next reserved range. */
  function Keep(start: nat, end: nat, reserved: seq<Range>): Option<seq<Region>>
    requires reserved != []
    decreases |reserved|, 1
  {
    if Up(start) == Down(end) then Some([])
    else if Up(start) > Down(end) then None
    else Apply(Up(start), Down(end) - Up(start), reserved[1..])
  }

  predicate Sane(reserved: seq<Range>)
  {
    forall r :: r in reserved ==> r.bottom <= r.top
  }

  // ---- What carving is for ----

  /** The page at p shares a byte with the range. */
  predicate Touches(p: nat, r: Range)
  {
    r.bottom < p + PAGE && p < r.top
  }

  predicate PageIn(p: nat, low: nat, high: nat)
  {
    Aligned(p) && low <= p && p + PAGE <= high
  }

  /** The pages that must be handed out. */
  ghost predicate Wanted(p: nat, low: nat, high: nat, reserved: seq<Range>)
  {
    PageIn(p, low, high) && forall r :: r in reserved ==> !Touches(p, r)
  }

  ghost predicate Covers(regions: seq<Region>, p: nat)
  {
    exists r :: r in regions && PageIn(p, r.base, r.base + r.size)
  }

  /** Non-empty whole-page regions in rising order, between the two bounds. */
  ghost predicate Tidy(regions: seq<Region>, low: nat, high: nat)
    decreases |regions|
  {
    regions != [] ==>
      var r := regions[0];
      && low <= r.base && r.size > 0 && r.base + r.size <= high
      && Aligned(r.base) && Aligned(r.size)
      && Tidy(regions[1..], r.base + r.size, high)
  }

  ghost predicate Exact(regions: seq<Region>, low: nat, high: nat, reserved: seq<Range>)
  {
    Tidy(regions, low, high) && forall p: nat :: Covers(regions, p) <==> Wanted(p, low, high, reserved)
  }

  lemma {:induction false} TidyConcat(a: seq<Region>, b: seq<Region>, low: nat, mid: nat, mid': nat, high: nat)
    requires Tidy(a, low, mid) && Tidy(b, mid', high) && low <= mid <= mid' <= high
    ensures Tidy(a + b, low, high)
    decreases |a|
  {
    if a == [] {
      assert a + b == b;
    } else {
      assert (a + b)[1..] == a[1..] + b;
      TidyConcat(a[1..], b, a[0].base + a[0].size, mid, mid', high);
    }
  }

  lemma CoversConcat(a: seq<Region>, b: seq<Region>, p: nat)
    ensures Covers(a + b, p) <==> Covers(a, p) || Covers(b, p)
  {
  }

  /** Handed-out regions never overlap, and none is empty. */
  lemma {:induction false} TidyDisjoint(regions: seq<Region>, low: nat, high: nat, i: nat, j: nat)
    requires Tidy(regions, low, high) && i < j < |regions|
    ensures low <= regions[i].base < regions[i].base + regions[i].size <= regions[j].base
    ensures regions[j].base < regions[j].base + regions[j].size <= high
    decreases |regions|
  {
    if i > 0 {
      TidyDisjoint(regions[1..], regions[0].base + regions[0].size, high, i - 1, j - 1);
    } else {
      TidyLater(regions[1..], regions[0].base + regions[0].size, high, j - 1);
    }
  }

  lemma {:induction false} TidyLater(regions: seq<Region>, low: nat, high: nat, j: nat)
    requires Tidy(regions, low, high) && j < |regions|
    ensures low <= regions[j].base < regions[j].base + regions[j].size <= high
    decreases |regions|
  {
    if j > 0 {
      TidyLater(regions[1..], regions[0].base + regions[0].size, high, j - 1);
    }
  }

  lemma TidyWiden(regions: seq<Region>, low: nat, high: nat, low': nat, high': nat)
    requires Tidy(regions, low, high) && low' <= low <= high <= high'
    ensures Tidy(regions, low', high')
  {
  }

  /** Shrinking to whole pages loses no whole page. */
  lemma WholePages(p: nat, start: nat, end: nat)
    ensures PageIn(p, Up(start), Down(end)) <==> PageIn(p, start, end)
  {
  }

  /** One range: the pages beside it are exactly the pages of the pieces. */
  lemma PiecesExact(p: nat, start: nat, end: nat, r: Range)
    requires r.bottom <= r.top
    ensures PageIn(p, start, end) && !Touches(p, r)
            <==> exists q :: q in Pieces(start, end, r) && PageIn(p, q.0, q.1)
  {
  }

  /** The subtraction in the inner `apply` goes below zero exactly here: the first range ends inside the
      last, partial page of the region. */
  predicate Underflows(base: nat, size: nat, r: Range)
  {
    var end := base + size;
    Down(end) < r.top && (r.top < end || r.bottom == r.top == end)
  }

  lemma PiecesFit(base: nat, size: nat, r: Range, i: nat)
    requires Aligned(base) && r.bottom <= r.top && i < |Pieces(base, base + size, r)|
    ensures var q := Pieces(base, base + size, r)[i];
            && base <= q.0 && q.1 <= base + size
            && (Up(q.0) > Down(q.1) <==> Underflows(base, size, r) && i + 1 == |Pieces(base, base + size, r)|)
  {
  }

  lemma {:induction false} KeepExact(start: nat, end: nat, reserved: seq<Range>)
    requires reserved != [] && Sane(reserved) && Up(start) <= Down(end)
    ensures Keep(start, end, reserved).Some?
    ensures Exact(Keep(start, end, reserved).value, start, end, reserved[1..])
    decreases |reserved|, 0
  {
    var regions, low, high := [], Up(start), Down(end);
    if low < high {
      ApplyExact(low, high - low, reserved[1..]);
      regions := Keep(start, end, reserved).value;
    }
    TidyWiden(regions, low, high, start, end);
    forall p: nat
      ensures Covers(regions, p) <==> Wanted(p, start, end, reserved[1..])
    {
      WholePages(p, start, end);
    }
  }

  lemma WholeRegion(base: nat, size: nat)
    requires Aligned(base) && Aligned(size) && size > 0
    ensures Exact([Region(base, size)], base, base + size, [])
  {
    var regions := [Region(base, size)];
    assert Tidy(regions[1..], base + size, base + size);
    assert Tidy(regions, base, base + size);
    assert Region(base, size) in regions;
    forall p: nat
      ensures Covers(regions, p) <==> Wanted(p, base, base + size, [])
    {
    }
  }

  /** Carving is exact: the regions are non-empty, page-aligned, ordered and disjoint, and a page is in
      one of them if and only if it lies in the region and touches no reserved range. */
  lemma {:induction false} ApplyExact(base: nat, size: nat, reserved: seq<Range>)
    requires Aligned(base) && Sane(reserved)
    requires if reserved == [] then Aligned(size) && size > 0 else !Underflows(base, size, reserved[0])
    ensures Apply(base, size, reserved).Some?
    ensures Exact(Apply(base, size, reserved).value, base, base + size, reserved)
    decreases |reserved|, 2
  {
    var end := base + size;
    if reserved == [] {
      WholeRegion(base, size);
    } else {
      var pieces := Pieces(base, end, reserved[0]);
      forall i: nat | i < |pieces|
        ensures Up(pieces[i].0) <= Down(pieces[i].1) && base <= pieces[i].0 && pieces[i].1 <= end
      {
        PiecesFit(base, size, reserved[0], i);
      }
      if |pieces| == 1 {
        OnePiece(base, end, pieces[0], reserved);
      } else if |pieces| == 2 {
        TwoPieces(base, end, pieces[0], pieces[1], reserved);
      }
      forall p: nat
        ensures Covers(Apply(base, size, reserved).value, p) <==> Wanted(p, base, end, reserved)
      {
        PiecesExact(p, base, end, reserved[0]);
        WantedStep(p, base, end, reserved);
      }
    }
  }

  lemma WantedStep(p: nat, low: nat, high: nat, reserved: seq<Range>)
    requires reserved != []
    ensures Wanted(p, low, high, reserved) <==> Wanted(p, low, high, reserved[1..]) && !Touches(p, reserved[0])
  {
  }

  /** Pages of any of the pieces that touch none of the remaining ranges. */
  ghost predicate WantedIn(p: nat, pieces: seq<(nat, nat)>, reserved: seq<Range>)
  {
    exists q :: q in pieces && Wanted(p, q.0, q.1, reserved)
  }

  lemma {:induction false} OnePiece(low: nat, high: nat, q: (nat, nat), reserved: seq<Range>)
    requires reserved != [] && Sane(reserved)
    requires low <= q.0 && q.1 <= high && Up(q.0) <= Down(q.1)
    ensures Keep(q.0, q.1, reserved).Some?
    ensures Tidy(Keep(q.0, q.1, reserved).value, low, high)
    ensures forall p: nat :: Covers(Keep(q.0, q.1, reserved).value, p) <==> WantedIn(p, [q], reserved[1..])
    decreases |reserved|, 1
  {
    KeepExact(q.0, q.1, reserved);
    TidyWiden(Keep(q.0, q.1, reserved).value, q.0, q.1, low, high);
    assert q in [q];
  }

  lemma {:induction false} TwoPieces(low: nat, high: nat, q: (nat, nat), q': (nat, nat), reserved: seq<Range>)
    requires reserved != [] && Sane(reserved)
    requires low <= q.0 && q.1 <= q'.0 && q'.1 <= high && Up(q.0) <= Down(q.1) && Up(q'.0) <= Down(q'.1)
    ensures Keep(q.0, q.1, reserved).Some? && Keep(q'.0, q'.1, reserved).Some?
    ensures var all := Keep(q.0, q.1, reserved).value + Keep(q'.0, q'.1, reserved).value;
            && Tidy(all, low, high)
            && forall p: nat :: Covers(all, p) <==> WantedIn(p, [q, q'], reserved[1..])
    decreases |reserved|, 1
  {
    KeepExact(q.0, q.1, reserved);
    KeepExact(q'.0, q'.1, reserved);
    var left, right := Keep(q.0, q.1, reserved).value, Keep(q'.0, q'.1, reserved).value;
    TidyConcat(left, right, q.0, q.1, q'.0, q'.1);
    TidyWiden(left + right, q.0, q'.1, low, high);
    assert q in [q, q'] && q' in [q, q'];
    forall p: nat
      ensures Covers(left + right, p) <==> Covers(left, p) || Covers(right, p)
    {
      CoversConcat(left, right, p);
    }
  }

  /** Carving fails exactly on `Underflows`, whatever the later ranges are. */
  lemma ApplyFailsIff(base: nat, size: nat, reserved: seq<Range>)
    requires Aligned(base) && Sane(reserved) && reserved != []
    ensures Apply(base, size, reserved).None? <==> Underflows(base, size, reserved[0])
  {
    if !Underflows(base, size, reserved[0]) {
      ApplyExact(base, size, reserved);
    } else {
      var pieces := Pieces(base, base + size, reserved[0]);
      PiecesFit(base, size, reserved[0], |pieces| - 1);
    }
  }

  /** A region of 0x900 bytes whose first 0x100 are reserved. */
  lemma UnderflowExample()
    ensures Apply(0x1000, 0x900, [Range(0x1000, 0x1100)]).None?
  {
  }

  /** The loop body over the memory map: the page at zero is split off. */
  function Entry(base: nat, length: nat, reserved: seq<Range>): Option<seq<Region>>
  {
    if base == 0 then
      var first := Apply(0, PAGE, reserved);
      if length < PAGE then first
      else
        var rest := Apply(PAGE, length - PAGE, reserved);
        if first.Some? && rest.Some? then Some(first.value + rest.value) else None
    else Apply(base, length, reserved)
  }

  /** When handing out an entry fails. */
  predicate EntryUnderflows(base: nat, length: nat, r: Range)
  {
    if base != 0 then Underflows(base, length, r) else length >= PAGE && Underflows(PAGE, length - PAGE, r)
  }

  lemma EntryFailsIff(base: nat, length: nat, reserved: seq<Range>)
    requires Aligned(base) && Sane(reserved) && reserved != []
    ensures Entry(base, length, reserved).None? <==> EntryUnderflows(base, length, reserved[0])
  {
    if base != 0 {
      ApplyFailsIff(base, length, reserved);
    } else {
      ApplyFailsIff(0, PAGE, reserved);
      if length >= PAGE {
        ApplyFailsIff(PAGE, length - PAGE, reserved);
      }
    }
  }

  /** A memory map entry is handed out exactly, in non-empty, aligned, ordered and disjoint regions, unless
      it is a partial page at zero: then all of page zero is handed out if no range touches it. */
  lemma EntryExactIff(base: nat, length: nat, reserved: seq<Range>)
    requires Aligned(base) && Sane(reserved) && reserved != [] && !EntryUnderflows(base, length, reserved[0])
    ensures Entry(base, length, reserved).Some?
    ensures Exact(Entry(base, length, reserved).value, base, base + length, reserved)
            <==> !(base == 0 && length < PAGE && Wanted(0, 0, PAGE, reserved))
  {
    EntryFailsIff(base, length, reserved);
    if base != 0 {
      ApplyExact(base, length, reserved);
    } else {
      ApplyExact(0, PAGE, reserved);
      var first := Apply(0, PAGE, reserved).value;
      if length < PAGE {
        PartialPage(first, length, reserved);
      } else {
        ApplyExact(PAGE, length - PAGE, reserved);
        var rest := Apply(PAGE, length - PAGE, reserved).value;
        TidyConcat(first, rest, 0, PAGE, PAGE, length);
        forall p: nat
          ensures Covers(first + rest, p) <==> Wanted(p, 0, length, reserved)
        {
          CoversConcat(first, rest, p);
          SplitAtPage(p, length);
        }
      }
    }
  }

  lemma PartialPage(first: seq<Region>, length: nat, reserved: seq<Range>)
    requires Exact(first, 0, PAGE, reserved) && length < PAGE
    ensures Exact(first, 0, length, reserved) <==> !Wanted(0, 0, PAGE, reserved)
  {
    assert !PageIn(0, 0, length);
    FirstPage(reserved);
    if first != [] {
      SomethingCovered(first, 0, PAGE);
    }
  }

  lemma SomethingCovered(regions: seq<Region>, low: nat, high: nat)
    requires Tidy(regions, low, high) && regions != []
    ensures Covers(regions, regions[0].base)
  {
    assert regions[0] in regions;
  }

  /** A map entry of 0x900 bytes at zero, with memory reserved elsewhere: all of page zero is handed out. */
  lemma PartialPageExample()
    ensures Entry(0, 0x900, [Range(0x5000, 0x6000)]).Some?
    ensures Entry(0, 0x900, [Range(0x5000, 0x6000)]).value == [Region(0, 0x1000)]
    ensures Covers(Entry(0, 0x900, [Range(0x5000, 0x6000)]).value, 0) && !PageIn(0, 0, 0x900)
  {
    var reserved := [Range(0x5000, 0x6000)];
    ApplyExact(0, PAGE, reserved);
    assert Wanted(0, 0, PAGE, reserved);
  }

  lemma SplitAtPage(p: nat, length: nat)
    requires length >= PAGE
    ensures PageIn(p, 0, length) <==> PageIn(p, 0, PAGE) || PageIn(p, PAGE, length)
  {
  }

  lemma FirstPage(reserved: seq<Range>)
    ensures forall p: nat :: Wanted(p, 0, PAGE, reserved) ==> p == 0
  {
  }
}
