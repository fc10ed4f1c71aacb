/** The bitmap frame allocator for DMA (kernel/src/memory/frame/fixed_bitmap.rs): 128-bit words, shifted
    and masked as one wide number, refine a sequence of page bits. */
module FixedBitmap {
  import opened Wrappers

  type Word = bv128

  const MAX: Word := 0xffff_ffff_ffff_ffff_ffff_ffff_ffff_ffff

  /** Bit i of a word. */
  predicate Bit(w: Word, i: bv8)
    requires i < 128
  {
    (w >> i) & 1 == 1
  }

  function ShlWord(x: Word, below: Word): Word
  {
    (x << 1) | (below >> 127)
  }

  lemma ShiftedBit(a: Word, b: Word, i: bv8)
    requires i < 128
    ensures Bit((a << 1) | (b >> 127), i) <==> if i == 0 then Bit(b, 127) else Bit(a, i - 1)
  {
  }

  lemma BitShl(a: Word, b: Word, i: bv8)
    requires i < 128
    ensures Bit(ShlWord(a, b), i) <==> if i == 0 then Bit(b, 127) else Bit(a, i - 1)
  {
    hide Bit;
    ShiftedBit(a, b, i);
  }

  function LowOnes(n: bv8): Word
    requires n < 128
  {
    ((1 as Word) << n) - 1
  }

  lemma BitOnes(n: bv8, i: bv8)
    requires n < 128 && i < 128
    ensures Bit(LowOnes(n), i) <==> i < n
  {
    hide Bit;
    OnesAbove(n);
    Complement(LowOnes(n), MAX << n);
    BitsAbove(n, i);
    BitNot(MAX << n, i);
  }

  lemma OnesAbove(n: bv8)
    requires n < 128
    ensures MAX << n == MAX - (((1 as Word) << n) - 1)
  {
  }

  lemma Complement(x: Word, y: Word)
    requires y == MAX - x
    ensures x == !y
  {
  }

  lemma BitsAbove(n: bv8, i: bv8)
    requires n < 128 && i < 128
    ensures Bit(0xffff_ffff_ffff_ffff_ffff_ffff_ffff_ffff << n, i) <==> i >= n
  {
  }

  lemma BitNot(a: Word, i: bv8)
    requires i < 128
    ensures Bit(!a, i) <==> !Bit(a, i)
  {
  }

  lemma BitMax(i: bv8)
    requires i < 128
    ensures Bit(MAX, i)
  {
  }

  function One(k: bv8): Word
    requires k < 128
  {
    (1 as Word) << k
  }

  function Twice(m: Word): Word
  {
    m << 1
  }

  /** m is a single bit, and w has no bit below it. */
  predicate ClearBelow(w: Word, m: Word)
  {
    w & (m - 1) == 0 && m & (m - 1) == 0
  }

  predicate Clear(w: Word, m: Word)
  {
    w & m == 0
  }

  lemma ClearBit(w: Word, k: bv8)
    requires k < 128 && !Bit(w, k)
    ensures Clear(w, One(k))
  {
  }

  lemma NextOne(k: bv8)
    requires k < 127
    ensures One(k + 1) == Twice(One(k))
  {
  }

  lemma ClearDouble(w: Word, m: Word)
    requires ClearBelow(w, m) && Clear(w, m)
    ensures ClearBelow(w, Twice(m))
  {
  }

  lemma ClearEnds(w: Word)
    ensures ClearBelow(w, One(0))
    ensures ClearBelow(w, One(127)) && !Bit(w, 127) ==> w == 0
  {
  }

  /** A word is zero when all its bits are. */
  lemma NoBits(w: Word)
    requires forall i: bv8 | i < 128 :: !Bit(w, i)
    ensures w == 0
  {
    hide Bit, One, Twice, Clear, ClearBelow;
    ClearEnds(w);
    var k: bv8 := 0;
    while k < 127
      invariant k <= 127 && ClearBelow(w, One(k))
      decreases 127 - k
    {
      ClearBit(w, k);
      ClearDouble(w, One(k));
      NextOne(k);
      k := k + 1;
    }
  }

  lemma SameBits(a: Word, b: Word)
    requires forall i: bv8 | i < 128 :: Bit(a, i) == Bit(b, i)
    ensures a == b
  {
    forall i: bv8 {:trigger Bit(a ^ b, i)} | i < 128
      ensures !Bit(a ^ b, i)
    {
      BitXor(a, b, i);
    }
    NoBits(a ^ b);
    XorZero(a, b);
  }

  lemma BitXor(a: Word, b: Word, i: bv8)
    requires i < 128
    ensures Bit(a ^ b, i) <==> Bit(a, i) != Bit(b, i)
  {
  }

  lemma XorZero(a: Word, b: Word)
    requires a ^ b == 0
    ensures a == b
  {
  }

  // ---- The bitmap as one number ----

  /** A bit index as a machine byte. */
  function Byte(m: nat): bv8
  {
    if m == 0 then 0 else Byte(m - 1) + 1
  }

  lemma {:induction false} ByteValue(m: nat)
    requires m < 128
    ensures Byte(m) < 128 && Byte(m) as nat == m
  {
    if m > 0 {
      ByteValue(m - 1);
      NextByte(Byte(m - 1));
    }
  }

  lemma NextByte(x: bv8)
    requires x as nat < 127
    ensures (x + 1) as nat == x as nat + 1 && x + 1 < 128
  {
  }

  lemma ByteOrder(x: bv8, y: bv8)
    ensures x as nat < y as nat <==> x < y
  {
  }

  function Small(m: nat): (i: bv8)
    requires m < 128
    ensures i < 128
  {
    ByteValue(m); Byte(m)
  }

  lemma SmallStep(m: nat)
    requires 0 < m < 128
    ensures Small(m) == Small(m - 1) + 1
  {
  }

  lemma SmallUnique(m: nat, i: bv8)
    requires m < 128 && i as nat == m
    ensures Small(m) == i
  {
    ByteValue(m);
    ByteOrder(Small(m), i);
    ByteOrder(i, Small(m));
  }

  lemma SmallOrder(m: nat, n: nat)
    requires m < 128 && n < 128
    ensures Small(m) < Small(n) <==> m < n
  {
    ByteValue(m);
    ByteValue(n);
    ByteOrder(Small(m), Small(n));
  }

  lemma SmallEnds()
    ensures Small(0) == 0 && Small(127) == 127
  {
    SmallUnique(0, 0);
    SmallUnique(127, 127);
  }

  /** Bit k of the whole bitmap. */
  predicate BitAt(words: seq<Word>, k: nat)
    requires k < 128 * |words|
  {
    Bit(words[k / 128], Small(k % 128))
  }

  /** Bitmaps with the same bits are equal. */
  lemma SameBitmaps(a: seq<Word>, b: seq<Word>)
    requires |a| == |b| && forall k: nat :: k < 128 * |a| ==> BitAt(a, k) == BitAt(b, k)
    ensures a == b
  {
    forall j: nat | j < |a|
      ensures a[j] == b[j]
    {
      forall i: bv8 {:trigger Bit(a[j], i)} | i < 128
        ensures Bit(a[j], i) == Bit(b[j], i)
      {
        BitOfWord(a, j, i);
        BitOfWord(b, j, i);
      }
      SameBits(a[j], b[j]);
    }
  }

  lemma BitOfWord(words: seq<Word>, j: nat, i: bv8)
    requires j < |words| && i < 128
    ensures 128 * j + i as nat < 128 * |words| && BitAt(words, 128 * j + i as nat) == Bit(words[j], i)
  {
    var k := 128 * j + i as nat;
    hide Bit, Small;
    DivMod(k, j, i as nat);
    SmallUnique(k % 128, i);
  }

  // ---- Operators ----

  lemma DivMod(n: nat, q: nat, r: nat)
    requires n == 128 * q + r && r < 128
    ensures n / 128 == q && n % 128 == r
  {
  }

  lemma NoBit(i: bv8)
    requires i < 128
    ensures !Bit(0, i)
  {
  }

  /** The word that holds bit k of n ones. */
  lemma OnesWord(w: Word, k: nat, n: nat)
    requires k / 128 < n / 128 ==> w == MAX
    requires k / 128 == n / 128 ==> w == if n % 128 > 0 then LowOnes(Small(n % 128)) else 0
    requires k / 128 > n / 128 ==> w == 0
    ensures Bit(w, Small(k % 128)) <==> k < n
  {
    hide LowOnes, Bit, Small;
    BitMax(Small(k % 128));
    NoBit(Small(k % 128));
    if k / 128 == n / 128 && n % 128 > 0 {
      BitOnes(Small(n % 128), Small(k % 128));
      SmallOrder(k % 128, n % 128);
    }
  }

  /** `Bitmap::ones`: the lowest n bits. */
  method Ones(n: nat, size: nat) returns (a: seq<Word>)
    requires n <= 128 * size
    ensures |a| == size
    ensures forall k: nat :: k < 128 * size ==> (BitAt(a, k) <==> k < n)
  {
    hide LowOnes, Bit, Small;
    a := seq(size, _ => 0);
    var left, i := n, 0;
    while left >= 128
      invariant i <= size == |a| && n == 128 * i + left
      invariant forall j :: 0 <= j < i ==> a[j] == MAX
      invariant forall j :: i <= j < size ==> a[j] == 0
    {
      a := a[i := MAX];
      left, i := left - 128, i + 1;
    }
    DivMod(n, i, left);
    if left > 0 {
      a := a[i := LowOnes(Small(left))];
    }
    forall k: nat | k < 128 * size
      ensures BitAt(a, k) <==> k < n
    {
      OnesWord(a[k / 128], k, n);
    }
  }

  function AndWord(x: Word, y: Word): Word
  {
    x & y
  }

  lemma AndBits(a: seq<Word>, b: seq<Word>, r: seq<Word>)
    requires |a| == |b| == |r| && forall j :: 0 <= j < |a| ==> r[j] == AndWord(a[j], b[j])
    ensures forall k: nat :: k < 128 * |a| ==> (BitAt(r, k) <==> BitAt(a, k) && BitAt(b, k))
  {
  }

  /** `bitand`. */
  method And(a: seq<Word>, b: seq<Word>) returns (r: seq<Word>)
    requires |a| == |b|
    ensures |r| == |a|
    ensures forall k: nat :: k < 128 * |a| ==> (BitAt(r, k) <==> BitAt(a, k) && BitAt(b, k))
  {
    hide AndWord, BitAt;
    r := a;
    for i := 0 to |a|
      invariant |r| == |a|
      invariant forall j :: 0 <= j < i ==> r[j] == AndWord(a[j], b[j])
      invariant forall j :: i <= j < |a| ==> r[j] == a[j]
    {
      r := r[i := AndWord(r[i], b[i])];
    }
    AndBits(a, b, r);
  }

  function NotWord(x: Word): Word
  {
    !x
  }

  lemma NotBits(a: seq<Word>, r: seq<Word>)
    requires |a| == |r| && forall j :: 0 <= j < |a| ==> r[j] == NotWord(a[j])
    ensures forall k: nat :: k < 128 * |a| ==> (BitAt(r, k) <==> !BitAt(a, k))
  {
  }

  /** `not`. */
  method Not(a: seq<Word>) returns (r: seq<Word>)
    ensures |r| == |a|
    ensures forall k: nat :: k < 128 * |a| ==> (BitAt(r, k) <==> !BitAt(a, k))
  {
    hide NotWord, BitAt;
    r := a;
    for i := 0 to |a|
      invariant |r| == |a|
      invariant forall j :: 0 <= j < i ==> r[j] == NotWord(a[j])
      invariant forall j :: i <= j < |a| ==> r[j] == a[j]
    {
      r := r[i := NotWord(r[i])];
    }
    NotBits(a, r);
  }

  function Carry(a: seq<Word>, j: nat): Word
    requires j < |a|
  {
    ShlWord(a[j], if j == 0 then 0 else a[j - 1])
  }

  lemma ShlInside(x: Word, below: Word, m: nat)
    requires 0 < m < 128
    ensures Bit(ShlWord(x, below), Small(m)) <==> Bit(x, Small(m - 1))
  {
    hide ShlWord, Bit, Small;
    SmallEnds();
    SmallOrder(0, m);
    SmallStep(m);
    BitShl(x, below, Small(m));
  }

  lemma ShlAcross(x: Word, below: Word)
    ensures Bit(ShlWord(x, below), Small(0)) <==> Bit(below, Small(127))
  {
    hide ShlWord, Bit, Small;
    SmallEnds();
    BitShl(x, below, 0);
  }

  /** Bit k after a shift by one comes from bit k - 1, across words. */
  lemma CarryBit(a: seq<Word>, k: nat)
    requires k < 128 * |a|
    ensures Bit(Carry(a, k / 128), Small(k % 128)) <==> k > 0 && BitAt(a, k - 1)
  {
    hide ShlWord, Bit, Small;
    var j, m := k / 128, k % 128;
    var below := if j == 0 then 0 else a[j - 1];
    if m > 0 {
      ShlInside(a[j], below, m);
      DivMod(k - 1, j, m - 1);
    } else {
      ShlAcross(a[j], below);
      NoBit(Small(127));
      if k > 0 {
        DivMod(k - 1, j - 1, 127);
      }
    }
  }

  /** `shl` by one, in place from the top word down. */
  method ShlOne(a: seq<Word>) returns (r: seq<Word>)
    ensures |r| == |a|
    ensures forall k: nat :: k < 128 * |a| ==> (BitAt(r, k) <==> k > 0 && BitAt(a, k - 1))
  {
    hide ShlWord, Bit, Small;
    r := a;
    for i := |a| downto 0
      invariant |r| == |a|
      invariant forall j :: 0 <= j < i ==> r[j] == a[j]
      invariant forall j :: i <= j < |a| ==> r[j] == Carry(a, j)
    {
      var b := if i == 0 then 0 else r[i - 1];
      r := r[i := ShlWord(r[i], b)];
    }
    forall k: nat | k < 128 * |a|
      ensures BitAt(r, k) <==> k > 0 && BitAt(a, k - 1)
    {
      CarryBit(a, k);
    }
  }

  // ---- Allocation ----

  /** The pages from s on, n of them but for those past the end of the bitmap, are free. */
  ghost predicate FreeFrom(words: seq<Word>, s: nat, n: nat)
  {
    forall k: nat :: s <= k < s + n && k < 128 * |words| ==> BitAt(words, k)
  }

  /** A range of n free pages inside the bitmap. */
  ghost predicate FreeRange(words: seq<Word>, s: nat, n: nat)
  {
    forall k: nat :: s <= k < s + n ==> IsFree(words, k)
  }

  /** A page of the bitmap that is not taken. */
  ghost predicate IsFree(words: seq<Word>, k: nat)
  {
    k < 128 * |words| && BitAt(words, k)
  }

  /** What a request for n pages does: it gets the lowest start from which no page is taken, and exactly its
      pages become taken; it fails, changing nothing, exactly when there is no such start. */
  ghost predicate Popped(base: nat, before: seq<Word>, n: nat, r: Option<nat>, after: seq<Word>)
  {
    && |after| == |before|
    && (r.None? ==> after == before)
    && (r.None? <==> n > 128 * |before| || forall s: nat | s < 128 * |before| :: !FreeFrom(before, s, n))
    && (r.Some? ==>
          && base <= r.value < base + 128 * |before|
          && FreeFrom(before, r.value - base, n)
          && (forall s: nat | s < r.value - base :: !FreeFrom(before, s, n))
          && forall k: nat :: k < 128 * |before| ==>
               (BitAt(after, k) <==> BitAt(before, k) && !(r.value - base <= k < r.value - base + n)))
  }

  class FixedBitmap {
    const base: nat
    var bitmap: seq<Word>

    constructor (base: nat, bitmap: seq<Word>)
      ensures this.base == base && this.bitmap == bitmap
    {
      this.base, this.bitmap := base, bitmap;
    }

    /** `pop_range`: the lowest start from which no page is taken, and exactly its pages become taken. */
    method PopRange(n: nat) returns (r: Option<nat>)
      requires n > 0
      modifies this`bitmap
      ensures Popped(base, old(bitmap), n, r, bitmap)
    {
      hide BitAt;
      if n > 128 * |bitmap| {
        return None;
      }
      var mask := Ones(n, |bitmap|);
      var shift := 0;
      var both := And(bitmap, mask);
      Masked(bitmap, mask, both, shift, n);
      while both != mask
        invariant shift < 128 * |bitmap| && |mask| == |bitmap| && |both| == |bitmap|
        invariant forall k: nat :: k < 128 * |bitmap| ==> (BitAt(mask, k) <==> shift <= k < shift + n)
        invariant forall s: nat | s < shift :: !FreeFrom(bitmap, s, n)
        invariant both == mask <==> FreeFrom(bitmap, shift, n)
        decreases 128 * |bitmap| - shift
        modifies {}
      {
        shift := shift + 1;
        if shift == 128 * |bitmap| {
          return None;
        }
        mask := ShlOne(mask);
        both := And(bitmap, mask);
        Masked(bitmap, mask, both, shift, n);
      }
      var keep := Not(mask);
      bitmap := And(bitmap, keep);
      r := Some(base + shift);
    }
  }

  ghost predicate Apart(s: nat, n: nat, t: nat, m: nat)
  {
    s + n <= t || t + m <= s
  }

  /** The n pages from s on, as far as they are in the bitmap, are taken. */
  ghost predicate Taken(words: seq<Word>, s: nat, n: nat)
  {
    forall k: nat :: s <= k < s + n && k < 128 * |words| ==> !BitAt(words, k)
  }

  lemma FreeApartFromTaken(words: seq<Word>, s: nat, n: nat, t: nat, m: nat)
    requires s < 128 * |words| && t < 128 * |words| && n > 0 && m > 0
    requires FreeFrom(words, s, n) && Taken(words, t, m)
    ensures Apart(s, n, t, m)
  {
    hide BitAt;
    var k := if s < t then t else s;
    assert k < s + n ==> BitAt(words, k);
  }

  /** The answers to a sequence of requests, and the bitmaps in between. */
  ghost predicate PoppedAll(base: nat, sizes: seq<nat>, results: seq<Option<nat>>, maps: seq<seq<Word>>)
  {
    && |results| == |sizes| && |maps| == |sizes| + 1
    && forall i :: 0 <= i < |sizes| ==> Popped(base, maps[i], sizes[i], results[i], maps[i + 1])
  }

  method PopMany(b: FixedBitmap, sizes: seq<nat>) returns (results: seq<Option<nat>>, ghost maps: seq<seq<Word>>)
    requires forall i :: 0 <= i < |sizes| ==> sizes[i] > 0
    modifies b`bitmap
    ensures PoppedAll(b.base, sizes, results, maps) && maps[0] == old(b.bitmap) && maps[|sizes|] == b.bitmap
  {
    hide Popped;
    results, maps := [], [b.bitmap];
    for i := 0 to |sizes|
      invariant |results| == i && |maps| == i + 1 && maps[0] == old(b.bitmap) && maps[i] == b.bitmap
      invariant forall j :: 0 <= j < i ==> Popped(b.base, maps[j], sizes[j], results[j], maps[j + 1])
    {
      var r := b.PopRange(sizes[i]);
      results, maps := results + [r], maps + [b.bitmap];
    }
  }

  /** Pages are only ever taken. */
  lemma {:induction false} OnlyTaken(base: nat, sizes: seq<nat>, results: seq<Option<nat>>, maps: seq<seq<Word>>, i: nat, j: nat)
    requires PoppedAll(base, sizes, results, maps) && i <= j <= |sizes|
    ensures |maps[i]| == |maps[j]| && forall k: nat :: k < 128 * |maps[i]| && BitAt(maps[j], k) ==> BitAt(maps[i], k)
    decreases j
  {
    hide BitAt, FreeFrom;
    if i < j {
      OnlyTaken(base, sizes, results, maps, i, j - 1);
      assert Popped(base, maps[j - 1], sizes[j - 1], results[j - 1], maps[j]);
    }
  }

  /** Over any sequence of requests, what is handed out was free at the start and no page is handed out
      twice. */
  lemma HandedOutOnce(base: nat, sizes: seq<nat>, results: seq<Option<nat>>, maps: seq<seq<Word>>, i: nat, j: nat)
    requires PoppedAll(base, sizes, results, maps) && i < j < |sizes| && sizes[i] > 0 && sizes[j] > 0
    requires results[i].Some? && results[j].Some?
    ensures base <= results[i].value && FreeFrom(maps[0], results[i].value - base, sizes[i])
    ensures base <= results[j].value && FreeFrom(maps[0], results[j].value - base, sizes[j])
    ensures Apart(results[i].value, sizes[i], results[j].value, sizes[j])
  {
    hide BitAt;
    assert Popped(base, maps[i], sizes[i], results[i], maps[i + 1]);
    assert Popped(base, maps[j], sizes[j], results[j], maps[j + 1]);
    OnlyTaken(base, sizes, results, maps, 0, i);
    OnlyTaken(base, sizes, results, maps, 0, j);
    OnlyTaken(base, sizes, results, maps, i + 1, j);
    FreeApartFromTaken(maps[j], results[j].value - base, sizes[j], results[i].value - base, sizes[i]);
  }

  /** The loop's test compares whole bitmaps. */
  lemma Masked(words: seq<Word>, mask: seq<Word>, both: seq<Word>, s: nat, n: nat)
    requires |words| == |mask| == |both|
    requires forall k: nat :: k < 128 * |words| ==> (BitAt(mask, k) <==> s <= k < s + n)
    requires forall k: nat :: k < 128 * |words| ==> (BitAt(both, k) <==> BitAt(words, k) && BitAt(mask, k))
    ensures both == mask <==> FreeFrom(words, s, n)
  {
    hide BitAt;
    if FreeFrom(words, s, n) {
      SameBitmaps(both, mask);
    }
  }

  /** When a range of n free pages exists, the lowest start that `PopRange` accepts is the lowest such
      range, so nothing past the end is handed out. */
  lemma LowestRange(words: seq<Word>, s: nat, n: nat)
    requires n > 0 && s < 128 * |words| && FreeFrom(words, s, n)
    requires forall t: nat | t < s :: !FreeFrom(words, t, n)
    ensures FreeRange(words, s, n) <==> exists t: nat :: FreeRange(words, t, n)
    ensures FreeRange(words, s, n) ==> forall t: nat | t < s :: !FreeRange(words, t, n)
  {
    hide BitAt, FreeRange, FreeFrom;
    RangeIsInside(words, s, n);
    forall t: nat | FreeRange(words, t, n)
      ensures s <= t && FreeRange(words, s, n)
    {
      RangeIsInside(words, t, n);
    }
  }

  lemma RangeIsInside(words: seq<Word>, s: nat, n: nat)
    requires n > 0
    ensures FreeRange(words, s, n) <==> s + n <= 128 * |words| && FreeFrom(words, s, n)
  {
    hide BitAt;
    if FreeRange(words, s, n) {
      assert IsFree(words, s + n - 1);
      forall k: nat | s <= k < s + n && k < 128 * |words|
        ensures BitAt(words, k)
      {
        assert IsFree(words, k);
      }
    }
  }

  /** When there is none, `PopRange` fails if and only if the last page is taken.  Otherwise it hands out
      a range that runs past the end of the bitmap. */
  lemma NoRangeFailsIff(words: seq<Word>, n: nat)
    requires 0 < n <= 128 * |words| && forall t: nat :: !FreeRange(words, t, n)
    ensures (forall s: nat | s < 128 * |words| :: !FreeFrom(words, s, n)) <==> !BitAt(words, 128 * |words| - 1)
  {
    hide BitAt;
    var last := 128 * |words| - 1;
    if !BitAt(words, last) {
      forall s: nat | s < 128 * |words|
        ensures !FreeFrom(words, s, n)
      {
        RangeIsInside(words, s, n);
      }
    } else {
      assert FreeFrom(words, last, n);
    }
  }

  /** Only the last page is free and two pages are asked for. */
  method SpillExample() returns (r: Option<nat>)
    ensures r == Some(4095)
  {
    hide BitAt;
    var words: seq<Word> := seq(31, _ => 0) + [0x8000_0000_0000_0000_0000_0000_0000_0000];
    OnlyLast(words);
    var b := new FixedBitmap(0, words);
    r := b.PopRange(2);
  }

  lemma OnlyLast(words: seq<Word>)
    requires |words| == 32
    requires forall j :: 0 <= j < 31 ==> words[j] == 0
    requires words[31] == 0x8000_0000_0000_0000_0000_0000_0000_0000
    ensures FreeFrom(words, 4095, 2) && forall s: nat | s < 4095 :: !FreeFrom(words, s, 2)
  {
    hide BitAt;
    forall k: nat | k < 4096
      ensures BitAt(words, k) <==> k == 4095
    {
      TopBit(words, k);
    }
    assert forall s: nat | s < 4095 :: FreeFrom(words, s, 2) ==> BitAt(words, s);
  }

  lemma TopBit(words: seq<Word>, k: nat)
    requires |words| == 32 && k < 4096
    requires forall j :: 0 <= j < 31 ==> words[j] == 0
    requires words[31] == 0x8000_0000_0000_0000_0000_0000_0000_0000
    ensures BitAt(words, k) <==> k == 4095
  {
    hide Bit, Small;
    NoBit(Small(k % 128));
    TopWord(Small(k % 128));
    SmallEnds();
    if k % 128 < 127 {
      SmallOrder(k % 128, 127);
    }
  }

  lemma TopWord(i: bv8)
    requires i < 128
    ensures Bit(0x8000_0000_0000_0000_0000_0000_0000_0000, i) <==> i == 127
  {
  }
}
