/** Split virtqueues (lib/rust/virtio/src/queue.rs), section 2.6 of VIRTIO 1.1.

    The descriptor table is shared by one free list and many in-flight chains, all threaded through
    the same `next` fields.  A counter, not a terminator, ends the free list.  The device is a party
    that takes published heads in order and returns outstanding heads in any order. */
module Virtqueue {
  import opened Wrappers
  import opened Modular
  import R = SpscRing

  const WRAP16: nat := 0x1_0000

  /** `flags` holds the bits NEXT and WRITE. */
  datatype Descriptor = Descriptor(address: nat, length: nat, hasNext: bool, write: bool, next: nat)

  datatype Segment = Segment(address: nat, length: nat, write: bool)

  /** An in-flight request: the descriptors it occupies and what was submitted. */
  datatype Chain = Chain(ids: seq<nat>, segments: seq<Segment>)

  /** Following `next` from `head`, |list| times, visits `list`. */
  ghost predicate Linked(table: seq<Descriptor>, head: nat, list: seq<nat>)
    decreases |list|
  {
    list == [] || (list[0] == head && head < |table| && Linked(table, table[head].next, list[1..]))
  }

  /** What a reader of the table sees from `head` on, following NEXT flags: exactly `segments`. */
  ghost predicate Sees(table: seq<Descriptor>, head: nat, ids: seq<nat>, segments: seq<Segment>)
    decreases |ids|
  {
    && |ids| == |segments| > 0
    && ids[0] == head < |table|
    && Segment(table[head].address, table[head].length, table[head].write) == segments[0]
    && (table[head].hasNext <==> |ids| > 1)
    && (|ids| > 1 ==> Sees(table, table[head].next, ids[1..], segments[1..]))
  }

  ghost predicate Distinct(s: seq<nat>)
  {
    forall i, j :: 0 <= i < j < |s| ==> s[i] != s[j]
  }

  /** `owner[d]` says which chain descriptor d belongs to; None means free.  Since `owner` is a
      function, the free list and the chains are disjoint and cover the table. */
  ghost predicate Partition(size: nat, free: seq<nat>, chains: map<nat, Chain>, owner: seq<Option<nat>>)
  {
    && |owner| == size
    && Distinct(free)
    && (forall i :: 0 <= i < |free| ==> free[i] < size && owner[free[i]] == None)
    && (forall d :: 0 <= d < size && owner[d].None? ==> d in free)
    && (forall h :: h in chains ==> OwnsIds(chains[h].ids, h, owner))
    && (forall d :: 0 <= d < size && owner[d].Some? ==> owner[d].value in chains && d in chains[owner[d].value].ids)
  }

  ghost predicate OwnsIds(ids: seq<nat>, h: nat, owner: seq<Option<nat>>)
  {
    && ids != [] && ids[0] == h
    && Distinct(ids)
    && forall i :: 0 <= i < |ids| ==> ids[i] < |owner| && owner[ids[i]] == Some(h)
  }

  /** The links and contents of the table agree with the partition. */
  ghost predicate TableInv(table: seq<Descriptor>, freeHead: nat, free: seq<nat>, chains: map<nat, Chain>)
  {
    && Linked(table, freeHead, free)
    && (forall h :: h in chains ==> Sees(table, h, chains[h].ids, chains[h].segments))
  }

  lemma {:induction false} LinkedFrame(a: seq<Descriptor>, b: seq<Descriptor>, head: nat, list: seq<nat>)
    requires Linked(a, head, list) && |b| == |a|
    requires forall i :: 0 <= i < |list| && list[i] < |a| ==> b[list[i]].next == a[list[i]].next
    ensures Linked(b, head, list)
    decreases |list|
  {
    if list != [] {
      assert forall i :: 0 <= i < |list[1..]| ==> list[1..][i] == list[i + 1];
      LinkedFrame(a, b, a[head].next, list[1..]);
    }
  }

  lemma {:induction false} SeesFrame(a: seq<Descriptor>, b: seq<Descriptor>, head: nat, ids: seq<nat>, segments: seq<Segment>)
    requires Sees(a, head, ids, segments) && |b| == |a|
    requires forall i :: 0 <= i < |ids| && ids[i] < |a| ==> b[ids[i]] == a[ids[i]]
    ensures Sees(b, head, ids, segments)
    decreases |ids|
  {
    assert b[ids[0]] == a[ids[0]];
    if |ids| > 1 {
      assert forall i :: 0 <= i < |ids[1..]| ==> ids[1..][i] == ids[i + 1];
      SeesFrame(a, b, a[head].next, ids[1..], segments[1..]);
    }
  }

  /** Tables that agree on a chain's descriptors show the same chain; so every chain but those that
      own a changed descriptor is left alone. */
  lemma OtherChainsSeen(a: seq<Descriptor>, b: seq<Descriptor>, chains: map<nat, Chain>, owner: seq<Option<nat>>, who: Option<nat>)
    requires |owner| == |a| == |b|
    requires forall h :: h in chains ==> Sees(a, h, chains[h].ids, chains[h].segments) && OwnsIds(chains[h].ids, h, owner)
    requires forall d :: 0 <= d < |a| && owner[d] != who ==> b[d] == a[d]
    ensures forall h :: h in chains && Some(h) != who ==> Sees(b, h, chains[h].ids, chains[h].segments)
  {
  }

  /* ---------------------------------------------------------------------------------------------
     Sending
     ------------------------------------------------------------------------------------------ */

  function Written(d: Descriptor, segment: Segment, hasNext: bool): Descriptor
  {
    Descriptor(segment.address, segment.length, hasNext, segment.write, d.next)
  }

  /** The table after `send` wrote the segments into descriptors `ids`: the links are untouched. */
  ghost predicate Filled(a: seq<Descriptor>, b: seq<Descriptor>, ids: seq<nat>, segments: seq<Segment>)
  {
    && |a| == |b| && |ids| == |segments|
    && (forall i :: 0 <= i < |ids| ==> ids[i] < |b| && b[ids[i]] == Written(a[ids[i]], segments[i], i + 1 < |ids|))
    && (forall d :: 0 <= d < |a| && d !in ids ==> b[d] == a[d])
  }

  lemma {:induction false} FilledChainIsSeen(a: seq<Descriptor>, b: seq<Descriptor>, head: nat, list: seq<nat>, n: nat,
                                             segments: seq<Segment>, k: nat)
    requires k < n <= |list| && |segments| == n && |a| == |b|
    requires Linked(a, head, list[k..n])
    requires forall i :: k <= i < n ==> list[i] < |b| && b[list[i]] == Written(a[list[i]], segments[i], i + 1 < n)
    ensures Sees(b, head, list[k..n], segments[k..])
    decreases n - k
  {
    assert list[k..n][0] == list[k] && segments[k..][0] == segments[k];
    if k + 1 < n {
      assert list[k..n][1..] == list[k + 1..n] && segments[k..][1..] == segments[k + 1..];
      FilledChainIsSeen(a, b, a[head].next, list, n, segments, k + 1);
    }
  }

  lemma {:induction false} LinkedSplit(table: seq<Descriptor>, head: nat, list: seq<nat>, n: nat)
    requires Linked(table, head, list) && n <= |list|
    ensures Linked(table, head, list[..n])
    ensures n < |list| ==> Linked(table, list[n], list[n..])
    decreases n
  {
    if n > 0 {
      assert list[1..][..n - 1] == list[..n][1..];
      LinkedSplit(table, table[head].next, list[1..], n - 1);
      if n < |list| {
        assert list[1..][n - 1..] == list[n..];
      }
    }
  }

  ghost function OwnerAfter(owner: seq<Option<nat>>, ids: seq<nat>, who: Option<nat>): (r: seq<Option<nat>>)
    ensures |r| == |owner| && forall d :: 0 <= d < |owner| ==> r[d] == if d in ids then who else owner[d]
  {
    seq(|owner|, d requires 0 <= d < |owner| => if d in ids then who else owner[d])
  }

  lemma SendPartition(size: nat, free: seq<nat>, chains: map<nat, Chain>, owner: seq<Option<nat>>, segments: seq<Segment>)
    requires Partition(size, free, chains, owner) && 0 < |segments| <= |free|
    ensures var n := |segments|;
            && free[0] !in chains
            && Partition(size, free[n..], chains[free[0] := Chain(free[..n], segments)], OwnerAfter(owner, free[..n], Some(free[0])))
  {
  }

  /** After `send`, the free list, the new chain and all other chains are intact. */
  lemma SendTable(a: seq<Descriptor>, b: seq<Descriptor>, freeHead: nat, nextHead: nat, free: seq<nat>,
                  chains: map<nat, Chain>, owner: seq<Option<nat>>, segments: seq<Segment>)
    requires Partition(|a|, free, chains, owner) && TableInv(a, freeHead, free, chains)
    requires 0 < |segments| <= |free| && Filled(a, b, free[..|segments|], segments)
    requires |segments| < |free| ==> nextHead == free[|segments|]
    ensures TableInv(b, nextHead, free[|segments|..], chains[free[0] := Chain(free[..|segments|], segments)])
  {
    hide Sees, Linked;
    SendFreeList(a, b, freeHead, nextHead, free, segments);
    OtherChainsSeen(a, b, chains, owner, None);
  }

  lemma SendFreeList(a: seq<Descriptor>, b: seq<Descriptor>, freeHead: nat, nextHead: nat, free: seq<nat>, segments: seq<Segment>)
    requires Distinct(free) && Linked(a, freeHead, free)
    requires 0 < |segments| <= |free| && Filled(a, b, free[..|segments|], segments)
    requires |segments| < |free| ==> nextHead == free[|segments|]
    ensures Linked(b, nextHead, free[|segments|..])
    ensures freeHead == free[0] && Sees(b, freeHead, free[..|segments|], segments)
  {
    var n := |segments|;
    var ids := free[..n];
    LinkedSplit(a, freeHead, free, n);
    assert forall i :: 0 <= i < n ==> ids[i] == free[i];
    assert forall i :: n <= i < |free| ==> free[i] !in ids;
    if n < |free| {
      LinkedFrame(a, b, free[n], free[n..]);
    }
    assert ids == ids[0..n] && segments == segments[0..];
    FilledChainIsSeen(a, b, freeHead, ids, n, segments, 0);
  }

  /* ---------------------------------------------------------------------------------------------
     Collecting
     ------------------------------------------------------------------------------------------ */

  /** The free list after the descriptors `ids` were pushed onto it one by one. */
  ghost function Returned(ids: seq<nat>, free: seq<nat>): seq<nat>
    decreases |ids|
  {
    if ids == [] then free else Returned(ids[1..], [ids[0]] + free)
  }

  lemma CollectPartition(size: nat, free: seq<nat>, chains: map<nat, Chain>, owner: seq<Option<nat>>, h: nat)
    requires Partition(size, free, chains, owner) && h in chains
    ensures Partition(size, Returned(chains[h].ids, free), chains - {h}, OwnerAfter(owner, chains[h].ids, None))
  {
    hide Returned;
    ReturnedIds(chains[h].ids, free);
    var more := Returned(chains[h].ids, free);
    assert forall i :: 0 <= i < |more| ==> more[i] in more;
  }

  lemma {:induction false} ReturnedIds(ids: seq<nat>, free: seq<nat>)
    requires Distinct(ids) && Distinct(free) && (forall i :: 0 <= i < |ids| ==> ids[i] !in free)
    ensures Distinct(Returned(ids, free)) && |Returned(ids, free)| == |ids| + |free|
    ensures forall d :: d in Returned(ids, free) <==> d in ids || d in free
    decreases |ids|
  {
    if ids != [] {
      assert ids == [ids[0]] + ids[1..];
      assert forall i :: 0 <= i < |ids[1..]| ==> ids[1..][i] == ids[i + 1];
      ReturnedIds(ids[1..], [ids[0]] + free);
    }
  }

  /** Freeing descriptor d: `push_free_descr` on the table. */
  lemma PushLinked(table: seq<Descriptor>, freeHead: nat, free: seq<nat>, d: nat)
    requires Linked(table, freeHead, free) && d < |table| && d !in free
    ensures Linked(table[d := table[d].(next := freeHead)], d, [d] + free)
  {
    var b := table[d := table[d].(next := freeHead)];
    LinkedFrame(table, b, freeHead, free);
    assert ([d] + free)[1..] == free;
  }

  /** Link by link: what `Linked` says at each position. */
  lemma {:induction false} LinkedPointwise(table: seq<Descriptor>, head: nat, list: seq<nat>)
    requires Linked(table, head, list)
    ensures list != [] ==> list[0] == head
    ensures forall i :: 0 <= i < |list| ==> list[i] < |table|
    ensures forall i, j :: 0 <= i && j == i + 1 < |list| ==> table[list[i]].next == list[j]
    decreases |list|
  {
    if list != [] {
      var rest := list[1..];
      LinkedPointwise(table, table[head].next, rest);
      forall i | 0 <= i < |list|
        ensures list[i] < |table|
      {
        if i > 0 {
          assert rest[i - 1] == list[i];
        }
      }
      forall i, j | 0 <= i && j == i + 1 < |list|
        ensures table[list[i]].next == list[j]
      {
        if i > 0 {
          assert rest[i - 1] == list[i] && rest[i] == list[j];
        } else {
          assert rest[0] == list[1];
        }
      }
    }
  }

  /* ---------------------------------------------------------------------------------------------
     Rings
     ------------------------------------------------------------------------------------------ */

  ghost predicate ValidSize(size: nat)
  {
    0 < size <= 0x8000 && WRAP16 % size == 0
  }

  /** A 16-bit counter. */
  function Index16(n: nat): (index: nat)
    ensures index < WRAP16
  {
    n % WRAP16
  }

  lemma IndexHas16Bits(n: nat)
    ensures Index16(n) < 0x1_0000 && Index16(n + 0x1_0000) == Index16(n)
    ensures n < 0x1_0000 ==> Index16(n) == n
  {
  }

  /** A ring of which `queue` entries after the first `done` are in use, and its 16-bit index. */
  ghost predicate RingInv(ring: seq<nat>, index: nat, size: nat, done: nat, queue: seq<nat>)
    requires size > 0
  {
    R.Stored(ring, size, done, queue) && index == Index16(done + |queue|)
  }

  lemma RingSlot(n: nat, size: nat)
    requires ValidSize(size)
    ensures R.Slot(Index16(n), size) == R.Slot(n, size)
  {
    RemainderOfWrapped(n, WRAP16, size);
  }

  lemma NextIndex(n: nat)
    ensures Index16(Index16(n) + 1) == Index16(n + 1)
  {
  }

  lemma RingPush(ring: seq<nat>, index: nat, size: nat, done: nat, queue: seq<nat>, head: nat)
    requires ValidSize(size) && RingInv(ring, index, size, done, queue) && |queue| < size
    ensures |ring| == size
    ensures RingInv(ring[R.Slot(index, size) := head], Index16(index + 1), size, done, queue + [head])
  {
    RingSlot(done + |queue|, size);
    NextIndex(done + |queue|);
    hide Index16;
    R.StoreEntry(ring, size, done, queue, head);
  }

  lemma RingPop(ring: seq<nat>, index: nat, size: nat, done: nat, queue: seq<nat>)
    requires ValidSize(size) && RingInv(ring, index, size, done, queue) && queue != []
    ensures |ring| == size && ring[R.Slot(Index16(done), size)] == queue[0]
    ensures RingInv(ring, index, size, done + 1, queue[1..])
    ensures Index16(Index16(done) + 1) == Index16(done + 1)
  {
    RingSlot(done, size);
    NextIndex(done);
    hide Index16;
    R.DropEntry(ring, size, done, queue);
  }

  lemma RingEmptyIffEqual(ring: seq<nat>, index: nat, size: nat, done: nat, queue: seq<nat>)
    requires ValidSize(size) && RingInv(ring, index, size, done, queue)
    ensures Index16(done) == index <==> queue == []
    ensures (index - Index16(done)) % WRAP16 == |queue|
  {
  }

  lemma RingIndex(ring: seq<nat>, index: nat, size: nat, done: nat, queue: seq<nat>)
    requires ValidSize(size) && RingInv(ring, index, size, done, queue)
    ensures index == Index16(done + |queue|)
  {
  }

  lemma SameIndexIff(a: nat, b: nat)
    requires a <= b < a + WRAP16
    ensures Index16(a) == Index16(b) <==> a == b
  {
    if a < b {
      CloseNumbersDiffer(a, b, WRAP16);
    }
  }

  /** Every outstanding head is in exactly one place. */
  ghost predicate HeadsInv(avail: seq<nat>, held: set<nat>, used: seq<nat>, chains: map<nat, Chain>)
  {
    multiset(avail) + multiset(held) + multiset(used) == multiset(chains.Keys)
  }

  lemma HeadsAfterSend(avail: seq<nat>, held: set<nat>, used: seq<nat>, chains: map<nat, Chain>, h: nat, chain: Chain)
    requires HeadsInv(avail, held, used, chains) && h !in chains
    ensures HeadsInv(avail + [h], held, used, chains[h := chain])
  {
    assert chains[h := chain].Keys == chains.Keys + {h};
    assert multiset(chains.Keys + {h}) == multiset(chains.Keys) + multiset{h};
    assert multiset(avail + [h]) == multiset(avail) + multiset{h};
  }

  lemma HeadsAfterTake(avail: seq<nat>, held: set<nat>, used: seq<nat>, chains: map<nat, Chain>)
    requires HeadsInv(avail, held, used, chains) && avail != []
    ensures avail[0] in chains && avail[0] !in held
    ensures HeadsInv(avail[1..], held + {avail[0]}, used, chains)
  {
    var h := avail[0];
    assert avail == [h] + avail[1..];
    assert multiset(avail) == multiset{h} + multiset(avail[1..]);
    assert h in multiset(chains.Keys);
    assert multiset(chains.Keys)[h] == 1;
    assert multiset(held + {h}) == multiset(held) + multiset{h};
  }

  lemma HeadsAfterComplete(avail: seq<nat>, held: set<nat>, used: seq<nat>, chains: map<nat, Chain>, h: nat)
    requires HeadsInv(avail, held, used, chains) && h in held
    ensures HeadsInv(avail, held - {h}, used + [h], chains)
  {
  }

  lemma HeadsAfterCollect(avail: seq<nat>, held: set<nat>, used: seq<nat>, chains: map<nat, Chain>)
    requires HeadsInv(avail, held, used, chains) && used != []
    ensures used[0] in chains
    ensures HeadsInv(avail, held, used[1..], chains - {used[0]})
  {
    var h := used[0];
    assert used == [h] + used[1..];
    assert multiset(used) == multiset{h} + multiset(used[1..]);
    assert h in multiset(chains.Keys);
    assert (chains - {h}).Keys == chains.Keys - {h};
    assert multiset(chains.Keys - {h}) == multiset(chains.Keys) - multiset{h};
  }

  lemma HeadsCount(avail: seq<nat>, held: set<nat>, used: seq<nat>, chains: map<nat, Chain>)
    requires HeadsInv(avail, held, used, chains)
    ensures |avail| + |held| + |used| == |chains.Keys|
  {
    assert |multiset(avail) + multiset(held) + multiset(used)| == |avail| + |held| + |used|;
  }

  ghost function Elements(s: seq<nat>): (r: set<nat>)
    ensures forall x :: x in r <==> x in s
  {
    if s == [] then {} else Elements(s[1..]) + {s[0]}
  }

  lemma MoreElements(s: seq<nat>, n: nat)
    requires n < |s|
    ensures Elements(s[..n + 1]) == Elements(s[..n]) + {s[n]}
  {
  }

  lemma {:induction false} ElementsCard(s: seq<nat>)
    requires Distinct(s)
    ensures |Elements(s)| == |s|
  {
    if s != [] {
      ElementsCard(s[1..]);
      assert s[0] !in s[1..];
    }
  }

  ghost function Below(n: nat): (r: set<nat>)
    ensures forall x: nat :: x in r <==> x < n
    ensures |r| == n
  {
    if n == 0 then {} else Below(n - 1) + {n - 1}
  }

  /** Each chain holds at least its head, so chains and free descriptors together fit the table. */
  lemma ChainsFit(size: nat, free: seq<nat>, chains: map<nat, Chain>, owner: seq<Option<nat>>)
    requires Partition(size, free, chains, owner)
    ensures |chains.Keys| + |free| <= size
  {
    hide Elements, Below;
    var freeSet := Elements(free);
    ElementsCard(free);
    forall h | h in chains.Keys
      ensures h in Below(size) && h !in freeSet
    {
      assert OwnsIds(chains[h].ids, h, owner);
    }
    assert |chains.Keys + freeSet| == |chains.Keys| + |freeSet|;
    SubsetCard(chains.Keys + freeSet, Below(size));
  }

  lemma SubsetCard(a: set<nat>, b: set<nat>)
    requires a <= b
    ensures |a| <= |b|
  {
    assert b == a + (b - a);
  }

  /** The table after segments 0..i were written into descriptors list[0..i]. */
  ghost function Fill(table: seq<Descriptor>, list: seq<nat>, segments: seq<Segment>, i: nat): (r: seq<Descriptor>)
    requires i <= |segments| == |list| && forall k :: 0 <= k < |list| ==> list[k] < |table|
    ensures |r| == |table|
  {
    if i == 0 then table else
      var before := Fill(table, list, segments, i - 1);
      before[list[i - 1] := Written(before[list[i - 1]], segments[i - 1], i < |segments|)]
  }

  lemma {:induction false} FillElsewhere(table: seq<Descriptor>, list: seq<nat>, segments: seq<Segment>, i: nat, d: nat)
    requires i <= |segments| == |list| && forall k :: 0 <= k < |list| ==> list[k] < |table|
    requires d < |table|
    ensures Fill(table, list, segments, i)[d].next == table[d].next
    ensures d !in list[..i] ==> Fill(table, list, segments, i)[d] == table[d]
  {
    if i > 0 {
      FillElsewhere(table, list, segments, i - 1, d);
      assert list[..i] == list[..i - 1] + [list[i - 1]];
    }
  }

  lemma {:induction false} FillAt(table: seq<Descriptor>, list: seq<nat>, segments: seq<Segment>, i: nat, k: nat)
    requires k < i <= |segments| == |list| && forall j :: 0 <= j < |list| ==> list[j] < |table|
    requires Distinct(list)
    ensures Fill(table, list, segments, i)[list[k]] == Written(table[list[k]], segments[k], k + 1 < |segments|)
    decreases i
  {
    if k == i - 1 {
      FillElsewhere(table, list, segments, k, list[k]);
      assert list[k] !in list[..k];
    } else {
      FillAt(table, list, segments, i - 1, k);
    }
  }

  lemma FillDone(table: seq<Descriptor>, list: seq<nat>, segments: seq<Segment>)
    requires |segments| == |list| && Distinct(list) && forall k :: 0 <= k < |list| ==> list[k] < |table|
    ensures Filled(table, Fill(table, list, segments, |segments|), list, segments)
  {
    hide Fill, Written, Distinct;
    forall k | 0 <= k < |list|
      ensures Fill(table, list, segments, |segments|)[list[k]] == Written(table[list[k]], segments[k], k + 1 < |segments|)
    {
      FillAt(table, list, segments, |segments|, k);
    }
    forall d: nat | d < |table| && d !in list
      ensures Fill(table, list, segments, |segments|)[d] == table[d]
    {
      FilledElsewhere(table, list, segments, d);
    }
  }

  lemma FilledElsewhere(table: seq<Descriptor>, list: seq<nat>, segments: seq<Segment>, d: nat)
    requires |segments| == |list| && forall k :: 0 <= k < |list| ==> list[k] < |table|
    requires d < |table| && d !in list
    ensures Fill(table, list, segments, |segments|)[d] == table[d]
  {
    hide Fill;
    assert list[..|list|] == list;
    FillElsewhere(table, list, segments, |segments|, d);
  }

  lemma FillStep(table: seq<Descriptor>, head: nat, list: seq<nat>, segments: seq<Segment>, i: nat)
    requires 0 < i < |segments| == |list| && Linked(table, head, list) && Distinct(list)
    requires forall k :: 0 <= k < |list| ==> list[k] < |table|
    ensures list[i - 1] != list[i] && Fill(table, list, segments, i)[list[i - 1]].next == list[i]
  {
    LinkedPointwise(table, head, list);
    FillElsewhere(table, list, segments, i, list[i - 1]);
  }

  /** Halfway through releasing a chain: descriptors ids[..k] are back in the free list and the rest of
      the chain, from d on, is still as it was sent.  Descriptors of other owners are untouched. */
  ghost predicate Releasing(a: seq<Descriptor>, b: seq<Descriptor>, ids: seq<nat>, segments: seq<Segment>, k: nat,
                            d: nat, list: seq<nat>, free: seq<nat>)
    requires k <= |ids| == |segments|
  {
    && |a| == |b|
    && (k < |ids| ==> Sees(b, d, ids[k..], segments[k..]))
    && Returned(ids[k..], free) == Returned(ids, list)
    && (forall j :: k <= j < |ids| ==> ids[j] !in free)
    && (forall e :: 0 <= e < |a| && e !in ids ==> b[e] == a[e])
  }

  lemma ReleaseStart(a: seq<Descriptor>, h: nat, ids: seq<nat>, segments: seq<Segment>, free: seq<nat>)
    requires Sees(a, h, ids, segments) && forall j :: 0 <= j < |ids| ==> ids[j] !in free
    ensures Releasing(a, a, ids, segments, 0, h, free, free)
  {
  }

  lemma ReleaseStep(a: seq<Descriptor>, b: seq<Descriptor>, ids: seq<nat>, segments: seq<Segment>, k: nat,
                    d: nat, list: seq<nat>, free: seq<nat>, freeHead: nat)
    requires k < |ids| == |segments| && Distinct(ids) && Releasing(a, b, ids, segments, k, d, list, free)
    ensures d < |b| && d == ids[k] && d !in free && (b[d].hasNext <==> k + 1 < |ids|)
    ensures Releasing(a, b[d := b[d].(next := freeHead)], ids, segments, k + 1, b[d].next, list, [d] + free)
  {
    var rest := ids[k..];
    assert rest[0] == ids[k] && rest[1..] == ids[k + 1..] && segments[k..][1..] == segments[k + 1..];
    if k + 1 < |ids| {
      SeesFrame(b, b[d := b[d].(next := freeHead)], b[d].next, ids[k + 1..], segments[k + 1..]);
    }
  }

  lemma ReleaseDone(a: seq<Descriptor>, b: seq<Descriptor>, ids: seq<nat>, segments: seq<Segment>, d: nat, list: seq<nat>, free: seq<nat>)
    requires |ids| == |segments| && Releasing(a, b, ids, segments, |ids|, d, list, free)
    ensures free == Returned(ids, list)
    ensures |a| == |b| && forall e :: 0 <= e < |a| && e !in ids ==> b[e] == a[e]
  {
  }

  /** After a chain was released, the other chains are intact. */
  lemma CollectTable(a: seq<Descriptor>, b: seq<Descriptor>, size: nat, list: seq<nat>, chains: map<nat, Chain>,
                     owner: seq<Option<nat>>, h: nat, startHead: nat, freeHead: nat, free: seq<nat>)
    requires Partition(size, list, chains, owner) && TableInv(a, startHead, list, chains) && h in chains
    requires |a| == |b| == size && forall e :: 0 <= e < |a| && e !in chains[h].ids ==> b[e] == a[e]
    requires Linked(b, freeHead, free)
    ensures TableInv(b, freeHead, free, chains - {h})
  {
    OtherChainsSeen(a, b, chains, owner, Some(h));
  }

  lemma ChainFacts(size: nat, table: seq<Descriptor>, freeHead: nat, free: seq<nat>, chains: map<nat, Chain>,
                   owner: seq<Option<nat>>, h: nat)
    requires Partition(size, free, chains, owner) && TableInv(table, freeHead, free, chains) && h in chains
    ensures Sees(table, h, chains[h].ids, chains[h].segments) && Distinct(chains[h].ids)
    ensures |chains[h].ids| == |chains[h].segments| > 0 && h < |table|
    ensures Segment(table[h].address, table[h].length, table[h].write) == chains[h].segments[0]
    ensures forall j :: 0 <= j < |chains[h].ids| ==> chains[h].ids[j] !in free
    ensures Linked(table, freeHead, free) && Distinct(free)
  {
  }

  lemma LinkedHead(table: seq<Descriptor>, head: nat, list: seq<nat>)
    requires Linked(table, head, list) && list != []
    ensures list[0] == head < |table|
  {
  }

  datatype SendResult = Sent(token: nat) | NoBuffers | Panicked

  /** What `collect_used` passes to its callback. */
  datatype Completion = Completion(token: nat, base: nat, size: nat)

  // ---- The device ----

  datatype DeviceAction = Take | Complete(head: nat)

  datatype Device = Device(avail: seq<nat>, held: set<nat>, used: seq<nat>)

  /** The device takes the next published head, or returns a head that it holds. */
  ghost function DeviceStep(d: Device, a: DeviceAction): Device
  {
    match a
    case Take => if d.avail == [] then d else d.(avail := d.avail[1..], held := d.held + {d.avail[0]})
    case Complete(head) => if head in d.held then d.(held := d.held - {head}, used := d.used + [head]) else d
  }

  ghost function DeviceSteps(d: Device, actions: seq<DeviceAction>): Device
  {
    if actions == [] then d else DeviceStep(DeviceSteps(d, actions[..|actions| - 1]), actions[|actions| - 1])
  }

  /** What it does in n rounds. */
  ghost function DeviceRounds(d: Device, during: seq<seq<DeviceAction>>, n: nat): Device
  {
    if n == 0 then d
    else
      var before := DeviceRounds(d, during, n - 1);
      if n <= |during| then DeviceSteps(before, during[n - 1]) else before
  }

  lemma StepsAppend(d: Device, actions: seq<DeviceAction>, a: DeviceAction)
    ensures DeviceSteps(d, actions + [a]) == DeviceStep(DeviceSteps(d, actions), a)
  {
    assert (actions + [a])[..|actions|] == actions;
  }

  /** The device only appends to the used ring, so what the driver took off its front does not matter. */
  lemma {:induction false} StepsShift(front: seq<nat>, d: Device, actions: seq<DeviceAction>)
    ensures DeviceSteps(d.(used := front + d.used), actions)
         == var e := DeviceSteps(d, actions); e.(used := front + e.used)
    decreases |actions|
  {
    if actions != [] {
      var a := actions[|actions| - 1];
      StepsShift(front, d, actions[..|actions| - 1]);
      var e := DeviceSteps(d, actions[..|actions| - 1]);
      if a.Complete? {
        assert front + (e.used + [a.head]) == front + e.used + [a.head];
      }
    }
  }

  lemma RoundDone(d: Device, during: seq<seq<DeviceAction>>, k: nat, front: seq<nat>, mid: Device, after: Device)
    requires DeviceRounds(d, during, k) == mid.(used := front + mid.used)
    requires after == if k < |during| then DeviceSteps(mid, during[k]) else mid
    ensures DeviceRounds(d, during, k + 1) == after.(used := front + after.used)
  {
    hide DeviceSteps;
    if k < |during| {
      StepsShift(front, mid, during[k]);
    }
  }

  /** After some rounds of `collect_used`: the first heads of `list` are reported and released, and the device
      went on from where it was. */
  ghost predicate Collecting(list: seq<nat>, before: map<nat, Chain>, device: Device, during: seq<seq<DeviceAction>>,
                             callbacks: seq<Completion>, now: Device, chains: map<nat, Chain>, freed: nat)
  {
    var k := |callbacks|;
    && k <= |list|
    && now.(used := list[..k] + now.used) == DeviceRounds(device, during, k)
    && list <= list[..k] + now.used
    && (forall i :: 0 <= i < k ==> CallbackFor(callbacks[i], list[i], before))
    && chains == before - Elements(list[..k])
    && freed == SegmentsOf(before, list[..k])
  }

  /** How many segments the requests of the heads have. */
  ghost function SegmentsOf(chains: map<nat, Chain>, heads: seq<nat>): nat
  {
    if heads == [] then 0 else
      var h := heads[|heads| - 1];
      SegmentsOf(chains, heads[..|heads| - 1]) + if h in chains then |chains[h].segments| else 0
  }

  lemma MoreSegments(chains: map<nat, Chain>, heads: seq<nat>, k: nat)
    requires k < |heads| && heads[k] in chains
    ensures SegmentsOf(chains, heads[..k + 1]) == SegmentsOf(chains, heads[..k]) + |chains[heads[k]].segments|
  {
    assert heads[..k + 1][..k] == heads[..k];
  }

  lemma CollectingStart(device: Device, before: map<nat, Chain>, during: seq<seq<DeviceAction>>)
    ensures Collecting(device.used, before, device, during, [], device, before, 0)
  {
    assert device.used[..0] + device.used == device.used;
    assert before - Elements([]) == before;
  }

  lemma CollectingHead(list: seq<nat>, before: map<nat, Chain>, device: Device, during: seq<seq<DeviceAction>>,
                       callbacks: seq<Completion>, now: Device, chains: map<nat, Chain>, freed: nat)
    requires Collecting(list, before, device, during, callbacks, now, chains, freed) && |callbacks| < |list|
    ensures now.used != [] && now.used[0] == list[|callbacks|]
  {
    var k := |callbacks|;
    assert (list[..k] + now.used)[k] == list[k];
  }

  lemma CollectingNext(list: seq<nat>, before: map<nat, Chain>, device: Device, during: seq<seq<DeviceAction>>,
                       callbacks: seq<Completion>, now: Device, chains: map<nat, Chain>, freed: nat,
                       done: Completion, mid: Device, after: Device)
    requires Collecting(list, before, device, during, callbacks, now, chains, freed) && |callbacks| < |list|
    requires now.used != [] && mid == now.(used := now.used[1..]) && mid.used <= after.used
    requires CallbackFor(done, list[|callbacks|], chains)
    requires after == if |callbacks| < |during| then DeviceSteps(mid, during[|callbacks|]) else mid
    ensures list[|callbacks|] in chains
    ensures Collecting(list, before, device, during, callbacks + [done], after, chains - {list[|callbacks|]},
                       freed + |chains[list[|callbacks|]].segments|)
  {
    hide DeviceRounds, DeviceSteps, Elements, SegmentsOf;
    var k := |callbacks|;
    CollectingHead(list, before, device, during, callbacks, now, chains, freed);
    MoreSegments(before, list, k);
    hide CallbackFor;
    MoreElements(list, k);
    CallbackWidens(done, list[k], before, Elements(list[..k]));
    assert list[..k + 1] + mid.used == list[..k] + now.used;
    RoundDone(device, during, k, list[..k + 1], mid, after);
    PrefixGrows(list, list[..k + 1], mid.used, after.used);
  }

  lemma PrefixGrows(list: seq<nat>, front: seq<nat>, a: seq<nat>, b: seq<nat>)
    requires list <= front + a && a <= b
    ensures list <= front + b
  {
    assert front + a <= front + b;
  }

  lemma CollectingEnd(list: seq<nat>, before: map<nat, Chain>, device: Device, during: seq<seq<DeviceAction>>,
                      callbacks: seq<Completion>, now: Device, chains: map<nat, Chain>, freed: nat)
    requires Collecting(list, before, device, during, callbacks, now, chains, freed) && |callbacks| == |list|
    ensures forall i :: 0 <= i < |callbacks| ==> CallbackFor(callbacks[i], list[i], before)
    ensures chains == before - Elements(list) && freed == SegmentsOf(before, list)
    ensures now.(used := list + now.used) == DeviceRounds(device, during, |list|)
  {
    assert list[..|list|] == list;
  }

  class Queue {
    const size: nat
    // descriptor table and free list
    var table: seq<Descriptor>
    var freeHead: nat
    var freeCount: nat
    // available ring, written by the driver
    var availIndex: nat
    var availRing: seq<nat>
    // used ring, written by the device
    var usedIndex: nat
    var usedRing: seq<nat>
    var lastUsed: nat
    // the device: its position in the available ring and the heads it works on
    var deviceAvail: nat
    var held: set<nat>

    ghost var free: seq<nat>
    ghost var chains: map<nat, Chain>
    ghost var owner: seq<Option<nat>>
    ghost var avail: seq<nat>
    ghost var used: seq<nat>
    ghost var taken: nat
    ghost var collected: nat

    ghost predicate TableValid()
      reads this
    {
      && |table| == size
      && freeCount == |free|
      && Partition(size, free, chains, owner)
      && TableInv(table, freeHead, free, chains)
    }

    ghost predicate RingsValid()
      reads this
    {
      && ValidSize(size)
      && RingInv(availRing, availIndex, size, taken, avail)
      && deviceAvail == Index16(taken)
      && RingInv(usedRing, usedIndex, size, collected, used)
      && lastUsed == Index16(collected)
      && HeadsInv(avail, held, used, chains)
    }

    ghost predicate Valid()
      reads this
    {
      TableValid() && RingsValid()
    }

    /** `push_free_descr`. */
    method PushFree(d: nat)
      requires d < |table| && d !in free && Linked(table, freeHead, free) && freeCount == |free|
      modifies this`table, this`freeHead, this`freeCount, this`free
      ensures table == old(table)[d := old(table)[d].(next := old(freeHead))]
      ensures free == [d] + old(free) && freeHead == d
      ensures Linked(table, freeHead, free) && freeCount == |free|
    {
      PushLinked(table, freeHead, free, d);
      var head := freeHead;
      freeHead := d;
      table := table[d := table[d].(next := head)];
      freeCount := freeCount + 1;
      free := [d] + free;
    }

    /** `pop_free_descr`. */
    method PopFree() returns (r: Option<nat>)
      requires Linked(table, freeHead, free) && freeCount == |free|
      modifies this`freeHead, this`freeCount, this`free
      ensures r == if old(free) == [] then None else Some(old(free)[0])
      ensures free == if old(free) == [] then [] else old(free)[1..]
      ensures Linked(table, freeHead, free) && freeCount == |free|
    {
      if freeCount == 0 {
        return None;
      }
      freeCount := freeCount - 1;
      var head := freeHead;
      freeHead := table[head].next;
      free := free[1..];
      r := Some(head);
    }

    /** Takes a free descriptor and writes a segment into it. */
    method WriteSegment(segment: Segment, hasNext: bool) returns (d: nat)
      requires free != [] && Linked(table, freeHead, free) && freeCount == |free| && Distinct(free)
      modifies this`table, this`freeHead, this`freeCount, this`free
      ensures d == old(free)[0] && free == old(free)[1..] && freeCount == |free|
      ensures d < |old(table)| && table == old(table)[d := Written(old(table)[d], segment, hasNext)]
      ensures Linked(table, freeHead, free) && Distinct(free)
    {
      LinkedHead(table, freeHead, free);
      var popped := PopFree();
      d := popped.value;
      ghost var was := table;
      table := table[d := Descriptor(segment.address, segment.length, hasNext, segment.write, table[d].next)];
      LinkedFrame(was, table, freeHead, free);
    }

    /** The loop of `send`: moves one free descriptor per segment into a chain.  Descriptors leave the
        free list in link order, so writing `next` to build the chain stores what is already there. */
    method FillChain(segments: seq<Segment>) returns (head: nat)
      requires 0 < |segments| <= |free|
      requires Linked(table, freeHead, free) && freeCount == |free| && Distinct(free)
      modifies this`table, this`freeHead, this`freeCount, this`free
      ensures |table| == |old(table)|
      ensures Filled(old(table), table, old(free)[..|segments|], segments)
      ensures free == old(free)[|segments|..] && freeCount == |free|
      ensures free != [] ==> freeHead == free[0]
      ensures head == old(free)[0]
    {
      ghost var was, start, list, ids := table, freeHead, free, free[..|segments|];
      assert Distinct(ids);
      LinkedSplit(table, freeHead, free, |segments|);
      LinkedPointwise(table, freeHead, ids);
      hide Filled, Linked, Distinct, Written;
      var prev, i := 0, 0;
      head := 0;
      while i < |segments|
        invariant 0 <= i <= |segments|
        invariant free == list[i..] && freeCount == |free|
        invariant Linked(table, freeHead, free) && Distinct(free)
        invariant table == Fill(was, ids, segments, i)
        invariant i > 0 ==> head == ids[0] && prev == ids[i - 1]
      {
        ghost var before := table;
        var d := WriteSegment(segments[i], i + 1 < |segments|);
        assert d == ids[i];
        if i == 0 {
          head := d;
        } else {
          FillStep(was, start, ids, segments, i);
          assert table[prev] == before[prev];
          table := table[prev := table[prev].(next := d)];
        }
        assert table == before[d := Written(before[d], segments[i], i + 1 < |segments|)];
        prev, i := d, i + 1;
      }
      FillDone(was, ids, segments);
      if free != [] {
        LinkedHead(table, freeHead, free);
      }
    }

    /** `Queue::new`: every descriptor is pushed onto the free list. */
    constructor (size: nat)
      requires ValidSize(size)
      ensures Valid() && this.size == size
      ensures |free| == size && chains == map[] && avail == [] && held == {} && used == []
    {
      hide Partition, Linked, Index16, Distinct;
      this.size := size;
      table := seq(size, _ => Descriptor(0, 0, false, false, 0));
      availRing, usedRing := seq(size, _ => 0), seq(size, _ => 0);
      freeHead, freeCount, availIndex, usedIndex, lastUsed, deviceAvail := 0, 0, 0, 0, 0, 0;
      free, chains, avail, held, used, taken, collected := [], map[], [], {}, [], 0, 0;
      owner := seq(size, _ => None);
      new;
      NothingLinked(table, freeHead);
      var i := 0;
      while i < size
        invariant 0 <= i <= size && |table| == size
        invariant Linked(table, freeHead, free) && freeCount == |free| == i
        invariant Distinct(free) && forall d :: d in free <==> 0 <= d < i
        modifies this`table, this`freeHead, this`freeCount, this`free
      {
        ghost var before := free;
        PushFree(i);
        DistinctCons(i, before);
        i := i + 1;
      }
      EmptyPartition(size, free, owner);
    }

    /** The end of `send`: the head goes into the available ring, then the index is advanced. */
    method Publish(head: nat)
      requires ValidSize(size) && RingInv(availRing, availIndex, size, taken, avail) && |avail| < size
      modifies this`availRing, this`availIndex, this`avail
      ensures RingInv(availRing, availIndex, size, taken, avail) && avail == old(avail) + [head]
    {
      RingPush(availRing, availIndex, size, taken, avail, head);
      hide RingInv, Index16;
      availRing := availRing[R.Slot(availIndex, size) := head];
      availIndex := Index16(availIndex + 1);
      avail := avail + [head];
    }

    /** Turns the first free descriptors into a chain that holds the segments. */
    method BuildChain(segments: seq<Segment>) returns (head: nat)
      requires TableValid() && 0 < |segments| <= |free|
      modifies this`table, this`freeHead, this`freeCount, this`free, this`chains, this`owner
      ensures TableValid()
      ensures head == old(free)[0] && head !in old(chains) && free == old(free)[|segments|..]
      ensures chains == old(chains)[head := Chain(old(free)[..|segments|], segments)]
    {
      hide Partition, TableInv, Filled, Linked, Distinct;
      FreeIsLinked(size, table, freeHead, free, chains, owner);
      ghost var was, list, start := table, free, freeHead;
      head := FillChain(segments);
      SendPartition(size, list, chains, owner, segments);
      SendTable(was, table, start, freeHead, list, chains, owner, segments);
      owner := OwnerAfter(owner, list[..|segments|], Some(head));
      chains := chains[head := Chain(list[..|segments|], segments)];
    }

    /** `send` once the request is known to fit: the chain is built and published in a slot of the
        available ring that is not in use. */
    method SendChain(segments: seq<Segment>) returns (head: nat)
      requires Valid() && 0 < |segments| <= |free|
      modifies this`table, this`freeHead, this`freeCount, this`free, this`chains, this`owner
      modifies this`availRing, this`availIndex, this`avail
      ensures Valid()
      ensures head == old(free)[0] && head !in old(chains) && free == old(free)[|segments|..]
      ensures chains == old(chains)[head := Chain(old(free)[..|segments|], segments)]
      ensures avail == old(avail) + [head]
    {
      hide Index16, Partition, TableInv, RingInv, HeadsInv;
      SlotIsUnused();
      ghost var before := chains;
      head := BuildChain(segments);
      HeadsAfterSend(avail, held, used, before, head, chains[head]);
      Publish(head);
    }

    /** `send`.  An empty or oversized list panics and too few descriptors is an error; both leave the
        queue as it was. */
    method Send(segments: seq<Segment>) returns (r: SendResult)
      requires Valid()
      modifies this`table, this`freeHead, this`freeCount, this`free, this`chains, this`owner
      modifies this`availRing, this`availIndex, this`avail
      ensures Valid()
      ensures r.Panicked? <==> |segments| == 0 || |segments| > 0xFFFF
      ensures r.NoBuffers? <==> 0 < |segments| <= 0xFFFF && old(|free|) < |segments|
      ensures !r.Sent? ==> unchanged(this)
      ensures r.Sent? ==>
                && r.token == old(free)[0] && r.token !in old(chains)
                && chains == old(chains)[r.token := Chain(old(free)[..|segments|], segments)]
                && avail == old(avail) + [r.token] && free == old(free)[|segments|..]
    {
      hide Partition, TableInv, RingInv, HeadsInv;
      if |segments| == 0 || |segments| > 0xFFFF {
        return Panicked;
      }
      if freeCount < |segments| {
        return NoBuffers;
      }
      var head := SendChain(segments);
      r := Sent(head);
    }

    /** The inner loop of `collect_used`: walks a chain and pushes each of its descriptors onto the free
        list, overwriting the link just read. */
    method ReleaseChain(h: nat)
      requires TableValid() && h in chains
      modifies this`table, this`freeHead, this`freeCount, this`free, this`chains, this`owner
      ensures TableValid()
      ensures chains == old(chains) - {h}
      ensures free == Returned(old(chains)[h].ids, old(free)) && |free| == old(|free|) + |old(chains)[h].segments|
    {
      hide Partition, TableInv, Linked, Distinct, Sees, Returned, Releasing;
      ChainFacts(size, table, freeHead, free, chains, owner, h);
      ghost var was, list, start := table, free, freeHead;
      ghost var ids, segments := chains[h].ids, chains[h].segments;
      ReleaseStart(table, h, ids, segments, free);
      var d, more := h, true;
      ghost var k := 0;
      while more
        invariant 0 <= k <= |ids| && (more <==> k < |ids|)
        invariant |table| == size && Linked(table, freeHead, free) && freeCount == |free|
        invariant Releasing(was, table, ids, segments, k, d, list, free)
        modifies this`table, this`freeHead, this`freeCount, this`free
        decreases |ids| - k
      {
        ReleaseStep(was, table, ids, segments, k, d, list, free, freeHead);
        var flag, next := table[d].hasNext, table[d].next;
        PushFree(d);
        more, d, k := flag, next, k + 1;
      }
      ReleaseDone(was, table, ids, segments, d, list, free);
      ReturnedIds(ids, list);
      CollectPartition(size, list, chains, owner, h);
      CollectTable(was, table, size, list, chains, owner, h, start, freeHead, free);
      owner := OwnerAfter(owner, ids, None);
      chains := chains - {h};
    }

    /** One round of the outer loop of `collect_used`. */
    method CollectOne() returns (done: Completion)
      requires Valid() && used != []
      modifies this`table, this`freeHead, this`freeCount, this`free, this`chains, this`owner
      modifies this`lastUsed, this`used, this`collected
      ensures Valid()
      ensures collected == old(collected) + 1
      ensures old(used)[0] in old(chains) && |free| == old(|free|) + |old(chains)[old(used)[0]].segments|
      ensures used == old(used)[1..] && old(used)[0] in old(chains) && chains == old(chains) - {old(used)[0]}
      ensures CallbackFor(done, old(used)[0], old(chains))
    {
      hide Index16, Partition, TableInv, RingInv, HeadsInv, Returned;
      RingPop(usedRing, usedIndex, size, collected, used);
      HeadsAfterCollect(avail, held, used, chains);
      var head := usedRing[R.Slot(lastUsed, size)];
      ChainFacts(size, table, freeHead, free, chains, owner, head);
      done := Completion(head, table[head].address, table[head].length);
      ReleaseChain(head);
      lastUsed := Index16(lastUsed + 1);
      used, collected := used[1..], collected + 1;
    }

    /** `collect_used`: one callback per head the device had returned when the call started, in the order it
        returned them, with the first address and length of the request; all its descriptors become free
        again.  Meanwhile the device goes on: `during[k]` is what it does after the k-th round. */
    method CollectUsed(during: seq<seq<DeviceAction>>) returns (count: nat, callbacks: seq<Completion>)
      requires Valid()
      modifies this
      ensures Valid() && count == |callbacks| == old(|used|)
      ensures forall i :: 0 <= i < |callbacks| ==>
                CallbackFor(callbacks[i], old(used)[i], old(chains))
      ensures chains == old(chains) - Elements(old(used)) && |free| == old(|free|) + SegmentsOf(old(chains), old(used))
      ensures Device(avail, held, old(used) + used) == DeviceRounds(old(Device(avail, held, used)), during, count)
    {
      hide Index16, Partition, TableInv, RingInv, HeadsInv, Elements, CallbackFor, DeviceSteps, DeviceRounds, Collecting, SegmentsOf;
      ghost var list, before, start, had := used, chains, collected, |free|;
      ghost var device := Device(avail, held, used);
      var headIndex := usedIndex;
      RingEmptyIffEqual(usedRing, usedIndex, size, collected, used);
      RingIndex(usedRing, usedIndex, size, collected, used);
      SlotIsUnused();
      count := (headIndex - lastUsed) % WRAP16;
      callbacks := [];
      CollectingStart(device, before, during);
      SameIndexIff(start, start + |list|);
      while lastUsed != headIndex
        invariant Valid() && |callbacks| <= |list| && collected == start + |callbacks|
        invariant lastUsed == headIndex <==> |callbacks| == |list|
        invariant had <= |free| && Collecting(list, before, device, during, callbacks, Device(avail, held, used), chains, |free| - had)
        decreases |list| - |callbacks|
      {
        ghost var now, inFlight, freed := Device(avail, held, used), chains, |free| - had;
        CollectingHead(list, before, device, during, callbacks, now, inFlight, freed);
        var done := CollectOne();
        ghost var mid := Device(avail, held, used);
        if |callbacks| < |during| {
          DeviceActs(during[|callbacks|]);
        }
        CollectingNext(list, before, device, during, callbacks, now, inFlight, freed, done, mid, Device(avail, held, used));
        callbacks := callbacks + [done];
        SameIndexIff(start + |callbacks|, start + |list|);
      }
      CollectingEnd(list, before, device, during, callbacks, Device(avail, held, used), chains, |free| - had);
    }

    /** What the device does by itself. */
    method DeviceActs(actions: seq<DeviceAction>)
      requires Valid()
      modifies this`deviceAvail, this`avail, this`held, this`taken, this`usedRing, this`usedIndex, this`used
      ensures Valid()
      ensures Device(avail, held, used) == DeviceSteps(old(Device(avail, held, used)), actions)
      ensures old(used) <= used
    {
      hide Index16, Partition, TableInv, RingInv, HeadsInv;
      ghost var device := Device(avail, held, used);
      for i := 0 to |actions|
        invariant Valid() && old(used) <= used
        invariant Device(avail, held, used) == DeviceSteps(device, actions[..i])
      {
        assert actions[..i + 1] == actions[..i] + [actions[i]];
        match actions[i] {
          case Take =>
            var _ := DeviceTake();
          case Complete(head) =>
            if head in held {
              DeviceComplete(head);
            }
        }
        StepsAppend(device, actions[..i], actions[i]);
      }
      assert actions[..|actions|] == actions;
    }

    /** The device takes the next published head. */
    method DeviceTake() returns (r: Option<nat>)
      requires Valid()
      modifies this`deviceAvail, this`avail, this`held, this`taken
      ensures Valid()
      ensures r == if old(avail) == [] then None else Some(old(avail)[0])
      ensures r.Some? ==> r.value in chains && avail == old(avail)[1..] && held == old(held) + {r.value}
      ensures r.None? ==> unchanged(this)
    {
      hide Index16, Partition, TableInv, RingInv, HeadsInv;
      RingEmptyIffEqual(availRing, availIndex, size, taken, avail);
      if deviceAvail == availIndex {
        return None;
      }
      RingPop(availRing, availIndex, size, taken, avail);
      HeadsAfterTake(avail, held, used, chains);
      var head := availRing[R.Slot(deviceAvail, size)];
      deviceAvail := Index16(deviceAvail + 1);
      held, avail, taken := held + {head}, avail[1..], taken + 1;
      r := Some(head);
    }

    /** The device reads a request from the table, following NEXT flags: it sees what was submitted. */
    method DeviceRead(head: nat) returns (segments: seq<Segment>)
      requires Valid() && head in chains
      ensures segments == chains[head].segments
    {
      hide Partition, TableInv, RingInv, HeadsInv, Sees;
      ChainFacts(size, table, freeHead, free, chains, owner, head);
      ghost var ids, all := chains[head].ids, chains[head].segments;
      assert ids[0..] == ids && all[0..] == all;
      segments := [];
      var d, more := head, true;
      while more
        invariant |segments| <= |ids| == |all| && segments == all[..|segments|]
        invariant more <==> |segments| < |ids|
        invariant more ==> Sees(table, d, ids[|segments|..], all[|segments|..])
        decreases |ids| - |segments|
      {
        SeesStep(table, d, ids, all, |segments|);
        segments := segments + [Segment(table[d].address, table[d].length, table[d].write)];
        more, d := table[d].hasNext, table[d].next;
      }
    }

    /** The device returns any head it holds. */
    method DeviceComplete(head: nat)
      requires Valid() && head in held
      modifies this`usedRing, this`usedIndex, this`held, this`used
      ensures Valid() && used == old(used) + [head] && held == old(held) - {head}
    {
      hide Index16, Partition, TableInv, RingInv, HeadsInv;
      SlotIsUnused();
      HeadsAfterComplete(avail, held, used, chains, head);
      RingPush(usedRing, usedIndex, size, collected, used, head);
      usedRing := usedRing[R.Slot(usedIndex, size) := head];
      usedIndex := Index16(usedIndex + 1);
      held, used := held - {head}, used + [head];
    }

    /** While a descriptor is free, the available ring has an unused slot. */
    lemma SlotIsUnused()
      requires Valid()
      ensures free != [] ==> |avail| < size
      ensures |avail| <= size && |used| <= size
      ensures held != {} ==> |used| < size
    {
      ChainsFit(size, free, chains, owner);
      HeadsCount(avail, held, used, chains);
    }
  }

  lemma EmptyPartition(size: nat, free: seq<nat>, owner: seq<Option<nat>>)
    requires |owner| == size && (forall d :: 0 <= d < size ==> owner[d] == None)
    requires Distinct(free) && forall d :: d in free <==> 0 <= d < size
    ensures Partition(size, free, map[], owner)
  {
    assert forall k :: 0 <= k < |free| ==> free[k] in free;
  }

  lemma NothingLinked(table: seq<Descriptor>, head: nat)
    ensures Linked(table, head, []) && Distinct([]) && Index16(0) == 0
  {
  }

  lemma DistinctCons(x: nat, s: seq<nat>)
    requires Distinct(s) && x !in s
    ensures Distinct([x] + s)
  {
  }

  ghost predicate CallbackFor(done: Completion, head: nat, chains: map<nat, Chain>)
  {
    && head in chains && chains[head].segments != []
    && done == Completion(head, chains[head].segments[0].address, chains[head].segments[0].length)
  }

  lemma CallbackWidens(done: Completion, head: nat, chains: map<nat, Chain>, gone: set<nat>)
    requires CallbackFor(done, head, chains - gone)
    ensures CallbackFor(done, head, chains)
  {
  }

  lemma SeesStep(table: seq<Descriptor>, d: nat, ids: seq<nat>, segments: seq<Segment>, k: nat)
    requires k < |ids| == |segments| && Sees(table, d, ids[k..], segments[k..])
    ensures d < |table| && Segment(table[d].address, table[d].length, table[d].write) == segments[k]
    ensures table[d].hasNext <==> k + 1 < |ids|
    ensures k + 1 < |ids| ==> Sees(table, table[d].next, ids[k + 1..], segments[k + 1..])
  {
  }

  lemma FreeIsLinked(size: nat, table: seq<Descriptor>, freeHead: nat, free: seq<nat>, chains: map<nat, Chain>, owner: seq<Option<nat>>)
    requires Partition(size, free, chains, owner) && TableInv(table, freeHead, free, chains)
    ensures Distinct(free) && Linked(table, freeHead, free)
  {
  }
}
