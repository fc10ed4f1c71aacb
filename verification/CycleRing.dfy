/** Rings whose entries carry a cycle bit, as in sections 4.9.2 to 4.9.4 of the xHCI specification.
    The writer flips the bit it writes every time round, and the reader flips the bit it expects, so an
    entry is the reader's exactly when the bits agree.  No index is shared. */
module CycleRing {
  datatype Trb<T> = Trb(item: T, cycle: bool)

  /** The slot and the cycle bit of the k-th entry ever written. */
  ghost function Slot(k: nat, size: nat): (s: nat)
    requires size > 0
    ensures s < size
  {
    if k == 0 || Slot(k - 1, size) + 1 == size then 0 else Slot(k - 1, size) + 1
  }

  ghost function Phase(k: nat, size: nat): bool
    requires size > 0
  {
    k == 0 || Phase(k - 1, size) != (Slot(k - 1, size) + 1 == size)
  }

  lemma NextSlot(k: nat, size: nat)
    requires size > 0
    ensures Slot(k + 1, size) == if Slot(k, size) + 1 == size then 0 else Slot(k, size) + 1
    ensures Phase(k + 1, size) == if Slot(k, size) + 1 == size then !Phase(k, size) else Phase(k, size)
  {
  }

  /** Less than a lap further on. */
  lemma {:induction false} LaterSlot(k: nat, d: nat, size: nat)
    requires d < size
    ensures if Slot(k, size) + d < size
            then Slot(k + d, size) == Slot(k, size) + d && Phase(k + d, size) == Phase(k, size)
            else Slot(k + d, size) == Slot(k, size) + d - size && Phase(k + d, size) != Phase(k, size)
    decreases d
  {
    if d > 0 {
      LaterSlot(k, d - 1, size);
      NextSlot(k + d - 1, size);
    }
  }

  lemma NextLap(k: nat, size: nat)
    requires size > 0
    ensures Slot(k + size, size) == Slot(k, size) && Phase(k + size, size) != Phase(k, size)
  {
    LaterSlot(k, size - 1, size);
    NextSlot(k + size - 1, size);
  }

  lemma FirstLap(k: nat, size: nat)
    requires k < size
    ensures Slot(k, size) == k && Phase(k, size)
  {
  }

  lemma SlotsDiffer(a: nat, b: nat, size: nat)
    requires a < b < a + size
    ensures Slot(a, size) != Slot(b, size)
  {
    LaterSlot(a, b - a, size);
  }

  /** The memory after `items` were written in turn to zeroed memory. */
  ghost predicate Written<T>(memory: seq<Trb<T>>, items: seq<T>)
  {
    && |memory| > 0
    && (forall k :: 0 <= k < |items| <= k + |memory| ==>
          memory[Slot(k, |memory|)] == Trb(items[k], Phase(k, |memory|)))
    && (forall s :: |items| <= s < |memory| ==> !memory[s].cycle)
  }

  lemma WriteNext<T>(memory: seq<Trb<T>>, items: seq<T>, item: T)
    requires Written(memory, items)
    ensures Written(memory[Slot(|items|, |memory|) := Trb(item, Phase(|items|, |memory|))], items + [item])
  {
    hide Slot, Phase;
    var n, next := |items|, memory[Slot(|items|, |memory|) := Trb(item, Phase(|items|, |memory|))];
    forall k | 0 <= k < n + 1 <= k + |memory|
      ensures next[Slot(k, |memory|)] == Trb((items + [item])[k], Phase(k, |memory|))
    {
      if k < n {
        SlotsDiffer(k, n, |memory|);
      }
    }
    if n < |memory| {
      FirstLap(n, |memory|);
    }
  }

  /** Ownership: a reader that took the first d entries and is at most one lap behind finds its cycle
      bit exactly when a further entry was written, and then it finds that entry. */
  lemma OwnedIffWritten<T>(memory: seq<Trb<T>>, items: seq<T>, d: nat)
    requires Written(memory, items) && d <= |items| <= d + |memory|
    ensures memory[Slot(d, |memory|)].cycle == Phase(d, |memory|) <==> d < |items|
    ensures d < |items| ==> memory[Slot(d, |memory|)].item == items[d]
  {
    hide Slot, Phase;
    if d < |items| {
    } else if d < |memory| {
      FirstLap(d, |memory|);
    } else {
      NextLap(d - |memory|, |memory|);
    }
  }
}
