/** The producer ring of the xHCI driver (drivers/usb/src/xhci/ring.rs) and the controller that reads
    it.  The last entry of the buffer is a Link with the toggle-cycle flag; `size` is the number of
    entries before it, 31 in the driver.  An enqueue touches memory twice, first the Link on a wrap and
    then the entry, and the controller may act in between. */
module TransferRing {
  import opened CycleRing

  /** What the driver owns: the buffer with its Link, and the driver's position. */
  datatype Producer<T> = Producer(memory: seq<Trb<T>>, linkCycle: bool, index: nat, cycle: bool)

  datatype Pc<T> = Idle | Storing(item: T, slot: nat, cycle: bool)

  /** `at` is the controller's position, equal to the size when it stands on the Link; `ccs` its
      consumer cycle state.  The two sequences are histories. */
  datatype State<T> = State(producer: Producer<T>, pc: Pc<T>, at: nat, ccs: bool, enqueued: seq<T>, consumed: seq<T>)

  datatype Step<T> = Start(item: T) | Commit | Fetch | Follow

  /** `enqueue_inner` up to the Link write. */
  function Advanced<T>(p: Producer<T>): Producer<T>
  {
    if p.index + 1 >= |p.memory| then p.(linkCycle := p.cycle, index := 0, cycle := !p.cycle)
    else p.(index := p.index + 1)
  }

  /** The store of the entry itself. */
  function Stored<T>(p: Producer<T>, slot: nat, item: T, cycle: bool): Producer<T>
    requires slot < |p.memory|
  {
    p.(memory := p.memory[slot := Trb(item, cycle)])
  }

  function Size<T>(s: State<T>): nat
  {
    |s.producer.memory|
  }

  predicate Enabled<T>(s: State<T>, step: Step<T>)
  {
    match step
    case Start(_) => s.pc.Idle?
    case Commit => s.pc.Storing? && s.pc.slot < Size(s)
    case Fetch => s.at < Size(s) && s.producer.memory[s.at].cycle == s.ccs
    case Follow => s.at == Size(s) && s.producer.linkCycle == s.ccs
  }

  function Exec<T>(s: State<T>, step: Step<T>): State<T>
    requires Enabled(s, step)
  {
    match step
    case Start(item) =>
      s.(producer := Advanced(s.producer), pc := Storing(item, s.producer.index, s.producer.cycle))
    case Commit =>
      s.(producer := Stored(s.producer, s.pc.slot, s.pc.item, s.pc.cycle), pc := Idle, enqueued := s.enqueued + [s.pc.item])
    case Fetch => s.(at := s.at + 1, consumed := s.consumed + [s.producer.memory[s.at].item])
    case Follow => s.(at := 0, ccs := !s.ccs)
  }

  function Started<T>(s: State<T>): nat
  {
    |s.enqueued| + if s.pc.Storing? then 1 else 0
  }

  /** The Link's cycle bit after n entries were started. */
  ghost function LinkPhase(n: nat, size: nat): bool
    requires size > 0
  {
    n < size || Phase(n - size, size)
  }

  ghost predicate ProducerInv<T>(s: State<T>)
  {
    && Size(s) > 0
    && Written(s.producer.memory, s.enqueued)
    && s.producer.index == Slot(Started(s), Size(s))
    && s.producer.cycle == Phase(Started(s), Size(s))
    && s.producer.linkCycle == LinkPhase(Started(s), Size(s))
    && (s.pc.Storing? ==> s.pc.slot == Slot(|s.enqueued|, Size(s)) && s.pc.cycle == Phase(|s.enqueued|, Size(s)))
  }

  /** The controller took a prefix of the entries and is less than a lap behind.  An unfollowed Link
      counts as one more entry. */
  ghost predicate ControllerInv<T>(s: State<T>)
    requires Size(s) > 0
  {
    && s.consumed <= s.enqueued
    && s.at <= Size(s)
    && (if s.at == Size(s) then
          && Slot(|s.consumed|, Size(s)) == 0 && |s.consumed| >= Size(s)
          && s.ccs == !Phase(|s.consumed|, Size(s))
          && Started(s) < |s.consumed| + Size(s)
        else
          && s.at == Slot(|s.consumed|, Size(s))
          && s.ccs == Phase(|s.consumed|, Size(s))
          && Started(s) <= |s.consumed| + Size(s))
  }

  ghost predicate Inv<T>(s: State<T>)
  {
    ProducerInv(s) && ControllerInv(s)
  }

  /** Room for one more entry. */
  predicate Room<T>(s: State<T>)
  {
    Started(s) + 1 <= |s.consumed| + Size(s) - if s.at == Size(s) then 1 else 0
  }

  lemma LinkAfterStart(n: nat, size: nat)
    requires size > 0
    ensures LinkPhase(n + 1, size) == if Slot(n, size) + 1 == size then Phase(n, size) else LinkPhase(n, size)
  {
    NextSlot(n, size);
    if n + 1 >= size {
      NextLap(n + 1 - size, size);
      if n >= size {
        NextLap(n - size, size);
      } else {
        FirstLap(n, size);
      }
    } else {
      FirstLap(n, size);
    }
  }

  lemma StartKeepsInv<T>(s: State<T>, item: T)
    requires Inv(s) && s.pc.Idle? && Room(s)
    ensures Inv(Exec(s, Start(item)))
  {
    hide Slot, Phase, LinkPhase, Written;
    NextSlot(|s.enqueued|, Size(s));
    LinkAfterStart(|s.enqueued|, Size(s));
  }

  lemma CommitKeepsInv<T>(s: State<T>)
    requires Inv(s) && s.pc.Storing? && Enabled(s, Commit)
    ensures Inv(Exec(s, Commit))
  {
    hide Slot, Phase, LinkPhase, Written;
    WriteNext(s.producer.memory, s.enqueued, s.pc.item);
  }

  /** The controller never reads a stale entry and never misses one: it sees its cycle bit exactly when
      an entry it has not taken is complete, and takes that one. */
  lemma FetchExact<T>(s: State<T>)
    requires Inv(s) && s.at < Size(s)
    ensures Enabled(s, Fetch) <==> |s.consumed| < |s.enqueued|
    ensures Enabled(s, Fetch) ==> s.producer.memory[s.at].item == s.enqueued[|s.consumed|]
  {
    hide Slot, Phase, LinkPhase, Written;
    OwnedIffWritten(s.producer.memory, s.enqueued, |s.consumed|);
  }

  /** On the Link the controller can always go on. */
  lemma FollowEnabled<T>(s: State<T>)
    requires Inv(s) && s.at == Size(s)
    ensures Enabled(s, Follow)
  {
    hide Slot, Phase, Written;
    LaterSlot(|s.consumed|, Started(s) - |s.consumed|, Size(s));
    NextLap(Started(s) - Size(s), Size(s));
  }

  lemma FetchKeepsInv<T>(s: State<T>)
    requires Inv(s) && Enabled(s, Fetch)
    ensures Inv(Exec(s, Fetch))
  {
    hide Slot, Phase, LinkPhase, Written;
    FetchExact(s);
    NextSlot(|s.consumed|, Size(s));
    if Slot(|s.consumed|, Size(s)) + 1 == Size(s) {
      LapsDone(|s.consumed|, Size(s));
    }
  }

  lemma LapsDone(k: nat, size: nat)
    requires size > 0 && Slot(k, size) + 1 == size
    ensures k + 1 >= size
  {
    if k < size {
      FirstLap(k, size);
    }
  }

  lemma FollowKeepsInv<T>(s: State<T>)
    requires Inv(s) && Enabled(s, Follow)
    ensures Inv(Exec(s, Follow))
  {
    hide Slot, Phase, LinkPhase, Written;
  }

  lemma StepKeepsInv<T>(s: State<T>, step: Step<T>)
    requires Inv(s) && Enabled(s, step) && (step.Start? ==> Room(s))
    ensures Inv(Exec(s, step))
  {
    match step
    case Start(item) => StartKeepsInv(s, item);
    case Commit => CommitKeepsInv(s);
    case Fetch => FetchKeepsInv(s);
    case Follow => FollowKeepsInv(s);
  }

  /** The controller has something to do and can do it. */
  predicate ControllerMoves<T>(s: State<T>)
  {
    Enabled(s, Fetch) || Enabled(s, Follow)
  }

  /** `enqueue` has no check for a full ring.  With room it is safe; without, the controller stalls
      in front of entries it has not taken: either its next entry was overwritten with the other
      cycle bit, or the Link it stands on was. */
  lemma EnqueueSafeIffRoom<T>(s: State<T>, item: T)
    requires Inv(s) && s.pc.Idle?
    ensures Enabled(Exec(s, Start(item)), Commit)
    ensures var t := Exec(Exec(s, Start(item)), Commit);
            && (Inv(t) <==> Room(s))
            && (ControllerMoves(t) <==> Room(s))
  {
    var u := Exec(s, Start(item));
    var t := Exec(u, Commit);
    if Room(s) {
      StartKeepsInv(s, item);
      CommitKeepsInv(u);
      if t.at < Size(t) {
        FetchExact(t);
      } else {
        FollowEnabled(t);
      }
    } else if s.at == Size(s) {
      StallsOnLink(s, item);
    } else {
      StallsOnEntry(s, item);
    }
  }

  lemma StallsOnLink<T>(s: State<T>, item: T)
    requires Inv(s) && s.pc.Idle? && !Room(s) && s.at == Size(s)
    ensures Enabled(Exec(s, Start(item)), Commit)
    ensures var t := Exec(Exec(s, Start(item)), Commit); !ControllerMoves(t) && !Inv(t)
  {
    hide Written, Slot, Phase, LinkPhase;
    LaterSlot(|s.consumed|, |s.enqueued| - |s.consumed|, Size(s));
  }

  lemma StallsOnEntry<T>(s: State<T>, item: T)
    requires Inv(s) && s.pc.Idle? && !Room(s) && s.at < Size(s)
    ensures Enabled(Exec(s, Start(item)), Commit)
    ensures var t := Exec(Exec(s, Start(item)), Commit); !ControllerMoves(t) && !Inv(t)
  {
    hide Written, Slot, Phase, LinkPhase;
    NextLap(|s.consumed|, Size(s));
  }

  /** Entry ids, `base + slot * 16`, of entries that are in the ring together are distinct. */
  lemma EntryIdsDistinct<T>(s: State<T>, base: nat, a: nat, b: nat)
    requires Inv(s) && |s.consumed| <= a < b < |s.enqueued|
    ensures base + Slot(a, Size(s)) * 16 != base + Slot(b, Size(s)) * 16
  {
    SlotsDiffer(a, b, Size(s));
  }

  ghost predicate IsRun<T>(s: State<T>, steps: seq<Step<T>>)
    decreases |steps|
  {
    steps == [] || (Enabled(s, steps[0]) && IsRun(Exec(s, steps[0]), steps[1..]))
  }

  ghost function After<T>(s: State<T>, steps: seq<Step<T>>): State<T>
    requires IsRun(s, steps)
    decreases |steps|
  {
    if steps == [] then s else After(Exec(s, steps[0]), steps[1..])
  }

  /** The driver enqueues only when there is room. */
  ghost predicate RoomRespected<T>(s: State<T>, steps: seq<Step<T>>)
    requires IsRun(s, steps)
    decreases |steps|
  {
    steps == [] || ((steps[0].Start? ==> Room(s)) && RoomRespected(Exec(s, steps[0]), steps[1..]))
  }

  /** `Ring::new`: zeroed entries, a Link with its cycle bit set, and a controller at the start. */
  ghost function Initial<T>(memory: seq<Trb<T>>): State<T>
  {
    State(Producer(memory, true, 0, true), Idle, 0, true, [], [])
  }

  lemma InitialInv<T>(memory: seq<Trb<T>>)
    requires |memory| > 0 && forall i :: 0 <= i < |memory| ==> !memory[i].cycle
    ensures Inv(Initial(memory))
  {
  }

  /** In every run, over any number of laps, the controller consumes exactly the enqueued items in
      order, and whenever an item waits it can move. */
  lemma {:induction false} ControllerConsumesInOrder<T>(s: State<T>, steps: seq<Step<T>>)
    requires Inv(s) && IsRun(s, steps) && RoomRespected(s, steps)
    ensures Inv(After(s, steps)) && After(s, steps).consumed <= After(s, steps).enqueued
    ensures |After(s, steps).consumed| < |After(s, steps).enqueued| ==> ControllerMoves(After(s, steps))
    decreases |steps|
  {
    if steps == [] {
      if s.at < Size(s) {
        FetchExact(s);
      } else {
        FollowEnabled(s);
      }
    } else {
      hide Inv, Enabled, Exec, Room;
      StepKeepsInv(s, steps[0]);
      ControllerConsumesInOrder(Exec(s, steps[0]), steps[1..]);
    }
  }

  // ---- The full ring ----

  /** What the driver can tell from what it enqueued and what was completed.  It cannot see whether the
      controller has followed the Link, which it may not have after a whole number of laps. */
  ghost predicate DriverRoom<T>(s: State<T>)
    requires Size(s) > 0
  {
    var c := |s.consumed|;
    Started(s) + 1 <= c + Size(s) - if c > 0 && Slot(c, Size(s)) == 0 then 1 else 0
  }

  /** That is exactly when there is room wherever the controller may be. */
  lemma DriverRoomExact<T>(s: State<T>)
    requires Inv(s)
    ensures DriverRoom(s) <==> forall at: nat, ccs: bool :: Inv(s.(at := at, ccs := ccs)) ==> Room(s.(at := at, ccs := ccs))
  {
    hide Phase, LinkPhase, Written, Slot;
    var c := |s.consumed|;
    if c > 0 && Slot(c, Size(s)) == 0 && c < Size(s) {
      FirstLap(c, Size(s));
    }
    if !DriverRoom(s) {
      var t := if Room(s) then s.(at := Size(s), ccs := !Phase(c, Size(s))) else s;
      assert Inv(t) && !Room(t);
      assert t == s.(at := t.at, ccs := t.ccs);
    }
  }

  /** Enqueueing items while the controller does nothing. */
  function Enqueues<T>(items: seq<T>): seq<Step<T>>
  {
    if items == [] then [] else [Start(items[0]), Commit] + Enqueues(items[1..])
  }

  /** The items were added and the controller did nothing. */
  ghost predicate Grew<T>(s: State<T>, t: State<T>, items: seq<T>)
  {
    && Inv(t) && t.pc.Idle? && Size(t) == Size(s)
    && t.at == s.at && t.consumed == s.consumed && t.enqueued == s.enqueued + items
  }

  lemma GrewOneByOne<T>(s: State<T>, t: State<T>, u: State<T>, items: seq<T>)
    requires items != [] && Grew(s, t, [items[0]]) && Grew(t, u, items[1..])
    ensures Grew(s, u, items)
  {
    hide Inv;
    assert s.enqueued + [items[0]] + items[1..] == s.enqueued + items;
  }

  lemma EnqueueOne<T>(s: State<T>, item: T)
    requires Inv(s) && s.pc.Idle? && s.at < Size(s) && |s.enqueued| < |s.consumed| + Size(s)
    ensures Enabled(s, Start(item)) && Enabled(Exec(s, Start(item)), Commit)
    ensures Grew(s, Exec(Exec(s, Start(item)), Commit), [item])
  {
    EnqueueSafeIffRoom(s, item);
  }

  lemma RunTwo<T>(s: State<T>, steps: seq<Step<T>>)
    requires |steps| >= 2 && Enabled(s, steps[0]) && Enabled(Exec(s, steps[0]), steps[1])
    requires IsRun(Exec(Exec(s, steps[0]), steps[1]), steps[2..])
    ensures IsRun(s, steps) && After(s, steps) == After(Exec(Exec(s, steps[0]), steps[1]), steps[2..])
  {
    hide Enabled, Exec;
    var u, rest := Exec(s, steps[0]), steps[1..];
    assert rest[0] == steps[1] && rest[1..] == steps[2..];
    assert IsRun(u, rest) && After(u, rest) == After(Exec(u, rest[0]), rest[1..]);
  }

  lemma {:induction false} FillRing<T>(s: State<T>, items: seq<T>)
    requires Inv(s) && s.pc.Idle? && s.at < Size(s) && |s.enqueued| + |items| <= |s.consumed| + Size(s)
    ensures IsRun(s, Enqueues(items)) && Grew(s, After(s, Enqueues(items)), items)
    decreases |items|
  {
    if items == [] {
      assert s.enqueued + items == s.enqueued;
    } else {
      FillOne(s, items);
      var steps, t := Enqueues(items), Exec(Exec(s, Start(items[0])), Commit);
      hide Inv, Enabled, Exec, IsRun, After, Enqueues;
      assert Grew(s, t, [items[0]]);
      FillRing(t, items[1..]);
      hide Grew;
      RunTwo(s, steps);
      GrewOneByOne(s, t, After(s, steps), items);
    }
  }

  lemma FillOne<T>(s: State<T>, items: seq<T>)
    requires Inv(s) && s.pc.Idle? && s.at < Size(s) && |s.enqueued| < |s.consumed| + Size(s) && items != []
    ensures var steps := Enqueues(items);
            && |steps| >= 2 && steps[0] == Start(items[0]) && steps[1] == Commit && steps[2..] == Enqueues(items[1..])
            && Enabled(s, Start(items[0])) && Enabled(Exec(s, Start(items[0])), Commit)
            && Grew(s, Exec(Exec(s, Start(items[0])), Commit), [items[0]])
  {
    EnqueueOne(s, items[0]);
  }

  /** A new ring is filled, and one more entry is enqueued before the controller fetched anything: it sees
      its first entry overwritten with the other cycle bit and does nothing. */
  lemma OverfullExample<T>(memory: seq<Trb<T>>, items: seq<T>, item: T)
    requires |items| == |memory| > 0 && forall i :: 0 <= i < |memory| ==> !memory[i].cycle
    ensures IsRun(Initial(memory), Enqueues(items))
    ensures var s := After(Initial(memory), Enqueues(items));
            && s.pc.Idle? && Enabled(Exec(s, Start(item)), Commit)
            && var t := Exec(Exec(s, Start(item)), Commit);
               t.enqueued == items + [item] && t.consumed == [] && !ControllerMoves(t)
  {
    InitialInv(memory);
    hide Inv, Exec, After, IsRun, ControllerMoves;
    FillRing(Initial(memory), items);
    assert [] + items == items;
    var s := After(Initial(memory), Enqueues(items));
    EnqueueSafeIffRoom(s, item);
    OverfullEnd(s, items, item);
  }

  lemma OverfullEnd<T>(s: State<T>, items: seq<T>, item: T)
    requires s.pc.Idle? && s.enqueued == [] + items && Enabled(Exec(s, Start(item)), Commit)
    ensures Exec(Exec(s, Start(item)), Commit).enqueued == items + [item]
    ensures Exec(Exec(s, Start(item)), Commit).consumed == s.consumed
  {
  }

  // ---- The driver's code ----

  /** The controller makes those of the moves that it can. */
  ghost function Controlled<T>(s: State<T>, moves: seq<Step<T>>): State<T>
    decreases |moves|
  {
    if moves == [] then s
    else if (moves[0].Fetch? || moves[0].Follow?) && Enabled(s, moves[0]) then Controlled(Exec(s, moves[0]), moves[1..])
    else Controlled(s, moves[1..])
  }

  lemma {:induction false} ControlledFacts<T>(s: State<T>, moves: seq<Step<T>>)
    ensures var t := Controlled(s, moves);
            && t.producer == s.producer && t.pc == s.pc && t.enqueued == s.enqueued && s.consumed <= t.consumed
            && (Inv(s) ==> Inv(t))
    decreases |moves|
  {
    if moves != [] {
      var step := moves[0];
      if (step.Fetch? || step.Follow?) && Enabled(s, step) {
        if Inv(s) {
          StepKeepsInv(s, step);
        }
        hide Inv;
        ControlledFacts(Exec(s, step), moves[1..]);
      } else {
        hide Inv;
        ControlledFacts(s, moves[1..]);
      }
    }
  }

  /** `Ring`, with the controller that reads it. */
  class Ring<T> {
    var memory: seq<Trb<T>>
    var linkCycle: bool
    var enqueueIndex: nat
    var cycleBit: bool
    const base: nat

    ghost var at: nat
    ghost var ccs: bool
    ghost var enqueued: seq<T>
    ghost var consumed: seq<T>

    ghost function View(): State<T>
      reads this
    {
      State(Producer(memory, linkCycle, enqueueIndex, cycleBit), Idle, at, ccs, enqueued, consumed)
    }

    ghost predicate Valid()
      reads this
    {
      Inv(View())
    }

    constructor (memory: seq<Trb<T>>, base: nat)
      requires |memory| > 0 && forall i :: 0 <= i < |memory| ==> !memory[i].cycle
      ensures Valid() && View() == Initial(memory) && this.base == base
    {
      this.memory, this.base := memory, base;
      linkCycle, enqueueIndex, cycleBit := true, 0, true;
      at, ccs, enqueued, consumed := 0, true, [], [];
      new;
      InitialInv(memory);
    }

    /** `enqueue_inner`, with `moves` of the controller between its two stores.  If there was room, the item
        is the next the controller will take, every entry still to be taken is intact, and the id names no
        other of them.  If not, a controller that does not move in between cannot move any more. */
    method Enqueue(item: T, ghost moves: seq<Step<T>>) returns (id: nat)
      requires Valid()
      modifies this
      ensures |memory| == |old(memory)| > 0
      ensures old(Room(View())) ==>
                && Valid() && enqueued == old(enqueued) + [item] && old(consumed) <= consumed <= enqueued
                && forall k :: |old(consumed)| <= k < |old(enqueued)| ==> id != base + Slot(k, |memory|) * 16
      ensures id == base + Slot(|old(enqueued)|, |memory|) * 16
      ensures moves == [] ==> (ControllerMoves(View()) <==> old(Room(View())))
    {
      hide Inv, Slot, ControllerMoves, Controlled, Room;
      ghost var s := View();
      ghost var u := Exec(s, Start(item));
      ghost var t := Controlled(u, moves);
      RingFacts(s);
      ControlledFacts(u, moves);
      EnqueueEffect(s, item, moves, base);
      var i, c := enqueueIndex, cycleBit;
      enqueueIndex := enqueueIndex + 1;
      if enqueueIndex >= |memory| {
        linkCycle := c;
        enqueueIndex := 0;
        cycleBit := !cycleBit;
      }
      at, ccs, consumed := t.at, t.ccs, t.consumed;
      memory := memory[i := Trb(item, c)];
      enqueued := enqueued + [item];
      id := base + i * 16;
      assert View() == Exec(t, Commit);
    }
  }

  /** An enqueue as a whole, with the moves of the controller in the middle. */
  lemma EnqueueEffect<T>(s: State<T>, item: T, moves: seq<Step<T>>, base: nat)
    requires Inv(s) && s.pc.Idle?
    ensures Enabled(Controlled(Exec(s, Start(item)), moves), Commit)
    ensures var v := Exec(Controlled(Exec(s, Start(item)), moves), Commit);
            && (Room(s) ==> Inv(v) && s.consumed <= v.consumed <= v.enqueued)
            && (moves == [] ==> (ControllerMoves(v) <==> Room(s)))
    ensures Room(s) ==> forall k :: |s.consumed| <= k < |s.enqueued| ==>
              base + Slot(|s.enqueued|, Size(s)) * 16 != base + Slot(k, Size(s)) * 16
  {
    hide Inv, Slot, ControllerMoves, Controlled, Room;
    RingFacts(s);
    var u := Exec(s, Start(item));
    ControlledFacts(u, moves);
    EnqueueSafeIffRoom(s, item);
    if Room(s) {
      StartKeepsInv(s, item);
      CommitKeepsInv(Controlled(u, moves));
      TakenInOrder(Exec(Controlled(u, moves), Commit));
      IdsDiffer(s, base);
    }
    NoMoves(u);
  }

  lemma RingFacts<T>(s: State<T>)
    requires Inv(s) && s.pc.Idle?
    ensures s.producer.index == Slot(|s.enqueued|, Size(s)) < Size(s)
  {
  }

  lemma TakenInOrder<T>(s: State<T>)
    requires Inv(s)
    ensures s.consumed <= s.enqueued
  {
  }

  lemma NoMoves<T>(s: State<T>)
    ensures Controlled(s, []) == s
  {
  }

  lemma IdsDiffer<T>(s: State<T>, base: nat)
    requires Inv(s) && s.pc.Idle? && Room(s)
    ensures forall k :: |s.consumed| <= k < |s.enqueued| ==>
              base + Slot(|s.enqueued|, Size(s)) * 16 != base + Slot(k, Size(s)) * 16
  {
    hide Slot, Phase, LinkPhase, Written;
    forall k | |s.consumed| <= k < |s.enqueued|
      ensures Slot(|s.enqueued|, Size(s)) != Slot(k, Size(s))
    {
      SlotsDiffer(k, |s.enqueued|, Size(s));
    }
  }
}
