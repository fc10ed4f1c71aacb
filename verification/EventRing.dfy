/** The event ring of the xHCI driver (drivers/usb/src/xhci/event.rs): several segments that the
    controller fills one after the other and that the driver drains by the cycle bit. */
module EventRing {
  import opened CycleRing
  import opened Wrappers

  /** All entries of all segments, in table order. */
  function Flat<T>(segments: seq<seq<Trb<T>>>): seq<Trb<T>>
  {
    if segments == [] then [] else Flat(segments[..|segments| - 1]) + segments[|segments| - 1]
  }

  /** The place of entry i of segment k in table order. */
  ghost function Position<T>(segments: seq<seq<Trb<T>>>, k: nat, i: nat): nat
    requires k <= |segments|
  {
    |Flat(segments[..k])| + i
  }

  ghost predicate Within<T>(segments: seq<seq<Trb<T>>>, k: nat, i: nat)
  {
    k < |segments| && i < |segments[k]|
  }

  lemma {:induction false} FlatAt<T>(segments: seq<seq<Trb<T>>>, k: nat, i: nat)
    requires Within(segments, k, i)
    ensures Position(segments, k, i) < |Flat(segments)|
    ensures Flat(segments)[Position(segments, k, i)] == segments[k][i]
    decreases |segments|
  {
    var front := segments[..|segments| - 1];
    if k == |front| {
      assert segments[..k] == front;
    } else {
      FlatAt(front, k, i);
      assert front[..k] == segments[..k];
    }
  }

  lemma {:induction false} FlatUpdate<T>(segments: seq<seq<Trb<T>>>, k: nat, i: nat, trb: Trb<T>)
    requires Within(segments, k, i)
    ensures Position(segments, k, i) < |Flat(segments)|
    ensures Flat(segments[k := segments[k][i := trb]]) == Flat(segments)[Position(segments, k, i) := trb]
    decreases |segments|
  {
    FlatAt(segments, k, i);
    var front := segments[..|segments| - 1];
    var updated := segments[k := segments[k][i := trb]];
    if k == |front| {
      assert segments[..k] == front && updated[..|updated| - 1] == front;
    } else {
      FlatUpdate(front, k, i, trb);
      assert front[..k] == segments[..k];
      assert updated[..|updated| - 1] == front[k := front[k][i := trb]];
    }
  }

  /** Positions depend on segment sizes only. */
  lemma {:induction false} PositionBySize<T>(a: seq<seq<Trb<T>>>, b: seq<seq<Trb<T>>>, k: nat, i: nat)
    requires |a| == |b| && k <= |a| && forall j :: 0 <= j < |a| ==> |a[j]| == |b[j]|
    ensures Position(a, k, i) == Position(b, k, i)
    decreases k
  {
    if k > 0 {
      PositionBySize(a, b, k - 1, i);
      assert a[..k][..k - 1] == a[..k - 1] && b[..k][..k - 1] == b[..k - 1];
    }
  }

  ghost predicate AllNonEmpty<T>(segments: seq<seq<Trb<T>>>)
  {
    forall j :: 0 <= j < |segments| ==> |segments[j]| > 0
  }

  /** The entry after entry i of segment k, and whether the table wrapped. */
  function Following<T>(segments: seq<seq<Trb<T>>>, k: nat, i: nat): (nat, nat, bool)
    requires k < |segments|
  {
    if i + 1 < |segments[k]| then (k, i + 1, false)
    else if k + 1 < |segments| then (k + 1, 0, false)
    else (0, 0, true)
  }

  lemma FollowingPosition<T>(segments: seq<seq<Trb<T>>>, k: nat, i: nat)
    requires Within(segments, k, i) && AllNonEmpty(segments)
    ensures var (k', i', wrapped) := Following(segments, k, i);
            && (wrapped <==> Position(segments, k, i) + 1 == |Flat(segments)|)
            && Position(segments, k', i') == if wrapped then 0 else Position(segments, k, i) + 1
  {
    assert segments[..k + 1][..k] == segments[..k];
    assert segments[..|segments|] == segments;
    if i + 1 < |segments[k]| {
      FlatAt(segments, k, i + 1);
    } else if k + 1 < |segments| {
      FlatAt(segments, k + 1, 0);
    }
  }

  /** Segment k, entry i and the cycle bit are where the n-th event goes. */
  ghost predicate At<T>(segments: seq<seq<Trb<T>>>, k: nat, i: nat, cycle: bool, n: nat)
  {
    && Within(segments, k, i) && |Flat(segments)| > 0
    && Position(segments, k, i) == Slot(n, |Flat(segments)|)
    && cycle == Phase(n, |Flat(segments)|)
  }

  lemma FollowingAt<T>(segments: seq<seq<Trb<T>>>, k: nat, i: nat, cycle: bool, n: nat)
    requires At(segments, k, i, cycle, n) && AllNonEmpty(segments)
    ensures var (k', i', wrapped) := Following(segments, k, i); At(segments, k', i', cycle != wrapped, n + 1)
  {
    hide Slot, Phase, Position, Flat;
    FollowingPosition(segments, k, i);
    NextSlot(n, |Flat(segments)|);
  }

  lemma AtBySize<T>(a: seq<seq<Trb<T>>>, b: seq<seq<Trb<T>>>, k: nat, i: nat, cycle: bool, n: nat)
    requires |a| == |b| && forall j :: 0 <= j < |a| ==> |a[j]| == |b[j]|
    requires At(a, k, i, cycle, n)
    ensures At(b, k, i, cycle, n)
  {
    PositionBySize(a, b, k, i);
    PositionBySize(a, b, |a|, 0);
    assert a[..|a|] == a && b[..|b|] == b;
  }

  /** `Table`, with the controller's enqueue position beside the driver's dequeue position. */
  class Table<T> {
    var segments: seq<seq<Trb<T>>>
    var dequeueSegment: nat
    var dequeueIndex: nat
    var cycleState: bool

    var enqueueSegment: nat
    var enqueueIndex: nat
    var producerCycle: bool

    ghost var posted: seq<T>
    ghost var taken: nat

    ghost predicate Valid()
      reads this
    {
      && AllNonEmpty(segments)
      && At(segments, dequeueSegment, dequeueIndex, cycleState, taken)
      && At(segments, enqueueSegment, enqueueIndex, producerCycle, |posted|)
      && Written(Flat(segments), posted)
      && taken <= |posted| <= taken + |Flat(segments)|
    }

    constructor (segments: seq<seq<Trb<T>>>)
      requires |segments| > 0 && AllNonEmpty(segments)
      requires forall k, i :: 0 <= k < |segments| && 0 <= i < |segments[k]| ==> !segments[k][i].cycle
      ensures Valid() && posted == [] && taken == 0 && this.segments == segments
    {
      this.segments := segments;
      dequeueSegment, dequeueIndex, cycleState := 0, 0, true;
      enqueueSegment, enqueueIndex, producerCycle := 0, 0, true;
      posted, taken := [], 0;
      new;
      FlatAt(segments, 0, 0);
      FirstLap(0, |Flat(segments)|);
      FlatClear(segments);
    }

    /** The controller posts an event.  It never posts into a full ring. */
    method Post(event: T)
      requires Valid() && |posted| < taken + |Flat(segments)|
      modifies this`segments, this`enqueueSegment, this`enqueueIndex, this`producerCycle, this`posted
      ensures Valid() && posted == old(posted) + [event] && |Flat(segments)| == old(|Flat(segments)|)
    {
      hide Slot, Phase, Position, Flat, Written;
      ghost var before := segments;
      FlatUpdate(segments, enqueueSegment, enqueueIndex, Trb(event, producerCycle));
      FollowingAt(segments, enqueueSegment, enqueueIndex, producerCycle, |posted|);
      WriteNext(Flat(segments), posted, event);
      var (k, i, wrapped) := Following(segments, enqueueSegment, enqueueIndex);
      segments := segments[enqueueSegment := segments[enqueueSegment][enqueueIndex := Trb(event, producerCycle)]];
      enqueueSegment, enqueueIndex, producerCycle := k, i, producerCycle != wrapped;
      posted := posted + [event];
      AtBySize(before, segments, enqueueSegment, enqueueIndex, producerCycle, |posted|);
      AtBySize(before, segments, dequeueSegment, dequeueIndex, cycleState, taken);
    }

    /** `dequeue`: the oldest posted event that was not taken yet, and `None` exactly when there is
        none. */
    method Dequeue() returns (r: Option<T>)
      requires Valid()
      modifies this`dequeueSegment, this`dequeueIndex, this`cycleState, this`taken
      ensures Valid()
      ensures r == if old(taken) < |posted| then Some(posted[old(taken)]) else None
      ensures taken == old(taken) + if r.Some? then 1 else 0
    {
      hide Slot, Phase, Position, Flat, Written;
      FlatAt(segments, dequeueSegment, dequeueIndex);
      FollowingAt(segments, dequeueSegment, dequeueIndex, cycleState, taken);
      OwnedIffWritten(Flat(segments), posted, taken);
      var event := segments[dequeueSegment][dequeueIndex];
      if event.cycle != cycleState {
        return None;
      }
      var length := |segments[dequeueSegment]|;
      dequeueIndex := dequeueIndex + 1;
      if dequeueIndex >= length {
        dequeueIndex := 0;
        var next := dequeueSegment + 1;
        if next >= |segments| {
          cycleState := !cycleState;
          dequeueSegment := 0;
        } else {
          dequeueSegment := next;
        }
      }
      taken := taken + 1;
      r := Some(event.item);
    }
  }

  lemma {:induction false} FlatClear<T>(segments: seq<seq<Trb<T>>>)
    requires forall k, i :: 0 <= k < |segments| && 0 <= i < |segments[k]| ==> !segments[k][i].cycle
    ensures forall i :: 0 <= i < |Flat(segments)| ==> !Flat(segments)[i].cycle
    decreases |segments|
  {
    if segments != [] {
      FlatClear(segments[..|segments| - 1]);
    }
  }
}
