/** The round-robin scheduler (kernel/src/scheduler/round_robin.rs) and the scan on top of it
    (kernel/src/scheduler/mod.rs).  Threads sit in a circular linked list that is pruned lazily:
    `next` unlinks the dead nodes it meets.  A thread is live if its weak reference upgrades and it
    was not destroyed. */
module RoundRobin {
  import opened Wrappers

  type Thread = nat

  /* ---------------------------------------------------------------------------------------------
     The list as a value: the current thread first, then the others in cyclic order.
     ------------------------------------------------------------------------------------------ */

  /** The order in which `next` looks at the threads: the current one last. */
  function Rotated<T>(ts: seq<T>): (r: seq<T>)
    ensures |r| == |ts|
  {
    if ts == [] then [] else ts[1..] + [ts[0]]
  }

  /** The live threads among `ts`, in order. */
  function Live(ts: seq<Thread>, live: set<Thread>): seq<Thread>
  {
    if ts == [] then [] else (if ts[0] in live then [ts[0]] else []) + Live(ts[1..], live)
  }

  /** The position of the first live thread, or the length. */
  function FirstLive(ts: seq<Thread>, live: set<Thread>): (k: nat)
    ensures k <= |ts|
    ensures forall i :: 0 <= i < k ==> ts[i] !in live
    ensures k < |ts| ==> ts[k] in live
  {
    if ts == [] || ts[0] in live then 0 else 1 + FirstLive(ts[1..], live)
  }

  /** What `next` leaves: everything from the chosen thread on, so exactly the dead ones passed over
      are gone. */
  function NextList(ts: seq<Thread>, live: set<Thread>): seq<Thread>
  {
    Rotated(ts)[FirstLive(Rotated(ts), live)..]
  }

  function NextThread(ts: seq<Thread>, live: set<Thread>): Option<Thread>
  {
    if NextList(ts, live) == [] then None else Some(NextList(ts, live)[0])
  }

  ghost predicate Distinct<T>(s: seq<T>)
  {
    forall i, j :: 0 <= i < j < |s| ==> s[i] != s[j]
  }

  lemma {:induction false} LiveAppend(a: seq<Thread>, b: seq<Thread>, live: set<Thread>)
    ensures Live(a + b, live) == Live(a, live) + Live(b, live)
  {
    if a == [] {
      assert a + b == b;
    } else {
      assert (a + b)[0] == a[0] && (a + b)[1..] == a[1..] + b;
      LiveAppend(a[1..], b, live);
      var head := if a[0] in live then [a[0]] else [];
      assert head + (Live(a[1..], live) + Live(b, live)) == (head + Live(a[1..], live)) + Live(b, live);
    }
  }

  lemma {:induction false} LiveMembers(ts: seq<Thread>, live: set<Thread>)
    ensures forall x :: x in Live(ts, live) <==> x in ts && x in live
    ensures Distinct(ts) ==> Distinct(Live(ts, live))
  {
    if ts != [] {
      LiveMembers(ts[1..], live);
    }
  }

  lemma {:induction false} DropDead(ts: seq<Thread>, live: set<Thread>)
    ensures Live(ts[FirstLive(ts, live)..], live) == Live(ts, live)
    ensures Live(ts, live) == [] <==> FirstLive(ts, live) == |ts|
    ensures FirstLive(ts, live) < |ts| ==> Live(ts, live)[0] == ts[FirstLive(ts, live)]
  {
    if ts != [] && ts[0] !in live {
      DropDead(ts[1..], live);
      assert ts[1..][FirstLive(ts[1..], live)..] == ts[FirstLive(ts, live)..];
    }
  }

  /** `next` returns the first live thread after the current one in cyclic order, None only if no
      thread is live, and afterwards the live threads are the same, rotated by one. */
  lemma NextRotatesLive(ts: seq<Thread>, live: set<Thread>)
    ensures NextThread(ts, live) == None <==> forall x :: x in ts ==> x !in live
    ensures NextThread(ts, live).Some? ==>
              var order := Live(Rotated(ts), live);
              order != [] && NextThread(ts, live).value == order[0] && Live(Rotated(NextList(ts, live)), live) == order[1..] + [order[0]]
  {
    var order, list := Rotated(ts), NextList(ts, live);
    DropDead(order, live);
    LiveMembers(order, live);
    RotatedMembers(ts);
    if list == [] {
      assert forall x :: x in ts ==> x !in Live(order, live);
    } else {
      assert list == [list[0]] + list[1..];
      LiveAppend([list[0]], list[1..], live);
      LiveAppend(list[1..], [list[0]], live);
      assert Live([list[0]], live) == [list[0]];
      assert list[0] in ts && list[0] in live;
    }
  }

  lemma RotatedMembers<T>(ts: seq<T>)
    ensures forall x :: x in Rotated(ts) <==> x in ts
  {
  }

  // ---- Fairness ----

  /** What happens to the list: an insert, or a call of `next` while the threads in `live` are live. */
  datatype Event = Arrive(thread: Thread) | Call(live: set<Thread>)

  function Inserted(ts: seq<Thread>, thread: Thread): seq<Thread>
  {
    if ts == [] then [thread] else [ts[0], thread] + ts[1..]
  }

  function Step(ts: seq<Thread>, e: Event): seq<Thread>
  {
    match e
    case Arrive(thread) => Inserted(ts, thread)
    case Call(live) => NextList(ts, live)
  }

  function After(ts: seq<Thread>, events: seq<Event>): seq<Thread>
    decreases |events|
  {
    if events == [] then ts else After(Step(ts, events[0]), events[1..])
  }

  /** What the calls of `next` return, in order. */
  function Results(ts: seq<Thread>, events: seq<Event>): seq<Option<Thread>>
    decreases |events|
  {
    if events == [] then [] else
      (if events[0].Call? then [NextThread(ts, events[0].live)] else []) + Results(Step(ts, events[0]), events[1..])
  }

  function Arrivals(events: seq<Event>): nat
  {
    if events == [] then 0 else (if events[0].Arrive? then 1 else 0) + Arrivals(events[1..])
  }

  /** x is live at every call. */
  ghost predicate StaysLive(events: seq<Event>, x: Thread)
  {
    forall i :: 0 <= i < |events| && events[i].Call? ==> x in events[i].live
  }

  /** x is looked at after p others. */
  ghost predicate Waits(ts: seq<Thread>, x: Thread, p: nat)
  {
    p < |ts| && Rotated(ts)[p] == x
  }

  /** A call returns x or brings it nearer. */
  lemma CallBringsNearer(ts: seq<Thread>, live: set<Thread>, x: Thread, p: nat) returns (q: nat)
    requires Waits(ts, x, p) && x in live
    ensures NextThread(ts, live) == Some(x) || (q < p && Waits(NextList(ts, live), x, q))
  {
    var k := FirstLive(Rotated(ts), live);
    assert k <= p;
    q := if k < p then p - k - 1 else 0;
    assert k < p ==> Rotated(Rotated(ts)[k..])[q] == Rotated(ts)[p];
  }

  /** An insert delays x by one. */
  lemma ArrivalDelays(ts: seq<Thread>, thread: Thread, x: Thread, p: nat)
    requires Waits(ts, x, p)
    ensures Waits(Inserted(ts, thread), x, p + 1)
  {
    assert Rotated(Inserted(ts, thread)) == [thread] + Rotated(ts);
  }

  /** Whoever else dies or arrives between the calls, a thread that stays live is returned by one of the
      first calls: one for each thread before it and one for each arrival. */
  lemma {:induction false} TurnComes(ts: seq<Thread>, events: seq<Event>, x: Thread, p: nat)
    requires Waits(ts, x, p) && StaysLive(events, x)
    requires |Results(ts, events)| > p + Arrivals(events)
    ensures Some(x) in Results(ts, events)[..p + Arrivals(events) + 1]
    decreases |events|
  {
    hide NextThread, NextList, Waits, Inserted;
    var e, rest, next := events[0], events[1..], Step(ts, events[0]);
    if e.Arrive? {
      ArrivalDelays(ts, e.thread, x, p);
      TurnComes(next, rest, x, p + 1);
      assert Results(ts, events) == Results(next, rest);
    } else {
      var q := CallBringsNearer(ts, e.live, x, p);
      var first, later := NextThread(ts, e.live), Results(next, rest);
      if first == Some(x) {
        assert Results(ts, events)[0] == Some(x);
      } else {
        TurnComes(next, rest, x, q);
        Shifted(first, later, Some(x), q + Arrivals(rest) + 1, p + Arrivals(rest) + 1);
      }
    }
  }

  lemma Shifted<T>(first: T, later: seq<T>, x: T, n: nat, m: nat)
    requires n < m <= |later| + 1 && x in later[..n]
    ensures x in ([first] + later)[..m]
  {
    var i :| 0 <= i < n && later[i] == x;
    assert ([first] + later)[..m][i + 1] == x;
  }

  /** Fairness: every thread in the list that stays live is returned within as many calls as the list is
      long, and one more for each arrival. */
  lemma EveryLiveThreadRuns(ts: seq<Thread>, events: seq<Event>, x: Thread)
    requires x in ts && StaysLive(events, x)
    requires |Results(ts, events)| >= |ts| + Arrivals(events)
    ensures Some(x) in Results(ts, events)[..|ts| + Arrivals(events)]
  {
    RotatedMembers(ts);
    var p :| 0 <= p < |Rotated(ts)| && Rotated(ts)[p] == x;
    TurnComes(ts, events, x, p);
    assert Results(ts, events)[..p + Arrivals(events) + 1] <= Results(ts, events)[..|ts| + Arrivals(events)];
  }

  /** The walk of x through a history in which nobody dies: an arrival pushes it back by one, a call brings
      it nearer by one and returns it from the front. */
  predicate Catches(events: seq<Event>, p: nat)
    decreases |events|
  {
    events != [] &&
      if events[0].Arrive? then Catches(events[1..], p + 1) else p == 0 || Catches(events[1..], p - 1)
  }

  /** The first n events have more calls than arrivals and threads before x. */
  predicate OutrunsBy(events: seq<Event>, p: nat, n: nat)
  {
    n <= |events| && n - Arrivals(events[..n]) > p + Arrivals(events[..n])
  }

  /** `all` are the threads that are ever in the list, and none of them dies. */
  ghost predicate NobodyDies(ts: seq<Thread>, events: seq<Event>, all: set<Thread>)
  {
    && (forall x :: x in ts ==> x in all)
    && (forall i :: 0 <= i < |events| ==> if events[i].Arrive? then events[i].thread in all else all <= events[i].live)
  }

  /** x is in the list, at p only. */
  ghost predicate WaitsOnce(ts: seq<Thread>, x: Thread, p: nat)
  {
    Waits(ts, x, p) && forall i :: 0 <= i < |ts| && i != p ==> Rotated(ts)[i] != x
  }

  lemma CallWithoutDeaths(ts: seq<Thread>, live: set<Thread>, x: Thread, p: nat)
    requires WaitsOnce(ts, x, p) && forall y :: y in ts ==> y in live
    ensures NextThread(ts, live) == Some(x) <==> p == 0
    ensures p > 0 ==> WaitsOnce(NextList(ts, live), x, p - 1)
    ensures forall y :: y in NextList(ts, live) ==> y in ts
  {
    RotatedMembers(ts);
    assert Rotated(ts)[0] in Rotated(ts);
    assert FirstLive(Rotated(ts), live) == 0;
    var next := NextList(ts, live);
    assert next == Rotated(ts);
    assert forall i :: 0 <= i < |ts| - 1 ==> Rotated(next)[i] == next[i + 1];
  }

  lemma ArrivalWithoutDeaths(ts: seq<Thread>, thread: Thread, x: Thread, p: nat)
    requires WaitsOnce(ts, x, p) && thread != x
    ensures WaitsOnce(Inserted(ts, thread), x, p + 1)
    ensures forall y :: y in Inserted(ts, thread) ==> y == thread || y in ts
  {
    assert Rotated(Inserted(ts, thread)) == [thread] + Rotated(ts);
  }

  /** While nobody dies, x is returned if and only if the walk catches it. */
  lemma {:induction false} ReturnedIffCaught(ts: seq<Thread>, events: seq<Event>, x: Thread, p: nat, all: set<Thread>)
    requires WaitsOnce(ts, x, p) && NobodyDies(ts, events, all) && forall i :: 0 <= i < |events| ==> events[i] != Arrive(x)
    ensures Some(x) in Results(ts, events) <==> Catches(events, p)
    decreases |events|
  {
    hide WaitsOnce, NextThread, NextList, Inserted;
    if events != [] {
      var e, rest := events[0], events[1..];
      if e.Arrive? {
        ArrivalWithoutDeaths(ts, e.thread, x, p);
        assert Results(ts, events) == Results(Inserted(ts, e.thread), rest);
        ReturnedIffCaught(Inserted(ts, e.thread), rest, x, p + 1, all);
      } else {
        CallWithoutDeaths(ts, e.live, x, p);
        var first, later := NextThread(ts, e.live), Results(NextList(ts, e.live), rest);
        assert Results(ts, events) == [first] + later;
        if p > 0 {
          ReturnedIffCaught(NextList(ts, e.live), rest, x, p - 1, all);
        }
      }
    }
  }

  lemma OutrunStep(events: seq<Event>, p: nat, n: nat)
    requires n < |events|
    ensures events[0].Arrive? ==> (OutrunsBy(events, p, n + 1) <==> OutrunsBy(events[1..], p + 1, n))
    ensures events[0].Call? && p > 0 ==> (OutrunsBy(events, p, n + 1) <==> OutrunsBy(events[1..], p - 1, n))
    ensures events[0].Call? && p == n == 0 ==> OutrunsBy(events, p, 1)
  {
    assert events[..n + 1][0] == events[0] && events[..n + 1][1..] == events[1..][..n];
  }

  lemma {:induction false} CaughtIffOutrun(events: seq<Event>, p: nat)
    ensures Catches(events, p) <==> exists n :: OutrunsBy(events, p, n)
    decreases |events|
  {
    if events != [] {
      hide OutrunsBy;
      var e, q := events[0], if events[0].Arrive? then p + 1 else if p > 0 then p - 1 else 0;
      CaughtIffOutrun(events[1..], q);
      NoneOutruns(events, p);
      if e.Call? && p == 0 {
        OutrunStep(events, p, 0);
      } else {
        if n: nat :| OutrunsBy(events[1..], q, n) {
          OutrunBound(events[1..], q, n);
          OutrunStep(events, p, n);
        }
        if m: nat :| OutrunsBy(events, p, m) {
          OutrunBound(events, p, m);
          OutrunStep(events, p, m - 1);
        }
      }
    }
  }

  lemma NoneOutruns(events: seq<Event>, p: nat)
    ensures !OutrunsBy(events, p, 0)
  {
  }

  lemma OutrunBound(events: seq<Event>, p: nat, n: nat)
    requires OutrunsBy(events, p, n)
    ensures 0 < n <= |events|
  {
  }

  /** Exactly when a thread is starved: while nobody dies, x is returned if and only if at some time there
      have been more calls than arrivals and threads before it. */
  lemma ReturnedIff(ts: seq<Thread>, events: seq<Event>, x: Thread, p: nat, all: set<Thread>)
    requires WaitsOnce(ts, x, p) && NobodyDies(ts, events, all) && forall i :: 0 <= i < |events| ==> events[i] != Arrive(x)
    ensures Some(x) in Results(ts, events) <==> exists n :: OutrunsBy(events, p, n)
  {
    ReturnedIffCaught(ts, events, x, p, all);
    CaughtIffOutrun(events, p);
  }

  /** One new thread before every call. */
  function Flood(threads: seq<Thread>, live: set<Thread>): seq<Event>
  {
    if threads == [] then [] else [Arrive(threads[0]), Call(live)] + Flood(threads[1..], live)
  }

  /** When a new live thread arrives before every call, each call returns the newest thread and nobody
      that was there before, for as long as that goes on. */
  lemma {:induction false} ArrivalsStarve(ts: seq<Thread>, threads: seq<Thread>, live: set<Thread>)
    requires forall i :: 0 <= i < |threads| ==> threads[i] in live
    ensures var events := Flood(threads, live);
            && Arrivals(events) == |Results(ts, events)| == |threads|
            && forall i :: 0 <= i < |threads| ==> Results(ts, events)[i] == Some(threads[i])
    decreases |threads|
  {
    if threads != [] {
      hide NextThread, NextList, Inserted;
      var events := Flood(threads, live);
      assert events[2..] == Flood(threads[1..], live);
      FloodOnce(ts, threads[0], live, events);
      ArrivalsStarve(NextList(Inserted(ts, threads[0]), live), threads[1..], live);
    }
  }

  lemma {:induction false} FloodOnce(ts: seq<Thread>, thread: Thread, live: set<Thread>, events: seq<Event>)
    requires |events| >= 2 && events[0] == Arrive(thread) && events[1] == Call(live) && thread in live
    ensures Arrivals(events) == 1 + Arrivals(events[2..])
    ensures Results(ts, events) == [Some(thread)] + Results(NextList(Inserted(ts, thread), live), events[2..])
  {
    hide NextThread, NextList, Inserted;
    ArrivedIsNext(ts, thread, live);
    assert events[1..][0] == Call(live) && events[1..][1..] == events[2..];
    assert Results(ts, events) == Results(Inserted(ts, thread), events[1..]);
  }

  lemma ArrivedIsNext(ts: seq<Thread>, thread: Thread, live: set<Thread>)
    requires thread in live
    ensures NextThread(Inserted(ts, thread), live) == Some(thread)
  {
    hide NextList, Rotated;
    var more := Inserted(ts, thread);
    assert more[Succ(0, |more|)] == thread;
    LookAtLive(more, live);
  }

  function Calls(live: set<Thread>, n: nat): seq<Event>
  {
    if n == 0 then [] else [Call(live)] + Calls(live, n - 1)
  }

  /** While nobody dies or arrives, the n-th call returns the n-th live thread. */
  lemma {:induction false} TurnsInOrder(ts: seq<Thread>, live: set<Thread>, n: nat)
    requires n <= |Live(Rotated(ts), live)|
    ensures |Results(ts, Calls(live, n))| == n
    ensures forall i :: 0 <= i < n ==> Results(ts, Calls(live, n))[i] == Some(Live(Rotated(ts), live)[i])
    decreases n
  {
    hide Live, Rotated, NextThread, NextList;
    if n > 0 {
      LiveThreadsExist(ts, live);
      NextRotatesLive(ts, live);
      assert Calls(live, n)[1..] == Calls(live, n - 1);
      TurnsInOrder(NextList(ts, live), live, n - 1);
    }
  }

  lemma LiveThreadsExist(ts: seq<Thread>, live: set<Thread>)
    requires Live(Rotated(ts), live) != []
    ensures NextThread(ts, live).Some?
  {
    hide NextList;
    NextRotatesLive(ts, live);
    LiveMembers(Rotated(ts), live);
    RotatedMembers(ts);
    assert Live(Rotated(ts), live)[0] in Live(Rotated(ts), live);
  }

  /* ---------------------------------------------------------------------------------------------
     The linked list
     ------------------------------------------------------------------------------------------ */

  class Node {
    var next: Node
    const thread: Thread

    constructor (thread: Thread)
      ensures this.thread == thread && next == this
    {
      this.thread := thread;
      next := this;
    }
  }

  /** The nodes form one cycle: each links to the next, the last to the first. */
  ghost predicate Cycle(ring: seq<Node>)
    reads ring
  {
    && Distinct(ring)
    && forall i {:trigger ring[i].next} :: 0 <= i < |ring| ==> ring[i].next == ring[Succ(i, |ring|)]
  }

  function Succ(i: nat, n: nat): (j: nat)
    requires i < n
    ensures j < n
  {
    if i + 1 < n then i + 1 else 0
  }

  ghost function Threads(ring: seq<Node>): (ts: seq<Thread>)
    ensures |ts| == |ring| && forall i :: 0 <= i < |ring| ==> ts[i] == ring[i].thread
  {
    seq(|ring|, i requires 0 <= i < |ring| => ring[i].thread)
  }

  lemma LookAtLive(ts: seq<Thread>, live: set<Thread>)
    requires ts != [] && ts[Succ(0, |ts|)] in live
    ensures NextList(ts, live) == Rotated(ts) && Rotated(ts)[0] == ts[Succ(0, |ts|)]
  {
  }

  lemma LookAtDead(ts: seq<Thread>, live: set<Thread>)
    requires ts != [] && ts[Succ(0, |ts|)] !in live
    ensures |ts| == 1 ==> NextList(ts, live) == []
    ensures |ts| > 1 ==> NextList(ts, live) == NextList([ts[0]] + ts[2..], live)
  {
    if |ts| > 1 {
      var less := [ts[0]] + ts[2..];
      assert Rotated(less) == Rotated(ts)[1..];
      assert Rotated(ts)[1 + FirstLive(Rotated(ts)[1..], live)..] == Rotated(ts)[1..][FirstLive(Rotated(ts)[1..], live)..];
    }
  }

  /** `THREAD_LIST`. */
  class ThreadList {
    var count: nat
    var cur: Node?
    ghost var ring: seq<Node>

    ghost predicate Valid()
      reads this, ring
    {
      && count == |ring|
      && (ring != [] ==> cur == ring[0])
      && Cycle(ring)
    }

    ghost function Nodes(): set<Node>
      reads this
    {
      set n | n in ring
    }

    constructor ()
      ensures Valid() && ring == []
    {
      count, cur, ring := 0, null, [];
    }

    /** `insert`: the new thread comes right after the current one. */
    method Insert(thread: Thread)
      requires Valid()
      modifies this, Nodes()
      ensures Valid() && fresh(Nodes() - old(Nodes()))
      ensures Threads(ring) == Inserted(Threads(old(ring)), thread)
    {
      hide Threads, Inserted;
      var node := new Node(thread);
      if count == 0 {
        node.next := node;
        cur, count := node, 1;
        ring := [node];
        ThreadsOne(node);
        return;
      }
      ghost var was := ring;
      assert ring[0] in Nodes() && ring[0].next == ring[Succ(0, |ring|)];
      node.next := cur.next;
      cur.next := node;
      count := count + 1;
      ring := [was[0], node] + was[1..];
      ThreadsInserted(was, node);
      assert node !in was;
      assert forall i :: 2 <= i < |ring| ==> ring[i] == was[i - 1] && ring[i] != was[0];
      assert Distinct(ring);
    }

    /** The current node moves on to its successor. */
    method Advance()
      requires Valid() && ring != []
      modifies this`cur, this`ring
      ensures Valid() && ring == Rotated(old(ring))
    {
      assert ring[0].next == ring[Succ(0, |ring|)];
      cur := cur.next;
      ring := Rotated(ring);
    }

    /** The successor of the current node, not itself current, is unlinked. */
    method Unlink()
      requires Valid() && |ring| > 1
      modifies this`count, this`ring, ring[0]
      ensures Valid() && ring == [old(ring)[0]] + old(ring)[2..]
    {
      ghost var was := ring;
      assert ring[0].next == ring[1] && ring[1].next == ring[Succ(1, |ring|)];
      cur.next := cur.next.next;
      count := count - 1;
      ring := [ring[0]] + ring[2..];
      assert forall i :: 1 <= i < |ring| ==> ring[i] == was[i + 1] && ring[i] != was[0];
    }

    lemma Successor()
      requires Valid() && ring != []
      ensures cur == ring[0] && cur.next == ring[Succ(0, |ring|)]
      ensures cur.next == cur <==> |ring| == 1
    {
    }

    /** `next`: goes round from the current node, unlinking dead nodes, to the first live thread.
        Whether the freed node was the last one is decided on the pointer read before freeing it. */
    method Next(live: set<Thread>) returns (r: Option<Thread>)
      requires Valid()
      modifies this, Nodes()
      ensures Valid() && Nodes() <= old(Nodes())
      ensures r == NextThread(Threads(old(ring)), live)
      ensures Threads(ring) == NextList(Threads(old(ring)), live)
    {
      hide Cycle, NextList, Threads;
      if count == 0 {
        NoThreads(live);
        return None;
      }
      while count > 0
        invariant Valid() && ring != [] && Nodes() <= old(Nodes())
        invariant NextList(Threads(ring), live) == NextList(Threads(old(ring)), live)
        decreases count
      {
        Successor();
        var n := cur.next;
        ghost var was := ring;
        if n.thread in live {
          LookAtLive(Threads(ring), live);
          Advance();
          ThreadsRotated(was);
          return Some(n.thread);
        }
        LookAtDead(Threads(ring), live);
        if n == cur {
          count := 0;
          ring := [];
          EmptyCycle();
          return None;
        }
        assert ring[0] in Nodes();
        Unlink();
        ThreadsUnlinked(was);
      }
      return None;
    }
  }

  lemma EmptyCycle()
    ensures Cycle([])
  {
  }

  lemma NoThreads(live: set<Thread>)
    ensures NextList([], live) == []
  {
  }

  lemma ThreadsRotated(ring: seq<Node>)
    ensures Threads(Rotated(ring)) == Rotated(Threads(ring))
    ensures forall n :: n in Rotated(ring) ==> n in ring
  {
  }

  lemma ThreadsOne(node: Node)
    ensures Threads([node]) == Inserted(Threads([]), node.thread)
  {
  }

  lemma ThreadsInserted(ring: seq<Node>, node: Node)
    requires ring != []
    ensures Threads([ring[0], node] + ring[1..]) == Inserted(Threads(ring), node.thread)
  {
  }

  lemma ThreadsUnlinked(ring: seq<Node>)
    requires |ring| > 1
    ensures Threads([ring[0]] + ring[2..]) == [Threads(ring)[0]] + Threads(ring)[2..]
    ensures forall n :: n in [ring[0]] + ring[2..] ==> n in ring
  {
  }

  /* ---------------------------------------------------------------------------------------------
     `try_next_thread`
     ------------------------------------------------------------------------------------------ */

  /** `Monotonic`: nanoseconds in 64 bits. */
  type Time = t: nat | t <= 0xFFFF_FFFF_FFFF_FFFF

  const MAX_TIME: Time := 0xFFFF_FFFF_FFFF_FFFF

  datatype Scan = Resume(thread: Thread) | SleepUntil(time: Time) | NoThreadsLeft

  /** Among the threads in scan order, the n-th is the first that may run. */
  ghost predicate FirstRunnable(order: seq<Thread>, wake: Thread -> Time, now: Time, n: nat, x: Thread)
  {
    && 0 < n <= |order| && order[n - 1] == x && wake(x) <= now
    && forall i :: 0 <= i < n - 1 ==> wake(order[i]) > now
  }

  /** t is the least of the wake times; of none, the largest time. */
  ghost predicate EarliestWake(order: seq<Thread>, wake: Thread -> Time, t: Time)
  {
    && (forall i :: 0 <= i < |order| ==> t <= wake(order[i]))
    && if order == [] then t == MAX_TIME else exists i :: 0 <= i < |order| && wake(order[i]) == t
  }

  /** The live threads after the current one, in cyclic order, starting with the p-th. */
  function From(order: seq<Thread>, p: nat): seq<Thread>
    requires p <= |order|
  {
    order[p..] + order[..p]
  }

  lemma NextFrom(ts: seq<Thread>, live: set<Thread>, order: seq<Thread>, p: nat)
    requires p < |order| && Live(Rotated(ts), live) == From(order, p)
    ensures NextThread(ts, live) == Some(order[p])
    ensures Live(Rotated(NextList(ts, live)), live) == From(order, p + 1)
  {
    NextRotatesLive(ts, live);
    var now := From(order, p);
    LiveMembers(Rotated(ts), live);
    RotatedMembers(ts);
    assert now[0] == order[p] && now[0] in now;
    assert now[1..] + [now[0]] == From(order, p + 1);
  }

  /** What a scan does: it resumes the first thread in cyclic order whose wake time has passed; if there
      is none it has looked at each live thread exactly once and reports the earliest wake time of all.
      It panics exactly when no thread is live.  The list moves on by one call of `next` per thread
      looked at, and one more when the scan comes back to its first thread. */
  ghost predicate Scanned(ts: seq<Thread>, live: set<Thread>, wake: Thread -> Time, now: Time, r: Scan,
                          visited: seq<Thread>, next: seq<Thread>)
  {
    var order := Live(Rotated(ts), live);
    && visited <= order
    && (r.NoThreadsLeft? <==> order == [])
    && (r.Resume? ==> FirstRunnable(order, wake, now, |visited|, r.thread))
    && (r.SleepUntil? ==> visited == order && EarliestWake(order, wake, r.time)
                          && forall i :: 0 <= i < |order| ==> wake(order[i]) > now)
    && next == After(ts, Calls(live, |visited| + if r.Resume? then 0 else 1))
  }

  /** `try_next_thread` with the set of live threads fixed. */
  method TryNextThread(list: ThreadList, live: set<Thread>, wake: Thread -> Time, now: Time) returns (r: Scan, visited: seq<Thread>)
    requires list.Valid() && Distinct(Threads(list.ring))
    modifies list, list.Nodes()
    ensures list.Valid() && list.Nodes() <= old(list.Nodes()) && Distinct(Threads(list.ring))
    ensures Scanned(old(Threads(list.ring)), live, wake, now, r, visited, Threads(list.ring))
    ensures var order := Live(Rotated(old(Threads(list.ring))), live);
            && |visited| <= |order|
            && (r.SleepUntil? ==> order != [] && exists i :: 0 <= i < |order| && wake(order[i]) == r.time)
            && Live(Rotated(Threads(list.ring)), live) == From(order, if r.SleepUntil? then 1 else |visited|)
  {
    hide Live, NextThread, NextList, Rotated, Threads, ThreadList.Valid, From, EarliestWake, FirstRunnable, After, Calls, Distinct;
    ghost var ts := Threads(list.ring);
    ghost var order := Live(Rotated(ts), live);
    ScanStart(ts, live);
    CallsStart(ts, live);
    visited := [];
    var next := list.Next(live);
    NextDistinct(ts, live);
    if next.None? {
      NobodyLive(ts, live);
      return NoThreadsLeft, [];
    }
    NextFrom(ts, live, order, 0);
    var thr, first := next.value, next.value;
    var t: Time := MAX_TIME;
    NoWakeYet(wake);
    while true
      invariant list.Valid() && list.Nodes() <= old(list.Nodes()) && Distinct(Threads(list.ring))
      invariant |visited| < |order| && visited == order[..|visited|] && thr == order[|visited|]
      invariant Live(Rotated(Threads(list.ring)), live) == From(order, |visited| + 1)
      invariant Threads(list.ring) == After(ts, Calls(live, |visited| + 1))
      invariant forall i :: 0 <= i < |visited| ==> wake(order[i]) > now
      invariant EarliestWake(visited, wake, t)
      decreases |order| - |visited|
    {
      EarlierWake(visited, wake, t, thr);
      ghost var p, was := |visited|, Threads(list.ring);
      assert order[..p + 1] == order[..p] + [order[p]];
      visited := visited + [thr];
      if wake(thr) <= now {
        FoundRunnable(order, wake, now, p);
        return Resume(thr), visited;
      }
      t := if wake(thr) < t then wake(thr) else t;
      if |visited| < |order| {
        SomeoneElse(order, |visited|);
        NextFrom(was, live, order, |visited|);
      } else {
        FromEnd(order);
        NextFrom(was, live, order, 0);
      }
      next := list.Next(live);
      NextDistinct(was, live);
      CallsAppend(ts, live, p + 1);
      thr := next.value;
      if thr == first {
        assert visited == order[..|visited|] && |visited| == |order|;
        assert visited == order;
        return SleepUntil(t), visited;
      }
    }
  }

  lemma NoWakeYet(wake: Thread -> Time)
    ensures EarliestWake([], wake, MAX_TIME)
  {
  }

  lemma EarlierWake(order: seq<Thread>, wake: Thread -> Time, t: Time, x: Thread)
    requires EarliestWake(order, wake, t)
    ensures EarliestWake(order + [x], wake, if wake(x) < t then wake(x) else t)
  {
    var more := order + [x];
    assert more[|order|] == x;
    if order != [] && wake(x) >= t {
      var i :| 0 <= i < |order| && wake(order[i]) == t;
      assert more[i] == order[i];
    }
  }

  lemma FoundRunnable(order: seq<Thread>, wake: Thread -> Time, now: Time, p: nat)
    requires p < |order| && wake(order[p]) <= now && forall i :: 0 <= i < p ==> wake(order[i]) > now
    ensures FirstRunnable(order, wake, now, p + 1, order[p])
  {
  }

  lemma FromEnd(order: seq<Thread>)
    ensures From(order, |order|) == From(order, 0)
  {
  }

  lemma CallsStart(ts: seq<Thread>, live: set<Thread>)
    ensures After(ts, Calls(live, 1)) == NextList(ts, live)
  {
    hide NextList;
    assert Calls(live, 0) == [] && Calls(live, 1) == [Call(live)];
    assert After(NextList(ts, live), []) == NextList(ts, live);
  }

  lemma {:induction false} CallsAppend(ts: seq<Thread>, live: set<Thread>, n: nat)
    ensures After(ts, Calls(live, n + 1)) == NextList(After(ts, Calls(live, n)), live)
    decreases n
  {
    hide NextList;
    assert Calls(live, n + 1)[1..] == Calls(live, n);
    if n == 0 {
      assert After(ts, Calls(live, 0)) == ts;
    } else {
      CallsAppend(NextList(ts, live), live, n - 1);
      assert Calls(live, n)[1..] == Calls(live, n - 1);
    }
  }

  lemma NextDistinct(ts: seq<Thread>, live: set<Thread>)
    requires Distinct(ts)
    ensures Distinct(NextList(ts, live))
  {
    assert Distinct(Rotated(ts));
  }

  lemma NobodyLive(ts: seq<Thread>, live: set<Thread>)
    requires NextThread(ts, live).None?
    ensures Live(Rotated(NextList(ts, live)), live) == From([], 0) == []
  {
  }

  lemma SomeoneElse(order: seq<Thread>, i: nat)
    requires Distinct(order) && 0 < i < |order|
    ensures order[i] != order[0]
  {
  }

  lemma ScanStart(ts: seq<Thread>, live: set<Thread>)
    requires Distinct(ts)
    ensures Distinct(Live(Rotated(ts), live))
    ensures NextThread(ts, live).None? <==> Live(Rotated(ts), live) == []
    ensures Live(Rotated(ts), live) == From(Live(Rotated(ts), live), 0)
  {
    NextRotatesLive(ts, live);
    LiveMembers(Rotated(ts), live);
    RotatedMembers(ts);
    var order := Live(Rotated(ts), live);
    assert order != [] ==> order[0] in order;
  }

  // ---- Repeated scans ----

  /** Threads that arrive, and then a scan. */
  datatype Round = Round(arrivals: seq<Thread>, live: set<Thread>, wake: Thread -> Time, now: Time)

  function Joined(ts: seq<Thread>, arrivals: seq<Thread>): seq<Thread>
  {
    if arrivals == [] then ts
    else Inserted(Joined(ts, arrivals[..|arrivals| - 1]), arrivals[|arrivals| - 1])
  }

  function AllArrivals(rounds: seq<Round>): seq<Thread>
  {
    if rounds == [] then [] else rounds[0].arrivals + AllArrivals(rounds[1..])
  }

  /** What a sequence of rounds did: `lists[i]` is the list before the i-th. */
  ghost predicate ScannedAll(lists: seq<seq<Thread>>, rounds: seq<Round>, results: seq<Scan>, visits: seq<seq<Thread>>)
  {
    && |lists| == |rounds| + 1 && |results| == |visits| == |rounds|
    && forall i :: 0 <= i < |rounds| ==> ScannedOnce(lists[i], rounds[i], results[i], visits[i], lists[i + 1])
  }

  ghost predicate ScannedOnce(ts: seq<Thread>, round: Round, r: Scan, visited: seq<Thread>, next: seq<Thread>)
  {
    Scanned(Joined(ts, round.arrivals), round.live, round.wake, round.now, r, visited, next)
  }

  /** x may run at every scan. */
  ghost predicate AlwaysReady(rounds: seq<Round>, x: Thread)
  {
    forall i :: 0 <= i < |rounds| ==> x in rounds[i].live && rounds[i].wake(x) <= rounds[i].now
  }

  /** The arrivals are new and different. */
  ghost predicate AreNew(ts: seq<Thread>, arrivals: seq<Thread>)
  {
    Distinct(ts) && Distinct(arrivals) && forall i :: 0 <= i < |arrivals| ==> arrivals[i] !in ts
  }

  method InsertAll(list: ThreadList, arrivals: seq<Thread>, ghost later: seq<Thread>)
    requires list.Valid() && AreNew(Threads(list.ring), arrivals + later)
    modifies list, list.Nodes()
    ensures list.Valid() && fresh(list.Nodes() - old(list.Nodes()))
    ensures Threads(list.ring) == Joined(old(Threads(list.ring)), arrivals)
    ensures AreNew(Threads(list.ring), later)
  {
    hide ThreadList.Valid, Threads, Inserted, AreNew;
    ghost var ts := Threads(list.ring);
    assert arrivals[0..] + later == arrivals + later;
    for i := 0 to |arrivals|
      invariant list.Valid() && fresh(list.Nodes() - old(list.Nodes()))
      invariant Threads(list.ring) == Joined(ts, arrivals[..i])
      invariant AreNew(Threads(list.ring), arrivals[i..] + later)
    {
      ghost var was := Threads(list.ring);
      list.Insert(arrivals[i]);
      OneArrives(was, arrivals, i, later);
      assert arrivals[..i + 1][..i] == arrivals[..i];
    }
    assert arrivals[..|arrivals|] == arrivals;
    assert arrivals[|arrivals|..] + later == later;
  }

  lemma OneArrives(ts: seq<Thread>, arrivals: seq<Thread>, i: nat, later: seq<Thread>)
    requires i < |arrivals| && AreNew(ts, arrivals[i..] + later)
    ensures AreNew(Inserted(ts, arrivals[i]), arrivals[i + 1..] + later)
  {
    var all, rest, more := arrivals[i..] + later, arrivals[i + 1..] + later, Inserted(ts, arrivals[i]);
    assert all[0] == arrivals[i] && all[1..] == rest;
    assert forall x :: x in more <==> x == arrivals[i] || x in ts;
    assert forall k :: 0 <= k < |rest| ==> rest[k] == all[k + 1];
    InsertedDistinct(ts, arrivals[i]);
  }

  lemma InsertedDistinct(ts: seq<Thread>, x: Thread)
    requires Distinct(ts) && x !in ts
    ensures Distinct(Inserted(ts, x))
  {
    assert ts != [] ==> forall k :: 2 <= k < |Inserted(ts, x)| ==> Inserted(ts, x)[k] == ts[k - 1];
  }

  /** One round after the other on the real list, with threads arriving and dying in between: a thread that may
      run at every scan is resumed within as many scans as the list is long and one more per arrival. */
  method ScanRepeatedly(list: ThreadList, rounds: seq<Round>)
    returns (results: seq<Scan>, visits: seq<seq<Thread>>, ghost lists: seq<seq<Thread>>)
    requires list.Valid() && AreNew(Threads(list.ring), AllArrivals(rounds))
    modifies list, list.Nodes()
    ensures list.Valid() && Distinct(Threads(list.ring))
    ensures ScannedAll(lists, rounds, results, visits) && lists[0] == old(Threads(list.ring)) && lists[|rounds|] == Threads(list.ring)
    ensures var bound := |lists[0]| + |AllArrivals(rounds)|;
            forall x :: x in lists[0] && AlwaysReady(rounds, x) && bound <= |rounds| ==> Resume(x) in results[..bound]
  {
    hide ScannedOnce, Scanned, Threads, AreNew, Distinct, ThreadList.Valid, AlwaysReady, Joined, AllArrivals;
    results, visits, lists := [], [], [Threads(list.ring)];
    assert rounds[0..] == rounds;
    for i := 0 to |rounds|
      invariant list.Valid() && fresh(list.Nodes() - old(list.Nodes()))
      invariant AreNew(Threads(list.ring), AllArrivals(rounds[i..]))
      invariant |lists| == i + 1 && |results| == |visits| == i
      invariant lists[0] == old(Threads(list.ring)) && lists[i] == Threads(list.ring)
      invariant forall j :: 0 <= j < i ==> ScannedOnce(lists[j], rounds[j], results[j], visits[j], lists[j + 1])
    {
      RoundArrivals(rounds, i);
      InsertAll(list, rounds[i].arrivals, AllArrivals(rounds[i + 1..]));
      ghost var was := list.ring;
      NewIsDistinct(Threads(list.ring), AllArrivals(rounds[i + 1..]));
      var r, visited := TryNextThread(list, rounds[i].live, rounds[i].wake, rounds[i].now);
      StillNew(was, list.ring, AllArrivals(rounds[i + 1..]));
      ScannedRound(lists[i], rounds[i], r, visited, Threads(list.ring));
      results, visits, lists := results + [r], visits + [visited], lists + [Threads(list.ring)];
    }
    NewIsDistinct(Threads(list.ring), AllArrivals(rounds[|rounds|..]));
    ghost var bound := |lists[0]| + |AllArrivals(rounds)|;
    forall x | x in lists[0] && AlwaysReady(rounds, x) && bound <= |rounds|
      ensures Resume(x) in results[..bound]
    {
      EveryReadyThreadResumes(lists, rounds, results, visits, x);
    }
  }

  lemma RoundArrivals(rounds: seq<Round>, i: nat)
    requires i < |rounds|
    ensures AllArrivals(rounds[i..]) == rounds[i].arrivals + AllArrivals(rounds[i + 1..])
  {
    assert rounds[i..][1..] == rounds[i + 1..];
  }

  lemma NewIsDistinct(ts: seq<Thread>, arrivals: seq<Thread>)
    requires AreNew(ts, arrivals)
    ensures Distinct(ts)
  {
  }

  lemma ScannedRound(ts: seq<Thread>, round: Round, r: Scan, visited: seq<Thread>, next: seq<Thread>)
    requires Scanned(Joined(ts, round.arrivals), round.live, round.wake, round.now, r, visited, next)
    ensures ScannedOnce(ts, round, r, visited, next)
  {
  }

  /** A scan adds nobody. */
  lemma StillNew(before: seq<Node>, after: seq<Node>, arrivals: seq<Thread>)
    requires AreNew(Threads(before), arrivals) && Distinct(Threads(after)) && forall n :: n in after ==> n in before
    ensures AreNew(Threads(after), arrivals)
  {
    forall x | x in Threads(after)
      ensures x in Threads(before)
    {
      var i :| 0 <= i < |after| && Threads(after)[i] == x;
      assert after[i] in before;
      var j :| 0 <= j < |before| && before[j] == after[i];
      assert Threads(before)[j] == x;
    }
  }

  /** Calls that do not return x bring it nearer by one each. */
  lemma {:induction false} CallsBringNearer(ts: seq<Thread>, live: set<Thread>, n: nat, x: Thread, p: nat) returns (q: nat)
    requires Waits(ts, x, p) && x in live && Some(x) !in Results(ts, Calls(live, n))
    ensures q + n <= p && Waits(After(ts, Calls(live, n)), x, q)
    decreases n
  {
    hide Waits, NextThread, NextList;
    if n == 0 {
      return p;
    }
    assert Calls(live, n)[1..] == Calls(live, n - 1);
    var results := Results(ts, Calls(live, n));
    var later := Results(NextList(ts, live), Calls(live, n - 1));
    assert results == [NextThread(ts, live)] + later;
    assert results[0] in results && (Some(x) in later ==> Some(x) in results);
    var near := CallBringsNearer(ts, live, x, p);
    q := CallsBringNearer(NextList(ts, live), live, n - 1, x, near);
  }

  lemma NotBeforeFirst(order: seq<Thread>, wake: Thread -> Time, now: Time, n: nat, y: Thread, x: Thread)
    requires FirstRunnable(order, wake, now, n, y) && wake(x) <= now && x != y
    ensures x !in order[..n]
  {
  }

  lemma NotReturned(ts: seq<Thread>, live: set<Thread>, visited: seq<Thread>, x: Thread)
    requires visited <= Live(Rotated(ts), live) && x !in visited
    ensures Some(x) !in Results(ts, Calls(live, |visited|))
  {
    hide Live, Rotated;
    TurnsInOrder(ts, live, |visited|);
  }

  /** A scan resumes a thread that may run, or brings it nearer. */
  lemma ScanBringsNearer(ts: seq<Thread>, round: Round, r: Scan, visited: seq<Thread>, next: seq<Thread>, x: Thread, p: nat)
    returns (q: nat)
    requires Scanned(ts, round.live, round.wake, round.now, r, visited, next)
    requires Waits(ts, x, p) && x in round.live && round.wake(x) <= round.now
    ensures r == Resume(x) || (q < p && Waits(next, x, q))
  {
    hide Live, After, Calls, Results, Rotated, FirstRunnable, EarliestWake;
    var order := Live(Rotated(ts), round.live);
    LiveMembers(Rotated(ts), round.live);
    q := 0;
    if r != Resume(x) {
      assert r.Resume? && |visited| > 0 by {
        assert x in order;
        SomeoneResumed(order, round, r, |visited|);
      }
      NotBeforeFirst(order, round.wake, round.now, |visited|, r.thread, x);
      NotReturned(ts, round.live, visited, x);
      q := CallsBringNearer(ts, round.live, |visited|, x, p);
    }
  }

  lemma SomeoneResumed(order: seq<Thread>, round: Round, r: Scan, n: nat)
    requires exists x :: x in order && round.wake(x) <= round.now
    requires r.NoThreadsLeft? <==> order == []
    requires r.SleepUntil? ==> forall i :: 0 <= i < |order| ==> round.wake(order[i]) > round.now
    requires r.Resume? ==> FirstRunnable(order, round.wake, round.now, n, r.thread)
    ensures r.Resume? && n > 0
  {
  }

  lemma {:induction false} ArrivalsDelay(ts: seq<Thread>, arrivals: seq<Thread>, x: Thread, p: nat)
    requires Waits(ts, x, p)
    ensures Waits(Joined(ts, arrivals), x, p + |arrivals|)
    decreases |arrivals|
  {
    hide Waits, Inserted;
    if arrivals != [] {
      var n := |arrivals| - 1;
      ArrivalsDelay(ts, arrivals[..n], x, p);
      ArrivalDelays(Joined(ts, arrivals[..n]), arrivals[n], x, p + n);
    }
  }

  /** The threads before x and the arrivals bound the number of scans. */
  lemma {:induction false} ReadyThreadResumes(lists: seq<seq<Thread>>, rounds: seq<Round>, results: seq<Scan>,
                                              visits: seq<seq<Thread>>, x: Thread, p: nat)
    requires ScannedAll(lists, rounds, results, visits)
    requires AlwaysReady(rounds, x)
    requires Waits(lists[0], x, p) && p + |AllArrivals(rounds)| < |rounds|
    ensures Resume(x) in results[..p + |AllArrivals(rounds)| + 1]
    decreases |rounds|
  {
    hide Scanned, Waits, Joined;
    var round, bound := rounds[0], p + |AllArrivals(rounds)| + 1;
    ArrivalsDelay(lists[0], round.arrivals, x, p);
    assert ScannedOnce(lists[0], round, results[0], visits[0], lists[1]);
    var q := ScanBringsNearer(Joined(lists[0], round.arrivals), round, results[0], visits[0], lists[1], x, p + |round.arrivals|);
    if results[0] == Resume(x) {
      assert results[..bound][0] == Resume(x);
    } else {
      ReadyThreadResumes(lists[1..], rounds[1..], results[1..], visits[1..], x, q);
      Shifted(results[0], results[1..], Resume(x), q + |AllArrivals(rounds[1..])| + 1, bound);
      assert [results[0]] + results[1..] == results;
    }
  }

  /** Fairness of scheduling: a thread that may run at every scan is resumed within as many scans as the
      list is long and one more per arrival, whoever else dies in between and however the wake times
      change. */
  lemma EveryReadyThreadResumes(lists: seq<seq<Thread>>, rounds: seq<Round>, results: seq<Scan>,
                                visits: seq<seq<Thread>>, x: Thread)
    requires ScannedAll(lists, rounds, results, visits)
    requires AlwaysReady(rounds, x) && x in lists[0] && |lists[0]| + |AllArrivals(rounds)| <= |rounds|
    ensures Resume(x) in results[..|lists[0]| + |AllArrivals(rounds)|]
  {
    hide ScannedOnce, AlwaysReady, AllArrivals;
    RotatedMembers(lists[0]);
    var p :| 0 <= p < |Rotated(lists[0])| && Rotated(lists[0])[p] == x;
    ReadyThreadResumes(lists, rounds, results, visits, x, p);
    assert results[..p + |AllArrivals(rounds)| + 1] <= results[..|lists[0]| + |AllArrivals(rounds)|];
  }
}
