/** Whole runs of a split virtqueue: the driver sends and collects, the device takes and completes, in any
    order and for as long as they like. */
module VirtqueueRun {
  import opened Virtqueue

  /** Each descriptor is on the free list or in exactly one chain, and only once. */
  ghost predicate Shared(size: nat, free: seq<nat>, chains: map<nat, Chain>)
  {
    && Distinct(free) && (forall d :: d in free ==> d < size)
    && (forall d :: 0 <= d < size ==> (d in free <==> forall h :: h in chains ==> d !in chains[h].ids))
    && (forall h :: h in chains ==> Distinct(chains[h].ids) && forall d :: d in chains[h].ids ==> d < size)
    && (forall h, g :: h in chains && g in chains && h != g ==> forall d :: d in chains[h].ids ==> d !in chains[g].ids)
  }

  lemma DescriptorsAreShared(q: Queue)
    requires q.Valid()
    ensures Shared(q.size, q.free, q.chains)
  {
    hide TableInv, RingInv, HeadsInv, Index16;
    forall d | 0 <= d < q.size
      ensures d in q.free <==> forall h :: h in q.chains ==> d !in q.chains[h].ids
    {
      if d in q.free {
        assert q.owner[d].None?;
      } else {
        assert q.owner[d].Some?;
      }
    }
  }

  // ---- What the parties do ----

  datatype Action = Send(segments: seq<Segment>) | Collect(during: seq<seq<DeviceAction>>) | ByDevice(action: DeviceAction)

  datatype Answer = Returned(result: SendResult) | Collected(callbacks: seq<Completion>) | Nothing

  /** The queue between actions. */
  datatype Snapshot = Snapshot(size: nat, free: seq<nat>, chains: map<nat, Chain>, device: Device)

  ghost function Shot(q: Queue): Snapshot
    reads q
  {
    Snapshot(q.size, q.free, q.chains, Device(q.avail, q.held, q.used))
  }

  ghost predicate DidSend(segments: seq<Segment>, r: SendResult, s: Snapshot, t: Snapshot)
  {
    var n := |segments|;
    && (r.Panicked? <==> n == 0 || n > 0xFFFF)
    && (r.NoBuffers? <==> 0 < n <= 0xFFFF && |s.free| < n)
    && (!r.Sent? ==> t == s)
    && (r.Sent? ==>
          && n <= |s.free| && r.token == s.free[0] && r.token !in s.chains
          && t.chains == s.chains[r.token := Chain(s.free[..n], segments)] && t.free == s.free[n..]
          && t.device == s.device.(avail := s.device.avail + [r.token]) && t.size == s.size)
  }

  ghost predicate DidCollect(during: seq<seq<DeviceAction>>, callbacks: seq<Completion>, s: Snapshot, t: Snapshot)
  {
    var heads := s.device.used;
    && |callbacks| == |heads|
    && (forall i :: 0 <= i < |callbacks| ==> CallbackFor(callbacks[i], heads[i], s.chains))
    && t.chains == s.chains - Elements(heads) && t.size == s.size
    && |t.free| == |s.free| + SegmentsOf(s.chains, heads)
    && t.device.(used := heads + t.device.used) == DeviceRounds(s.device, during, |heads|)
  }

  ghost predicate Did(action: Action, answer: Answer, s: Snapshot, t: Snapshot)
  {
    match action
    case Send(segments) => answer.Returned? && DidSend(segments, answer.result, s, t)
    case Collect(during) => answer.Collected? && DidCollect(during, answer.callbacks, s, t)
    case ByDevice(a) => answer == Nothing && t == s.(device := DeviceStep(s.device, a))
  }

  method Perform(q: Queue, action: Action) returns (answer: Answer)
    requires q.Valid()
    modifies q
    ensures q.Valid() && Did(action, answer, old(Shot(q)), Shot(q))
  {
    hide Queue.Valid, CallbackFor, Elements, SegmentsOf, DeviceRounds, DeviceSteps;
    match action {
      case Send(segments) =>
        var r := q.Send(segments);
        answer := Returned(r);
      case Collect(during) =>
        var _, callbacks := q.CollectUsed(during);
        answer := Collected(callbacks);
      case ByDevice(a) =>
        OneStep(Device(q.avail, q.held, q.used), a);
        q.DeviceActs([a]);
        answer := Nothing;
    }
  }

  lemma OneStep(d: Device, a: DeviceAction)
    ensures DeviceSteps(d, [a]) == DeviceStep(d, a)
  {
    assert [a][..0] == [];
  }

  /** `shots[i]` is the queue before action i, which got answer i. */
  ghost predicate History(actions: seq<Action>, answers: seq<Answer>, shots: seq<Snapshot>)
  {
    && |answers| == |actions| && |shots| == |actions| + 1
    && (forall i :: 0 <= i < |actions| ==> Did(actions[i], answers[i], shots[i], shots[i + 1]))
    && (forall i :: 0 <= i < |shots| ==> Outstanding(shots[i]))
  }

  /** Every head in flight is in one place, and every descriptor is free or in exactly one chain. */
  ghost predicate Outstanding(s: Snapshot)
  {
    && HeadsInv(s.device.avail, s.device.held, s.device.used, s.chains)
    && Shared(s.size, s.free, s.chains)
  }

  lemma ValidIsOutstanding(q: Queue)
    requires q.Valid()
    ensures Outstanding(Shot(q))
  {
    DescriptorsAreShared(q);
    hide Shared;
  }

  /** Any run keeps the queue valid, and every action does to it what its answer says. */
  method Run(q: Queue, actions: seq<Action>) returns (answers: seq<Answer>, ghost shots: seq<Snapshot>)
    requires q.Valid()
    modifies q
    ensures q.Valid() && History(actions, answers, shots)
    ensures shots[0] == old(Shot(q)) && shots[|actions|] == Shot(q)
  {
    hide Queue.Valid, Did, Outstanding;
    answers, shots := [], [Shot(q)];
    ValidIsOutstanding(q);
    for i := 0 to |actions|
      invariant q.Valid() && |answers| == i && |shots| == i + 1
      invariant shots[0] == old(Shot(q)) && shots[i] == Shot(q)
      invariant forall j :: 0 <= j < i ==> Did(actions[j], answers[j], shots[j], shots[j + 1])
      invariant forall j :: 0 <= j <= i ==> Outstanding(shots[j])
    {
      var a := Perform(q, actions[i]);
      ValidIsOutstanding(q);
      answers, shots := answers + [a], shots + [Shot(q)];
    }
  }

  // ---- Every request is completed once ----

  /** A request that was accepted, with the token `send` returned for it. */
  datatype Request = Request(token: nat, segments: seq<Segment>)

  /** The accepted requests in order. */
  ghost function Requests(actions: seq<Action>, answers: seq<Answer>): seq<Request>
    requires |actions| == |answers|
  {
    if actions == [] then [] else
      var n := |actions| - 1;
      Requests(actions[..n], answers[..n]) +
      if actions[n].Send? && answers[n].Returned? && answers[n].result.Sent?
      then [Request(answers[n].result.token, actions[n].segments)] else []
  }

  /** The callbacks in order. */
  ghost function Callbacks(answers: seq<Answer>): seq<Completion>
  {
    if answers == [] then [] else
      var n := |answers| - 1;
      Callbacks(answers[..n]) + if answers[n].Collected? then answers[n].callbacks else []
  }

  /** Chains in flight have different numbers and hold the requests of those numbers. */
  ghost predicate Numbered(sent: seq<Request>, number: map<nat, nat>, chains: map<nat, Chain>)
  {
    && number.Keys == chains.Keys
    && (forall h :: h in chains ==> number[h] < |sent| && sent[number[h]] == Request(h, chains[h].segments))
    && (forall h, g :: h in number && g in number && h != g ==> number[h] != number[g])
  }

  /** Every number is finished or in flight, not both, and is finished once. */
  ghost predicate Accounts(total: nat, finished: seq<nat>, number: map<nat, nat>)
  {
    && (forall i :: 0 <= i < |finished| ==> finished[i] < total)
    && Distinct(finished)
    && (forall h :: h in number ==> number[h] !in finished)
    && (forall n: nat :: n < total ==> n in finished || InFlight(n, number))
  }

  ghost predicate InFlight(n: nat, number: map<nat, nat>)
  {
    exists h :: h in number && number[h] == n
  }

  /** Requests are numbered in the order they were sent.  `number` numbers the chains in flight and
      `finished` lists the completed requests: together every request, each once. */
  ghost predicate Ledger(sent: seq<Request>, finished: seq<nat>, number: map<nat, nat>, chains: map<nat, Chain>)
  {
    Numbered(sent, number, chains) && Accounts(|sent|, finished, number)
  }

  lemma LedgerSend(sent: seq<Request>, finished: seq<nat>, number: map<nat, nat>, chains: map<nat, Chain>,
                   h: nat, chain: Chain)
    requires Ledger(sent, finished, number, chains) && h !in chains
    ensures Ledger(sent + [Request(h, chain.segments)], finished, number[h := |sent|], chains[h := chain])
  {
    AccountsSend(|sent|, finished, number, h);
    hide Accounts;
  }

  lemma AccountsSend(total: nat, finished: seq<nat>, number: map<nat, nat>, h: nat)
    requires Accounts(total, finished, number) && h !in number
    ensures Accounts(total + 1, finished, number[h := total])
  {
    hide Distinct;
    var numbers := number[h := total];
    forall n: nat | n < total + 1
      ensures n in finished || InFlight(n, numbers)
    {
      if n == total {
        assert numbers[h] == n;
      } else if n !in finished {
        var g :| g in number && number[g] == n;
        assert numbers[g] == n;
      }
    }
  }

  lemma LedgerFinish(sent: seq<Request>, finished: seq<nat>, number: map<nat, nat>, chains: map<nat, Chain>, h: nat)
    requires Ledger(sent, finished, number, chains) && h in chains
    ensures Ledger(sent, finished + [number[h]], number - {h}, chains - {h})
  {
    AccountsFinish(|sent|, finished, number, h);
    hide Accounts;
  }

  lemma AccountsFinish(total: nat, finished: seq<nat>, number: map<nat, nat>, h: nat)
    requires Accounts(total, finished, number) && h in number && number[h] < total
    requires forall g, g' :: g in number && g' in number && g != g' ==> number[g] != number[g']
    ensures Accounts(total, finished + [number[h]], number - {h})
  {
    var more, numbers := finished + [number[h]], number - {h};
    forall n: nat | n < total
      ensures n in more || InFlight(n, numbers)
    {
      if n in finished || n == number[h] {
        assert n in more;
      } else {
        var g :| g in number && number[g] == n;
        assert numbers[g] == n;
      }
    }
  }

  ghost function Numbers(number: map<nat, nat>, heads: seq<nat>): seq<nat>
    requires forall i :: 0 <= i < |heads| ==> heads[i] in number
  {
    seq(|heads|, i requires 0 <= i < |heads| => number[heads[i]])
  }

  lemma NumbersStep(finished: seq<nat>, number: map<nat, nat>, heads: seq<nat>)
    requires heads != [] && forall i :: 0 <= i < |heads| ==> heads[i] in number
    ensures var k := |heads| - 1;
            finished + Numbers(number, heads) == finished + Numbers(number, heads[..k]) + [number[heads[k]]]
  {
  }

  lemma RemoveOne<V>(m: map<nat, V>, gone: set<nat>, h: nat)
    ensures m - (gone + {h}) == m - gone - {h}
  {
  }

  lemma LedgerNext(sent: seq<Request>, finished: seq<nat>, number: map<nat, nat>, chains: map<nat, Chain>, heads: seq<nat>)
    requires heads != [] && Distinct(heads) && number.Keys == chains.Keys
    requires forall i :: 0 <= i < |heads| ==> heads[i] in number
    requires var front := heads[..|heads| - 1];
             Ledger(sent, finished + Numbers(number, front), number - Elements(front), chains - Elements(front))
    ensures Ledger(sent, finished + Numbers(number, heads), number - Elements(heads), chains - Elements(heads))
  {
    hide Ledger, Elements, Numbers;
    var k := |heads| - 1;
    var front, h := heads[..k], heads[k];
    MoreElements(heads, k);
    assert heads[..k + 1] == heads;
    assert h !in front;
    LedgerFinish(sent, finished + Numbers(number, front), number - Elements(front), chains - Elements(front), h);
    NumbersStep(finished, number, heads);
    RemoveOne(number, Elements(front), h);
    RemoveOne(chains, Elements(front), h);
  }

  lemma {:induction false} LedgerCollect(sent: seq<Request>, finished: seq<nat>, number: map<nat, nat>,
                                         chains: map<nat, Chain>, heads: seq<nat>)
    requires Ledger(sent, finished, number, chains) && Distinct(heads)
    requires forall i :: 0 <= i < |heads| ==> heads[i] in number
    ensures Ledger(sent, finished + Numbers(number, heads), number - Elements(heads), chains - Elements(heads))
    decreases |heads|
  {
    if heads == [] {
      assert finished + Numbers(number, heads) == finished;
      assert number - Elements(heads) == number && chains - Elements(heads) == chains;
    } else {
      LedgerCollect(sent, finished, number, chains, heads[..|heads| - 1]);
      LedgerNext(sent, finished, number, chains, heads);
    }
  }

  lemma UsedHeads(avail: seq<nat>, held: set<nat>, used: seq<nat>, chains: map<nat, Chain>)
    requires HeadsInv(avail, held, used, chains)
    ensures Distinct(used) && forall i :: 0 <= i < |used| ==> used[i] in chains
  {
    var all := multiset(chains.Keys);
    assert multiset(used) <= all;
    forall i, j | 0 <= i < j < |used|
      ensures used[i] != used[j]
    {
      assert used == used[..j] + used[j..];
      assert used[i] in used[..j] && used[j] in used[j..];
      assert multiset(used)[used[j]] <= all[used[j]] <= 1;
    }
    forall i | 0 <= i < |used|
      ensures used[i] in chains
    {
      assert used[i] in multiset(used);
      assert used[i] in all;
    }
  }

  /** The callback names the token and the first segment of the request. */
  ghost predicate Reports(done: Completion, r: Request)
  {
    r.segments != [] && done == Completion(r.token, r.segments[0].address, r.segments[0].length)
  }

  /** Each callback reports the request whose number is in `finished`. */
  ghost predicate Reported(sent: seq<Request>, finished: seq<nat>, callbacks: seq<Completion>)
  {
    && |finished| == |callbacks|
    && forall i :: 0 <= i < |callbacks| ==> finished[i] < |sent| && Reports(callbacks[i], sent[finished[i]])
  }

  lemma ReportedMore(sent: seq<Request>, finished: seq<nat>, callbacks: seq<Completion>, r: Request)
    requires Reported(sent, finished, callbacks)
    ensures Reported(sent + [r], finished, callbacks)
  {
  }

  lemma ReportedCollect(sent: seq<Request>, finished: seq<nat>, callbacks: seq<Completion>, number: map<nat, nat>,
                        chains: map<nat, Chain>, heads: seq<nat>, more: seq<Completion>)
    requires Reported(sent, finished, callbacks) && Ledger(sent, finished, number, chains)
    requires |more| == |heads| && forall i :: 0 <= i < |more| ==> CallbackFor(more[i], heads[i], chains)
    ensures forall i :: 0 <= i < |heads| ==> heads[i] in number
    ensures Reported(sent, finished + Numbers(number, heads), callbacks + more)
  {
    hide Accounts;
  }

  // ---- Descriptors are not lost ----

  function Total(sent: seq<Request>): nat
  {
    if sent == [] then 0 else Total(sent[..|sent| - 1]) + |sent[|sent| - 1].segments|
  }

  /** The segments of the finished requests. */
  function Finished(sent: seq<Request>, finished: seq<nat>): nat
  {
    if finished == [] then 0 else
      var n := finished[|finished| - 1];
      Finished(sent, finished[..|finished| - 1]) + if n < |sent| then |sent[n].segments| else 0
  }

  /** The segments in flight and the free descriptors make up the table. */
  ghost predicate Balanced(s: Snapshot, sent: seq<Request>, finished: seq<nat>)
  {
    |s.free| + Total(sent) == s.size + Finished(sent, finished)
  }

  lemma TotalMore(sent: seq<Request>, r: Request)
    ensures Total(sent + [r]) == Total(sent) + |r.segments|
  {
    assert (sent + [r])[..|sent|] == sent;
  }

  lemma {:induction false} FinishedSame(sent: seq<Request>, r: Request, finished: seq<nat>)
    requires forall i :: 0 <= i < |finished| ==> finished[i] < |sent|
    ensures Finished(sent + [r], finished) == Finished(sent, finished)
    decreases |finished|
  {
    if finished != [] {
      FinishedSame(sent, r, finished[..|finished| - 1]);
    }
  }

  lemma {:induction false} FinishedMore(sent: seq<Request>, finished: seq<nat>, number: map<nat, nat>,
                                        chains: map<nat, Chain>, heads: seq<nat>)
    requires Numbered(sent, number, chains) && forall i :: 0 <= i < |heads| ==> heads[i] in number
    ensures Finished(sent, finished + Numbers(number, heads)) == Finished(sent, finished) + SegmentsOf(chains, heads)
    decreases |heads|
  {
    if heads == [] {
      assert finished + Numbers(number, heads) == finished;
    } else {
      hide Numbered;
      var k := |heads| - 1;
      FinishedMore(sent, finished, number, chains, heads[..k]);
      NumbersStep(finished, number, heads);
      NumberedHead(sent, number, chains, heads[k]);
      var all := finished + Numbers(number, heads);
      assert all[..|all| - 1] == finished + Numbers(number, heads[..k]) && all[|all| - 1] == number[heads[k]];
    }
  }

  lemma NumberedHead(sent: seq<Request>, number: map<nat, nat>, chains: map<nat, Chain>, h: nat)
    requires Numbered(sent, number, chains) && h in number
    ensures h in chains && number[h] < |sent| && sent[number[h]].segments == chains[h].segments
  {
  }

  lemma SendBalances(s: Snapshot, t: Snapshot, sent: seq<Request>, finished: seq<nat>, number: map<nat, nat>, r: Request)
    requires Balanced(s, sent, finished) && Ledger(sent, finished, number, s.chains)
    requires t.size == s.size && |t.free| + |r.segments| == |s.free|
    ensures Balanced(t, sent + [r], finished)
  {
    hide Total, Finished, Numbered;
    TotalMore(sent, r);
    FinishedSame(sent, r, finished);
  }

  lemma CollectBalances(s: Snapshot, t: Snapshot, sent: seq<Request>, finished: seq<nat>, number: map<nat, nat>, heads: seq<nat>)
    requires Balanced(s, sent, finished) && Ledger(sent, finished, number, s.chains)
    requires forall i :: 0 <= i < |heads| ==> heads[i] in number
    requires t.size == s.size && |t.free| == |s.free| + SegmentsOf(s.chains, heads)
    ensures Balanced(t, sent, finished + Numbers(number, heads))
  {
    hide Total, Finished, Numbered, SegmentsOf, Numbers, Accounts;
    FinishedMore(sent, finished, number, s.chains, heads);
  }

  lemma AllFree(s: Snapshot)
    requires Outstanding(s) && s.chains == map[]
    ensures Balanced(s, [], [])
  {
    assert Elements(s.free) == Below(s.size);
    ElementsCard(s.free);
  }

  /** One action. */
  lemma ActionKeepsLedger(action: Action, answer: Answer, s: Snapshot, t: Snapshot, sent: seq<Request>,
                          callbacks: seq<Completion>, finished: seq<nat>, number: map<nat, nat>)
    returns (finished': seq<nat>, number': map<nat, nat>)
    requires Did(action, answer, s, t) && Outstanding(s)
    requires Ledger(sent, finished, number, s.chains) && Reported(sent, finished, callbacks) && Balanced(s, sent, finished)
    ensures var sent' := sent + if action.Send? && answer.Returned? && answer.result.Sent?
                                then [Request(answer.result.token, action.segments)] else [];
            var callbacks' := callbacks + if answer.Collected? then answer.callbacks else [];
            Ledger(sent', finished', number', t.chains) && Reported(sent', finished', callbacks') && Balanced(t, sent', finished')
  {
    hide Ledger, Reported, Elements, Numbers, CallbackFor, DeviceRounds, Distinct, Shared, SegmentsOf, Total, Finished;
    finished', number' := finished, number;
    assert sent + [] == sent && callbacks + [] == callbacks;
    match action
    case Send(segments) =>
      var r := answer.result;
      if r.Sent? {
        LedgerSend(sent, finished, number, s.chains, r.token, t.chains[r.token]);
        ReportedMore(sent, finished, callbacks, Request(r.token, segments));
        SendBalances(s, t, sent, finished, number, Request(r.token, segments));
        number' := number[r.token := |sent|];
      }
    case Collect(during) =>
      var heads := s.device.used;
      UsedHeads(s.device.avail, s.device.held, heads, s.chains);
      ReportedCollect(sent, finished, callbacks, number, s.chains, heads, answer.callbacks);
      LedgerCollect(sent, finished, number, s.chains, heads);
      CollectBalances(s, t, sent, finished, number, heads);
      finished', number' := finished + Numbers(number, heads), number - Elements(heads);
    case ByDevice(_) =>
  }

  /** Exactly once, in every history from an idle queue: the callbacks belong to different requests, each
      names the token and first segment of its own request, and every request that had no callback is still
      in flight as it was submitted. */
  lemma {:induction false} ExactlyOnce(actions: seq<Action>, answers: seq<Answer>, shots: seq<Snapshot>)
    returns (finished: seq<nat>, number: map<nat, nat>)
    requires History(actions, answers, shots) && shots[0].chains == map[]
    ensures Ledger(Requests(actions, answers), finished, number, shots[|actions|].chains)
    ensures Reported(Requests(actions, answers), finished, Callbacks(answers))
    ensures Balanced(shots[|actions|], Requests(actions, answers), finished)
    decreases |actions|
  {
    if actions == [] {
      finished, number := [], map[];
      AllFree(shots[0]);
    } else {
      hide Ledger, Reported, Balanced, Did, Outstanding;
      var n := |actions| - 1;
      finished, number := ExactlyOnce(actions[..n], answers[..n], shots[..n + 1]);
      finished, number := ActionKeepsLedger(actions[n], answers[n], shots[n], shots[n + 1],
        Requests(actions[..n], answers[..n]), Callbacks(answers[..n]), finished, number);
    }
  }

  /** When a send is refused, as its caller sees it: the segments of the requests that had no callback yet
      and the new ones are more than the table has descriptors. */
  lemma RefusedIff(actions: seq<Action>, answers: seq<Answer>, shots: seq<Snapshot>, n: nat)
    returns (finished: seq<nat>, number: map<nat, nat>)
    requires History(actions, answers, shots) && shots[0].chains == map[] && n < |actions| && actions[n].Send?
    ensures var sent := Requests(actions[..n], answers[..n]);
            && Ledger(sent, finished, number, shots[n].chains) && Reported(sent, finished, Callbacks(answers[..n]))
            && answers[n].Returned?
            && (answers[n].result.NoBuffers? <==>
                  && 0 < |actions[n].segments| <= 0xFFFF
                  && Total(sent) - Finished(sent, finished) + |actions[n].segments| > shots[n].size)
  {
    hide Ledger, Reported, Outstanding, Total, Finished;
    finished, number := ExactlyOnce(actions[..n], answers[..n], shots[..n + 1]);
    assert Did(actions[n], answers[n], shots[n], shots[n + 1]);
  }
}
