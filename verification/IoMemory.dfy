/** The I/O queue down to single memory accesses.  Both rings are `SpscRing` machines whose loads, entry
    accesses and stores interleave, with the program's thread and the kernel in the middle of ring
    operations at any time.  Every access is a step of `IoProtocol` or none. */
module IoMemory {
  import opened Wrappers
  import P = IoProtocol
  import R = SpscRing

  /** `s` is the state of the protocol.  `submitting` is the submission the program is in the middle of and
      `todo` a response the kernel has computed and not begun to enqueue. */
  datatype World = World(
    s: P.State,
    requests: R.State<P.Request>,
    responses: R.State<P.Response>,
    submitting: Option<P.Step>,
    todo: Option<P.Response>)

  datatype Access =
    // the program
    | SubmitStart(step: P.Step)
    | SubmitAccess
    | ReceiveStart
    | ReceiveAccess
    | Local(step: P.Step)
    // the kernel
    | TakeStart
    | TakeAccess(reply: P.Reply)
    | FinishTicket(index: nat, value: int, created: set<P.Handle>)
    | PushStart
    | PushAccess
    | Objects(objects: set<P.Handle>)

  predicate ProgramIdle(w: World)
  {
    w.submitting.None? && w.requests.producer.ProducerIdle? && w.responses.consumer.ConsumerIdle?
  }

  predicate KernelIdle(w: World)
  {
    w.todo.None? && w.requests.consumer.ConsumerIdle? && w.responses.producer.ProducerIdle?
  }

  predicate IsSubmission(step: P.Step)
  {
    step.Submit? || step.SubmitClose?
  }

  function RequestOf(s: P.State, step: P.Step): P.Request
    requires IsSubmission(step)
  {
    if step.Submit? then P.Request(step.verb, step.handle, P.Item(s.submitted, step.slot.index, step.buffers))
    else P.Request(P.Close, step.target, P.Item(s.submitted, P.CLOSE_USER_DATA, {}))
  }

  /** The access stores the index that completes the operation. */
  predicate Completes<E>(r: R.State<E>, step: R.Step<E>)
  {
    (step.Produce? && r.producer.EntryWritten?) || (step.Consume? && r.consumer.EntryRead?)
  }

  ghost predicate Enabled(w: World, a: Access)
  {
    match a
    case SubmitStart(step) =>
      ProgramIdle(w) && IsSubmission(step) && P.Enabled(w.s, step) && w.s.inFlight < w.s.responseCap
    case SubmitAccess => w.submitting.Some? && !w.requests.producer.ProducerIdle?
    case ReceiveStart => ProgramIdle(w)
    case ReceiveAccess => w.submitting.None? && !w.responses.consumer.ConsumerIdle?
    case Local(step) =>
      && ProgramIdle(w) && (step.PollFuture? || step.DropFuture? || step.ForgetFuture? || step.FreeBuffer?)
      && P.Enabled(w.s, step) && !P.Panics(w.s, step)
    case TakeStart => KernelIdle(w)
    case TakeAccess(reply) => w.todo.None? && !w.requests.consumer.ConsumerIdle?
    case FinishTicket(index, _, _) => KernelIdle(w) && index < |w.s.pending|
    case PushStart => w.todo.Some? && w.responses.producer.ProducerIdle?
    case PushAccess => w.todo.None? && !w.responses.producer.ProducerIdle?
    case Objects(_) => true
  }

  /** The protocol step of an access, if it is one: a submission and a reception when their index is stored,
      a request when the kernel has dequeued it. */
  function StepOf(w: World, a: Access): Option<P.Step>
  {
    match a
    case SubmitAccess => if Completes(w.requests, R.Produce) then w.submitting else None
    case ReceiveAccess => if Completes(w.responses, R.Consume) then Some(P.Receive) else None
    case Local(step) => Some(step)
    case TakeAccess(reply) => if Completes(w.requests, R.Consume) then Some(P.Take(reply)) else None
    case FinishTicket(index, value, created) => Some(P.PollTicket(index, value, created))
    case Objects(objects) => Some(P.ChangeObjects(objects))
    case _ => None
  }

  ghost function Moved(w: World, a: Access): P.State
    requires StepOf(w, a).Some? ==> P.Enabled(w.s, StepOf(w, a).value) && !P.Panics(w.s, StepOf(w, a).value)
  {
    if StepOf(w, a).Some? then P.Exec(w.s, StepOf(w, a).value) else w.s
  }

  /** The response that the kernel has to enqueue for a step. */
  function Answer(s: P.State, step: P.Step): Option<P.Response>
    requires step.Take? ==> s.requests != []
    requires step.PollTicket? ==> step.index < |s.pending|
  {
    match step
    case PollTicket(index, value, _) => Some(P.Response(s.pending[index], value))
    case Take(reply) =>
      var r := s.requests[0];
      if r.handle !in s.objects then Some(P.Response(r.item, P.INVALID_OBJECT))
      else if r.verb.Close? then None
      else if r.verb.Share? && r.verb.share !in s.objects then Some(P.Response(r.item, P.INVALID_OBJECT))
      else if reply.Pending? then None
      else Some(P.Response(r.item, reply.value))
    case _ => None
  }

  ghost function Exec(w: World, a: Access): World
    requires R.Shaped(w.requests) && R.Shaped(w.responses) && Enabled(w, a)
    requires StepOf(w, a).Some? ==> P.Enabled(w.s, StepOf(w, a).value) && !P.Panics(w.s, StepOf(w, a).value)
  {
    var t := w.(s := Moved(w, a));
    match a
    case SubmitStart(step) => t.(requests := R.Exec(w.requests, R.Enqueue(RequestOf(w.s, step))), submitting := Some(step))
    case SubmitAccess =>
      var r := R.Exec(w.requests, R.Produce);
      t.(requests := r, submitting := if r.producer.ProducerIdle? then None else w.submitting)
    case ReceiveStart => t.(responses := R.Exec(w.responses, R.Dequeue))
    case ReceiveAccess => t.(responses := R.Exec(w.responses, R.Consume))
    case Local(_) => t
    case TakeStart => t.(requests := R.Exec(w.requests, R.Dequeue))
    case TakeAccess(_) =>
      t.(requests := R.Exec(w.requests, R.Consume),
         todo := if StepOf(w, a).Some? then Answer(w.s, StepOf(w, a).value) else None)
    case FinishTicket(_, _, _) => t.(todo := Answer(w.s, StepOf(w, a).value))
    case PushStart => t.(responses := R.Exec(w.responses, R.Enqueue(w.todo.value)), todo := None)
    case PushAccess => t.(responses := R.Exec(w.responses, R.Produce))
    case Objects(_) => t
  }

  /** The response the kernel has in hand. */
  ghost function InHand(w: World): seq<P.Response>
  {
    if w.todo.Some? then [w.todo.value]
    else
      match w.responses.producer
      case ProducerIdle => []
      case ReadLoaded(e, _, _) => [e]
      case WriteLoaded(e, _, _, _) => [e]
      case EntryWritten(e, _) => [e]
  }

  ghost predicate RequestsAgree(w: World)
  {
    && R.Inv(w.requests) && w.requests.cap == w.s.requestCap
    && w.s.requests == R.Queue(w.requests)
    && (w.submitting.Some? <==> !w.requests.producer.ProducerIdle?)
    && (w.submitting.Some? ==>
          && w.responses.consumer.ConsumerIdle?
          && IsSubmission(w.submitting.value) && P.Enabled(w.s, w.submitting.value) && w.s.inFlight < w.s.responseCap
          && Entry(w.requests.producer) == Some(RequestOf(w.s, w.submitting.value)))
  }

  function Entry<E>(p: R.Producer<E>): Option<E>
  {
    match p
    case ProducerIdle => None
    case ReadLoaded(e, _, _) => Some(e)
    case WriteLoaded(e, _, _, _) => Some(e)
    case EntryWritten(e, _) => Some(e)
  }

  /** The kernel is in one operation at a time, and what it enqueues has room since it began. */
  ghost predicate ResponsesAgree(w: World)
  {
    && R.Inv(w.responses) && w.responses.cap == w.s.responseCap
    && w.s.responses == R.Queue(w.responses) + InHand(w)
    && |w.s.responses| <= w.s.responseCap
    && (w.todo.Some? ==> w.responses.producer.ProducerIdle? && w.requests.consumer.ConsumerIdle?)
    && (!w.requests.consumer.ConsumerIdle? ==> w.responses.producer.ProducerIdle? && w.todo.None?)
    && (w.responses.producer.ReadLoaded? ==> |w.responses.pushed| < w.responses.producer.at + w.responses.cap)
    && (w.responses.producer.WriteLoaded? ==> |w.responses.pushed| < w.responses.producer.at + w.responses.cap)
  }

  ghost predicate Agrees(w: World)
  {
    RequestsAgree(w) && ResponsesAgree(w)
  }

  // ---- The kernel's steps leave the program alone, and the other way round ----

  predicate ByKernel(step: P.Step)
  {
    step.Take? || step.PollTicket? || step.ChangeObjects?
  }

  lemma KernelLeavesProgram(s: P.State, step: P.Step)
    requires ByKernel(step) && P.Enabled(s, step) && !P.Panics(s, step)
    ensures var t := P.Exec(s, step);
            && t.slots == s.slots && t.callers == s.callers && t.inFlight == s.inFlight && t.submitted == s.submitted
            && t.requestCap == s.requestCap && t.responseCap == s.responseCap
            && t.requests == if step.Take? then s.requests[1..] else s.requests
  {
    hide P.ExecTake, P.ExecPollTicket;
    if !step.ChangeObjects? {
      P.KernelFrame(s, step);
    }
  }

  /** What the kernel has to enqueue finds room. */
  lemma AnswerHasRoom(s: P.State, step: P.Step)
    requires P.Inv(s) && (step.Take? || step.PollTicket?) && P.Enabled(s, step) && !P.DeadClose(s, step)
    ensures Answer(s, step).Some? ==> |s.responses| < s.responseCap
  {
    hide P.Inv;
    if Answer(s, step).Some? {
      var item := Answer(s, step).value.item;
      if step.Take? {
        P.HeadIsAnswerable(s.requests);
      }
      P.NoResponseIsDropped(s, item, 0);
    }
  }

  lemma AnswerIsAppended(s: P.State, step: P.Step)
    requires (step.Take? || step.PollTicket?) && P.Enabled(s, step)
    requires Answer(s, step).Some? ==> |s.responses| < s.responseCap
    ensures P.Exec(s, step).responses == s.responses + if Answer(s, step).Some? then [Answer(s, step).value] else []
  {
    assert s.responses + [] == s.responses;
  }

  lemma KernelAnswers(s: P.State, step: P.Step)
    requires P.Inv(s) && (step.Take? || step.PollTicket?) && P.Enabled(s, step) && !P.DeadClose(s, step)
    ensures P.Exec(s, step).responses == s.responses + if Answer(s, step).Some? then [Answer(s, step).value] else []
    ensures |P.Exec(s, step).responses| <= s.responseCap
  {
    hide P.Inv, P.Exec, P.DeadClose, Answer;
    ResponsesFit(s);
    AnswerHasRoom(s, step);
    AnswerIsAppended(s, step);
  }

  lemma ResponsesFit(s: P.State)
    requires P.Inv(s)
    ensures |s.responses| <= s.responseCap
  {
    P.AnsweredItems(s.responses);
    hide P.TagInv, P.AnswerInv, P.FutureInv, P.BufferInv, P.CountInv;
  }

  lemma LocalLeavesRings(s: P.State, step: P.Step)
    requires step.PollFuture? || step.DropFuture? || step.ForgetFuture? || step.FreeBuffer?
    requires P.Enabled(s, step) && !P.Panics(s, step)
    ensures var t := P.Exec(s, step);
            && t.requests == s.requests && t.responses == s.responses
            && t.requestCap == s.requestCap && t.responseCap == s.responseCap
  {
  }

  lemma SubmissionAppends(s: P.State, step: P.Step)
    requires IsSubmission(step) && P.Enabled(s, step) && P.Accepts(s)
    ensures !P.Panics(s, step)
    ensures var t := P.Exec(s, step);
            && t.requests == s.requests + [RequestOf(s, step)] && t.responses == s.responses
            && t.requestCap == s.requestCap && t.responseCap == s.responseCap
  {
  }

  // ---- Every access ----

  /** The protocol step that an access stands for is possible and does not panic. */
  lemma StepIsPossible(w: World, a: Access)
    requires Agrees(w) && P.Inv(w.s) && Enabled(w, a) && StepOf(w, a).Some?
    ensures P.Enabled(w.s, StepOf(w, a).value) && !P.Panics(w.s, StepOf(w, a).value)
  {
    hide P.Inv;
    match a
    case ReceiveAccess =>
      assert w.s.responses != [];
      P.NoStepPanics(w.s, P.Receive);
    case _ =>
  }

  /** What one access does to a ring, without the ring's inside. */
  lemma RingAccess<E>(r: R.State<E>, step: R.Step<E>)
    requires R.Inv(r) && R.Enabled(r, step)
    ensures R.Shaped(r) && R.Inv(R.Exec(r, step)) && r.popped <= r.pushed
    ensures var t := R.Exec(r, step);
            && t.popped <= t.pushed && t.cap == r.cap
            && R.Queue(t) == (if step.Consume? && r.consumer.EntryRead? then R.Queue(r)[1..] else R.Queue(r))
                           + (if step.Produce? && r.producer.EntryWritten? then [r.producer.entry] else [])
            && (step.Produce? && r.producer.EntryWritten? ==> |R.Queue(r)| < r.cap)
            && (step.Consume? && r.consumer.EntryRead? ==> R.Queue(r) != [] && r.consumer.entry == R.Queue(r)[0])
            && (step.Enqueue? || step.Produce? ==> t.consumer == r.consumer)
            && (step.Dequeue? || step.Consume? ==> t.producer == r.producer)
  {
    R.StepRefinesFifo(r, step);
    hide R.MemoryInv, R.ProducerInv, R.ConsumerInv;
    var t := R.Exec(r, step);
    assert R.Queue(r) + [] == R.Queue(r) && R.Queue(r)[..] == R.Queue(r);
  }

  lemma SubmitKeeps(w: World, a: Access)
    requires Agrees(w) && P.Inv(w.s) && Enabled(w, a) && (a.SubmitStart? || a.SubmitAccess?)
    ensures StepOf(w, a).Some? ==> P.Enabled(w.s, StepOf(w, a).value) && !P.Panics(w.s, StepOf(w, a).value)
    ensures R.Shaped(w.requests) && R.Shaped(w.responses) && Agrees(Exec(w, a))
  {
    hide R.Inv, R.Queue, P.Inv, P.Enabled, P.Exec, P.Panics;
    R.InvShape(w.responses);
    RingAccess(w.requests, if a.SubmitStart? then R.Enqueue(RequestOf(w.s, a.step)) else R.Produce);
    if StepOf(w, a).Some? {
      SubmissionAppends(w.s, w.submitting.value);
    }
  }

  lemma ReceiveKeeps(w: World, a: Access)
    requires Agrees(w) && P.Inv(w.s) && Enabled(w, a) && (a.ReceiveStart? || a.ReceiveAccess?)
    ensures StepOf(w, a).Some? ==> P.Enabled(w.s, StepOf(w, a).value) && !P.Panics(w.s, StepOf(w, a).value)
    ensures R.Shaped(w.requests) && R.Shaped(w.responses) && Agrees(Exec(w, a))
  {
    hide R.Inv, R.Queue, P.Inv, P.Exec;
    R.InvShape(w.requests);
    RingAccess(w.responses, if a.ReceiveStart? then R.Dequeue else R.Consume);
    if StepOf(w, a).Some? {
      P.NoStepPanics(w.s, P.Receive);
      ReceiveDrops(w.s);
    }
  }

  lemma ReceiveDrops(s: P.State)
    requires s.responses != [] && !P.Panics(s, P.Receive)
    ensures var t := P.Exec(s, P.Receive);
            && t.responses == s.responses[1..] && t.requests == s.requests
            && t.requestCap == s.requestCap && t.responseCap == s.responseCap
  {
  }

  lemma LocalKeeps(w: World, a: Access)
    requires Agrees(w) && Enabled(w, a) && a.Local?
    ensures R.Shaped(w.requests) && R.Shaped(w.responses) && Agrees(Exec(w, a))
  {
    hide R.Inv, R.Queue, P.Exec;
    R.InvShape(w.requests);
    R.InvShape(w.responses);
    LocalLeavesRings(w.s, a.step);
  }

  lemma TakeKeeps(w: World, a: Access)
    requires Agrees(w) && P.Inv(w.s) && Enabled(w, a) && (a.TakeStart? || a.TakeAccess?)
    requires StepOf(w, a).Some? ==> !P.DeadClose(w.s, StepOf(w, a).value)
    ensures StepOf(w, a).Some? ==> P.Enabled(w.s, StepOf(w, a).value) && !P.Panics(w.s, StepOf(w, a).value)
    ensures R.Shaped(w.requests) && R.Shaped(w.responses) && Agrees(Exec(w, a))
  {
    hide R.Inv, R.Queue, P.Inv, P.Exec, P.DeadClose, Answer;
    R.InvShape(w.responses);
    RingAccess(w.requests, if a.TakeStart? then R.Dequeue else R.Consume);
    if StepOf(w, a).Some? {
      KernelLeavesProgram(w.s, StepOf(w, a).value);
      KernelAnswers(w.s, StepOf(w, a).value);
    }
  }

  lemma TicketKeeps(w: World, a: Access)
    requires Agrees(w) && P.Inv(w.s) && Enabled(w, a) && a.FinishTicket?
    ensures R.Shaped(w.requests) && R.Shaped(w.responses) && Agrees(Exec(w, a))
  {
    hide R.Inv, R.Queue, P.Inv, P.Exec;
    R.InvShape(w.requests);
    R.InvShape(w.responses);
    var step := P.PollTicket(a.index, a.value, a.created);
    KernelLeavesProgram(w.s, step);
    KernelAnswers(w.s, step);
  }

  lemma ObjectsKeep(w: World, a: Access)
    requires Agrees(w) && a.Objects?
    ensures R.Shaped(w.requests) && R.Shaped(w.responses) && Agrees(Exec(w, a))
  {
    hide R.Inv, R.Queue;
    R.InvShape(w.requests);
    R.InvShape(w.responses);
  }

  lemma PushStartKeeps(w: World)
    requires Agrees(w) && Enabled(w, PushStart)
    ensures R.Shaped(w.requests) && R.Shaped(w.responses) && Agrees(Exec(w, PushStart))
  {
    R.InvShape(w.requests);
    RingAccess(w.responses, R.Enqueue(w.todo.value));
    hide R.Inv;
  }

  /** `Full` is not reported, so the response goes in. */
  lemma PushAccessKeeps(w: World)
    requires Agrees(w) && Enabled(w, PushAccess)
    ensures R.Shaped(w.requests) && R.Shaped(w.responses) && Agrees(Exec(w, PushAccess))
  {
    hide R.Inv, R.Queue;
    R.InvShape(w.requests);
    R.StepRefinesFifo(w.responses, R.Produce);
    RingAccess(w.responses, R.Produce);
    assert !R.ReportsFull(w.responses, R.Produce);
    assert R.Queue(w.responses) + InHand(w) + [] == R.Queue(w.responses) + InHand(w);
  }

  /** Every memory access, wherever program and kernel are in their operations, leaves the rings in agreement
      with the protocol; it is a step of the protocol, which is possible and does not panic, or changes
      nothing there. */
  lemma AccessIsStep(w: World, a: Access)
    requires Agrees(w) && P.Inv(w.s) && Enabled(w, a)
    requires StepOf(w, a).Some? ==> !P.DeadClose(w.s, StepOf(w, a).value)
    ensures StepOf(w, a).Some? ==> P.Enabled(w.s, StepOf(w, a).value) && !P.Panics(w.s, StepOf(w, a).value)
    ensures R.Shaped(w.requests) && R.Shaped(w.responses)
    ensures Agrees(Exec(w, a)) && P.Inv(Exec(w, a).s)
  {
    if StepOf(w, a).Some? {
      StepIsPossible(w, a);
      P.StepKeepsInv(w.s, StepOf(w, a).value);
    }
    hide Agrees, P.Inv, P.Enabled, P.Panics, P.Exec, P.DeadClose;
    match a
    case SubmitStart(_) => SubmitKeeps(w, a);
    case SubmitAccess => SubmitKeeps(w, a);
    case ReceiveStart => ReceiveKeeps(w, a);
    case ReceiveAccess => ReceiveKeeps(w, a);
    case Local(_) => LocalKeeps(w, a);
    case TakeStart => TakeKeeps(w, a);
    case TakeAccess(_) => TakeKeeps(w, a);
    case FinishTicket(_, _, _) => TicketKeeps(w, a);
    case PushStart => PushStartKeeps(w);
    case PushAccess => PushAccessKeeps(w);
    case Objects(_) => ObjectsKeep(w, a);
  }

  // ---- Whole runs ----

  ghost predicate Can(w: World, a: Access)
  {
    && R.Shaped(w.requests) && R.Shaped(w.responses) && Enabled(w, a)
    && (StepOf(w, a).Some? ==> P.Enabled(w.s, StepOf(w, a).value) && !P.Panics(w.s, StepOf(w, a).value))
  }

  ghost predicate IsRun(w: World, accesses: seq<Access>)
    decreases |accesses|
  {
    accesses == [] || (Can(w, accesses[0]) && IsRun(Exec(w, accesses[0]), accesses[1..]))
  }

  ghost function After(w: World, accesses: seq<Access>): World
    requires IsRun(w, accesses)
    decreases |accesses|
  {
    if accesses == [] then w else After(Exec(w, accesses[0]), accesses[1..])
  }

  /** The steps of the protocol in a run. */
  ghost function Steps(w: World, accesses: seq<Access>): seq<P.Step>
    requires IsRun(w, accesses)
    decreases |accesses|
  {
    if accesses == [] then []
    else
      (if StepOf(w, accesses[0]).Some? then [StepOf(w, accesses[0]).value] else [])
      + Steps(Exec(w, accesses[0]), accesses[1..])
  }

  /** Whenever the kernel dequeues a Close in this run, its handle names an object. */
  ghost predicate ClosesAreLive(w: World, accesses: seq<Access>)
    requires IsRun(w, accesses)
    decreases |accesses|
  {
    accesses == [] || (!ClosesDead(w, accesses[0]) && ClosesAreLive(Exec(w, accesses[0]), accesses[1..]))
  }

  predicate ClosesDead(w: World, a: Access)
  {
    StepOf(w, a).Some? && P.DeadClose(w.s, StepOf(w, a).value)
  }

  lemma LiveAccess(w: World, a: Access)
    requires Agrees(w) && P.Inv(w.s) && Enabled(w, a) && !ClosesDead(w, a)
    ensures Can(w, a) && Agrees(Exec(w, a)) && P.Inv(Exec(w, a).s)
  {
    hide Agrees, P.Inv, P.DeadClose, Exec, StepOf;
    AccessIsStep(w, a);
  }

  /** The steps of a run that begins with an access. */
  lemma FirstStep(w: World, a: Access, later: seq<P.Step>)
    requires Can(w, a) && P.IsRun(Exec(w, a).s, later)
    ensures var all := (if StepOf(w, a).Some? then [StepOf(w, a).value] else []) + later;
            P.IsRun(w.s, all) && P.After(w.s, all) == P.After(Exec(w, a).s, later)
  {
    hide P.Enabled, P.Panics, P.Exec, R.Exec;
    assert Exec(w, a).s == Moved(w, a);
    if StepOf(w, a).Some? {
      var all := [StepOf(w, a).value] + later;
      assert all[0] == StepOf(w, a).value && all[1..] == later;
    } else {
      assert [] + later == later;
    }
  }

  /** Every interleaving of single memory accesses, with live Closes, is a run of the protocol: the rings hold
      what the protocol says, and whatever a party may do next is possible there and does not panic. */
  lemma {:induction false} RunIsProtocolRun(w: World, accesses: seq<Access>)
    requires Agrees(w) && P.Inv(w.s) && IsRun(w, accesses)
    requires ClosesAreLive(w, accesses)
    ensures P.IsRun(w.s, Steps(w, accesses)) && After(w, accesses).s == P.After(w.s, Steps(w, accesses))
    ensures Agrees(After(w, accesses)) && P.Inv(After(w, accesses).s)
    ensures forall a :: Enabled(After(w, accesses), a) && !ClosesDead(After(w, accesses), a) ==>
              Can(After(w, accesses), a)
    decreases |accesses|
  {
    if accesses == [] {
      hide Agrees, P.Inv, Can, ClosesDead, Enabled;
      forall a | Enabled(w, a) && !ClosesDead(w, a) ensures Can(w, a) {
        LiveAccess(w, a);
      }
    } else {
      hide Agrees, P.Inv, P.IsRun, P.After, Exec, StepOf, Enabled, ClosesDead;
      var a, rest := accesses[0], accesses[1..];
      LiveAccess(w, a);
      RunIsProtocolRun(Exec(w, a), rest);
      FirstStep(w, a, Steps(Exec(w, a), rest));
    }
  }

  /** A new queue over shared memory with whatever is in it. */
  ghost function NewWorld(requests: seq<P.Request>, responses: seq<P.Response>,
                          objects: set<P.Handle>, buffers: set<P.Buffer>): World
  {
    World(P.Initial(|requests|, |responses|, objects, buffers), R.Initial(requests), R.Initial(responses), None, None)
  }

  lemma NewWorldAgrees(requests: seq<P.Request>, responses: seq<P.Response>,
                       objects: set<P.Handle>, buffers: set<P.Buffer>)
    requires R.ValidCapacity(|requests|) && R.ValidCapacity(|responses|)
    ensures Agrees(NewWorld(requests, responses, objects, buffers))
    ensures P.Inv(NewWorld(requests, responses, objects, buffers).s)
  {
    R.InitialInv(requests);
    R.InitialInv(responses);
    P.InitialInv(|requests|, |responses|, objects, buffers);
    hide R.Inv, P.Inv;
  }
}
