/** Whole sessions of the I/O queue: any sequence of calls of the program, of its other threads and of the
    kernel, over the real rings and arenas. */
module IoSession {
  import opened Wrappers
  import opened IoProtocol
  import opened IoWakers
  import opened IoQueue

  datatype Call =
    | Request(handle: Handle, verb: Verb, buffers: set<Buffer>, two: bool)
    | CloseHandle(handle: Handle)
    | Process
    | Poll(tag: Tag, waker: nat)
    | Drop(tag: Tag)
    | Forget(tag: Tag)
    | Free(buffer: Buffer)
    | RemoveElsewhere(handle: Handle)
    | InsertElsewhere(object_: nat)
    | Kernel(polls: nat -> Outcome, outcomes: nat -> Outcome)

  /** What the caller sees.  A call on a future that is gone, or with a buffer that is not the caller's,
      cannot be written down. */
  datatype Answer =
    | Impossible
    | Nothing
    | Woke(wakers: seq<nat>)
    | Submitted(tag: Option<Tag>)
    | Closing(ok: bool)
    | Polled(result: Option<int>)
    | Inserted(handle: Handle)
    | Entered(dead: bool)

  predicate Possible(s: State, call: Call)
  {
    match call
    case Request(_, verb, buffers, _) => !verb.Close? && buffers <= s.callers
    case Poll(tag, _) => tag in s.futures
    case Drop(tag) => tag in s.futures
    case Forget(tag) => tag in s.futures
    case Free(buffer) => buffer in s.callers
    case _ => true
  }

  function PollsOf(polls: nat -> Outcome, n: nat): (r: seq<Outcome>)
    ensures |r| == n
  {
    seq(n, i requires 0 <= i < n => polls(i))
  }

  /** The protocol steps of a kernel call: the ready tickets, then one Take per request, with what the
      objects say. */
  ghost predicate KernelSteps(s: State, polls: nat -> Outcome, outcomes: nat -> Outcome, steps: seq<Step>)
  {
    && |s.requests| <= |steps|
    && var n := |steps| - |s.requests|;
       && PollSteps(PollsOf(polls, |s.pending|), 0, steps[..n])
       && forall k :: n <= k < |steps| ==> steps[k].Take? && Says(outcomes(k - n), steps[k].reply)
  }

  /** What a call does, as steps of the protocol, and what it answers. */
  ghost predicate Does(s: State, call: Call, answer: Answer, steps: seq<Step>)
  {
    if !Possible(s, call) then answer == Impossible && steps == []
    else
      match call
      case Request(handle, verb, buffers, two) =>
        && |steps| == 1 && steps[0].Submit? && steps[0] == Submit(steps[0].slot, handle, verb, buffers, two)
        && answer == Submitted(if Accepts(s) then Some(s.submitted) else None)
      case CloseHandle(handle) => steps == [SubmitClose(handle)] && answer == Closing(Accepts(s))
      case Process =>
        && |steps| == |s.responses| && (forall i :: 0 <= i < |steps| ==> steps[i] == Receive)
        && IsRun(s, steps) && answer == Woke(AllWoken(s, steps))
      case Poll(tag, waker) =>
        && steps == [PollFuture(tag, waker)] && s.futures[tag].slot in s.slots
        && var state := s.slots[s.futures[tag].slot].state;
           answer == Polled(if state.Finished? then Some(state.value) else None)
      case Drop(tag) => steps == [DropFuture(tag)] && answer == Nothing
      case Forget(tag) => steps == [ForgetFuture(tag)] && answer == Nothing
      case Free(buffer) => steps == [FreeBuffer(buffer)] && answer == Nothing
      case RemoveElsewhere(handle) => steps == [ChangeObjects(s.objects - {handle})] && answer == Nothing
      case InsertElsewhere(_) => answer.Inserted? && steps == [ChangeObjects(s.objects + {answer.handle})]
      case Kernel(polls, outcomes) => answer.Entered? && KernelSteps(s, polls, outcomes, steps)
  }

  lemma OneStep(s: State, step: Step)
    requires Enabled(s, step) && !Panics(s, step)
    ensures IsRun(s, [step]) && After(s, [step]) == Exec(s, step)
    ensures ClosesAreLive(s, [step]) <==> !DeadClose(s, step)
  {
    hide Enabled, Panics, Exec, DeadClose;
    assert [step][1..] == [];
    assert IsRun(Exec(s, step), []) && ClosesAreLive(Exec(s, step), []);
  }

  lemma NoSteps(s: State)
    ensures IsRun(s, []) && After(s, []) == s && ClosesAreLive(s, [])
  {
  }

  /** The call is a run of the protocol; it is one with live Closes unless the answer says that a dead handle
      was closed. */
  ghost predicate Performed(s: State, call: Call, answer: Answer, steps: seq<Step>, t: State)
  {
    && Does(s, call, answer, steps)
    && IsRun(s, steps) && t == After(s, steps)
    && (ClosesAreLive(s, steps) <==> answer != Entered(true))
  }

  /** Calls other than the kernel's and `process`. */
  lemma OnePerforms(s: State, call: Call, answer: Answer, step: Step, t: State)
    requires Does(s, call, answer, [step]) && !call.Kernel? && !step.Take?
    requires Enabled(s, step) && !Panics(s, step) && t == Exec(s, step)
    ensures Performed(s, call, answer, [step], t)
  {
    hide Enabled, Panics, Exec;
    OneStep(s, step);
  }

  lemma FutureCallsAreSafe(s: State, tag: Tag, waker: nat)
    requires Inv(s) && tag in s.futures
    ensures !Panics(s, PollFuture(tag, waker)) && !Panics(s, DropFuture(tag)) && s.futures[tag].slot in s.slots
  {
    NoStepPanics(s, PollFuture(tag, waker));
    NoStepPanics(s, DropFuture(tag));
    hide Inv;
  }

  /** The calls that touch futures and rings. */
  method PerformOnFuture(q: Session, call: Call) returns (answer: Answer, ghost steps: seq<Step>)
    requires q.Valid() && Inv(q.View()) && Possible(q.View(), call) && (call.Poll? || call.Drop? || call.Forget?)
    modifies q.Footprint()
    ensures q.Valid() && Performed(old(q.View()), call, answer, steps, q.View())
  {
    hide Session.Valid, Inv, IsRun, After, Performed;
    ghost var s := q.View();
    FutureCallsAreSafe(s, call.tag, if call.Poll? then call.waker else 0);
    match call {
      case Poll(tag, waker) =>
        var r := q.PollFuture(tag, waker);
        answer, steps := Polled(r), [PollFuture(tag, waker)];
      case Drop(tag) =>
        q.DropFuture(tag);
        answer, steps := Nothing, [DropFuture(tag)];
      case Forget(tag) =>
        q.Forget(tag);
        answer, steps := Nothing, [ForgetFuture(tag)];
    }
    OnePerforms(s, call, answer, steps[0], q.View());
  }

  method PerformSmall(q: Session, call: Call) returns (answer: Answer, ghost steps: seq<Step>)
    requires q.Valid() && Possible(q.View(), call)
    requires call.Request? || call.CloseHandle? || call.Free? || call.RemoveElsewhere? || call.InsertElsewhere?
    modifies q.Footprint()
    ensures q.Valid() && Performed(old(q.View()), call, answer, steps, q.View())
  {
    hide Session.Valid, Inv, IsRun, After, Performed;
    ghost var s := q.View();
    match call {
      case Request(handle, verb, buffers, two) =>
        var r;
        ghost var slot;
        r, slot := q.Submit(handle, verb, buffers, two);
        answer, steps := Submitted(r), [Submit(slot, handle, verb, buffers, two)];
      case CloseHandle(handle) =>
        var ok := q.SubmitClose(handle);
        answer, steps := Closing(ok), [SubmitClose(handle)];
      case Free(buffer) =>
        q.Free(buffer);
        answer, steps := Nothing, [FreeBuffer(buffer)];
      case RemoveElsewhere(handle) =>
        q.RemoveElsewhere(handle);
        answer, steps := Nothing, [ChangeObjects(s.objects - {handle})];
      case InsertElsewhere(object_) =>
        var h := q.InsertElsewhere(object_);
        answer, steps := Inserted(h), [ChangeObjects(s.objects + {h})];
    }
    OnePerforms(s, call, answer, steps[0], q.View());
  }

  method PerformLarge(q: Session, call: Call) returns (answer: Answer, ghost steps: seq<Step>)
    requires q.Valid() && Inv(q.View()) && (call.Process? || call.Kernel?)
    modifies q.Footprint()
    ensures q.Valid() && Performed(old(q.View()), call, answer, steps, q.View())
  {
    hide Session.Valid, Inv, IsRun, After, PollSteps, Says, ClosesAreLive, AllWoken;
    ghost var s := q.View();
    match call {
      case Process =>
        var woken;
        woken, steps := q.Process();
        answer := Woke(woken);
        NoTakesAreLive(s, steps);
      case Kernel(polls, outcomes) =>
        var dead;
        ghost var n;
        dead, steps, n := q.ProcessIoQueue(PollsOf(polls, |q.pending|), outcomes);
        answer := Entered(dead);
    }
  }

  /** One call, whatever it is. */
  method Perform(q: Session, call: Call) returns (answer: Answer, ghost steps: seq<Step>)
    requires q.Valid() && Inv(q.View())
    modifies q.Footprint()
    ensures q.Valid() && Performed(old(q.View()), call, answer, steps, q.View())
  {
    var possible :=
      match call
      case Request(_, verb, buffers, _) => !verb.Close? && buffers <= q.callers
      case Poll(tag, _) => tag in q.futures
      case Drop(tag) => tag in q.futures
      case Forget(tag) => tag in q.futures
      case Free(buffer) => buffer in q.callers
      case _ => true;
    assert possible == Possible(q.View(), call);
    hide Session.Valid, Inv, IsRun, After, Possible;
    if !possible {
      NoSteps(q.View());
      return Impossible, [];
    }
    hide Performed;
    match call {
      case Poll(_, _) => answer, steps := PerformOnFuture(q, call);
      case Drop(_) => answer, steps := PerformOnFuture(q, call);
      case Forget(_) => answer, steps := PerformOnFuture(q, call);
      case Process => answer, steps := PerformLarge(q, call);
      case Kernel(_, _) => answer, steps := PerformLarge(q, call);
      case _ => answer, steps := PerformSmall(q, call);
    }
  }

  /** `states[i]` is the queue before call i, which took the steps `runs[i]` and was answered `answers[i]`. */
  ghost predicate History(calls: seq<Call>, answers: seq<Answer>, runs: seq<seq<Step>>, states: seq<State>)
  {
    && |answers| == |runs| <= |calls| && |states| == |answers| + 1
    && (forall i :: 0 <= i < |answers| ==> Performed(states[i], calls[i], answers[i], runs[i], states[i + 1]))
    && (forall i :: 0 <= i < |answers| ==> Inv(states[i]))
    && (forall i :: 0 <= i < |answers| - 1 ==> answers[i] != Entered(true))
  }

  lemma MoreHistory(calls: seq<Call>, answers: seq<Answer>, runs: seq<seq<Step>>, states: seq<State>,
                    answer: Answer, steps: seq<Step>, t: State)
    requires History(calls, answers, runs, states) && |answers| < |calls| && Inv(states[|answers|])
    requires answers != [] ==> answers[|answers| - 1] != Entered(true)
    requires Performed(states[|answers|], calls[|answers|], answer, steps, t)
    ensures History(calls, answers + [answer], runs + [steps], states + [t])
  {
    hide Performed, Inv;
  }

  lemma PerformedKeepsInv(s: State, call: Call, answer: Answer, steps: seq<Step>, t: State)
    requires Inv(s) && Performed(s, call, answer, steps, t) && answer != Entered(true)
    ensures Inv(t)
  {
    hide Inv, IsRun, After, ClosesAreLive, Does;
    RunKeepsInv(s, steps);
  }

  /** The steps of a session, one call after the other. */
  ghost function AllSteps(runs: seq<seq<Step>>): seq<Step>
  {
    if runs == [] then [] else AllSteps(runs[..|runs| - 1]) + runs[|runs| - 1]
  }

  lemma {:induction false} RunConcat(s: State, a: seq<Step>, b: seq<Step>)
    requires IsRun(s, a) && IsRun(After(s, a), b)
    ensures IsRun(s, a + b) && After(s, a + b) == After(After(s, a), b)
    ensures ClosesAreLive(s, a + b) <==> ClosesAreLive(s, a) && ClosesAreLive(After(s, a), b)
    decreases |a|
  {
    hide Enabled, Panics, Exec, DeadClose;
    if a == [] {
      assert [] + b == b;
    } else {
      assert (a + b)[0] == a[0] && (a + b)[1..] == a[1..] + b;
      RunConcat(Exec(s, a[0]), a[1..], b);
    }
  }

  /** A session is one run of the protocol, so that whatever holds of all runs holds of it. */
  lemma {:induction false} SessionIsRun(calls: seq<Call>, answers: seq<Answer>, runs: seq<seq<Step>>,
                                        states: seq<State>, n: nat)
    requires History(calls, answers, runs, states) && n <= |runs|
    ensures IsRun(states[0], AllSteps(runs[..n])) && After(states[0], AllSteps(runs[..n])) == states[n]
    ensures ClosesAreLive(states[0], AllSteps(runs[..n])) <==> n == 0 || answers[n - 1] != Entered(true)
    decreases n
  {
    hide IsRun, After, ClosesAreLive, Inv, Does;
    if n == 0 {
      NoSteps(states[0]);
    } else {
      SessionIsRun(calls, answers, runs, states, n - 1);
      assert runs[..n][..n - 1] == runs[..n - 1];
      assert Performed(states[n - 1], calls[n - 1], answers[n - 1], runs[n - 1], states[n]);
      RunConcat(states[0], AllSteps(runs[..n - 1]), runs[n - 1]);
    }
  }

  /** Any sequence of calls: none of them panics, each does to the queue what the protocol says, and the
      invariant, with everything that follows from it, holds between them.  Only a kernel call that closes
      a dead handle ends the session. */
  method RunSession(q: Session, calls: seq<Call>)
    returns (answers: seq<Answer>, ghost runs: seq<seq<Step>>, ghost states: seq<State>)
    requires q.Valid() && Inv(q.View())
    modifies q.Footprint()
    ensures q.Valid() && History(calls, answers, runs, states)
    ensures states[0] == old(q.View()) && states[|answers|] == q.View()
    ensures IsRun(old(q.View()), AllSteps(runs)) && q.View() == After(old(q.View()), AllSteps(runs))
    ensures if |answers| < |calls| then answers != [] && answers[|answers| - 1] == Entered(true)
            else answers == [] || answers[|answers| - 1] != Entered(true) ==> Inv(q.View())
  {
    hide Session.Valid, Inv, Performed;
    answers, runs, states := [], [], [q.View()];
    var stopped := false;
    while |answers| < |calls| && !stopped
      invariant q.Valid() && (!stopped ==> Inv(q.View()))
      invariant History(calls, answers, runs, states)
      invariant states[0] == old(q.View()) && states[|answers|] == q.View()
      invariant stopped <==> answers != [] && answers[|answers| - 1] == Entered(true)
      decreases |calls| - |answers|
    {
      ghost var s := q.View();
      var answer;
      ghost var steps;
      answer, steps := Perform(q, calls[|answers|]);
      MoreHistory(calls, answers, runs, states, answer, steps, q.View());
      stopped := answer.Entered? && answer.dead;
      if !stopped {
        PerformedKeepsInv(s, calls[|answers|], answer, steps, q.View());
      }
      answers, runs, states := answers + [answer], runs + [steps], states + [q.View()];
    }
    SessionIsRun(calls, answers, runs, states, |runs|);
    assert runs[..|runs|] == runs;
  }
}
