/** What a program gets for what it submitted (lib/rust/io_queue_rt/src/lib.rs): futures, requests, answers
    and buffers traced back to the calls that made them. */
module IoFutures {
  import opened Wrappers
  import opened IoProtocol
  import Errors

  /** The accepted submissions of a run, in order; the tag of a submission is its number. */
  ghost function Submissions(s: State, steps: seq<Step>): seq<Step>
    requires IsRun(s, steps)
    decreases |steps|
  {
    if steps == [] then []
    else (if steps[0].Submit? && Accepts(s) then [steps[0]] else []) + Submissions(Exec(s, steps[0]), steps[1..])
  }

  /** When a submission is refused: as many submissions wait for their response as the response ring has
      places, or the request ring is full. */
  lemma RefusedIff(s: State)
    requires Inv(s)
    ensures !Accepts(s) <==> |Waiting(s.slots)| == s.responseCap || |s.requests| == s.requestCap
  {
    hide TagInv, AnswerInv, FutureInv, BufferInv, CountInv, Travelling;
    WaitingCounts(s.slots, Waiting(s.slots));
  }

  lemma {:induction false} WaitingCounts(slots: map<Handle, Slot>, hs: set<Handle>)
    requires (forall h :: h in slots ==> h.generation == 0) && hs <= Waiting(slots)
    ensures |set h | h in hs :: ItemOf(h, slots[h])| == |hs|
  {
    if hs != {} {
      var h :| h in hs;
      WaitingCounts(slots, hs - {h});
      assert (set g | g in hs :: ItemOf(g, slots[g]))
          == (set g | g in hs - {h} :: ItemOf(g, slots[g])) + {ItemOf(h, slots[h])};
    }
  }

  predicate Consumes(s: State, step: Step, tag: Tag)
    requires Enabled(s, step) && !Panics(s, step)
  {
    || step == DropFuture(tag) || step == ForgetFuture(tag)
    || (step.PollFuture? && step.tag == tag && s.slots[s.futures[tag].slot].state.Finished?)
  }

  /** The tags whose future is polled to completion, dropped or forgotten in a run. */
  ghost function Consumed(s: State, steps: seq<Step>): set<Tag>
    requires IsRun(s, steps)
    decreases |steps|
  {
    if steps == [] then {}
    else (set t | t in s.futures && Consumes(s, steps[0], t)) + Consumed(Exec(s, steps[0]), steps[1..])
  }

  /** One step: a future that was there stays as it was until it is consumed, and an accepted submission
      makes one. */
  lemma FutureStep(s: State, step: Step, tag: Tag)
    requires Enabled(s, step) && !Panics(s, step)
    ensures var t := Exec(s, step);
            var made := step.Submit? && Accepts(s);
            && t.submitted == s.submitted + (if made then 1 else 0)
            && (made && tag == s.submitted ==>
                  tag in t.futures && t.futures[tag] == Future(step.slot, step.buffers, step.two))
            && (!(made && tag == s.submitted) ==>
                  && (tag in t.futures <==> tag in s.futures && !Consumes(s, step, tag))
                  && (tag in t.futures ==> t.futures[tag] == s.futures[tag]))
  {
    hide ExecTake, ExecPollTicket, Accepts;
    if step.Take? || step.PollTicket? {
      KernelFrame(s, step);
    }
  }

  predicate Numbered(s: State)
  {
    forall t :: t in s.futures ==> t < s.submitted
  }

  lemma StepKeepsNumbers(s: State, step: Step)
    requires Numbered(s) && Enabled(s, step) && !Panics(s, step)
    ensures Numbered(Exec(s, step)) && s.submitted <= Exec(s, step).submitted
  {
    hide Enabled, Panics, Exec, Consumes;
    FutureStep(s, step, 0);
    forall t | t in Exec(s, step).futures
      ensures t < Exec(s, step).submitted
    {
      FutureStep(s, step, t);
    }
  }

  /** A number that was given before: its future stays as it was until it is consumed. */
  lemma {:induction false} FutureLasts(s: State, steps: seq<Step>, tag: Tag)
    requires IsRun(s, steps) && tag < s.submitted
    ensures var t := After(s, steps);
            && (tag in t.futures <==> tag in s.futures && tag !in Consumed(s, steps))
            && (tag in t.futures ==> t.futures[tag] == s.futures[tag])
    ensures tag in Consumed(s, steps) ==> tag in s.futures
    decreases |steps|
  {
    hide Enabled, Panics, Exec, Consumes;
    if steps != [] {
      FutureStep(s, steps[0], tag);
      FutureLasts(Exec(s, steps[0]), steps[1..], tag);
    }
  }

  /** Every future belongs to the submission with its number: it holds the slot and the buffers of that call
      and is a two-buffer future exactly if that call asked for one.  It is there until it is consumed. */
  lemma {:induction false} FuturesAreTheirs(s: State, steps: seq<Step>, tag: Tag)
    requires Numbered(s) && IsRun(s, steps) && tag >= s.submitted
    ensures var t, made := After(s, steps), Submissions(s, steps);
            && t.submitted == s.submitted + |made|
            && (tag in t.futures <==> tag < t.submitted && tag !in Consumed(s, steps))
            && (tag in t.futures ==>
                  var call := made[tag - s.submitted];
                  call.Submit? && t.futures[tag] == Future(call.slot, call.buffers, call.two))
    decreases |steps|
  {
    hide Numbered, Enabled, Panics, Exec, Consumes, Accepts;
    if steps == [] {
      NotYetThere(s, tag);
    } else {
      var step, next, rest := steps[0], Exec(s, steps[0]), steps[1..];
      FutureStep(s, step, tag);
      NotYetThere(s, tag);
      StepKeepsNumbers(s, step);
      if tag >= next.submitted {
        FuturesAreTheirs(next, rest, tag);
      } else {
        FuturesAreTheirs(next, rest, next.submitted);
        FutureLasts(next, rest, tag);
      }
    }
  }

  lemma NotYetThere(s: State, tag: Tag)
    requires Numbered(s) && tag >= s.submitted
    ensures tag !in s.futures
  {
  }

  // ---- The ready counter, by what was submitted ----

  /** A drop loses a count only if the submission of that number asked for a two-buffer future. */
  lemma LossHasTwoBuffers(s: State, steps: seq<Step>, tag: Tag)
    requires Numbered(s) && IsRun(s, steps) && tag >= s.submitted && LosesCount(After(s, steps), DropFuture(tag))
    ensures var made := Submissions(s, steps);
            tag - s.submitted < |made| && made[tag - s.submitted].Submit? && made[tag - s.submitted].two
  {
    hide Numbered, IsRun, After, Submissions, Consumed;
    FuturesAreTheirs(s, steps, tag);
  }

  predicate OnlySingle(s: State)
  {
    forall t :: t in s.futures ==> !s.futures[t].two
  }

  lemma SingleStep(s: State, step: Step)
    requires OnlySingle(s) && Enabled(s, step) && !Panics(s, step) && (step.Submit? ==> !step.two)
    ensures OnlySingle(Exec(s, step)) && !LosesCount(s, step)
  {
    hide Enabled, Panics, Exec, Consumes, Accepts;
    forall t | t in Exec(s, step).futures
      ensures !Exec(s, step).futures[t].two
    {
      FutureStep(s, step, t);
    }
  }

  lemma {:induction false} SingleLosesNothing(s: State, steps: seq<Step>)
    requires OnlySingle(s) && IsRun(s, steps) && forall i :: 0 <= i < |steps| && steps[i].Submit? ==> !steps[i].two
    ensures Losses(s, steps) == 0
    decreases |steps|
  {
    hide OnlySingle, Enabled, Panics, Exec, LosesCount;
    if steps != [] {
      SingleStep(s, steps[0]);
      SingleLosesNothing(Exec(s, steps[0]), steps[1..]);
    }
  }

  /** A program that never asks for a two-buffer future: the counter is the number of unconsumed responses at
      any time, whatever it drops. */
  lemma SingleBufferCountIsExact(requestCap: nat, responseCap: nat, objects: set<Handle>, buffers: set<Buffer>,
                                 steps: seq<Step>)
    requires IsRun(Initial(requestCap, responseCap, objects, buffers), steps)
    requires ClosesAreLive(Initial(requestCap, responseCap, objects, buffers), steps)
    requires forall i :: 0 <= i < |steps| && steps[i].Submit? ==> !steps[i].two
    ensures var t := After(Initial(requestCap, responseCap, objects, buffers), steps);
            t.ready == |Unconsumed(t.slots)|
  {
    var s := Initial(requestCap, responseCap, objects, buffers);
    InitialInv(requestCap, responseCap, objects, buffers);
    assert s.ready == |Unconsumed(s.slots)|;
    SingleLosesNothing(s, steps);
    WaitSkipsExactly(s, steps);
    hide Inv, IsRun, After, Losses, ClosesAreLive;
  }

  // ---- Requests reach the kernel in order ----

  /** What was asked for; a Close has no number. */
  datatype Demand = Demand(verb: Verb, handle: Handle, tag: Option<Tag>)

  ghost function DemandOf(r: Request): Demand
  {
    Demand(r.verb, r.handle, if r.verb.Close? then None else Some(r.item.tag))
  }

  ghost function Demands(requests: seq<Request>): seq<Demand>
  {
    seq(|requests|, i requires 0 <= i < |requests| => DemandOf(requests[i]))
  }

  /** What the accepted calls of a run asked for; `n` submissions were accepted before. */
  ghost function Asked(s: State, steps: seq<Step>, n: nat): seq<Demand>
    requires IsRun(s, steps)
    decreases |steps|
  {
    if steps == [] then [] else
    var rest, next := steps[1..], Exec(s, steps[0]);
    if !Accepts(s) then Asked(next, rest, n)
    else
      match steps[0]
      case Submit(_, handle, verb, _, _) => [Demand(verb, handle, Some(n))] + Asked(next, rest, n + 1)
      case SubmitClose(target) => [Demand(Close, target, None)] + Asked(next, rest, n)
      case _ => Asked(next, rest, n)
  }

  /** What the kernel took from the ring in a run. */
  ghost function Taken(s: State, steps: seq<Step>): seq<Demand>
    requires IsRun(s, steps)
    decreases |steps|
  {
    if steps == [] then []
    else (if steps[0].Take? then [DemandOf(s.requests[0])] else []) + Taken(Exec(s, steps[0]), steps[1..])
  }

  lemma DemandStep(s: State, step: Step)
    requires Enabled(s, step) && !Panics(s, step)
    ensures var t := Exec(s, step);
            && (step.Submit? && Accepts(s) ==>
                  Demands(t.requests) == Demands(s.requests) + [Demand(step.verb, step.handle, Some(s.submitted))])
            && (step.SubmitClose? && Accepts(s) ==>
                  Demands(t.requests) == Demands(s.requests) + [Demand(Close, step.target, None)])
            && (step.Take? ==> Demands(s.requests) == [DemandOf(s.requests[0])] + Demands(t.requests))
            && (!step.Take? && !(Accepts(s) && (step.Submit? || step.SubmitClose?)) ==> t.requests == s.requests)
            && t.submitted == s.submitted + if step.Submit? && Accepts(s) then 1 else 0
  {
    hide Accepts, ExecTake, ExecPollTicket;
    if step.Take? || step.PollTicket? {
      KernelFrame(s, step);
    }
  }

  /** The kernel takes the requests in the order in which they were submitted, each with the verb, the handle
      and the number it was submitted with; what it has not taken is in the ring. */
  lemma {:induction false} RequestsInOrder(s: State, steps: seq<Step>)
    requires IsRun(s, steps)
    ensures Demands(s.requests) + Asked(s, steps, s.submitted) == Taken(s, steps) + Demands(After(s, steps).requests)
    decreases |steps|
  {
    hide Enabled, Panics, Exec, Accepts, DemandOf, Demands;
    if steps == [] {
      assert Demands(s.requests) + [] == [] + Demands(s.requests);
    } else {
      var step, next, rest := steps[0], Exec(s, steps[0]), steps[1..];
      DemandStep(s, step);
      RequestsInOrder(next, rest);
      var asked, taken, end := Asked(next, rest, next.submitted), Taken(next, rest), Demands(After(next, rest).requests);
      Regroup(Demands(s.requests), Demands(next.requests), asked, taken, end);
    }
  }

  lemma Regroup(before: seq<Demand>, between: seq<Demand>, asked: seq<Demand>, taken: seq<Demand>, end: seq<Demand>)
    requires between + asked == taken + end
    ensures forall d :: between == before + [d] ==> before + ([d] + asked) == taken + end
    ensures forall d :: before == [d] + between ==> before + asked == ([d] + taken) + end
  {
    forall d | between == before + [d]
      ensures before + ([d] + asked) == taken + end
    {
      assert before + ([d] + asked) == between + asked;
    }
    forall d | before == [d] + between
      ensures before + asked == ([d] + taken) + end
    {
      assert before + asked == [d] + (between + asked) == [d] + (taken + end);
    }
  }

  // ---- An answer is given once and is what the future yields ----

  ghost predicate Unanswered(s: State, item: Item)
  {
    item in Answerable(s.requests) || item in s.pending
  }

  ghost predicate AnsweredOnce(s: State)
  {
    && (forall t :: t in s.answers ==> t < s.submitted)
    && (forall item :: Unanswered(s, item) ==> item.tag !in s.answers)
  }

  /** The answer that a step gives: the number of its submission and the value. */
  ghost function Given(s: State, step: Step): Option<(Tag, int)>
    requires Enabled(s, step)
  {
    if step.PollTicket? then Some((s.pending[step.index].tag, step.value))
    else if !step.Take? || s.requests[0].verb.Close? then None
    else
      var r := s.requests[0];
      if r.handle !in s.objects || (r.verb.Share? && r.verb.share !in s.objects) then Some((r.item.tag, INVALID_OBJECT))
      else if step.reply.Ready? then Some((r.item.tag, step.reply.value))
      else None
  }

  lemma AnswerHasRoom(s: State, step: Step)
    requires Inv(s) && Enabled(s, step) && Given(s, step).Some?
    ensures |s.responses| < s.responseCap
  {
    hide TagInv, AnswerInv, FutureInv, BufferInv, CountInv, Travelling, WaitingItems;
    if step.Take? {
      HeadIsAnswerable(s.requests);
      ResponseFits(s, s.requests[0].item);
    } else {
      ResponseFits(s, s.pending[step.index]);
    }
  }

  /** What a kernel step does to the answers. */
  lemma GivesAnswer(s: State, step: Step)
    requires Enabled(s, step) && Given(s, step).Some? && |s.responses| < s.responseCap
    ensures var t := Exec(s, step);
            var (tag, value) := Given(s, step).value;
            && t.answers == s.answers[tag := value] && t.submitted == s.submitted
            && |t.responses| == |s.responses| + 1 && t.responses[|s.responses|].item.tag == tag
            && t.responses[|s.responses|].value == value
    ensures forall item :: Unanswered(Exec(s, step), item) ==> Unanswered(s, item)
  {
    if step.PollTicket? {
      SwapRemoveParts(s.pending, step.index);
    }
  }

  /** All other steps. */
  lemma GivesNone(s: State, step: Step)
    requires Enabled(s, step) && !Panics(s, step) && !DeadClose(s, step) && Given(s, step).None?
    ensures var t := Exec(s, step);
            && t.answers == s.answers && t.submitted >= s.submitted
            && forall item :: Unanswered(t, item) ==> Unanswered(s, item) || (item.tag == s.submitted < t.submitted)
  {
    var t := Exec(s, step);
    match step
    case Take(reply) =>
      var r := s.requests[0];
      if r.verb.Close? {
      } else {
        assert t.pending == s.pending + [r.item] && t.requests == s.requests[1..];
      }
    case Submit(slot, handle, verb, buffers, two) =>
      if Accepts(s) {
        AnswerableAppend(s.requests, Request(verb, handle, Item(s.submitted, slot.index, buffers)));
      }
    case SubmitClose(target) =>
      if Accepts(s) {
        AnswerableAppend(s.requests, Request(Close, target, Item(s.submitted, CLOSE_USER_DATA, {})));
      }
    case _ =>
  }

  lemma AnswersStep(s: State, step: Step)
    requires Inv(s) && AnsweredOnce(s) && Enabled(s, step) && !Panics(s, step) && !DeadClose(s, step)
    ensures AnsweredOnce(Exec(s, step))
    ensures forall tag :: tag in s.answers ==>
              tag in Exec(s, step).answers && Exec(s, step).answers[tag] == s.answers[tag]
  {
    hide Inv, Enabled, Panics, Exec, DeadClose, Given, Unanswered;
    StepKeepsInv(s, step);
    if Given(s, step).Some? {
      AnswerHasRoom(s, step);
      GivesAnswer(s, step);
      OthersDiffer(s, step);
    } else {
      GivesNone(s, step);
    }
  }

  /** The answered submission had no answer before, and no other unanswered item has its tag. */
  lemma OthersDiffer(s: State, step: Step)
    requires Inv(s) && AnsweredOnce(s) && Enabled(s, step) && Given(s, step).Some?
    requires !Panics(s, step) && Inv(Exec(s, step))
    requires var t := Exec(s, step);
             |t.responses| == |s.responses| + 1 && t.responses[|s.responses|].item.tag == Given(s, step).value.0
    ensures Given(s, step).value.0 !in s.answers && Given(s, step).value.0 < s.submitted
    ensures forall item :: Unanswered(Exec(s, step), item) ==> item.tag != Given(s, step).value.0
  {
    var it := if step.Take? then s.requests[0].item else s.pending[step.index];
    assert Unanswered(s, it) && it.tag == Given(s, step).value.0;
    hide Exec, Given, Enabled, Panics, DeadClose, Inv;
    TagIsGiven(s, it);
    forall item | Unanswered(Exec(s, step), item)
      ensures item.tag != it.tag
    {
      DiffersFromAnswered(Exec(s, step), item);
    }
  }

  lemma DiffersFromAnswered(s: State, item: Item)
    requires Inv(s) && Unanswered(s, item)
    ensures forall i :: 0 <= i < |s.responses| ==> s.responses[i].item.tag != item.tag
  {
    hide FlightInv, TagInv, AnswerInv, FutureInv, BufferInv, CountInv, Answerable;
    TagIsUnanswered(s, item);
  }

  lemma TagIsGiven(s: State, item: Item)
    requires Inv(s) && Unanswered(s, item)
    ensures item.tag < s.submitted
  {
    hide AnswerInv, FutureInv, BufferInv, CountInv, Accounted, UniqueTags;
    assert item in Travelling(s);
  }

  lemma {:induction false} AnswersLast(s: State, steps: seq<Step>)
    requires Inv(s) && AnsweredOnce(s) && IsRun(s, steps) && ClosesAreLive(s, steps)
    ensures AnsweredOnce(After(s, steps)) && Inv(After(s, steps))
    ensures forall tag :: tag in s.answers ==>
              tag in After(s, steps).answers && After(s, steps).answers[tag] == s.answers[tag]
    decreases |steps|
  {
    hide Inv, AnsweredOnce, Enabled, Panics, Exec, DeadClose;
    if steps != [] {
      StepKeepsInv(s, steps[0]);
      AnswersStep(s, steps[0]);
      AnswersLast(Exec(s, steps[0]), steps[1..]);
    }
  }

  /** Whatever happens in between, the value that a future yields is the one the kernel gave when it took the
      request of that submission or polled its ticket. */
  lemma AnswerReachesFuture(requestCap: nat, responseCap: nat, objects: set<Handle>, buffers: set<Buffer>,
                            before: seq<Step>, step: Step, after: seq<Step>, tag: Tag, value: int)
    requires IsRun(Initial(requestCap, responseCap, objects, buffers), before)
    requires ClosesAreLive(Initial(requestCap, responseCap, objects, buffers), before)
    requires var s := After(Initial(requestCap, responseCap, objects, buffers), before);
             && Enabled(s, step) && !Panics(s, step) && Given(s, step) == Some((tag, value))
             && IsRun(Exec(s, step), after) && ClosesAreLive(Exec(s, step), after)
    ensures var s := After(Initial(requestCap, responseCap, objects, buffers), before);
            var t := After(Exec(s, step), after);
            tag in t.futures ==>
              && t.futures[tag].slot in t.slots
              && (t.slots[t.futures[tag].slot].state.Finished? ==> t.slots[t.futures[tag].slot].state.value == value)
  {
    var s0 := Initial(requestCap, responseCap, objects, buffers);
    InitialInv(requestCap, responseCap, objects, buffers);
    assert AnsweredOnce(s0);
    hide Inv, AnsweredOnce, IsRun, After, ClosesAreLive, Enabled, Panics, Exec, Initial;
    AnswersLast(s0, before);
    var s := After(s0, before);
    GivenIsNoDeadClose(s, step);
    AnswersStep(s, step);
    StepKeepsInv(s, step);
    AnswerHasRoom(s, step);
    GivesAnswer(s, step);
    AnswersLast(Exec(s, step), after);
    FutureYields(After(Exec(s, step), after), tag);
  }

  /** A request that named a dead handle when the kernel took it: its future fails with `InvalidObject`. */
  lemma DeadHandleFails(requestCap: nat, responseCap: nat, objects: set<Handle>, buffers: set<Buffer>,
                        before: seq<Step>, reply: Reply, after: seq<Step>)
    requires IsRun(Initial(requestCap, responseCap, objects, buffers), before)
    requires ClosesAreLive(Initial(requestCap, responseCap, objects, buffers), before)
    requires var s := After(Initial(requestCap, responseCap, objects, buffers), before);
             && s.requests != [] && !s.requests[0].verb.Close?
             && (s.requests[0].handle !in s.objects || (s.requests[0].verb.Share? && s.requests[0].verb.share !in s.objects))
             && IsRun(Exec(s, Take(reply)), after) && ClosesAreLive(Exec(s, Take(reply)), after)
    ensures var s := After(Initial(requestCap, responseCap, objects, buffers), before);
            var t := After(Exec(s, Take(reply)), after);
            var tag := s.requests[0].item.tag;
            tag in t.futures ==>
              && t.futures[tag].slot in t.slots
              && (t.slots[t.futures[tag].slot].state.Finished? ==>
                    Errors.Decode(t.slots[t.futures[tag].slot].state.value) == Errors.Failure(Errors.InvalidObject))
  {
    hide IsRun, After, ClosesAreLive, Exec, Initial;
    var s := After(Initial(requestCap, responseCap, objects, buffers), before);
    AnswerReachesFuture(requestCap, responseCap, objects, buffers, before, Take(reply), after,
                        s.requests[0].item.tag, INVALID_OBJECT);
  }

  lemma GivenIsNoDeadClose(s: State, step: Step)
    requires Enabled(s, step) && Given(s, step).Some?
    ensures !DeadClose(s, step)
  {
  }

  lemma FutureYields(s: State, tag: Tag)
    requires Inv(s)
    ensures tag in s.futures ==>
              && s.futures[tag].slot in s.slots
              && (s.slots[s.futures[tag].slot].state.Finished? ==>
                    tag in s.answers && s.slots[s.futures[tag].slot].state.value == s.answers[tag])
  {
    hide FlightInv, TagInv, BufferInv, CountInv;
  }

  lemma SwapRemoveParts<T>(xs: seq<T>, i: nat)
    requires i < |xs|
    ensures forall x :: x in SwapRemove(xs, i) ==> x in xs
  {
  }
}
