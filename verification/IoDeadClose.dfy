/** What an answered Close of a dead handle leads to (kernel/src/scheduler/process/io.rs and
    lib/rust/io_queue_rt/src/lib.rs): a response that belongs to no slot and that the runtime panics on. */
module IoDeadClose {
  import opened IoProtocol

  /** Close requests carry the largest number there is, which is the index of no slot. */
  ghost predicate ClosesAreMarked(s: State)
  {
    && SlotOf(CLOSE_USER_DATA) !in s.slots
    && forall i :: 0 <= i < |s.requests| && s.requests[i].verb.Close? ==> s.requests[i].item.userData == CLOSE_USER_DATA
  }

  predicate IndexFits(step: Step)
  {
    step.Submit? ==> step.slot.index < 0xFFFF_FFFF_FFFF_FFFF
  }

  lemma StepKeepsMarks(s: State, step: Step)
    requires ClosesAreMarked(s) && Enabled(s, step) && !Panics(s, step) && IndexFits(step)
    ensures ClosesAreMarked(Exec(s, step))
  {
  }

  lemma {:induction false} RunKeepsMarks(s: State, steps: seq<Step>)
    requires ClosesAreMarked(s) && IsRun(s, steps) && forall i :: 0 <= i < |steps| ==> IndexFits(steps[i])
    ensures ClosesAreMarked(After(s, steps))
    decreases |steps|
  {
    hide ClosesAreMarked, Enabled, Panics, Exec;
    if steps != [] {
      StepKeepsMarks(s, steps[0]);
      RunKeepsMarks(Exec(s, steps[0]), steps[1..]);
    }
  }

  /** The k-th response from the front belongs to no slot. */
  ghost predicate Orphan(s: State, k: nat)
  {
    k < |s.responses| && s.responses[k].item.userData == CLOSE_USER_DATA
  }

  /** It stays, and comes nearer with every response received. */
  lemma OrphanStays(s: State, step: Step, k: nat)
    requires ClosesAreMarked(s) && Orphan(s, k) && Enabled(s, step) && !Panics(s, step)
    ensures if step.Receive? then k > 0 && Orphan(Exec(s, step), k - 1) else Orphan(Exec(s, step), k)
  {
  }

  function Receives(steps: seq<Step>): nat
  {
    if steps == [] then 0 else (if steps[0].Receive? then 1 else 0) + Receives(steps[1..])
  }

  lemma {:induction false} OrphanWaits(s: State, steps: seq<Step>, k: nat)
    requires ClosesAreMarked(s) && Orphan(s, k) && IsRun(s, steps) && forall i :: 0 <= i < |steps| ==> IndexFits(steps[i])
    ensures Receives(steps) <= k && Orphan(After(s, steps), k - Receives(steps))
    ensures Receives(steps) == k ==> Enabled(After(s, steps), Receive) && Panics(After(s, steps), Receive)
    decreases |steps|
  {
    if steps != [] {
      hide ClosesAreMarked, Orphan, Enabled, Panics, Exec;
      OrphanStays(s, steps[0], k);
      StepKeepsMarks(s, steps[0]);
      OrphanWaits(Exec(s, steps[0]), steps[1..], if steps[0].Receive? then k - 1 else k);
    }
  }

  /** After any history of a queue, when the kernel takes a Close of a dead handle and there is room for its
      answer: however the queue is used afterwards, the runtime receives the responses that were already
      there at most, and panics when it tries to receive one more. */
  lemma DeadClosePanics(requestCap: nat, responseCap: nat, objects: set<Handle>, buffers: set<Buffer>,
                        before: seq<Step>, reply: Reply, after: seq<Step>)
    requires IsRun(Initial(requestCap, responseCap, objects, buffers), before)
    requires var s := After(Initial(requestCap, responseCap, objects, buffers), before);
             && DeadClose(s, Take(reply)) && |s.responses| < s.responseCap
             && IsRun(Exec(s, Take(reply)), after)
    requires forall i :: 0 <= i < |before| ==> IndexFits(before[i])
    requires forall i :: 0 <= i < |after| ==> IndexFits(after[i])
    ensures var s := After(Initial(requestCap, responseCap, objects, buffers), before);
            var t := After(Exec(s, Take(reply)), after);
            && Receives(after) <= |s.responses|
            && (Receives(after) == |s.responses| ==> Enabled(t, Receive) && Panics(t, Receive))
  {
    var s0 := Initial(requestCap, responseCap, objects, buffers);
    assert ClosesAreMarked(s0);
    hide IsRun, After, Receives;
    RunKeepsMarks(s0, before);
    var s := After(s0, before);
    StepKeepsMarks(s, Take(reply));
    assert Orphan(Exec(s, Take(reply)), |s.responses|);
    OrphanWaits(Exec(s, Take(reply)), after, |s.responses|);
  }
}
