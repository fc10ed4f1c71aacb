/** Who is woken when responses arrive (lib/rust/io_queue_rt/src/lib.rs): whoever polled a future last,
    once, and nobody else. */
module IoWakers {
  import opened Wrappers
  import opened IoProtocol

  /** The wakers that a run wakes, in order. */
  ghost function AllWoken(s: State, steps: seq<Step>): seq<nat>
    requires IsRun(s, steps)
    decreases |steps|
  {
    if steps == [] then []
    else (if Woken(s, steps[0]).Some? then [Woken(s, steps[0]).value] else []) + AllWoken(Exec(s, steps[0]), steps[1..])
  }

  lemma {:induction false} WokenAppend(s: State, steps: seq<Step>, step: Step)
    requires IsRun(s, steps) && IsRun(s, steps + [step]) && Enabled(After(s, steps), step) && !Panics(After(s, steps), step)
    ensures AllWoken(s, steps + [step]) ==
              AllWoken(s, steps) + if Woken(After(s, steps), step).Some? then [Woken(After(s, steps), step).value] else []
    decreases |steps|
  {
    hide Enabled, Panics, Exec, Woken;
    if steps == [] {
      assert [] + [step] == [step] && [step][1..] == [];
      assert IsRun(Exec(s, step), []);
    } else {
      assert (steps + [step])[0] == steps[0] && (steps + [step])[1..] == steps[1..] + [step];
      WokenAppend(Exec(s, steps[0]), steps[1..], step);
    }
  }

  /** The submission waits in this slot and its last poll came with this waker. */
  predicate WaitsWith(s: State, slot: Handle, tag: Tag, waker: nat)
  {
    slot in s.slots && s.slots[slot].tag == tag && s.slots[slot].state == InflightWithWaker(waker)
  }

  lemma PendingPollWaits(s: State, tag: Tag, waker: nat)
    requires Inv(s) && tag in s.futures && !Panics(s, PollFuture(tag, waker))
    requires !s.slots[s.futures[tag].slot].state.Finished?
    ensures WaitsWith(Exec(s, PollFuture(tag, waker)), s.futures[tag].slot, tag, waker)
  {
    hide FlightInv, TagInv, AnswerInv, BufferInv, CountInv;
  }

  predicate Touches(step: Step, tag: Tag)
  {
    (step.PollFuture? || step.DropFuture?) && step.tag == tag
  }

  /** One step that does not poll or drop the future: the waker stays, or the response arrives and wakes it. */
  lemma WakerStep(s: State, step: Step, slot: Handle, tag: Tag, waker: nat)
    requires Inv(s) && Enabled(s, step) && !Panics(s, step) && !Touches(step, tag) && WaitsWith(s, slot, tag, waker)
    ensures tag !in s.delivered
    ensures if tag in Exec(s, step).delivered then Woken(s, step) == Some(waker)
            else WaitsWith(Exec(s, step), slot, tag, waker)
  {
    hide FlightInv, AnswerInv, BufferInv, CountInv, Accounted, ExecTake, ExecPollTicket;
    if step.Receive? {
      ResponseFindsItsSlot(s);
    } else if step.Take? || step.PollTicket? {
      KernelFrame(s, step);
    }
  }

  lemma {:induction false} DeliveredStays(s: State, steps: seq<Step>)
    requires IsRun(s, steps)
    ensures s.delivered <= After(s, steps).delivered
    decreases |steps|
  {
    hide Enabled, Panics, Exec;
    if steps != [] {
      DeliveredGrows(s, steps[0]);
      DeliveredStays(Exec(s, steps[0]), steps[1..]);
    }
  }

  lemma DeliveredGrows(s: State, step: Step)
    requires Enabled(s, step) && !Panics(s, step)
    ensures s.delivered <= Exec(s, step).delivered
  {
    hide ExecTake, ExecPollTicket;
    if step.Take? || step.PollTicket? {
      KernelFrame(s, step);
    }
  }

  lemma {:induction false} WaitsUntilWoken(s: State, steps: seq<Step>, slot: Handle, tag: Tag, waker: nat)
    requires Inv(s) && WaitsWith(s, slot, tag, waker) && IsRun(s, steps) && ClosesAreLive(s, steps)
    requires forall i :: 0 <= i < |steps| ==> !Touches(steps[i], tag)
    ensures if tag in After(s, steps).delivered then waker in AllWoken(s, steps)
            else WaitsWith(After(s, steps), slot, tag, waker)
    decreases |steps|
  {
    hide Inv, Enabled, Panics, Exec, WaitsWith, Woken;
    if steps == [] {
      StillWaits(s, slot, tag, waker);
    } else {
      WakerStep(s, steps[0], slot, tag, waker);
      if tag in Exec(s, steps[0]).delivered {
        DeliveredStays(Exec(s, steps[0]), steps[1..]);
      } else {
        StepKeepsInv(s, steps[0]);
        WaitsUntilWoken(Exec(s, steps[0]), steps[1..], slot, tag, waker);
      }
    }
  }

  lemma StillWaits(s: State, slot: Handle, tag: Tag, waker: nat)
    requires Inv(s) && WaitsWith(s, slot, tag, waker)
    ensures tag !in s.delivered
  {
    hide FlightInv, AnswerInv, BufferInv, CountInv, FutureInv;
  }

  /** No wakeup is lost: after a poll that was pending, and until the future is polled again or dropped, the
      waker of that poll stays with the submission, and when the response arrives it is woken. */
  lemma LastPollerIsWoken(s: State, tag: Tag, waker: nat, steps: seq<Step>)
    requires Inv(s) && tag in s.futures && !Panics(s, PollFuture(tag, waker))
    requires !s.slots[s.futures[tag].slot].state.Finished?
    requires var t := Exec(s, PollFuture(tag, waker)); IsRun(t, steps) && ClosesAreLive(t, steps)
    requires forall i :: 0 <= i < |steps| ==> !Touches(steps[i], tag)
    ensures var t := Exec(s, PollFuture(tag, waker));
            if tag in After(t, steps).delivered then waker in AllWoken(t, steps)
            else WaitsWith(After(t, steps), s.futures[tag].slot, tag, waker)
  {
    hide Inv, IsRun, After, ClosesAreLive, AllWoken, WaitsWith, Exec;
    PendingPollWaits(s, tag, waker);
    StepKeepsInv(s, PollFuture(tag, waker));
    WaitsUntilWoken(Exec(s, PollFuture(tag, waker)), steps, s.futures[tag].slot, tag, waker);
  }

  /** The wakers that are in slots now. */
  predicate InSlot(s: State, waker: nat)
  {
    exists h :: h in s.slots && s.slots[h].state == InflightWithWaker(waker)
  }

  lemma WakerComesFromPoll(s: State, step: Step, waker: nat)
    requires Enabled(s, step) && !Panics(s, step)
    ensures Woken(s, step) == Some(waker) ==> InSlot(s, waker)
    ensures InSlot(Exec(s, step), waker) ==> InSlot(s, waker) || (step.PollFuture? && step.waker == waker)
  {
    hide ExecTake, ExecPollTicket;
    if step.Take? || step.PollTicket? {
      KernelFrame(s, step);
    }
  }

  /** Nobody is woken who did not poll. */
  lemma {:induction false} OnlyPollersAreWoken(s: State, steps: seq<Step>, waker: nat)
    requires IsRun(s, steps) && waker in AllWoken(s, steps)
    ensures InSlot(s, waker) || exists i :: 0 <= i < |steps| && steps[i].PollFuture? && steps[i].waker == waker
    decreases |steps|
  {
    hide Enabled, Panics, Exec, InSlot, Woken;
    WakerComesFromPoll(s, steps[0], waker);
    if waker in AllWoken(Exec(s, steps[0]), steps[1..]) {
      OnlyPollersAreWoken(Exec(s, steps[0]), steps[1..], waker);
      if i :| 0 <= i < |steps[1..]| && steps[1..][i].PollFuture? && steps[1..][i].waker == waker {
        assert steps[i + 1] == steps[1..][i];
      }
    }
  }
}
