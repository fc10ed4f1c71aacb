/** Where the buffers of an I/O queue are (lib/rust/io_queue_rt/src/lib.rs): no step of any party makes one,
    loses one or hands one out twice. */
module IoBuffers {
  import opened IoProtocol

  ghost function LentOut(slots: map<Handle, Slot>): set<Buffer>
  {
    set h, b | h in slots && b in slots[h].lent :: b
  }

  /** Every buffer there is: with the caller, deallocated, or lent to some submission. */
  ghost function Buffers(s: State): set<Buffer>
  {
    s.callers + s.freed + LentOut(s.slots)
  }

  lemma LentAfterInsert(slots: map<Handle, Slot>, h: Handle, slot: Slot)
    requires h !in slots
    ensures LentOut(slots[h := slot]) == LentOut(slots) + slot.lent
  {
    var next := slots[h := slot];
    forall b | b in LentOut(slots) + slot.lent
      ensures b in LentOut(next)
    {
      if b in slot.lent {
        assert h in next && b in next[h].lent;
      } else {
        var g :| g in slots && b in slots[g].lent;
        assert g in next && b in next[g].lent;
      }
    }
  }

  /** Taking a slot out, or what it lent. */
  lemma LentAfterReturn(slots: map<Handle, Slot>, h: Handle, next: map<Handle, Slot>)
    requires h in slots && (next == slots - {h} || (h in next && next == slots[h := next[h]] && next[h].lent == {}))
    requires forall g :: g in slots && g != h ==> slots[g].lent !! slots[h].lent
    ensures LentOut(next) == LentOut(slots) - slots[h].lent
  {
    forall b | b in LentOut(slots) - slots[h].lent
      ensures b in LentOut(next)
    {
      var g :| g in slots && b in slots[g].lent;
      assert g in next && b in next[g].lent;
    }
    forall b | b in LentOut(next)
      ensures b in LentOut(slots) && b !in slots[h].lent
    {
      var g :| g in next && b in next[g].lent;
      assert g in slots && b in slots[g].lent;
    }
  }

  lemma LentUnchanged(slots: map<Handle, Slot>, h: Handle, slot: Slot)
    requires h in slots && slot.lent == slots[h].lent
    ensures LentOut(slots[h := slot]) == LentOut(slots)
  {
    var next := slots[h := slot];
    assert forall g :: g in slots <==> g in next;
    assert forall g :: g in slots ==> slots[g].lent == next[g].lent;
    forall b | b in LentOut(slots)
      ensures b in LentOut(next)
    {
      var g :| g in slots && b in slots[g].lent;
      assert g in next && b in next[g].lent;
    }
  }

  lemma ReceiveKeepsBuffers(s: State)
    requires Inv(s) && s.responses != [] && !Panics(s, Receive)
    ensures Buffers(ExecReceive(s)) == Buffers(s)
  {
    hide FlightInv, TagInv, AnswerInv, CountInv, LentOut;
    var h := SlotOf(s.responses[0].item.userData);
    if s.slots[h].state.Cancelled? {
      LentAfterReturn(s.slots, h, s.slots - {h});
      LentIsPart(s.slots, h);
    } else {
      LentUnchanged(s.slots, h, s.slots[h].(state := Finished(s.responses[0].value)));
    }
  }

  lemma LentIsPart(slots: map<Handle, Slot>, h: Handle)
    requires h in slots
    ensures slots[h].lent <= LentOut(slots)
  {
  }

  lemma PollKeepsBuffers(s: State, tag: Tag, waker: nat)
    requires Inv(s) && tag in s.futures && !Panics(s, PollFuture(tag, waker))
    ensures Buffers(ExecPollFuture(s, tag, waker)) == Buffers(s)
  {
    hide FlightInv, TagInv, AnswerInv, CountInv, LentOut;
    var h := s.futures[tag].slot;
    if s.slots[h].state.Finished? {
      LentAfterReturn(s.slots, h, s.slots - {h});
      LentIsPart(s.slots, h);
    } else {
      LentUnchanged(s.slots, h, s.slots[h].(state := InflightWithWaker(waker)));
    }
  }

  lemma DropKeepsBuffers(s: State, tag: Tag)
    requires Inv(s) && tag in s.futures && !Panics(s, DropFuture(tag))
    ensures Buffers(ExecDropFuture(s, tag)) == Buffers(s)
  {
    hide FlightInv, TagInv, AnswerInv, CountInv, LentOut;
    var f := s.futures[tag];
    if s.slots[f.slot].state.Finished? {
      var slot := s.slots[f.slot].(lent := {}, dropped := true);
      LentAfterReturn(s.slots, f.slot, s.slots[f.slot := slot]);
      LentIsPart(s.slots, f.slot);
    } else {
      LentUnchanged(s.slots, f.slot, s.slots[f.slot].(state := Cancelled(f.buffers)));
    }
  }

  lemma StepKeepsBuffers(s: State, step: Step)
    requires Inv(s) && Enabled(s, step) && !Panics(s, step)
    ensures Buffers(Exec(s, step)) == Buffers(s)
  {
    hide Inv, LentOut;
    match step
    case Submit(slot, handle, verb, buffers, two) =>
      if Accepts(s) {
        LentAfterInsert(s.slots, slot, Slot(Inflight, s.submitted, buffers, false));
      }
    case Receive => ReceiveKeepsBuffers(s);
    case PollFuture(tag, waker) => PollKeepsBuffers(s, tag, waker);
    case DropFuture(tag) => DropKeepsBuffers(s, tag);
    case _ =>
  }

  lemma {:induction false} RunKeepsBuffers(s: State, steps: seq<Step>)
    requires Inv(s) && IsRun(s, steps) && ClosesAreLive(s, steps)
    ensures Buffers(After(s, steps)) == Buffers(s)
    decreases |steps|
  {
    hide Inv, Enabled, Panics, Exec, Buffers;
    if steps != [] {
      StepKeepsBuffers(s, steps[0]);
      StepKeepsInv(s, steps[0]);
      RunKeepsBuffers(Exec(s, steps[0]), steps[1..]);
    }
  }

  /** At any time of any history each buffer is in exactly one place: in the caller's hands, deallocated, or
      lent to one submission. */
  lemma BuffersAreConserved(requestCap: nat, responseCap: nat, objects: set<Handle>, buffers: set<Buffer>,
                            steps: seq<Step>)
    requires IsRun(Initial(requestCap, responseCap, objects, buffers), steps)
    requires ClosesAreLive(Initial(requestCap, responseCap, objects, buffers), steps)
    ensures var t := After(Initial(requestCap, responseCap, objects, buffers), steps);
            && t.callers + t.freed + LentOut(t.slots) == buffers
            && t.callers !! t.freed && t.callers !! LentOut(t.slots) && t.freed !! LentOut(t.slots)
            && forall g, h :: g in t.slots && h in t.slots && g != h ==> t.slots[g].lent !! t.slots[h].lent
  {
    var s0 := Initial(requestCap, responseCap, objects, buffers);
    InitialInv(requestCap, responseCap, objects, buffers);
    RunKeepsInv(s0, steps);
    RunKeepsBuffers(s0, steps);
    assert Buffers(s0) == buffers;
    hide FlightInv, TagInv, AnswerInv, FutureInv, CountInv, IsRun, After;
  }
}
