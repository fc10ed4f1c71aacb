/** The code of the I/O queue over its real data structures: two `SpscRing.Ring`s, the slot arena of
    the runtime and the object arena of the kernel.  Every method is shown to be a run of
    `IoProtocol`; `IoSession` puts calls together. */
module IoQueue {
  import opened Wrappers
  import opened IoProtocol
  import opened IoWakers
  import Errors
  import A = Arena
  import R = SpscRing

  /** What polling an object's ticket yields. */
  datatype Outcome = Waits | Value(value: int) | NewObject(object_: nat)

  /** `erase_handle`: the generation in the top byte, the index below. */
  function EraseHandle(h: Handle): int
  {
    h.generation * 0x100_0000 + h.index
  }

  /** `unerase_handle`: mask, shift and truncation to a byte. */
  function UneraseHandle(raw: nat): Handle
  {
    A.Handle(raw % 0x100_0000, raw / 0x100_0000 % 0x100)
  }

  /** A program that sends back the number it got names the very object; the number is no error; and numbers
      of 32 bits and handles that fit are one to one. */
  lemma ErasedHandleReturns(h: Handle, raw: nat)
    requires h.index < 0x100_0000 && h.generation < 0x100 && raw < 0x1_0000_0000
    ensures 0 <= EraseHandle(h) < 0x1_0000_0000 && UneraseHandle(EraseHandle(h)) == h
    ensures UneraseHandle(raw).index < 0x100_0000 && EraseHandle(UneraseHandle(raw)) == raw
    ensures Errors.Decode(EraseHandle(h)) == Errors.Success(EraseHandle(h))
  {
    hide Errors.Decode;
    Errors.DecodeIsExact(Errors.Unknown, EraseHandle(h));
  }

  /** The reply that says what the object's ticket said: it waits, has a value, or made an object that is
      answered by its handle. */
  ghost predicate Says(outcome: Outcome, reply: Reply)
  {
    match outcome
    case Waits => reply == Pending
    case Value(value) => reply == Ready(value, {})
    case NewObject(_) => exists h :: reply == Ready(EraseHandle(h), {h})
  }

  /** The table before and after: a new object is under its handle, which was not live. */
  ghost predicate Enters(outcome: Outcome, reply: Reply, before: map<Handle, nat>, after: map<Handle, nat>)
  {
    match outcome
    case NewObject(object_) => exists h :: h !in before && reply == Ready(EraseHandle(h), {h}) && after == before[h := object_]
    case _ => after == before
  }

  lemma {:induction false} RunAppend(s: State, steps: seq<Step>, step: Step)
    requires IsRun(s, steps) && Enabled(After(s, steps), step) && !Panics(After(s, steps), step)
    ensures IsRun(s, steps + [step]) && After(s, steps + [step]) == Exec(After(s, steps), step)
    decreases |steps|
  {
    hide Enabled, Panics, Exec;
    if steps == [] {
      assert [] + [step] == [step] && [step][1..] == [];
      assert IsRun(Exec(s, step), []);
    } else {
      assert (steps + [step])[0] == steps[0] && (steps + [step])[1..] == steps[1..] + [step];
      RunAppend(Exec(s, steps[0]), steps[1..], step);
    }
  }

  class Session {
    const requests: R.Ring<Request>
    const responses: R.Ring<Response>
    // kernel
    var pending: seq<Item>
    const objects: A.Arena<nat>
    // user
    var inFlight: int
    const slots: A.Arena<Slot>
    var ready: int
    var futures: map<Tag, Future>
    // observers
    var submitted: nat
    var callers: set<Buffer>
    ghost var freed: set<Buffer>
    ghost var delivered: set<Tag>
    ghost var forgotten: set<Tag>
    ghost var answers: map<Tag, int>
    ghost var lost: nat

    ghost function Footprint(): set<object>
      reads this
    {
      {this, requests, requests.entries, responses, responses.entries, objects, slots}
    }

    ghost predicate Valid()
      reads Footprint()
    {
      && (requests as object) != responses
      && (requests.entries as object) != responses.entries
      && (objects as object) != slots
      && requests.Valid() && responses.Valid()
      && objects.Valid() && slots.Valid()
      && slots.modulus == 1
    }

    ghost function View(): State
      reads Footprint()
    {
      State(requests.entries.Length, responses.entries.Length, requests.contents, responses.contents,
            pending, objects.model.contents.Keys,
            inFlight, slots.model.contents, ready, futures, callers, freed,
            submitted, delivered, forgotten, answers, lost)
    }

    /** `Queue::new` on both sides: empty rings in the shared memory, no slots, no tickets. */
    constructor (requestEntries: array<Request>, responseEntries: array<Response>, objects: A.Arena<nat>, buffers: set<Buffer>)
      requires R.ValidCapacity(requestEntries.Length) && R.ValidCapacity(responseEntries.Length)
      requires (requestEntries as object) != responseEntries && objects.Valid()
      ensures Valid()
      ensures View() == Initial(requestEntries.Length, responseEntries.Length, objects.model.contents.Keys, buffers)
    {
      this.requests := new R.Ring(requestEntries);
      this.responses := new R.Ring(responseEntries);
      this.objects := objects;
      this.slots := new A.Arena(1);
      pending, inFlight, ready, futures, submitted := [], 0, 0, map[], 0;
      callers, freed, delivered, forgotten, answers, lost := buffers, {}, {}, {}, map[], 0;
    }

    /** The slot arena hands out generation 0 only. */
    lemma SlotHandle(h: Handle)
      requires Valid() && h == slots.NextHandle()
      ensures h.generation == 0 && h !in slots.model.contents
    {
    }

    /** The user library's `submit`. */
    method SubmitRequest(request: Request) returns (ok: bool)
      requires Valid()
      modifies this`inFlight, requests, requests.entries
      ensures Valid()
      ensures ok == Accepts(old(View()))
      ensures View() == if !ok then old(View())
                        else old(View()).(requests := old(requests.contents) + [request],
                                          inFlight := old(inFlight) + if request.verb.Close? then 0 else 1)
    {
      hide R.Ring.Valid, A.Arena.Valid;
      if responses.entries.Length - 1 < inFlight {
        return false;
      }
      ok := requests.Enqueue(request);
      if ok && !request.verb.Close? {
        inFlight := inFlight + 1;
      }
    }

    /** `submit_read_buffer`, `submit_write_buffer` and `submit_write_read_tiny_buffers`. */
    method Submit(handle: Handle, verb: Verb, buffers: set<Buffer>, two: bool) returns (r: Option<Tag>, ghost slot: Handle)
      requires Valid() && !verb.Close? && buffers <= callers
      modifies this`inFlight, this`futures, this`callers, this`submitted, requests, requests.entries, slots
      ensures Valid()
      ensures Enabled(old(View()), Step.Submit(slot, handle, verb, buffers, two))
      ensures View() == Exec(old(View()), Step.Submit(slot, handle, verb, buffers, two))
      ensures r == if Accepts(old(View())) then Some(old(submitted)) else None
      ensures r.Some? ==> futures == old(futures)[r.value := Future(slot, buffers, two)] && callers == old(callers) - buffers
      ensures r.None? ==> futures == old(futures) && callers == old(callers) && slots.model.contents == old(slots.model.contents)
    {
      hide R.Ring.Valid, A.Arena.Valid, A.Arena.NextHandle, A.Apply;
      ghost var before := View();
      var i := slots.NextHandle();
      slot := i;
      SlotHandle(i);
      var _ := slots.Insert(Slot(Inflight, submitted, buffers, false));
      var ok := SubmitRequest(Request(verb, handle, Item(submitted, i.index, buffers)));
      if !ok {
        var _ := slots.Remove(i);
        assert slots.model.contents == before.slots;
        return None, slot;
      }
      futures := futures[submitted := Future(i, buffers, two)];
      callers := callers - buffers;
      r := Some(submitted);
      submitted := submitted + 1;
    }

    /** `submit_close`. */
    method SubmitClose(handle: Handle) returns (ok: bool)
      requires Valid()
      modifies this`inFlight, requests, requests.entries
      ensures Valid() && ok == Accepts(old(View()))
      ensures View() == Exec(old(View()), Step.SubmitClose(handle))
    {
      hide R.Ring.Valid, A.Arena.Valid;
      ok := SubmitRequest(Request(Close, handle, Item(submitted, CLOSE_USER_DATA, {})));
    }

    /** The user library's `receive`. */
    method ReceiveResponse() returns (r: Option<Response>)
      requires Valid()
      modifies this`inFlight, responses
      ensures Valid()
      ensures r == if old(responses.contents) == [] then None else Some(old(responses.contents)[0])
      ensures View() == if r.None? then old(View())
                        else old(View()).(responses := old(responses.contents)[1..], inFlight := old(inFlight) - 1)
    {
      hide R.Ring.Valid, A.Arena.Valid;
      r := responses.Dequeue();
      if r.Some? {
        inFlight := inFlight - 1;
      }
    }

    /** One round of `process`: take a response and replace the state of the slot it names.
        `counted` is what the round adds to the loop's counter and `woken` the waker that it wakes. */
    method RouteOne() returns (more: bool, counted: nat, woken: Option<nat>)
      requires Valid() && !Panics(View(), Receive)
      modifies this`inFlight, responses, slots, this`freed, this`delivered
      ensures Valid()
      ensures more <==> old(responses.contents) != []
      ensures !more ==> View() == old(View()) && counted == 0
      ensures more ==> responses.contents == old(responses.contents)[1..]
      ensures more ==> View().(ready := View().ready + counted) == ExecReceive(old(View()))
      ensures woken == if more then Woken(old(View()), Receive) else None
    {
      hide R.Ring.Valid, A.Arena.Valid, A.Apply;
      counted, woken := 0, None;
      var r := ReceiveResponse();
      if r.None? {
        return false, 0, None;
      }
      var i := SlotOf(r.value.item.userData);
      var slot := slots.Get(i).value;
      delivered := delivered + {r.value.item.tag};
      if slot.state.Cancelled? {
        var _ := slots.Remove(i);
        freed := freed + slot.state.buffers;
      } else {
        slots.Set(i, slot.(state := Finished(r.value.value)));
        counted := 1;
        if slot.state.InflightWithWaker? {
          woken := Some(slot.state.waker);
        }
      }
      more := true;
    }

    /** `process`: drains the response ring, wakes whoever waits and then adds to the counter once. */
    method Process() returns (woken: seq<nat>, ghost steps: seq<Step>)
      requires Valid() && Inv(View())
      modifies this`inFlight, this`ready, responses, slots, this`freed, this`delivered
      ensures Valid() && Inv(View()) && responses.contents == []
      ensures |steps| == old(|responses.contents|) && (forall i :: 0 <= i < |steps| ==> steps[i] == Receive)
      ensures IsRun(old(View()), steps) && View() == After(old(View()), steps)
      ensures woken == AllWoken(old(View()), steps)
    {
      hide R.Ring.Valid, A.Arena.Valid, Inv, IsRun, After, ExecReceive, AllWoken, Woken;
      var n := 0;
      var more := true;
      woken, steps := [], [];
      ghost var before := View();
      EmptyRun(before);
      while more
        invariant Valid() && IsRun(before, steps)
        invariant View().(ready := ready + n) == After(before, steps) && Inv(After(before, steps))
        invariant |steps| + |responses.contents| == |before.responses|
        invariant forall i :: 0 <= i < |steps| ==> steps[i] == Receive
        invariant woken == AllWoken(before, steps)
        invariant !more ==> responses.contents == []
        decreases |responses.contents|, more
      {
        ghost var round := View();
        NoPanicInRound(After(before, steps), ready);
        var counted, waker;
        more, counted, waker := RouteOne();
        if more {
          RoundIsReceive(before, steps, n, counted, round, View());
          RoundWakes(before, steps, n, round);
          if waker.Some? {
            woken := woken + [waker.value];
          }
          n := n + counted;
          steps := steps + [Receive];
        }
      }
      ready := ready + n;
    }

    /** `BufferFuture::poll`: the result, once there is one. */
    method PollFuture(tag: Tag, waker: nat) returns (r: Option<int>)
      requires Valid() && tag in futures && !Panics(View(), Step.PollFuture(tag, waker))
      modifies this`ready, this`futures, this`callers, slots
      ensures Valid() && View() == ExecPollFuture(old(View()), tag, waker)
      ensures var state := old(slots.model.contents[futures[tag].slot].state);
              r == if state.Finished? then Some(state.value) else None
      ensures callers == if r.Some? then old(callers) + old(futures)[tag].buffers else old(callers)
    {
      hide R.Ring.Valid, A.Arena.Valid, A.Apply;
      var f := futures[tag];
      var slot := slots.Get(f.slot).value;
      if slot.state.Finished? {
        var _ := slots.Remove(f.slot);
        ready := ready - 1;
        futures := futures - {tag};
        callers := callers + f.buffers;
        r := Some(slot.state.value);
      } else {
        slots.Set(f.slot, slot.(state := InflightWithWaker(waker)));
        r := None;
      }
    }

    /** Dropping a `BufferFuture` or `BufferFuture2` that still holds its buffers. */
    method DropFuture(tag: Tag)
      requires Valid() && tag in futures && !Panics(View(), Step.DropFuture(tag))
      modifies this`ready, this`futures, this`freed, this`lost, slots
      ensures Valid() && View() == ExecDropFuture(old(View()), tag)
      ensures callers == old(callers) && futures == old(futures) - {tag}
    {
      hide R.Ring.Valid, A.Arena.Valid, A.Apply;
      var f := futures[tag];
      futures := futures - {tag};
      var entry := slots.Get(f.slot);
      if entry.None? {
        freed := freed + f.buffers;
      } else if entry.value.state.Finished? {
        slots.Set(f.slot, entry.value.(lent := {}, dropped := true));
        freed := freed + f.buffers;
        if f.two {
          lost := lost + 1;
        } else {
          ready := ready - 1;
        }
      } else {
        slots.Set(f.slot, entry.value.(state := Cancelled(f.buffers)));
      }
    }

    /** `push_resp`: the result of `enqueue_response` is ignored. */
    method PushResponse(item: Item, value: int)
      requires Valid()
      modifies responses, responses.entries, this`answers
      ensures Valid() && View() == Push(old(View()), item, value)
    {
      hide R.Ring.Valid, A.Arena.Valid;
      var ok := responses.Enqueue(Response(item, value));
      if ok {
        answers := answers[item.tag := value];
      }
    }

    /** The value of a finished ticket; an object enters the table and is answered by its handle. */
    method Finish(outcome: Outcome) returns (value: int, created: set<Handle>)
      requires Valid() && !outcome.Waits?
      modifies objects
      ensures Valid() && View() == old(View()).(objects := old(View()).objects + created)
      ensures Says(outcome, Ready(value, created))
      ensures Enters(outcome, Ready(value, created), old(objects.model.contents), objects.model.contents)
      ensures outcome.Value? ==> value == outcome.value && objects.model.contents == old(objects.model.contents)
      ensures outcome.NewObject? ==>
                exists h :: h !in old(objects.model.contents) && value == EraseHandle(h)
                            && objects.model.contents == old(objects.model.contents)[h := outcome.object_]
    {
      hide R.Ring.Valid, A.Arena.Valid, A.Apply, A.Arena.NextHandle;
      if outcome.Value? {
        return outcome.value, {};
      }
      var h := objects.Insert(outcome.object_);
      assert objects.model.contents.Keys == old(objects.model.contents).Keys + {h};
      return EraseHandle(h), {h};
    }

    lemma RingHolds()
      requires Valid()
      ensures |responses.contents| <= responses.entries.Length
    {
    }

    /** A ticket that is done: it is taken out and answered with what it said. */
    method FinishTicket(i: nat, outcome: Outcome, ghost before: State, ghost steps: seq<Step>)
      returns (ghost step: Step)
      requires Valid() && i < |pending| && !outcome.Waits?
      requires IsRun(before, steps) && View() == After(before, steps)
      modifies this`pending, this`answers, objects, responses, responses.entries
      ensures Valid() && IsRun(before, steps + [step]) && View() == After(before, steps + [step])
      ensures step.PollTicket? && step.index == i && Says(outcome, Ready(step.value, step.created))
      ensures Enters(outcome, Ready(step.value, step.created), old(objects.model.contents), objects.model.contents)
      ensures pending == SwapRemove(old(pending), i)
      ensures responses.contents == Fit(old(responses.contents) + [Response(old(pending)[i], step.value)], responses.entries.Length)
      ensures requests.contents == old(requests.contents)
    {
      hide R.Ring.Valid, A.Arena.Valid, IsRun, After, SwapRemove, Says, Enters;
      RingHolds();
      ghost var now := View();
      var ticket := pending[i];
      pending := SwapRemove(pending, i);
      var value, created := Finish(outcome);
      PushResponse(ticket, value);
      FitPush(now.responses, Response(ticket, value), responses.entries.Length);
      TicketRound(before, steps, now, View(), i, value, created);
      step := PollTicket(i, value, created);
    }

    /** `poll_tickets`: polls every ticket once, the last first, although finished ones are taken out
        by `swap_remove` along the way.  `polls[i]` is what ticket i says; the ready tickets are answered
        with it, in the order of polling, as far as there is room. */
    method PollTickets(polls: seq<Outcome>) returns (count: nat, ghost steps: seq<Step>)
      requires Valid() && |polls| == |pending|
      modifies this`pending, this`answers, objects, responses, responses.entries
      ensures Valid()
      ensures IsRun(old(View()), steps) && View() == After(old(View()), steps) && |steps| == count
      ensures multiset(pending) == multiset(NotReady(old(pending), polls))
      ensures count + |NotReady(old(pending), polls)| == |polls|
      ensures PollSteps(polls, 0, steps)
      ensures responses.contents == Fit(old(responses.contents) + Replies(old(pending), steps), responses.entries.Length)
      ensures requests.contents == old(requests.contents)
    {
      hide R.Ring.Valid, A.Arena.Valid, IsRun, After, Polled, SwapRemove, NotReady, PollSteps, Replies, Fit, Says, Enters;
      count, steps := 0, [];
      ghost var before, sent := View(), responses.contents;
      EmptyRun(before);
      NonePolled(before.pending, polls);
      RingHolds();
      NothingSent(before.pending, polls, sent, responses.entries.Length);
      var i := |pending|;
      while i > 0
        invariant 0 <= i <= |before.pending| && i <= |pending|
        invariant Valid() && IsRun(before, steps) && View() == After(before, steps) && |steps| == count
        invariant Polled(before.pending, polls, pending, i, count)
        invariant PollSteps(polls, i, steps)
        invariant responses.contents == Fit(sent + Replies(before.pending, steps), responses.entries.Length)
        invariant requests.contents == old(requests.contents)
      {
        i := i - 1;
        ghost var round := pending;
        TicketTail(before.pending, polls, round, i, count);
        if !polls[i].Waits? {
          count := count + 1;
          ghost var step := FinishTicket(i, polls[i], before, steps);
          NextPollStep(polls, i, steps, step);
          OneMoreReply(before.pending, sent, steps, step, responses.entries.Length);
          steps := steps + [step];
        } else {
          NoPollStep(polls, i, steps);
        }
      }
      AllPolled(before.pending, polls, pending, count);
    }

    /** One round of the loop in `process_io_queue`; `outcome` is what the object's ticket says.  The
        reply is the outcome; `dead` tells that a dead handle was closed.  A request that names a dead handle
        and a Close do not look at it. */
    method HandleRequest(outcome: Outcome) returns (more: bool, dead: bool, ghost reply: Reply)
      requires Valid()
      modifies this`pending, this`answers, requests, objects, responses, responses.entries
      ensures Valid()
      ensures more <==> old(requests.contents) != []
      ensures if more then View() == ExecTake(old(View()), reply) else View() == old(View())
      ensures dead <==> more && DeadClose(old(View()), Take(reply))
      ensures Says(outcome, reply)
      ensures more ==> requests.contents == old(requests.contents)[1..]
      ensures more && NamesDead(old(requests.contents)[0], old(objects.model.contents).Keys) ==>
                && objects.model.contents == old(objects.model.contents) && pending == old(pending)
                && responses.contents ==
                     Fit(old(responses.contents) + [Response(old(requests.contents)[0].item, INVALID_OBJECT)], responses.entries.Length)
      ensures more && old(requests.contents)[0].verb.Close? && old(requests.contents)[0].handle in old(objects.model.contents) ==>
                && objects.model.contents == old(objects.model.contents) - {old(requests.contents)[0].handle}
                && pending == old(pending) && responses.contents == old(responses.contents)
      ensures more && Serves(old(View())) ==>
                && Enters(outcome, reply, old(objects.model.contents), objects.model.contents)
                && pending == old(pending) + (if outcome.Waits? then [old(requests.contents)[0].item] else [])
                && responses.contents ==
                     (if outcome.Waits? then old(responses.contents)
                      else Fit(old(responses.contents) + [Response(old(requests.contents)[0].item, reply.value)], responses.entries.Length))
                && (outcome.Value? ==> reply.Ready? && reply.value == outcome.value)
    {
      hide R.Ring.Valid, A.Arena.Valid, A.Apply, Says, Enters, Fit;
      RingHolds();
      reply := Unasked(outcome);
      UnaskedSays(outcome);
      var r := requests.Dequeue();
      if r.None? {
        return false, false, reply;
      }
      more, dead := true, false;
      var request := r.value;
      if objects.Get(request.handle).None? {
        dead := request.verb.Close?;
        FitPush(responses.contents, Response(request.item, INVALID_OBJECT), responses.entries.Length);
        PushResponse(request.item, INVALID_OBJECT);
      } else if request.verb.Close? {
        ghost var keys := objects.model.contents.Keys;
        var _ := objects.Remove(request.handle);
        assert objects.model.contents.Keys == keys - {request.handle};
      } else if request.verb.Share? && objects.Get(request.verb.share).None? {
        FitPush(responses.contents, Response(request.item, INVALID_OBJECT), responses.entries.Length);
        PushResponse(request.item, INVALID_OBJECT);
      } else if outcome.Waits? {
        pending := pending + [request.item];
        WaitsEnters(outcome, reply, objects.model.contents);
      } else {
        var value, created := Finish(outcome);
        reply := Ready(value, created);
        FitPush(responses.contents, Response(request.item, value), responses.entries.Length);
        PushResponse(request.item, value);
      }
    }

    /** `process_io_queue`: polls the tickets, then handles requests until the ring is empty.  The
        call is a run of the protocol whose first steps answer tickets with what they said and whose other
        steps answer or park one request each with what its object said, so the invariant survives it if
        no dead handle is closed. */
    method ProcessIoQueue(polls: seq<Outcome>, outcomes: nat -> Outcome) returns (dead: bool, ghost steps: seq<Step>, ghost polled: nat)
      requires Valid() && |polls| == |pending|
      modifies this`pending, this`answers, requests, objects, responses, responses.entries
      ensures Valid() && requests.contents == []
      ensures IsRun(old(View()), steps) && View() == After(old(View()), steps)
      ensures polled + old(|requests.contents|) == |steps| && PollSteps(polls, 0, steps[..polled])
      ensures forall k :: polled <= k < |steps| ==> steps[k].Take? && Says(outcomes(k - polled), steps[k].reply)
      ensures dead <==> !ClosesAreLive(old(View()), steps)
      ensures Inv(old(View())) && !dead ==> Inv(View())
    {
      hide R.Ring.Valid, A.Arena.Valid, IsRun, After, ExecTake, Inv, ClosesAreLive, DeadClose, PollSteps, Says, Enters;
      ghost var before, asked := View(), |requests.contents|;
      var n;
      n, steps := PollTickets(polls);
      polled := n;
      assert steps[..polled] == steps;
      PollsCloseNothing(before, polls, steps);
      dead := false;
      var more, k := true, 0;
      while more
        invariant Valid() && IsRun(before, steps) && View() == After(before, steps)
        invariant polled <= |steps| && PollSteps(polls, 0, steps[..polled])
        invariant |steps| + |requests.contents| == polled + asked && (more ==> k == |steps| - polled)
        invariant forall j :: polled <= j < |steps| ==> steps[j].Take? && Says(outcomes(j - polled), steps[j].reply)
        invariant !more ==> requests.contents == []
        invariant dead <==> !ClosesAreLive(before, steps)
        decreases |requests.contents|, more
      {
        ghost var now := View();
        var closedDead;
        ghost var reply;
        more, closedDead, reply := HandleRequest(outcomes(k));
        if more {
          TakeRound(before, steps, now, View(), reply);
          LiveAppend(before, steps, Take(reply));
          dead := dead || closedDead;
          assert (steps + [Take(reply)])[..polled] == steps[..polled];
          steps := steps + [Take(reply)];
        }
        k := k + 1;
      }
      if Inv(before) && ClosesAreLive(before, steps) {
        RunKeepsInv(before, steps);
      }
    }

    /** `mem::forget` of a future. */
    method Forget(tag: Tag)
      requires Valid() && tag in futures
      modifies this`futures, this`forgotten
      ensures Valid() && View() == old(View()).(futures := old(futures) - {tag}, forgotten := old(forgotten) + {tag})
    {
      hide R.Ring.Valid, A.Arena.Valid;
      futures, forgotten := futures - {tag}, forgotten + {tag};
    }

    /** The caller frees a buffer that it holds. */
    method Free(buffer: Buffer)
      requires Valid() && buffer in callers
      modifies this`callers, this`freed
      ensures Valid() && View() == old(View()).(callers := old(callers) - {buffer}, freed := old(freed) + {buffer})
    {
      hide R.Ring.Valid, A.Arena.Valid;
      callers, freed := callers - {buffer}, freed + {buffer};
    }

    /** Another thread of the process closes a handle. */
    method RemoveElsewhere(handle: Handle)
      requires Valid()
      modifies objects
      ensures Valid() && View() == old(View()).(objects := old(View()).objects - {handle})
    {
      hide R.Ring.Valid, A.Arena.Valid, A.Apply;
      ghost var keys := objects.model.contents.Keys;
      var _ := objects.Remove(handle);
      assert objects.model.contents.Keys == keys - {handle};
    }

    /** Another thread of the process gets an object. */
    method InsertElsewhere(object_: nat) returns (handle: Handle)
      requires Valid()
      modifies objects
      ensures Valid() && View() == old(View()).(objects := old(View()).objects + {handle})
    {
      hide R.Ring.Valid, A.Arena.Valid, A.Apply, A.Arena.NextHandle;
      ghost var keys := objects.model.contents.Keys;
      handle := objects.Insert(object_);
      assert objects.model.contents.Keys == keys + {handle};
    }
  }

  /** The request names a handle that no object has: its own, or the one it wants to share. */
  ghost predicate NamesDead(r: Request, objects: set<Handle>)
  {
    r.handle !in objects || (r.verb.Share? && r.verb.share !in objects)
  }

  ghost function Unasked(outcome: Outcome): Reply
  {
    match outcome
    case Waits => Pending
    case Value(value) => Ready(value, {})
    case NewObject(_) => Ready(EraseHandle(A.Handle(0, 0)), {A.Handle(0, 0)})
  }

  lemma UnaskedSays(outcome: Outcome)
    ensures Says(outcome, Unasked(outcome))
  {
  }

  lemma WaitsEnters(outcome: Outcome, reply: Reply, objects: map<Handle, nat>)
    requires outcome.Waits?
    ensures Enters(outcome, reply, objects, objects)
  {
  }

  // ---- What polling the tickets answers ----

  /** Responses beyond the size of the ring are dropped. */
  ghost function Fit(responses: seq<Response>, size: nat): seq<Response>
  {
    if |responses| <= size then responses else responses[..size]
  }

  lemma FitPush(responses: seq<Response>, r: Response, size: nat)
    requires |responses| <= size
    ensures Fit(responses + [r], size) == if |responses| < size then responses + [r] else responses
  {
  }

  /** One step for each ticket from i on that is ready, the last first, saying what the ticket said. */
  ghost predicate PollSteps(polls: seq<Outcome>, i: nat, steps: seq<Step>)
    decreases |polls| - i
  {
    if i >= |polls| then steps == []
    else if polls[i].Waits? then PollSteps(polls, i + 1, steps)
    else
      && steps != []
      && var last := steps[|steps| - 1];
         && last.PollTicket? && last.index == i && Says(polls[i], Ready(last.value, last.created))
         && PollSteps(polls, i + 1, steps[..|steps| - 1])
  }

  /** The responses to the tickets that those steps take out. */
  ghost function Replies(tickets: seq<Item>, steps: seq<Step>): seq<Response>
  {
    if steps == [] then []
    else
      var last := steps[|steps| - 1];
      Replies(tickets, steps[..|steps| - 1]) +
      if last.PollTicket? && last.index < |tickets| then [Response(tickets[last.index], last.value)] else []
  }

  lemma NothingSent(tickets: seq<Item>, polls: seq<Outcome>, sent: seq<Response>, size: nat)
    requires |sent| <= size
    ensures PollSteps(polls, |polls|, []) && sent == Fit(sent + Replies(tickets, []), size)
  {
    assert sent + [] == sent;
  }

  lemma NextPollStep(polls: seq<Outcome>, i: nat, steps: seq<Step>, step: Step)
    requires i < |polls| && PollSteps(polls, i + 1, steps) && !polls[i].Waits?
    requires step.PollTicket? && step.index == i && Says(polls[i], Ready(step.value, step.created))
    ensures PollSteps(polls, i, steps + [step])
  {
    assert (steps + [step])[..|steps|] == steps;
  }

  lemma NoPollStep(polls: seq<Outcome>, i: nat, steps: seq<Step>)
    requires i < |polls| && PollSteps(polls, i + 1, steps) && polls[i].Waits?
    ensures PollSteps(polls, i, steps)
  {
  }

  lemma OneMoreReply(tickets: seq<Item>, sent: seq<Response>, steps: seq<Step>, step: Step, size: nat)
    requires step.PollTicket? && step.index < |tickets|
    ensures var r := Response(tickets[step.index], step.value);
            Fit(Fit(sent + Replies(tickets, steps), size) + [r], size) == Fit(sent + Replies(tickets, steps + [step]), size)
  {
    hide Fit, Replies;
    var r, all := Response(tickets[step.index], step.value), Replies(tickets, steps);
    RepliesAppend(tickets, steps, step);
    FitTwice(sent + all, r, size);
    ConcatStep(sent, all, r);
  }

  lemma {:induction false} RepliesAppend(tickets: seq<Item>, steps: seq<Step>, step: Step)
    requires step.PollTicket? && step.index < |tickets|
    ensures Replies(tickets, steps + [step]) == Replies(tickets, steps) + [Response(tickets[step.index], step.value)]
  {
    assert (steps + [step])[..|steps|] == steps && (steps + [step])[|steps|] == step;
  }

  lemma FitTwice(a: seq<Response>, r: Response, size: nat)
    ensures Fit(Fit(a, size) + [r], size) == Fit(a + [r], size)
  {
  }

  lemma ConcatStep(a: seq<Response>, b: seq<Response>, r: Response)
    ensures a + (b + [r]) == a + b + [r]
  {
  }

  /** Whether Closes were live, one step further. */
  lemma {:induction false} LiveAppend(s: State, steps: seq<Step>, step: Step)
    requires IsRun(s, steps) && IsRun(s, steps + [step])
    ensures ClosesAreLive(s, steps + [step]) <==> ClosesAreLive(s, steps) && !DeadClose(After(s, steps), step)
    decreases |steps|
  {
    hide Enabled, Panics, Exec, DeadClose;
    if steps == [] {
      assert ([] + [step])[1..] == [] && [] + [step] == [step];
      assert ClosesAreLive(Exec(s, step), []);
    } else {
      assert (steps + [step])[0] == steps[0] && (steps + [step])[1..] == steps[1..] + [step];
      LiveAppend(Exec(s, steps[0]), steps[1..], step);
    }
  }

  /** The step answers a ticket that is ready with its value, or with the handle of the object that it made. */
  ghost predicate AnswersTicket(polls: seq<Outcome>, step: Step)
  {
    && step.PollTicket? && step.index < |polls|
    && match polls[step.index]
       case Waits => false
       case Value(value) => step.value == value && step.created == {}
       case NewObject(_) => exists h :: step.created == {h} && step.value == EraseHandle(h)
  }

  lemma SaysAnswers(polls: seq<Outcome>, step: Step)
    requires step.PollTicket? && step.index < |polls| && !polls[step.index].Waits?
    requires Says(polls[step.index], Ready(step.value, step.created))
    ensures AnswersTicket(polls, step)
  {
  }

  /** The steps of a call of `poll_tickets`: exactly the tickets that are ready, each once, the last first, and
      each answered with its value if it has one. */
  lemma {:induction false} PollStepsMean(polls: seq<Outcome>, i: nat, steps: seq<Step>)
    requires PollSteps(polls, i, steps)
    ensures forall k :: 0 <= k < |steps| ==> AnswersTicket(polls, steps[k]) && steps[k].PollTicket? && i <= steps[k].index
    ensures forall j, k :: 0 <= j < k < |steps| ==> steps[j].index > steps[k].index
    ensures forall n :: i <= n < |polls| && !polls[n].Waits? ==> exists k :: 0 <= k < |steps| && steps[k].index == n
    decreases |polls| - i
  {
    hide Says, AnswersTicket;
    if i < |polls| {
      if polls[i].Waits? {
        PollStepsMean(polls, i + 1, steps);
      } else {
        var front, last := steps[..|steps| - 1], |steps| - 1;
        SaysAnswers(polls, steps[last]);
        PollStepsMean(polls, i + 1, front);
        forall n | i <= n < |polls| && !polls[n].Waits?
          ensures exists k :: 0 <= k < |steps| && steps[k].index == n
        {
          if n == i {
            assert steps[last].index == n;
          } else {
            var k :| 0 <= k < |front| && front[k].index == n;
            assert steps[k].index == n;
          }
        }
        assert forall k :: 0 <= k < last ==> steps[k] == front[k];
      }
    }
  }

  lemma {:induction false} PollsAreNoTakes(polls: seq<Outcome>, i: nat, steps: seq<Step>)
    requires PollSteps(polls, i, steps)
    ensures forall k :: 0 <= k < |steps| ==> steps[k].PollTicket?
    decreases |polls| - i
  {
    if i < |polls| {
      PollsAreNoTakes(polls, i + 1, if polls[i].Waits? then steps else steps[..|steps| - 1]);
    }
  }

  lemma {:induction false} NoTakesAreLive(s: State, steps: seq<Step>)
    requires IsRun(s, steps) && forall k :: 0 <= k < |steps| ==> !steps[k].Take?
    ensures ClosesAreLive(s, steps)
    decreases |steps|
  {
    hide Enabled, Panics, Exec;
    if steps != [] {
      NoTakesAreLive(Exec(s, steps[0]), steps[1..]);
    }
  }

  lemma PollsCloseNothing(s: State, polls: seq<Outcome>, steps: seq<Step>)
    requires IsRun(s, steps) && PollSteps(polls, 0, steps)
    ensures ClosesAreLive(s, steps)
  {
    hide IsRun, PollSteps;
    PollsAreNoTakes(polls, 0, steps);
    NoTakesAreLive(s, steps);
  }

  lemma TakeRound(before: State, steps: seq<Step>, now: State, next: State, reply: Reply)
    requires IsRun(before, steps) && now == After(before, steps) && now.requests != []
    requires next == ExecTake(now, reply)
    ensures IsRun(before, steps + [Take(reply)]) && next == After(before, steps + [Take(reply)])
  {
    hide IsRun, After, ExecTake;
    RunAppend(before, steps, Take(reply));
  }

  /** The tickets that were not ready. */
  ghost function NotReady(tickets: seq<Item>, polls: seq<Outcome>): seq<Item>
    requires |tickets| == |polls|
  {
    if tickets == [] then [] else
      (if polls[0].Waits? then [tickets[0]] else []) + NotReady(tickets[1..], polls[1..])
  }

  lemma TicketRound(before: State, steps: seq<Step>, now: State, next: State, i: nat, value: int, created: set<Handle>)
    requires IsRun(before, steps) && now == After(before, steps) && i < |now.pending|
    requires next == Push(now.(pending := SwapRemove(now.pending, i), objects := now.objects + created), now.pending[i], value)
    ensures IsRun(before, steps + [PollTicket(i, value, created)])
    ensures next == After(before, steps + [PollTicket(i, value, created)])
  {
    hide IsRun, After, Push, SwapRemove;
    RunAppend(before, steps, PollTicket(i, value, created));
  }

  /** The tickets from i on were polled and `count` of them were ready. */
  ghost predicate Polled(tickets: seq<Item>, polls: seq<Outcome>, now: seq<Item>, i: nat, count: nat)
  {
    && i <= |now| && i <= |tickets| == |polls|
    && now[..i] == tickets[..i]
    && multiset(now[i..]) == multiset(NotReady(tickets[i..], polls[i..]))
    && count + |NotReady(tickets[i..], polls[i..])| == |polls| - i
  }

  lemma NonePolled(tickets: seq<Item>, polls: seq<Outcome>)
    requires |tickets| == |polls|
    ensures Polled(tickets, polls, tickets, |tickets|, 0)
  {
  }

  lemma AllPolled(tickets: seq<Item>, polls: seq<Outcome>, now: seq<Item>, count: nat)
    requires Polled(tickets, polls, now, 0, count)
    ensures multiset(now) == multiset(NotReady(tickets, polls)) && count + |NotReady(tickets, polls)| == |polls|
  {
  }

  /** Taking ticket i out by moving the last one into its place leaves the tickets before i alone
      and, after i, a permutation of what was there. */
  lemma TicketTail(tickets: seq<Item>, polls: seq<Outcome>, round: seq<Item>, i: nat, count: nat)
    requires Polled(tickets, polls, round, i + 1, count)
    ensures i < |polls| && i < |round| && i < |tickets| && round[i] == tickets[i] && i <= |SwapRemove(round, i)|
    ensures polls[i].Waits? ==> Polled(tickets, polls, round, i, count)
    ensures !polls[i].Waits? ==> Polled(tickets, polls, SwapRemove(round, i), i, count + 1)
  {
    NotReadyStep(tickets, polls, i);
    hide SwapRemove, NotReady;
    SamePrefix(round, tickets, i);
    if polls[i].Waits? {
      OneMore(round, i, NotReady(tickets[i + 1..], polls[i + 1..]));
    }
    SwapRemoveTail(round, i);
  }

  lemma SamePrefix(a: seq<Item>, b: seq<Item>, i: nat)
    requires i < |a| && i < |b| && a[..i + 1] == b[..i + 1]
    ensures a[i] == b[i] && a[..i] == b[..i]
  {
  }

  lemma OneMore(a: seq<Item>, i: nat, rest: seq<Item>)
    requires i < |a| && multiset(a[i + 1..]) == multiset(rest)
    ensures multiset(a[i..]) == multiset([a[i]] + rest)
  {
    assert a[i..] == [a[i]] + a[i + 1..];
  }

  lemma NotReadyStep(tickets: seq<Item>, polls: seq<Outcome>, i: nat)
    requires |tickets| == |polls| && i < |tickets|
    ensures NotReady(tickets[i..], polls[i..])
         == (if polls[i].Waits? then [tickets[i]] else []) + NotReady(tickets[i + 1..], polls[i + 1..])
  {
  }

  lemma SwapRemoveTail<T>(xs: seq<T>, i: nat)
    requires i < |xs|
    ensures |SwapRemove(xs, i)| == |xs| - 1 && SwapRemove(xs, i)[..i] == xs[..i]
    ensures multiset(SwapRemove(xs, i)[i..]) == multiset(xs[i + 1..])
  {
    var last := |xs| - 1;
    if i < last {
      assert SwapRemove(xs, i)[i..] == [xs[last]] + xs[i + 1..last];
      assert xs[i + 1..] == xs[i + 1..last] + [xs[last]];
    }
  }

  /** A round of `process`, whose counter n is not yet added to `ready`, is a Receive step. */
  lemma RoundIsReceive(before: State, steps: seq<Step>, n: nat, counted: nat, round: State, next: State)
    requires IsRun(before, steps) && Inv(After(before, steps))
    requires round.(ready := round.ready + n) == After(before, steps)
    requires round.responses != [] && !Panics(round, Receive)
    requires next.(ready := next.ready + counted) == ExecReceive(round) && next.ready == round.ready
    ensures IsRun(before, steps + [Receive])
    ensures next.(ready := next.ready + n + counted) == After(before, steps + [Receive])
    ensures Inv(After(before, steps + [Receive]))
  {
    hide Inv, IsRun, After;
    NoPanicInRound(After(before, steps), round.ready);
    RunAppend(before, steps, Receive);
    StepKeepsInv(After(before, steps), Receive);
  }

  lemma EmptyRun(s: State)
    ensures IsRun(s, []) && After(s, []) == s && AllWoken(s, []) == []
  {
  }

  lemma RoundWakes(before: State, steps: seq<Step>, n: nat, round: State)
    requires IsRun(before, steps) && round.(ready := round.ready + n) == After(before, steps)
    requires round.responses != [] && !Panics(round, Receive) && IsRun(before, steps + [Receive])
    ensures AllWoken(before, steps + [Receive]) ==
              AllWoken(before, steps) + if Woken(round, Receive).Some? then [Woken(round, Receive).value] else []
  {
    hide IsRun, After, AllWoken;
    assert Woken(After(before, steps), Receive) == Woken(round, Receive);
    WokenAppend(before, steps, Receive);
  }

  lemma NoPanicInRound(s: State, ready: int)
    requires Inv(s)
    ensures !Panics(s.(ready := ready), Receive) && !Panics(s, Receive)
  {
    if s.responses != [] {
      NoStepPanics(s, Receive);
    }
  }
}
