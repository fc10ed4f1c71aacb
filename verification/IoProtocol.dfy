/** The asynchronous I/O queue from end to end: the user library (lib/rust/io_queue), the runtime
    that routes responses to futures (lib/rust/io_queue_rt) and the kernel side
    (kernel/src/scheduler/process/io.rs), as one system whose steps interleave freely.

    Each step is one ring operation together with the bookkeeping its caller does around it; `IoMemory`
    shows that ring operations may be taken as atomic.  Fields and components marked "history" are
    observers that no code reads. */
module IoProtocol {
  import opened Wrappers
  import A = Arena

  type Handle = A.Handle
  type Buffer = nat
  type Tag = nat

  datatype Verb = Read | Write | Open | Create | Seek | Share(share: Handle) | GetMeta | Close

  /** What a request carries through the kernel and back.  `tag` (history) numbers submissions and
      `lent` (history) names the buffers whose addresses the request contains. */
  datatype Item = Item(tag: Tag, userData: nat, lent: set<Buffer>)

  datatype Request = Request(verb: Verb, handle: Handle, item: Item)

  datatype Response = Response(item: Item, value: int)

  /** `BufferFutureState`. */
  datatype SlotState =
    | Inflight
    | InflightWithWaker(waker: nat)
    | Finished(value: int)
    | Cancelled(buffers: set<Buffer>)

  /** An entry of `inflight_buffers`.  History: the submission it was inserted for, the buffers that
      submission lent, and whether its future was dropped after finishing. */
  datatype Slot = Slot(state: SlotState, tag: Tag, lent: set<Buffer>, dropped: bool)

  /** A live `BufferFuture`, or a `BufferFuture2` when `two`. */
  datatype Future = Future(slot: Handle, buffers: set<Buffer>, two: bool)

  datatype State = State(
    requestCap: nat,
    responseCap: nat,
    requests: seq<Request>,
    responses: seq<Response>,
    // kernel
    pending: seq<Item>,
    objects: set<Handle>,
    // user
    inFlight: int,
    slots: map<Handle, Slot>,
    ready: int,
    futures: map<Tag, Future>,
    // buffer ownership: in the caller's hands, or deallocated
    callers: set<Buffer>,
    freed: set<Buffer>,
    // history
    submitted: nat,
    delivered: set<Tag>,
    forgotten: set<Tag>,
    answers: map<Tag, int>,
    lost: nat)

  /** What an object's ticket says when polled.  `created` holds the handle of the object that a
      finished open or create adds to the table. */
  datatype Reply = Ready(value: int, created: set<Handle>) | Pending

  datatype Step =
    | Submit(slot: Handle, handle: Handle, verb: Verb, buffers: set<Buffer>, two: bool)
    | SubmitClose(target: Handle)
    | Take(reply: Reply)
    | PollTicket(index: nat, value: int, created: set<Handle>)
    | ChangeObjects(objects: set<Handle>)
    | Receive
    | PollFuture(tag: Tag, waker: nat)
    | DropFuture(tag: Tag)
    | ForgetFuture(tag: Tag)
    | FreeBuffer(buffer: Buffer)

  const INVALID_OBJECT: int := -7
  const CLOSE_USER_DATA: nat := 0xFFFF_FFFF_FFFF_FFFF

  /** `submit` refuses when a response might not fit or the request ring is full. */
  predicate Accepts(s: State)
  {
    s.inFlight < s.responseCap && |s.requests| < s.requestCap
  }

  function SlotOf(userData: nat): Handle
  {
    A.Handle(userData, 0)
  }

  ghost predicate Enabled(s: State, step: Step)
  {
    match step
    case Submit(slot, _, verb, buffers, _) =>
      slot.generation == 0 && slot !in s.slots && !verb.Close? && buffers <= s.callers
    case SubmitClose(_) => true
    case Take(_) => s.requests != []
    case PollTicket(index, _, _) => index < |s.pending|
    case ChangeObjects(_) => true
    case Receive => s.responses != []
    case PollFuture(tag, _) => tag in s.futures
    case DropFuture(tag) => tag in s.futures
    case ForgetFuture(tag) => tag in s.futures
    case FreeBuffer(buffer) => buffer in s.callers
  }

  /** The places where the runtime panics: an index that resolves to nothing, or `unreachable!`. */
  predicate Panics(s: State, step: Step)
  {
    match step
    case Receive => s.responses != [] && SlotOf(s.responses[0].item.userData) !in s.slots
    case PollFuture(tag, _) =>
      tag in s.futures && (s.futures[tag].slot !in s.slots || s.slots[s.futures[tag].slot].state.Cancelled?)
    case DropFuture(tag) =>
      tag in s.futures && s.futures[tag].slot in s.slots && s.slots[s.futures[tag].slot].state.Cancelled?
    case _ => false
  }

  /** `enqueue_response` with its error ignored: a full ring loses the response. */
  function Push(s: State, item: Item, value: int): State
  {
    if |s.responses| < s.responseCap
    then s.(responses := s.responses + [Response(item, value)], answers := s.answers[item.tag := value])
    else s
  }

  function SwapRemove<T>(xs: seq<T>, i: nat): seq<T>
    requires i < |xs|
  {
    xs[i := xs[|xs| - 1]][..|xs| - 1]
  }

  function ExecSubmit(s: State, slot: Handle, handle: Handle, verb: Verb, buffers: set<Buffer>, two: bool): State
  {
    if !Accepts(s) then s else
    s.(requests := s.requests + [Request(verb, handle, Item(s.submitted, slot.index, buffers))],
       inFlight := s.inFlight + 1,
       slots := s.slots[slot := Slot(Inflight, s.submitted, buffers, false)],
       futures := s.futures[s.submitted := Future(slot, buffers, two)],
       callers := s.callers - buffers,
       submitted := s.submitted + 1)
  }

  function ExecSubmitClose(s: State, target: Handle): State
  {
    if !Accepts(s) then s else
    s.(requests := s.requests + [Request(Close, target, Item(s.submitted, CLOSE_USER_DATA, {}))])
  }

  /** The next request reaches an object. */
  predicate Serves(s: State)
  {
    && s.requests != [] && s.requests[0].handle in s.objects && !s.requests[0].verb.Close?
    && (s.requests[0].verb.Share? ==> s.requests[0].verb.share in s.objects)
  }

  /** One round of the loop in `process_io_queue`. */
  function ExecTake(s: State, reply: Reply): State
    requires s.requests != []
  {
    var r := s.requests[0];
    var t := s.(requests := s.requests[1..]);
    if r.handle !in s.objects then Push(t, r.item, INVALID_OBJECT)
    else if r.verb.Close? then t.(objects := s.objects - {r.handle})
    else if r.verb.Share? && r.verb.share !in s.objects then Push(t, r.item, INVALID_OBJECT)
    else
      match reply
      case Pending => t.(pending := s.pending + [r.item])
      case Ready(value, created) => Push(t.(objects := s.objects + created), r.item, value)
  }

  /** One finished ticket of `poll_tickets`. */
  function ExecPollTicket(s: State, index: nat, value: int, created: set<Handle>): State
    requires index < |s.pending|
  {
    Push(s.(pending := SwapRemove(s.pending, index), objects := s.objects + created), s.pending[index], value)
  }

  /** What the kernel leaves alone. */
  lemma KernelFrame(s: State, step: Step)
    requires (step.Take? || step.PollTicket?) && Enabled(s, step)
    ensures var t := if step.Take? then ExecTake(s, step.reply) else ExecPollTicket(s, step.index, step.value, step.created);
            && t == s.(requests := t.requests, responses := t.responses, pending := t.pending, objects := t.objects,
                       answers := t.answers)
            && t.requests == if step.Take? then s.requests[1..] else s.requests
  {
  }

  /** One round of the loop in the runtime's `process`. */
  function ExecReceive(s: State): State
    requires s.responses != [] && !Panics(s, Receive)
  {
    var r := s.responses[0];
    var h := SlotOf(r.item.userData);
    var t := s.(responses := s.responses[1..], inFlight := s.inFlight - 1, delivered := s.delivered + {r.item.tag});
    match s.slots[h].state
    case Cancelled(buffers) => t.(slots := s.slots - {h}, freed := s.freed + buffers)
    case _ => t.(slots := s.slots[h := s.slots[h].(state := Finished(r.value))], ready := s.ready + 1)
  }

  /** The waker that a step wakes: when a response arrives, the one that the last poll left in its slot. */
  function Woken(s: State, step: Step): Option<nat>
    requires Enabled(s, step) && !Panics(s, step)
  {
    if !step.Receive? then None
    else
      var state := s.slots[SlotOf(s.responses[0].item.userData)].state;
      if state.InflightWithWaker? then Some(state.waker) else None
  }

  function ExecPollFuture(s: State, tag: Tag, waker: nat): State
    requires tag in s.futures && !Panics(s, PollFuture(tag, waker))
  {
    var f := s.futures[tag];
    match s.slots[f.slot].state
    case Finished(value) =>
      s.(slots := s.slots - {f.slot}, ready := s.ready - 1, futures := s.futures - {tag}, callers := s.callers + f.buffers)
    case _ => s.(slots := s.slots[f.slot := s.slots[f.slot].(state := InflightWithWaker(waker))])
  }

  function ExecDropFuture(s: State, tag: Tag): State
    requires tag in s.futures && !Panics(s, DropFuture(tag))
  {
    var f := s.futures[tag];
    var t := s.(futures := s.futures - {tag});
    if f.slot !in s.slots then t.(freed := s.freed + f.buffers)
    else if s.slots[f.slot].state.Finished? then
      t.(slots := s.slots[f.slot := s.slots[f.slot].(lent := {}, dropped := true)],
         freed := s.freed + f.buffers,
         ready := if f.two then s.ready else s.ready - 1,
         lost := if f.two then s.lost + 1 else s.lost)
    else t.(slots := s.slots[f.slot := s.slots[f.slot].(state := Cancelled(f.buffers))])
  }

  function Exec(s: State, step: Step): State
    requires Enabled(s, step) && !Panics(s, step)
  {
    match step
    case Submit(slot, handle, verb, buffers, two) => ExecSubmit(s, slot, handle, verb, buffers, two)
    case SubmitClose(target) => ExecSubmitClose(s, target)
    case Take(reply) => ExecTake(s, reply)
    case PollTicket(index, value, created) => ExecPollTicket(s, index, value, created)
    case ChangeObjects(objects) => s.(objects := objects)
    case Receive => ExecReceive(s)
    case PollFuture(tag, waker) => ExecPollFuture(s, tag, waker)
    case DropFuture(tag) => ExecDropFuture(s, tag)
    case ForgetFuture(tag) => s.(futures := s.futures - {tag}, forgotten := s.forgotten + {tag})
    case FreeBuffer(buffer) => s.(callers := s.callers - {buffer}, freed := s.freed + {buffer})
  }

  /* ---------------------------------------------------------------------------------------------
     Invariants
     ------------------------------------------------------------------------------------------ */

  /** The requests in the ring that will be answered. */
  ghost function Answerable(requests: seq<Request>): multiset<Item>
  {
    if requests == [] then multiset{} else
      (if requests[0].verb.Close? then multiset{} else multiset{requests[0].item}) + Answerable(requests[1..])
  }

  ghost function Answered(responses: seq<Response>): multiset<Item>
  {
    if responses == [] then multiset{} else multiset{responses[0].item} + Answered(responses[1..])
  }

  /** Everything on its way: in the request ring, parked in the kernel, or in the response ring. */
  ghost function Travelling(s: State): multiset<Item>
  {
    Answerable(s.requests) + multiset(s.pending) + Answered(s.responses)
  }

  ghost function ItemOf(h: Handle, slot: Slot): Item
  {
    Item(slot.tag, h.index, slot.lent)
  }

  /** The slots that wait for a response. */
  ghost function Waiting(slots: map<Handle, Slot>): set<Handle>
  {
    set h | h in slots && !slots[h].state.Finished?
  }

  ghost function WaitingItems(slots: map<Handle, Slot>): set<Item>
  {
    set h | h in Waiting(slots) :: ItemOf(h, slots[h])
  }

  /** Conservation: what travels is exactly one item per waiting slot, naming that slot. */
  ghost predicate FlightInv(s: State)
  {
    && Travelling(s) == multiset(WaitingItems(s.slots))
    && s.inFlight == |Travelling(s)|
    && s.inFlight <= s.responseCap
    && |s.requests| <= s.requestCap
    && (forall h :: h in s.slots ==> h.generation == 0)
  }

  /** Every submission is either waiting in exactly one slot or was delivered. */
  ghost predicate TagInv(slots: map<Handle, Slot>, submitted: nat, delivered: set<Tag>)
  {
    && (forall h :: h in slots ==> slots[h].tag < submitted && (slots[h].state.Finished? <==> slots[h].tag in delivered))
    && UniqueTags(slots)
    && (forall t :: t in delivered ==> t < submitted)
    && Accounted(slots, submitted, delivered)
  }

  /** No submission is lost: one that was not delivered waits in a slot. */
  ghost predicate Accounted(slots: map<Handle, Slot>, submitted: nat, delivered: set<Tag>)
  {
    forall t: nat :: t < submitted && t !in delivered ==> exists h :: h in Waiting(slots) && slots[h].tag == t
  }

  lemma StaysAccounted(slots: map<Handle, Slot>, next: map<Handle, Slot>, submitted: nat, delivered: set<Tag>, more: set<Tag>)
    requires Accounted(slots, submitted, delivered) && delivered <= more
    requires forall h :: h in Waiting(slots) && slots[h].tag !in more ==> h in Waiting(next) && next[h].tag == slots[h].tag
    ensures Accounted(next, submitted, more)
  {
  }

  /** Values travel unchanged from the kernel's answer to the slot of the submission. */
  ghost predicate AnswerInv(slots: map<Handle, Slot>, responses: seq<Response>, answers: map<Tag, int>)
  {
    && (forall i :: 0 <= i < |responses| ==>
          responses[i].item.tag in answers && answers[responses[i].item.tag] == responses[i].value)
    && (forall h :: h in slots && slots[h].state.Finished? ==>
          slots[h].tag in answers && answers[slots[h].tag] == slots[h].state.value)
  }

  /** Each future owns its slot; each waiting slot has a future, a forgotten future or a Cancelled
      entry that keeps its buffers. */
  ghost predicate FutureInv(slots: map<Handle, Slot>, futures: map<Tag, Future>, forgotten: set<Tag>, submitted: nat)
  {
    && (forall t :: t in futures ==>
          && t < submitted && t !in forgotten
          && futures[t].slot in slots
          && slots[futures[t].slot].tag == t
          && slots[futures[t].slot].lent == futures[t].buffers
          && !slots[futures[t].slot].dropped
          && !slots[futures[t].slot].state.Cancelled?)
    && (forall t :: t in forgotten ==> t < submitted)
    && (forall h :: h in slots && !slots[h].state.Cancelled? && !slots[h].dropped ==>
          slots[h].tag in futures || slots[h].tag in forgotten)
    && (forall h :: h in slots && slots[h].state.Cancelled? ==> slots[h].state.buffers == slots[h].lent)
    && (forall h :: h in slots && slots[h].dropped ==> slots[h].state.Finished?)
  }

  /** Lent buffers are neither freed nor in anyone else's hands. */
  ghost predicate BufferInv(slots: map<Handle, Slot>, callers: set<Buffer>, freed: set<Buffer>)
  {
    && callers !! freed
    && (forall h :: h in slots ==> slots[h].lent !! callers && slots[h].lent !! freed)
    && (forall g, h :: g in slots && h in slots && g != h ==> slots[g].lent !! slots[h].lent)
  }

  /** Finished slots whose future was neither polled to completion nor dropped. */
  ghost function Unconsumed(slots: map<Handle, Slot>): set<Handle>
  {
    set h | h in slots && slots[h].state.Finished? && !slots[h].dropped
  }

  ghost predicate CountInv(slots: map<Handle, Slot>, ready: int, lost: nat)
  {
    ready == |Unconsumed(slots)| + lost
  }

  ghost predicate Inv(s: State)
  {
    && FlightInv(s)
    && TagInv(s.slots, s.submitted, s.delivered)
    && AnswerInv(s.slots, s.responses, s.answers)
    && FutureInv(s.slots, s.futures, s.forgotten, s.submitted)
    && BufferInv(s.slots, s.callers, s.freed)
    && CountInv(s.slots, s.ready, s.lost)
  }

  /* ---------------------------------------------------------------------------------------------
     Kernel steps conserve what travels
     ------------------------------------------------------------------------------------------ */

  lemma {:induction false} AnswerableAppend(requests: seq<Request>, r: Request)
    ensures Answerable(requests + [r]) == Answerable(requests) + (if r.verb.Close? then multiset{} else multiset{r.item})
  {
    if requests == [] {
      assert [] + [r] == [r];
    } else {
      assert (requests + [r])[1..] == requests[1..] + [r];
      AnswerableAppend(requests[1..], r);
    }
  }

  lemma {:induction false} AnsweredAppend(responses: seq<Response>, r: Response)
    ensures Answered(responses + [r]) == Answered(responses) + multiset{r.item}
  {
    if responses == [] {
      assert [] + [r] == [r];
    } else {
      assert (responses + [r])[1..] == responses[1..] + [r];
      AnsweredAppend(responses[1..], r);
    }
  }

  lemma {:induction false} AnsweredItems(responses: seq<Response>)
    ensures |Answered(responses)| == |responses|
    ensures forall i :: 0 <= i < |responses| ==> responses[i].item in Answered(responses)
  {
    if responses != [] {
      AnsweredItems(responses[1..]);
      assert forall i :: 1 <= i < |responses| ==> responses[i] == responses[1..][i - 1];
    }
  }

  lemma SwapRemoveIsRemove<T>(xs: seq<T>, i: nat)
    requires i < |xs|
    ensures multiset(SwapRemove(xs, i)) + multiset{xs[i]} == multiset(xs)
  {
    var last := |xs| - 1;
    assert xs == xs[..last] + [xs[last]];
    if i < last {
      assert SwapRemove(xs, i) == xs[..last][i := xs[last]];
    } else {
      assert SwapRemove(xs, i) == xs[..last];
    }
  }

  /** The kernel always finds room: there are never more responses due than the ring holds. */
  lemma ResponseFits(s: State, item: Item)
    requires FlightInv(s)
    requires item in Answerable(s.requests) || item in s.pending
    ensures |s.responses| < s.responseCap
  {
    AnsweredItems(s.responses);
    assert multiset{item} <= Answerable(s.requests) + multiset(s.pending);
    assert |Answerable(s.requests) + multiset(s.pending)| >= 1;
  }

  /** The item of an unanswered request differs in its tag from everything already answered. */
  lemma TagIsUnanswered(s: State, item: Item)
    requires FlightInv(s) && TagInv(s.slots, s.submitted, s.delivered)
    requires item in Answerable(s.requests) + multiset(s.pending)
    ensures forall i :: 0 <= i < |s.responses| ==> s.responses[i].item.tag != item.tag
    ensures forall h :: h in s.slots && s.slots[h].state.Finished? ==> s.slots[h].tag != item.tag
  {
    hide Accounted;
    assert item in Travelling(s);
    var h :| h in Waiting(s.slots) && ItemOf(h, s.slots[h]) == item;
    assert Travelling(s)[item] <= 1;
    assert Answered(s.responses)[item] == 0;
    AnsweredItems(s.responses);
    forall i | 0 <= i < |s.responses|
      ensures s.responses[i].item.tag != item.tag
    {
      var other := s.responses[i].item;
      assert other in Travelling(s);
      var g :| g in Waiting(s.slots) && ItemOf(g, s.slots[g]) == other;
    }
  }

  lemma PushKeepsAnswers(s: State, item: Item, value: int)
    requires AnswerInv(s.slots, s.responses, s.answers)
    requires forall i :: 0 <= i < |s.responses| ==> s.responses[i].item.tag != item.tag
    requires forall h :: h in s.slots && s.slots[h].state.Finished? ==> s.slots[h].tag != item.tag
    ensures AnswerInv(s.slots, Push(s, item, value).responses, Push(s, item, value).answers)
  {
  }

  /** The next request is a Close whose handle names no object. */
  predicate DeadClose(s: State, step: Step)
  {
    step.Take? && s.requests != [] && s.requests[0].verb.Close? && s.requests[0].handle !in s.objects
  }

  lemma AnswerTravels(s: State, t: State, value: int)
    requires s.requests != [] && !s.requests[0].verb.Close? && t.requests == s.requests[1..] && t.pending == s.pending
    requires t.responses == s.responses + [Response(s.requests[0].item, value)]
    ensures Travelling(t) == Travelling(s)
  {
    hide Answered;
    AnsweredAppend(s.responses, Response(s.requests[0].item, value));
  }

  lemma ParkTravels(s: State, t: State)
    requires s.requests != [] && !s.requests[0].verb.Close? && t.requests == s.requests[1..] && t.responses == s.responses
    requires t.pending == s.pending + [s.requests[0].item]
    ensures Travelling(t) == Travelling(s)
  {
    hide Answered;
  }

  lemma CloseTravels(s: State, t: State)
    requires s.requests != [] && s.requests[0].verb.Close? && t.requests == s.requests[1..]
    requires t.pending == s.pending && t.responses == s.responses
    ensures Travelling(t) == Travelling(s)
  {
  }

  lemma TakeKeepsTravelling(s: State, reply: Reply)
    requires s.requests != [] && !DeadClose(s, Take(reply))
    requires s.requests[0].verb.Close? || |s.responses| < s.responseCap
    ensures Travelling(ExecTake(s, reply)) == Travelling(s)
  {
    hide Travelling;
    var r, t := s.requests[0], ExecTake(s, reply);
    if r.verb.Close? {
      CloseTravels(s, t);
    } else if r.handle !in s.objects || (r.verb.Share? && r.verb.share !in s.objects) {
      AnswerTravels(s, t, INVALID_OBJECT);
    } else if reply.Pending? {
      ParkTravels(s, t);
    } else {
      AnswerTravels(s, t, reply.value);
    }
  }

  lemma TakeKeepsAnswers(s: State, reply: Reply)
    requires FlightInv(s) && TagInv(s.slots, s.submitted, s.delivered) && AnswerInv(s.slots, s.responses, s.answers)
    requires s.requests != [] && !DeadClose(s, Take(reply))
    ensures AnswerInv(s.slots, ExecTake(s, reply).responses, ExecTake(s, reply).answers)
    ensures s.requests[0].verb.Close? || |s.responses| < s.responseCap
  {
    hide FlightInv, TagInv, AnswerInv, Answerable;
    var item := s.requests[0].item;
    if !s.requests[0].verb.Close? {
      HeadIsAnswerable(s.requests);
      ResponseFits(s, item);
      TagIsUnanswered(s, item);
      PushKeepsAnswers(s, item, INVALID_OBJECT);
      if reply.Ready? {
        PushKeepsAnswers(s, item, reply.value);
      }
    }
  }

  lemma HeadIsAnswerable(requests: seq<Request>)
    requires requests != [] && !requests[0].verb.Close?
    ensures requests[0].item in Answerable(requests)
  {
  }

  lemma TakeKeepsInv(s: State, reply: Reply)
    requires Inv(s) && s.requests != [] && !DeadClose(s, Take(reply))
    ensures Inv(ExecTake(s, reply))
  {
    hide TagInv, FutureInv, BufferInv, CountInv, AnswerInv, Travelling, WaitingItems;
    TakeKeepsAnswers(s, reply);
    TakeKeepsTravelling(s, reply);
    assert FlightInv(ExecTake(s, reply));
  }

  lemma PollTicketKeepsInv(s: State, index: nat, value: int, created: set<Handle>)
    requires Inv(s) && index < |s.pending|
    ensures Inv(ExecPollTicket(s, index, value, created))
  {
    hide TagInv, FutureInv, BufferInv, CountInv, AnswerInv;
    var item := s.pending[index];
    assert item in multiset(s.pending);
    ResponseFits(s, item);
    TagIsUnanswered(s, item);
    PushKeepsAnswers(s, item, value);
    AnsweredAppend(s.responses, Response(item, value));
    SwapRemoveIsRemove(s.pending, index);
    assert Travelling(ExecPollTicket(s, index, value, created)) == Travelling(s);
  }

  /* ---------------------------------------------------------------------------------------------
     User steps
     ------------------------------------------------------------------------------------------ */

  ghost predicate UnitGeneration(slots: map<Handle, Slot>)
  {
    forall h :: h in slots ==> h.generation == 0
  }

  lemma WaitingItemsAfterInsert(slots: map<Handle, Slot>, h: Handle, slot: Slot)
    requires UnitGeneration(slots) && h.generation == 0 && h !in slots && !slot.state.Finished?
    ensures ItemOf(h, slot) !in WaitingItems(slots)
    ensures WaitingItems(slots[h := slot]) == WaitingItems(slots) + {ItemOf(h, slot)}
  {
    var next := slots[h := slot];
    forall x | x in WaitingItems(slots) + {ItemOf(h, slot)}
      ensures x in WaitingItems(next)
    {
      if x == ItemOf(h, slot) {
        assert h in Waiting(next);
      } else {
        var g :| g in Waiting(slots) && ItemOf(g, slots[g]) == x;
        assert g in Waiting(next);
      }
    }
  }

  /** Changing a slot in a way that keeps its item, or that never had one, leaves the items alone. */
  lemma WaitingItemsUnchanged(slots: map<Handle, Slot>, h: Handle, slot: Slot)
    requires h in slots && slot.state.Finished? == slots[h].state.Finished?
    requires !slot.state.Finished? ==> ItemOf(h, slot) == ItemOf(h, slots[h])
    ensures WaitingItems(slots[h := slot]) == WaitingItems(slots)
  {
    var next := slots[h := slot];
    assert Waiting(next) == Waiting(slots);
    forall x | x in WaitingItems(slots)
      ensures x in WaitingItems(next)
    {
      var g :| g in Waiting(slots) && ItemOf(g, slots[g]) == x;
      assert g in Waiting(next) && ItemOf(g, next[g]) == x;
    }
  }

  /** `next` is `slots` with a waiting slot h finished, or removed if it was Cancelled. */
  ghost predicate Arrives(slots: map<Handle, Slot>, h: Handle, next: map<Handle, Slot>)
  {
    && h in Waiting(slots)
    && (if slots[h].state.Cancelled? then h !in next
        else h in next && next[h].state.Finished? && next[h] == slots[h].(state := next[h].state))
    && (forall g :: g != h ==> (g in next <==> g in slots) && (g in slots ==> next[g] == slots[g]))
  }

  lemma WaitingItemsAfterArrival(slots: map<Handle, Slot>, h: Handle, next: map<Handle, Slot>)
    requires UnitGeneration(slots) && Arrives(slots, h, next)
    ensures WaitingItems(next) == WaitingItems(slots) - {ItemOf(h, slots[h])}
  {
  }

  lemma WaitingItemsAfterConsume(slots: map<Handle, Slot>, h: Handle)
    requires h in slots && slots[h].state.Finished?
    ensures WaitingItems(slots - {h}) == WaitingItems(slots)
  {
    var next := slots - {h};
    assert Waiting(next) == Waiting(slots);
    forall x | x in WaitingItems(slots)
      ensures x in WaitingItems(next)
    {
      var g :| g in Waiting(slots) && ItemOf(g, slots[g]) == x;
      assert g in Waiting(next) && ItemOf(g, next[g]) == x;
    }
  }

  /** Routing: the slot a response names is occupied, still waits, and was filled by the very
      submission that is being answered, although slot indices are reused without generations. */
  lemma ResponseFindsItsSlot(s: State)
    requires FlightInv(s) && s.responses != []
    ensures SlotOf(s.responses[0].item.userData) in Waiting(s.slots)
    ensures ItemOf(SlotOf(s.responses[0].item.userData), s.slots[SlotOf(s.responses[0].item.userData)]) == s.responses[0].item
  {
    AnsweredItems(s.responses);
    var item := s.responses[0].item;
    assert item in Travelling(s);
    var h :| h in Waiting(s.slots) && ItemOf(h, s.slots[h]) == item;
    assert h == SlotOf(item.userData);
  }

  lemma SubmitKeepsFlight(s: State, slot: Handle, handle: Handle, verb: Verb, buffers: set<Buffer>, two: bool)
    requires FlightInv(s) && Enabled(s, Submit(slot, handle, verb, buffers, two)) && Accepts(s)
    ensures FlightInv(ExecSubmit(s, slot, handle, verb, buffers, two))
  {
    hide Answered, Answerable, WaitingItems;
    var t := ExecSubmit(s, slot, handle, verb, buffers, two);
    var item := Item(s.submitted, slot.index, buffers);
    AnswerableAppend(s.requests, Request(verb, handle, item));
    WaitingItemsAfterInsert(s.slots, slot, t.slots[slot]);
    assert Travelling(t) == Travelling(s) + multiset{item};
    assert multiset(WaitingItems(s.slots) + {item}) == multiset(WaitingItems(s.slots)) + multiset{item};
  }

  lemma SubmitKeepsTags(s: State, slot: Handle, handle: Handle, verb: Verb, buffers: set<Buffer>, two: bool)
    requires Enabled(s, Submit(slot, handle, verb, buffers, two)) && Accepts(s)
    requires TagInv(s.slots, s.submitted, s.delivered)
    ensures var t := ExecSubmit(s, slot, handle, verb, buffers, two);
            TagInv(t.slots, t.submitted, t.delivered)
  {
    hide Accounted;
    var t := ExecSubmit(s, slot, handle, verb, buffers, two);
    StaysAccounted(s.slots, t.slots, s.submitted, s.delivered, s.delivered);
    NewestAccounted(t.slots, slot, s.submitted, s.delivered);
  }

  lemma NewestAccounted(slots: map<Handle, Slot>, h: Handle, submitted: nat, delivered: set<Tag>)
    requires Accounted(slots, submitted, delivered) && h in Waiting(slots) && slots[h].tag == submitted
    ensures Accounted(slots, submitted + 1, delivered)
  {
  }

  lemma SubmitKeepsOwnership(s: State, slot: Handle, handle: Handle, verb: Verb, buffers: set<Buffer>, two: bool)
    requires Enabled(s, Submit(slot, handle, verb, buffers, two)) && Accepts(s)
    requires FutureInv(s.slots, s.futures, s.forgotten, s.submitted)
    requires BufferInv(s.slots, s.callers, s.freed)
    ensures var t := ExecSubmit(s, slot, handle, verb, buffers, two);
            FutureInv(t.slots, t.futures, t.forgotten, t.submitted) && BufferInv(t.slots, t.callers, t.freed)
  {
  }

  lemma SubmitKeepsInv(s: State, slot: Handle, handle: Handle, verb: Verb, buffers: set<Buffer>, two: bool)
    requires Inv(s) && Enabled(s, Submit(slot, handle, verb, buffers, two))
    ensures Inv(ExecSubmit(s, slot, handle, verb, buffers, two))
  {
    hide FlightInv, TagInv, FutureInv, BufferInv;
    if Accepts(s) {
      SubmitKeepsFlight(s, slot, handle, verb, buffers, two);
      SubmitKeepsTags(s, slot, handle, verb, buffers, two);
      SubmitKeepsOwnership(s, slot, handle, verb, buffers, two);
      assert Unconsumed(ExecSubmit(s, slot, handle, verb, buffers, two).slots) == Unconsumed(s.slots);
    }
  }

  lemma SubmitCloseKeepsInv(s: State, target: Handle)
    requires Inv(s)
    ensures Inv(ExecSubmitClose(s, target))
  {
    hide TagInv, AnswerInv, FutureInv, BufferInv, CountInv, WaitingItems, Answered, Answerable;
    AnswerableAppend(s.requests, Request(Close, target, Item(s.submitted, CLOSE_USER_DATA, {})));
  }

  lemma ReceiveArrives(s: State)
    requires FlightInv(s) && s.responses != [] && !Panics(s, Receive)
    ensures Arrives(s.slots, SlotOf(s.responses[0].item.userData), ExecReceive(s).slots)
  {
    hide FlightInv;
    ResponseFindsItsSlot(s);
  }

  lemma RemoveItem(others: multiset<Item>, responses: multiset<Item>, items: set<Item>, item: Item)
    requires others + (multiset{item} + responses) == multiset(items)
    ensures others + responses == multiset(items - {item})
    ensures |others + responses| == |multiset(items)| - 1
  {
    assert others + (multiset{item} + responses) == (others + responses) + multiset{item};
    assert others + responses == multiset(items) - multiset{item};
    assert item in multiset(items);
    assert multiset(items - {item}) == multiset(items) - multiset{item};
  }

  lemma ReceiveKeepsFlight(s: State)
    requires FlightInv(s) && s.responses != [] && !Panics(s, Receive)
    ensures FlightInv(ExecReceive(s))
  {
    hide Answerable, WaitingItems, Arrives;
    ResponseFindsItsSlot(s);
    ReceiveArrives(s);
    var item := s.responses[0].item;
    var t := ExecReceive(s);
    WaitingItemsAfterArrival(s.slots, SlotOf(item.userData), t.slots);
    RemoveItem(Answerable(s.requests) + multiset(s.pending), Answered(t.responses), WaitingItems(s.slots), item);
    assert t.slots.Keys <= s.slots.Keys;
  }

  lemma ArrivalKeepsTags(slots: map<Handle, Slot>, g: Handle, next: map<Handle, Slot>, submitted: nat, delivered: set<Tag>)
    requires TagInv(slots, submitted, delivered) && Arrives(slots, g, next)
    ensures TagInv(next, submitted, delivered + {slots[g].tag})
    ensures slots[g].tag !in delivered
  {
  }

  lemma ArrivalKeepsFutures(slots: map<Handle, Slot>, g: Handle, next: map<Handle, Slot>,
                            futures: map<Tag, Future>, forgotten: set<Tag>, submitted: nat)
    requires FutureInv(slots, futures, forgotten, submitted) && Arrives(slots, g, next)
    ensures FutureInv(next, futures, forgotten, submitted)
  {
  }

  lemma ArrivalKeepsBuffers(slots: map<Handle, Slot>, g: Handle, next: map<Handle, Slot>, callers: set<Buffer>, freed: set<Buffer>)
    requires BufferInv(slots, callers, freed) && Arrives(slots, g, next)
    ensures BufferInv(next, callers, freed)
    ensures slots[g].state.Cancelled? ==> BufferInv(next, callers, freed + slots[g].lent)
  {
  }

  lemma ArrivalKeepsCount(slots: map<Handle, Slot>, g: Handle, next: map<Handle, Slot>, ready: int, lost: nat)
    requires CountInv(slots, ready, lost) && Arrives(slots, g, next) && !slots[g].dropped
    ensures CountInv(next, if slots[g].state.Cancelled? then ready else ready + 1, lost)
  {
    if slots[g].state.Cancelled? {
      assert Unconsumed(next) == Unconsumed(slots);
    } else {
      assert Unconsumed(next) == Unconsumed(slots) + {g};
    }
  }

  lemma ReceiveKeepsInv(s: State)
    requires Inv(s) && s.responses != [] && !Panics(s, Receive)
    ensures Inv(ExecReceive(s))
    ensures s.responses[0].item.tag !in s.delivered
  {
    hide FlightInv, TagInv, BufferInv, CountInv, Arrives;
    var g := SlotOf(s.responses[0].item.userData);
    var t := ExecReceive(s);
    ResponseFindsItsSlot(s);
    ReceiveArrives(s);
    ReceiveKeepsFlight(s);
    ArrivalKeepsTags(s.slots, g, t.slots, s.submitted, s.delivered);
    ArrivalKeepsFutures(s.slots, g, t.slots, s.futures, s.forgotten, s.submitted);
    ArrivalKeepsBuffers(s.slots, g, t.slots, s.callers, s.freed);
    ArrivalKeepsCount(s.slots, g, t.slots, s.ready, s.lost);
    assert AnswerInv(t.slots, t.responses, t.answers);
  }

  /** Changing a slot's state without finishing it, or marking a finished slot, keeps the tags. */
  lemma SlotChangeKeepsTags(slots: map<Handle, Slot>, g: Handle, slot: Slot, submitted: nat, delivered: set<Tag>)
    requires TagInv(slots, submitted, delivered) && g in slots
    requires slot.tag == slots[g].tag && slot.state.Finished? == slots[g].state.Finished?
    ensures TagInv(slots[g := slot], submitted, delivered)
  {
    hide Accounted;
    StaysAccounted(slots, slots[g := slot], submitted, delivered, delivered);
  }

  ghost predicate UniqueTags(slots: map<Handle, Slot>)
  {
    forall g, h :: g in slots && h in slots && slots[g].tag == slots[h].tag ==> g == h
  }

  /** The future `tag` ends.  Its slot is removed, abandoned, Cancelled, or left to `forgotten`. */
  lemma FutureGone(slots: map<Handle, Slot>, futures: map<Tag, Future>, forgotten: set<Tag>, submitted: nat,
                   tag: Tag, next: map<Handle, Slot>, stays: set<Tag>)
    requires UniqueTags(slots) && FutureInv(slots, futures, forgotten, submitted) && tag in futures
    requires forgotten <= stays <= forgotten + {tag}
    requires forall h :: h in next ==> h in slots
    requires forall h :: h in slots && h != futures[tag].slot ==> h in next && next[h] == slots[h]
    requires futures[tag].slot in next ==>
               var slot := next[futures[tag].slot];
               || (slot.dropped && slot.state.Finished?)
               || (!slot.dropped && slot.state.Cancelled? && slot.state.buffers == slot.lent)
               || (slot == slots[futures[tag].slot] && tag in stays)
    ensures FutureInv(next, futures - {tag}, stays, submitted)
  {
  }

  lemma FlightFrame(s: State, t: State)
    requires FlightInv(s) && WaitingItems(t.slots) == WaitingItems(s.slots) && UnitGeneration(t.slots)
    requires t.requests == s.requests && t.pending == s.pending && t.responses == s.responses && t.inFlight == s.inFlight
    requires t.requestCap == s.requestCap && t.responseCap == s.responseCap
    ensures FlightInv(t)
  {
  }

  /** The slot keeps waiting in another state: re-polled, or Cancelled. */
  lemma StillWaiting(s: State, g: Handle, state: SlotState)
    requires g in Waiting(s.slots) && !state.Finished?
    requires AnswerInv(s.slots, s.responses, s.answers)
    requires BufferInv(s.slots, s.callers, s.freed)
    requires CountInv(s.slots, s.ready, s.lost)
    ensures var next := s.slots[g := s.slots[g].(state := state)];
            && AnswerInv(next, s.responses, s.answers)
            && BufferInv(next, s.callers, s.freed)
            && CountInv(next, s.ready, s.lost)
  {
    assert Unconsumed(s.slots[g := s.slots[g].(state := state)]) == Unconsumed(s.slots);
  }

  lemma PendingPollKeepsInv(s: State, tag: Tag, waker: nat)
    requires Inv(s) && tag in s.futures && !Panics(s, PollFuture(tag, waker))
    requires !s.slots[s.futures[tag].slot].state.Finished?
    ensures Inv(ExecPollFuture(s, tag, waker))
  {
    hide FlightInv, TagInv, AnswerInv, BufferInv, CountInv, WaitingItems;
    var t := ExecPollFuture(s, tag, waker);
    var g := s.futures[tag].slot;
    WaitingItemsUnchanged(s.slots, g, t.slots[g]);
    UnitSlots(s);
    FlightFrame(s, t);
    SlotChangeKeepsTags(s.slots, g, t.slots[g], s.submitted, s.delivered);
    StillWaiting(s, g, InflightWithWaker(waker));
    assert FutureInv(t.slots, t.futures, t.forgotten, t.submitted);
  }

  lemma TagsAreUnique(s: State)
    requires TagInv(s.slots, s.submitted, s.delivered)
    ensures UniqueTags(s.slots)
  {
  }

  lemma UnitSlots(s: State)
    requires FlightInv(s)
    ensures UnitGeneration(s.slots)
  {
  }

  /** A finished slot is taken out. */
  lemma FinishedSlotTaken(s: State, g: Handle)
    requires g in s.slots && s.slots[g].state.Finished? && !s.slots[g].dropped
    requires TagInv(s.slots, s.submitted, s.delivered)
    requires AnswerInv(s.slots, s.responses, s.answers)
    requires BufferInv(s.slots, s.callers, s.freed)
    requires CountInv(s.slots, s.ready, s.lost)
    ensures var next := s.slots - {g};
            && TagInv(next, s.submitted, s.delivered)
            && AnswerInv(next, s.responses, s.answers)
            && BufferInv(next, s.callers + s.slots[g].lent, s.freed)
            && CountInv(next, s.ready - 1, s.lost)
  {
    hide Accounted;
    var next := s.slots - {g};
    assert Unconsumed(next) == Unconsumed(s.slots) - {g};
    StaysAccounted(s.slots, next, s.submitted, s.delivered, s.delivered);
  }

  lemma ReadyPollKeepsInv(s: State, tag: Tag, waker: nat)
    requires Inv(s) && tag in s.futures && !Panics(s, PollFuture(tag, waker))
    requires s.slots[s.futures[tag].slot].state.Finished?
    ensures Inv(ExecPollFuture(s, tag, waker))
  {
    hide FlightInv, TagInv, AnswerInv, BufferInv, CountInv, WaitingItems;
    var t := ExecPollFuture(s, tag, waker);
    var g := s.futures[tag].slot;
    WaitingItemsAfterConsume(s.slots, g);
    UnitSlots(s);
    FlightFrame(s, t);
    FinishedSlotTaken(s, g);
    TagsAreUnique(s);
    FutureGone(s.slots, s.futures, s.forgotten, s.submitted, tag, t.slots, s.forgotten);
  }

  lemma DropWaitingKeepsInv(s: State, tag: Tag)
    requires Inv(s) && tag in s.futures && !Panics(s, DropFuture(tag))
    requires !s.slots[s.futures[tag].slot].state.Finished?
    ensures Inv(ExecDropFuture(s, tag))
  {
    hide FlightInv, TagInv, AnswerInv, BufferInv, CountInv, WaitingItems;
    var t := ExecDropFuture(s, tag);
    var g := s.futures[tag].slot;
    WaitingItemsUnchanged(s.slots, g, t.slots[g]);
    UnitSlots(s);
    FlightFrame(s, t);
    SlotChangeKeepsTags(s.slots, g, t.slots[g], s.submitted, s.delivered);
    StillWaiting(s, g, Cancelled(s.futures[tag].buffers));
    TagsAreUnique(s);
    FutureGone(s.slots, s.futures, s.forgotten, s.submitted, tag, t.slots, s.forgotten);
  }

  /** A finished slot loses its future and stays behind. */
  lemma FinishedSlotAbandoned(s: State, g: Handle)
    requires g in s.slots && s.slots[g].state.Finished? && !s.slots[g].dropped
    requires AnswerInv(s.slots, s.responses, s.answers)
    requires BufferInv(s.slots, s.callers, s.freed)
    ensures var next := s.slots[g := s.slots[g].(lent := {}, dropped := true)];
            && AnswerInv(next, s.responses, s.answers)
            && BufferInv(next, s.callers, s.freed + s.slots[g].lent)
            && |Unconsumed(next)| == |Unconsumed(s.slots)| - 1
  {
    var next := s.slots[g := s.slots[g].(lent := {}, dropped := true)];
    assert Unconsumed(next) == Unconsumed(s.slots) - {g};
  }

  lemma DropFinishedKeepsInv(s: State, tag: Tag)
    requires Inv(s) && tag in s.futures && !Panics(s, DropFuture(tag))
    requires s.slots[s.futures[tag].slot].state.Finished?
    ensures Inv(ExecDropFuture(s, tag))
  {
    hide FlightInv, TagInv, AnswerInv, BufferInv, WaitingItems, Unconsumed;
    var t := ExecDropFuture(s, tag);
    var g := s.futures[tag].slot;
    WaitingItemsUnchanged(s.slots, g, t.slots[g]);
    UnitSlots(s);
    FlightFrame(s, t);
    SlotChangeKeepsTags(s.slots, g, t.slots[g], s.submitted, s.delivered);
    FinishedSlotAbandoned(s, g);
    TagsAreUnique(s);
    FutureGone(s.slots, s.futures, s.forgotten, s.submitted, tag, t.slots, s.forgotten);
  }

  lemma FreeBufferKeepsInv(s: State, buffer: Buffer)
    requires Inv(s) && buffer in s.callers
    ensures Inv(Exec(s, FreeBuffer(buffer)))
  {
    hide TagInv, AnswerInv, FutureInv, CountInv, WaitingItems, Travelling;
    FlightFrame(s, Exec(s, FreeBuffer(buffer)));
  }

  lemma ForgetKeepsInv(s: State, tag: Tag)
    requires Inv(s) && tag in s.futures
    ensures Inv(s.(futures := s.futures - {tag}, forgotten := s.forgotten + {tag}))
  {
    hide TagInv, AnswerInv, BufferInv, CountInv, WaitingItems, Travelling;
    TagsAreUnique(s);
    FutureGone(s.slots, s.futures, s.forgotten, s.submitted, tag, s.slots, s.forgotten + {tag});
    FlightFrame(s, s.(futures := s.futures - {tag}, forgotten := s.forgotten + {tag}));
  }

  lemma ChangeObjectsKeepsInv(s: State, objects: set<Handle>)
    requires Inv(s)
    ensures Inv(s.(objects := objects))
  {
  }

  /* ---------------------------------------------------------------------------------------------
     Main results
     ------------------------------------------------------------------------------------------ */

  /** No index misses and no `unreachable!` is reached. */
  lemma NoStepPanics(s: State, step: Step)
    requires Inv(s) && Enabled(s, step)
    ensures !Panics(s, step)
  {
    if step.Receive? {
      ResponseFindsItsSlot(s);
    }
  }

  lemma StepKeepsInv(s: State, step: Step)
    requires Inv(s) && Enabled(s, step) && !DeadClose(s, step)
    ensures !Panics(s, step) && Inv(Exec(s, step))
  {
    NoStepPanics(s, step);
    hide FlightInv, TagInv, AnswerInv, FutureInv, BufferInv, CountInv;
    match step
    case Submit(slot, handle, verb, buffers, two) => SubmitKeepsInv(s, slot, handle, verb, buffers, two);
    case SubmitClose(target) => SubmitCloseKeepsInv(s, target);
    case Take(reply) => TakeKeepsInv(s, reply);
    case PollTicket(index, value, created) => PollTicketKeepsInv(s, index, value, created);
    case ChangeObjects(objects) => ChangeObjectsKeepsInv(s, objects);
    case Receive => ReceiveKeepsInv(s);
    case PollFuture(tag, waker) =>
      if s.slots[s.futures[tag].slot].state.Finished? {
        ReadyPollKeepsInv(s, tag, waker);
      } else {
        PendingPollKeepsInv(s, tag, waker);
      }
    case DropFuture(tag) =>
      FutureHasSlot(s, tag);
      if s.slots[s.futures[tag].slot].state.Finished? {
        DropFinishedKeepsInv(s, tag);
      } else {
        DropWaitingKeepsInv(s, tag);
      }
    case ForgetFuture(tag) => ForgetKeepsInv(s, tag);
    case FreeBuffer(buffer) => FreeBufferKeepsInv(s, buffer);
  }

  lemma FutureHasSlot(s: State, tag: Tag)
    requires FutureInv(s.slots, s.futures, s.forgotten, s.submitted) && tag in s.futures
    ensures s.futures[tag].slot in s.slots
  {
  }

  /** A Close of a dead handle is answered although `submit` counted no response for it.  That is
      the only step that can break the accounting, and it does so exactly when its response finds
      room in the ring. */
  lemma InvariantKeptIffNoDeadClose(s: State, step: Step)
    requires Inv(s) && Enabled(s, step)
    ensures !Panics(s, step)
    ensures Inv(Exec(s, step)) <==> !(DeadClose(s, step) && |s.responses| < s.responseCap)
  {
    NoStepPanics(s, step);
    if !DeadClose(s, step) {
      StepKeepsInv(s, step);
    } else {
      DeadCloseOutcome(s, step.reply);
    }
  }

  lemma DeadCloseOutcome(s: State, reply: Reply)
    requires Inv(s) && s.requests != [] && DeadClose(s, Take(reply))
    ensures Inv(ExecTake(s, reply)) <==> !(|s.responses| < s.responseCap)
  {
    hide TagInv, AnswerInv, FutureInv, BufferInv, CountInv, WaitingItems, Answered;
    var t := ExecTake(s, reply);
    assert Answerable(t.requests) == Answerable(s.requests);
    if |s.responses| < s.responseCap {
      AnsweredAppend(s.responses, Response(s.requests[0].item, INVALID_OBJECT));
      assert |Travelling(t)| == |Travelling(s)| + 1;
    }
  }

  ghost predicate IsRun(s: State, steps: seq<Step>)
    decreases |steps|
  {
    steps == [] ||
    (Enabled(s, steps[0]) && !Panics(s, steps[0]) && IsRun(Exec(s, steps[0]), steps[1..]))
  }

  ghost function After(s: State, steps: seq<Step>): State
    requires IsRun(s, steps)
    decreases |steps|
  {
    if steps == [] then s else After(Exec(s, steps[0]), steps[1..])
  }

  /** Whenever the kernel takes a Close in this run, its handle names an object. */
  ghost predicate ClosesAreLive(s: State, steps: seq<Step>)
    requires IsRun(s, steps)
    decreases |steps|
  {
    steps == [] || (!DeadClose(s, steps[0]) && ClosesAreLive(Exec(s, steps[0]), steps[1..]))
  }

  ghost function Initial(requestCap: nat, responseCap: nat, objects: set<Handle>, buffers: set<Buffer>): State
  {
    State(requestCap, responseCap, [], [], [], objects, 0, map[], 0, map[], buffers, {}, 0, {}, {}, map[], 0)
  }

  lemma InitialInv(requestCap: nat, responseCap: nat, objects: set<Handle>, buffers: set<Buffer>)
    ensures Inv(Initial(requestCap, responseCap, objects, buffers))
  {
  }

  /** Every reachable state of every run, with Close used only on live handles, satisfies the
      invariant, and no step that is possible there panics. */
  lemma {:induction false} RunKeepsInv(s: State, steps: seq<Step>)
    requires Inv(s) && IsRun(s, steps) && ClosesAreLive(s, steps)
    ensures Inv(After(s, steps))
    ensures forall step :: Enabled(After(s, steps), step) ==> !Panics(After(s, steps), step)
    decreases |steps|
  {
    hide Inv, Enabled, Panics, Exec;
    if steps == [] {
      forall step | Enabled(s, step)
        ensures !Panics(s, step)
      {
        NoStepPanics(s, step);
      }
    } else {
      StepKeepsInv(s, steps[0]);
      RunKeepsInv(Exec(s, steps[0]), steps[1..]);
    }
  }

  /** No ignored `enqueue_response` fails: a step that answers makes the response ring longer by
      exactly that answer, and the in-flight counter stays within the ring's size. */
  lemma NoResponseIsDropped(s: State, item: Item, value: int)
    requires Inv(s)
    requires item in Answerable(s.requests) || item in s.pending
    ensures Push(s, item, value).responses == s.responses + [Response(item, value)]
    ensures |s.responses| < s.inFlight <= s.responseCap
  {
    ResponseFits(s, item);
    AnsweredItems(s.responses);
    assert multiset{item} <= Answerable(s.requests) + multiset(s.pending);
    assert |Answerable(s.requests) + multiset(s.pending)| >= 1;
  }

  /** Exactly once: a submission is delivered or waits in one slot, never both. */
  lemma ExactlyOneFate(s: State, tag: Tag)
    requires Inv(s) && tag < s.submitted
    ensures tag in s.delivered <==> !exists h :: h in Waiting(s.slots) && s.slots[h].tag == tag
    ensures forall g, h :: g in Waiting(s.slots) && h in Waiting(s.slots) && s.slots[g].tag == tag == s.slots[h].tag ==> g == h
  {
  }

  /** Who keeps the buffers of an item that is under way. */
  ghost predicate OwnedUntilAnswered(s: State, item: Item)
  {
    var h := SlotOf(item.userData);
    && h in Waiting(s.slots) && s.slots[h].tag == item.tag
    && (|| (item.tag in s.futures && s.futures[item.tag].buffers == item.lent)
        || item.tag in s.forgotten
        || s.slots[h].state == Cancelled(item.lent))
    && item.lent !! s.callers && item.lent !! s.freed
    && forall other :: other in Travelling(s) && other != item ==> item.lent !! other.lent
  }

  /** Until its response arrives, the buffers a submission lent are kept by its future, by a
      forgotten future or by a Cancelled slot; they are not freed, not in the caller's hands and not
      lent a second time. */
  lemma LentBuffersStayOwned(s: State, item: Item)
    requires Inv(s) && item in Travelling(s)
    ensures OwnedUntilAnswered(s, item)
  {
  }

  /** A future completes with the value the kernel gave for its own request. */
  lemma PollReturnsOwnAnswer(s: State, tag: Tag)
    requires Inv(s) && tag in s.futures && s.slots[s.futures[tag].slot].state.Finished?
    ensures tag in s.answers && s.slots[s.futures[tag].slot].state.value == s.answers[tag]
    ensures tag in s.delivered
  {
  }

  /** When the in-flight counter is zero the kernel holds no request and no buffer. */
  lemma IdleQueueHoldsNothing(s: State)
    requires Inv(s)
    ensures s.inFlight == 0 <==> Travelling(s) == multiset{}
    ensures s.inFlight == 0 ==> s.pending == [] && s.responses == []
  {
  }

  /** Dropping a two-buffer future whose response has arrived: the branch of its destructor that does not
      lower the counter. */
  predicate LosesCount(s: State, step: Step)
  {
    && step.DropFuture? && step.tag in s.futures && s.futures[step.tag].two
    && s.futures[step.tag].slot in s.slots && s.slots[s.futures[step.tag].slot].state.Finished?
  }

  /** How often that happens in a run. */
  ghost function Losses(s: State, steps: seq<Step>): nat
    requires IsRun(s, steps)
    decreases |steps|
  {
    if steps == [] then 0 else (if LosesCount(s, steps[0]) then 1 else 0) + Losses(Exec(s, steps[0]), steps[1..])
  }

  lemma LossStep(s: State, step: Step)
    requires Enabled(s, step) && !Panics(s, step)
    ensures Exec(s, step).lost == s.lost + if LosesCount(s, step) then 1 else 0
  {
  }

  lemma {:induction false} LossesAddUp(s: State, steps: seq<Step>)
    requires IsRun(s, steps)
    ensures After(s, steps).lost == s.lost + Losses(s, steps)
    decreases |steps|
  {
    hide Enabled, Panics, Exec, LosesCount;
    if steps != [] {
      LossStep(s, steps[0]);
      LossesAddUp(Exec(s, steps[0]), steps[1..]);
    }
  }

  /** The ready counter is too high by the number of finished two-buffer futures that were dropped.  So it
      counts the unconsumed responses, and `wait` returns at once exactly when there is one, in the runs
      that drop none and in no others. */
  lemma WaitSkipsExactly(s: State, steps: seq<Step>)
    requires Inv(s) && s.ready == |Unconsumed(s.slots)| && IsRun(s, steps) && ClosesAreLive(s, steps)
    ensures var t := After(s, steps);
            && t.ready == |Unconsumed(t.slots)| + Losses(s, steps)
            && (t.ready == |Unconsumed(t.slots)| <==> Losses(s, steps) == 0)
            && (t.ready == 0 <==> Unconsumed(t.slots) == {} && Losses(s, steps) == 0)
  {
    RunKeepsInv(s, steps);
    LossesAddUp(s, steps);
    hide IsRun, After, Losses, FlightInv, TagInv, AnswerInv, FutureInv, BufferInv;
  }

  /** Closing a dead handle: the runtime is sent a response for no slot and panics on it. */
  lemma DeadCloseCounterexample(target: Handle)
    ensures var steps := [SubmitClose(target), Take(Pending)];
            && IsRun(Initial(1, 1, {}, {}), steps)
            && Enabled(After(Initial(1, 1, {}, {}), steps), Receive)
            && Panics(After(Initial(1, 1, {}, {}), steps), Receive)
  {
    var s0 := Initial(1, 1, {}, {});
    var s1 := Exec(s0, SubmitClose(target));
    var s2 := Exec(s1, Take(Pending));
    var steps := [SubmitClose(target), Take(Pending)];
    assert steps[1..] == [Take(Pending)] && steps[1..][1..] == [];
    assert IsRun(s2, []) && IsRun(s1, [Take(Pending)]);
    assert After(s0, steps) == After(s1, steps[1..]) == After(s2, []) == s2;
    assert s2.responses == [Response(Item(0, CLOSE_USER_DATA, {}), INVALID_OBJECT)];
  }

  /** A two-buffer future that is dropped after it finished leaves the counter at one although
      nothing is left to consume, so `wait` no longer blocks. */
  lemma TwoBufferDropCounterexample(slot: Handle, target: Handle)
    requires slot.generation == 0
    ensures var s0 := Initial(1, 1, {target}, {});
            var steps := [Submit(slot, target, GetMeta, {}, true), Take(Ready(0, {})), Receive, DropFuture(0)];
            && IsRun(s0, steps)
            && After(s0, steps).ready == 1
            && Unconsumed(After(s0, steps).slots) == {}
  {
    var s0 := Initial(1, 1, {target}, {});
    var steps := [Submit(slot, target, GetMeta, {}, true), Take(Ready(0, {})), Receive, DropFuture(0)];
    var s1 := Exec(s0, steps[0]);
    var s2 := Exec(s1, steps[1]);
    assert s2.responses == [Response(Item(0, slot.index, {}), 0)];
    assert SlotOf(slot.index) == slot;
    var s3 := Exec(s2, steps[2]);
    assert s3.slots == map[slot := Slot(Finished(0), 0, {}, false)];
    var s4 := Exec(s3, steps[3]);
    UnfoldRun(s3, steps[3..]);
    UnfoldRun(s2, steps[2..]);
    UnfoldRun(s1, steps[1..]);
    UnfoldRun(s0, steps);
  }

  /** All of it, for every queue and every history of it: no step can panic, every submission has one fate
      and a future yields its own answer, no response is delivered twice, lent buffers stay owned, an owed answer finds room, the in-flight
      counter tells whether anything is under way, and the ready counter is off by the losses. */
  lemma QueueIsCorrect(requestCap: nat, responseCap: nat, objects: set<Handle>, buffers: set<Buffer>, steps: seq<Step>,
                       tag: Tag, item: Item)
    requires IsRun(Initial(requestCap, responseCap, objects, buffers), steps)
    requires ClosesAreLive(Initial(requestCap, responseCap, objects, buffers), steps)
    ensures var s := After(Initial(requestCap, responseCap, objects, buffers), steps);
            && (forall step :: Enabled(s, step) ==> !Panics(s, step))
            && (tag < s.submitted ==>
                  (tag in s.delivered <==> !exists h :: h in Waiting(s.slots) && s.slots[h].tag == tag))
            && (tag in s.futures && s.futures[tag].slot in s.slots && s.slots[s.futures[tag].slot].state.Finished? ==>
                  tag in s.answers && s.slots[s.futures[tag].slot].state.value == s.answers[tag])
            && (item in Travelling(s) ==> OwnedUntilAnswered(s, item))
            && (s.responses != [] ==> s.responses[0].item.tag !in s.delivered)
            && (item in Answerable(s.requests) || item in s.pending ==> |s.responses| < s.responseCap)
            && (s.inFlight == 0 <==> Travelling(s) == multiset{})
            && s.ready == |Unconsumed(s.slots)| + Losses(Initial(requestCap, responseCap, objects, buffers), steps)
  {
    var s0 := Initial(requestCap, responseCap, objects, buffers);
    InitialInv(requestCap, responseCap, objects, buffers);
    assert s0.ready == |Unconsumed(s0.slots)|;
    hide IsRun, After, Losses, Inv, ClosesAreLive;
    RunKeepsInv(s0, steps);
    WaitSkipsExactly(s0, steps);
    ReachedFacts(After(s0, steps), tag, item);
  }

  lemma ReachedFacts(s: State, tag: Tag, item: Item)
    requires Inv(s)
    ensures tag < s.submitted ==>
              (tag in s.delivered <==> !exists h :: h in Waiting(s.slots) && s.slots[h].tag == tag)
    ensures tag in s.futures && s.futures[tag].slot in s.slots && s.slots[s.futures[tag].slot].state.Finished? ==>
              tag in s.answers && s.slots[s.futures[tag].slot].state.value == s.answers[tag]
    ensures item in Travelling(s) ==> OwnedUntilAnswered(s, item)
    ensures s.responses != [] ==> s.responses[0].item.tag !in s.delivered
    ensures item in Answerable(s.requests) || item in s.pending ==> |s.responses| < s.responseCap
    ensures s.inFlight == 0 <==> Travelling(s) == multiset{}
  {
    if tag < s.submitted {
      ExactlyOneFate(s, tag);
    }
    if item in Travelling(s) {
      LentBuffersStayOwned(s, item);
    }
    if item in Answerable(s.requests) || item in s.pending {
      NoResponseIsDropped(s, item, 0);
    }
    IdleQueueHoldsNothing(s);
    if s.responses != [] {
      ResponseFindsItsSlot(s);
      NotYetDelivered(s);
    }
  }

  lemma NotYetDelivered(s: State)
    requires Inv(s) && s.responses != [] && SlotOf(s.responses[0].item.userData) in Waiting(s.slots)
    requires ItemOf(SlotOf(s.responses[0].item.userData), s.slots[SlotOf(s.responses[0].item.userData)]) == s.responses[0].item
    ensures s.responses[0].item.tag !in s.delivered
  {
    hide FlightInv, AnswerInv, FutureInv, BufferInv, CountInv;
  }

  lemma UnfoldRun(s: State, steps: seq<Step>)
    requires steps != [] && Enabled(s, steps[0]) && !Panics(s, steps[0])
    requires IsRun(Exec(s, steps[0]), steps[1..])
    ensures IsRun(s, steps) && After(s, steps) == After(Exec(s, steps[0]), steps[1..])
  {
  }
}
