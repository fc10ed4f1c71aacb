/** The single-producer single-consumer ring shared between a process and the kernel
    (lib/rust/kernel/src/io.rs).

    Indices are 32-bit and wrap; the capacity `mask + 1` is a power of two of at most 2^15, of which
    only the divisibility of 2^32 is used.  `index & mask` is `Slot`. */
module SpscRing {
  import opened Modular
  import opened Wrappers

  const WRAP: nat := 0x1_0000_0000

  ghost predicate ValidCapacity(cap: nat)
  {
    0 < cap <= 0x8000 && WRAP % cap == 0
  }

  function Slot(index: nat, cap: nat): (s: nat)
    requires cap > 0
    ensures s < cap
  {
    index % cap
  }

  function Wrapped(count: nat): (index: nat)
    ensures index < WRAP
  {
    count % WRAP
  }

  /** Indices are 32-bit counters. */
  lemma IndexHas32Bits(n: nat)
    ensures Wrapped(n) < 0x1_0000_0000 && Wrapped(n + 0x1_0000_0000) == Wrapped(n)
    ensures n < 0x1_0000_0000 ==> Wrapped(n) == n
  {
  }

  lemma SlotOfWrapped(count: nat, cap: nat)
    requires ValidCapacity(cap)
    ensures Slot(Wrapped(count), cap) == Slot(count, cap)
  {
    RemainderOfWrapped(count, WRAP, cap);
  }

  lemma SlotsDiffer(a: nat, b: nat, cap: nat)
    requires a < b < a + cap
    ensures Slot(a, cap) != Slot(b, cap)
  {
    CloseNumbersDiffer(a, b, cap);
  }

  lemma WrappedInjective(a: nat, b: nat)
    requires a <= b < a + WRAP && Wrapped(a) == Wrapped(b)
    ensures a == b
  {
  }

  /** After `pops` removals the queue lies in consecutive slots, oldest first. */
  ghost predicate Stored<E>(entries: seq<E>, cap: nat, pops: nat, queue: seq<E>)
    requires cap > 0
  {
    && |entries| == cap
    && |queue| <= cap
    && forall n :: pops <= n < pops + |queue| ==> entries[Slot(n, cap)] == queue[n - pops]
  }

  lemma StoreEntry<E>(entries: seq<E>, cap: nat, pops: nat, queue: seq<E>, e: E)
    requires cap > 0 && Stored(entries, cap, pops, queue) && |queue| < cap
    ensures Stored(entries[Slot(pops + |queue|, cap) := e], cap, pops, queue)
    ensures Stored(entries[Slot(pops + |queue|, cap) := e], cap, pops, queue + [e])
  {
    hide Slot;
    forall n | pops <= n < pops + |queue|
      ensures Slot(n, cap) != Slot(pops + |queue|, cap)
    {
      SlotsDiffer(n, pops + |queue|, cap);
    }
  }

  lemma DropEntry<E>(entries: seq<E>, cap: nat, pops: nat, queue: seq<E>)
    requires cap > 0 && Stored(entries, cap, pops, queue) && queue != []
    ensures entries[Slot(pops, cap)] == queue[0]
    ensures Stored(entries, cap, pops + 1, queue[1..])
  {
  }

  /* ---------------------------------------------------------------------------------------------
     The ring as two threads that touch shared memory one access at a time.
     ------------------------------------------------------------------------------------------ */

  /** Where the producer stands inside `enqueue`.  `at` records how many entries had been removed
      when `read` was loaded; the code has no such variable. */
  datatype Producer<E> =
    | ProducerIdle
    | ReadLoaded(entry: E, r: nat, at: nat)
    | WriteLoaded(entry: E, r: nat, w: nat, at: nat)
    | EntryWritten(entry: E, w: nat)

  /** Where the consumer stands inside `dequeue`.  `upTo` records how many entries had been added
      when `write` was loaded. */
  datatype Consumer<E> =
    | ConsumerIdle
    | OwnLoaded(r: nat)
    | BothLoaded(r: nat, w: nat, upTo: nat)
    | EntryRead(entry: E, r: nat)

  /** Shared memory and both threads, with two histories: the entries whose `enqueue` succeeded and
      the entries that `dequeue` returned. */
  datatype State<E> = State(
    cap: nat,
    entries: seq<E>,
    read: nat,
    write: nat,
    producer: Producer<E>,
    consumer: Consumer<E>,
    pushed: seq<E>,
    popped: seq<E>)

  /** `Enqueue` starts a call; `Produce` and `Consume` let a thread perform its next access. */
  datatype Step<E> = Enqueue(entry: E) | Produce | Dequeue | Consume

  predicate Enabled<E>(s: State<E>, step: Step<E>)
  {
    match step
    case Enqueue(_) => s.producer.ProducerIdle?
    case Produce => !s.producer.ProducerIdle?
    case Dequeue => s.consumer.ConsumerIdle?
    case Consume => !s.consumer.ConsumerIdle?
  }

  predicate ReportsFull<E>(s: State<E>, step: Step<E>)
  {
    step.Produce? && s.producer.WriteLoaded? && (s.producer.r + s.cap) % WRAP == s.producer.w
  }

  predicate ReportsEmpty<E>(s: State<E>, step: Step<E>)
  {
    step.Consume? && s.consumer.BothLoaded? && s.consumer.r == s.consumer.w
  }

  ghost predicate Shaped<E>(s: State<E>)
  {
    ValidCapacity(s.cap) && |s.entries| == s.cap
  }

  function Exec<E>(s: State<E>, step: Step<E>): State<E>
    requires Shaped(s) && Enabled(s, step)
  {
    match step
    case Enqueue(e) => s.(producer := ReadLoaded(e, s.read, |s.popped|))
    case Produce => (
      match s.producer
      case ReadLoaded(e, r, at) => s.(producer := WriteLoaded(e, r, s.write, at))
      case WriteLoaded(e, r, w, _) =>
        if (r + s.cap) % WRAP == w then s.(producer := ProducerIdle)
        else s.(entries := s.entries[Slot(w, s.cap) := e], producer := EntryWritten(e, w))
      case EntryWritten(e, w) =>
        s.(write := (w + 1) % WRAP, producer := ProducerIdle, pushed := s.pushed + [e]))
    case Dequeue => s.(consumer := OwnLoaded(s.read))
    case Consume => (
      match s.consumer
      case OwnLoaded(r) => s.(consumer := BothLoaded(r, s.write, |s.pushed|))
      case BothLoaded(r, w, _) =>
        if r == w then s.(consumer := ConsumerIdle)
        else s.(consumer := EntryRead(s.entries[Slot(r, s.cap)], r))
      case EntryRead(e, r) =>
        s.(read := (r + 1) % WRAP, consumer := ConsumerIdle, popped := s.popped + [e]))
  }

  /** The abstract queue: accepted and not yet returned. */
  ghost function Queue<E>(s: State<E>): seq<E>
    requires s.popped <= s.pushed
  {
    s.pushed[|s.popped|..]
  }

  ghost predicate MemoryInv<E>(s: State<E>)
  {
    && ValidCapacity(s.cap)
    && s.popped <= s.pushed
    && s.read == Wrapped(|s.popped|)
    && s.write == Wrapped(|s.pushed|)
    && Stored(s.entries, s.cap, |s.popped|, Queue(s))
  }

  ghost predicate ProducerInv<E>(s: State<E>)
    requires MemoryInv(s)
  {
    match s.producer
    case ProducerIdle => true
    case ReadLoaded(_, r, at) => LoadedRead(s, r, at)
    case WriteLoaded(_, r, w, at) => LoadedRead(s, r, at) && w == s.write
    case EntryWritten(e, w) =>
      w == s.write && |Queue(s)| < s.cap && s.entries[Slot(|s.pushed|, s.cap)] == e
  }

  ghost predicate LoadedRead<E>(s: State<E>, r: nat, at: nat)
    requires MemoryInv(s)
  {
    r == Wrapped(at) && at <= |s.popped| && |s.pushed| <= at + s.cap
  }

  ghost predicate ConsumerInv<E>(s: State<E>)
    requires MemoryInv(s)
  {
    match s.consumer
    case ConsumerIdle => true
    case OwnLoaded(r) => r == s.read
    case BothLoaded(r, w, upTo) =>
      r == s.read && w == Wrapped(upTo) && |s.popped| <= upTo <= |s.pushed|
    case EntryRead(e, r) => r == s.read && Queue(s) != [] && e == Queue(s)[0]
  }

  ghost predicate Inv<E>(s: State<E>)
  {
    MemoryInv(s) && ProducerInv(s) && ConsumerInv(s)
  }

  /** What one access does to the abstract queue. */
  ghost predicate FifoStep<E>(s: State<E>, step: Step<E>, t: State<E>)
    requires s.popped <= s.pushed && t.popped <= t.pushed
  {
    if step.Produce? && s.producer.EntryWritten? then
      |Queue(s)| < s.cap && Queue(t) == Queue(s) + [s.producer.entry] && t.popped == s.popped
    else if step.Consume? && s.consumer.EntryRead? then
      Queue(s) != [] && s.consumer.entry == Queue(s)[0] && Queue(t) == Queue(s)[1..] && t.pushed == s.pushed
    else
      t.pushed == s.pushed && t.popped == s.popped
  }

  lemma WrappedNext(n: nat)
    ensures (Wrapped(n) + 1) % WRAP == Wrapped(n + 1)
  {
  }

  lemma FullMeansFull(at: nat, pushed: nat, cap: nat)
    requires at <= pushed <= at + cap && cap <= 0x8000
    ensures (Wrapped(at) + cap) % WRAP == Wrapped(pushed) <==> pushed == at + cap
  {
  }

  lemma ProduceKeepsInv<E>(s: State<E>)
    requires Inv(s) && Enabled(s, Produce)
    ensures Inv(Exec(s, Produce)) && FifoStep(s, Produce, Exec(s, Produce))
    ensures ReportsFull(s, Produce) ==> |s.pushed| == s.producer.at + s.cap
  {
    hide Slot, Wrapped;
    match s.producer
    case ReadLoaded(e, r, at) =>
    case WriteLoaded(e, r, w, at) =>
      FullMeansFull(at, |s.pushed|, s.cap);
      SlotOfWrapped(|s.pushed|, s.cap);
      if !ReportsFull(s, Produce) {
        StoreEntry(s.entries, s.cap, |s.popped|, Queue(s), e);
      }
    case EntryWritten(e, w) =>
      WrappedNext(|s.pushed|);
      StoreEntry(s.entries, s.cap, |s.popped|, Queue(s), e);
      assert s.entries[Slot(|s.pushed|, s.cap) := e] == s.entries;
      assert Queue(Exec(s, Produce)) == Queue(s) + [e];
  }

  lemma ConsumeKeepsInv<E>(s: State<E>)
    requires Inv(s) && Enabled(s, Consume)
    ensures Inv(Exec(s, Consume)) && FifoStep(s, Consume, Exec(s, Consume))
    ensures ReportsEmpty(s, Consume) ==> s.consumer.upTo == |s.popped|
  {
    hide Slot, Wrapped;
    match s.consumer
    case OwnLoaded(r) =>
    case BothLoaded(r, w, upTo) =>
      if r == w {
        WrappedInjective(|s.popped|, upTo);
      } else {
        SlotOfWrapped(|s.popped|, s.cap);
        DropEntry(s.entries, s.cap, |s.popped|, Queue(s));
      }
    case EntryRead(e, r) =>
      WrappedNext(|s.popped|);
      DropEntry(s.entries, s.cap, |s.popped|, Queue(s));
      assert Queue(Exec(s, Consume)) == Queue(s)[1..];
  }

  /** Every single memory access, in any state any interleaving can reach, is a step of a bounded
      FIFO: the store to `write` appends the caller's entry to a queue that has room, the store to
      `read` removes and returns the head, and nothing else changes the queue.  `Full` is reported
      only if the ring held `mask + 1` entries when `read` was loaded, and `Empty` only if it held
      none when `write` was loaded. */
  lemma StepRefinesFifo<E>(s: State<E>, step: Step<E>)
    requires Inv(s) && Enabled(s, step)
    ensures Inv(Exec(s, step)) && FifoStep(s, step, Exec(s, step))
    ensures ReportsFull(s, step) ==> |s.pushed| == s.producer.at + s.cap
    ensures ReportsEmpty(s, step) ==> s.consumer.upTo == |s.popped|
  {
    hide Slot, Wrapped;
    match step
    case Enqueue(_) =>
    case Produce => ProduceKeepsInv(s);
    case Dequeue =>
    case Consume => ConsumeKeepsInv(s);
  }

  ghost predicate IsRun<E>(s: State<E>, steps: seq<Step<E>>)
    requires Shaped(s)
    decreases |steps|
  {
    steps == [] || (Enabled(s, steps[0]) && IsRun(Exec(s, steps[0]), steps[1..]))
  }

  ghost function After<E>(s: State<E>, steps: seq<Step<E>>): State<E>
    requires Shaped(s) && IsRun(s, steps)
    decreases |steps|
  {
    if steps == [] then s else After(Exec(s, steps[0]), steps[1..])
  }

  /** Every interleaving from an empty ring returns a prefix of what was accepted, in order, and
      never holds more than `mask + 1` entries. */
  lemma {:induction false} RingIsFifo<E>(s: State<E>, steps: seq<Step<E>>)
    requires Inv(s) && IsRun(s, steps)
    ensures Inv(After(s, steps))
    ensures After(s, steps).popped <= After(s, steps).pushed
    ensures |After(s, steps).pushed| - |After(s, steps).popped| <= s.cap
    ensures s.pushed <= After(s, steps).pushed && s.popped <= After(s, steps).popped
    decreases |steps|
  {
    hide ProducerInv, ConsumerInv, MemoryInv, FifoStep;
    InvShape(s);
    if steps != [] {
      StepRefinesFifo(s, steps[0]);
      ExecExtends(s, steps[0]);
      RingIsFifo(Exec(s, steps[0]), steps[1..]);
    }
  }

  lemma InvShape<E>(s: State<E>)
    requires Inv(s)
    ensures Shaped(s) && s.popped <= s.pushed && |s.pushed| - |s.popped| <= s.cap
  {
  }

  lemma ExecExtends<E>(s: State<E>, step: Step<E>)
    requires Shaped(s) && Enabled(s, step)
    ensures Exec(s, step).cap == s.cap
    ensures s.pushed <= Exec(s, step).pushed && s.popped <= Exec(s, step).popped
  {
  }

  ghost function Initial<E>(entries: seq<E>): State<E>
  {
    State(|entries|, entries, 0, 0, ProducerIdle, ConsumerIdle, [], [])
  }

  lemma InitialInv<E>(entries: seq<E>)
    requires ValidCapacity(|entries|)
    ensures Inv(Initial(entries))
  {
  }

  /* ---------------------------------------------------------------------------------------------
     The ring as one object, for callers that complete a call before the next one starts.
     ------------------------------------------------------------------------------------------ */

  class Ring<E> {
    const entries: array<E>
    var read: nat
    var write: nat
    ghost var pops: nat
    ghost var contents: seq<E>

    ghost predicate Valid()
      reads this, entries
    {
      && ValidCapacity(entries.Length)
      && read == Wrapped(pops)
      && write == Wrapped(pops + |contents|)
      && Stored(entries[..], entries.Length, pops, contents)
    }

    constructor (entries: array<E>)
      requires ValidCapacity(entries.Length)
      ensures Valid() && contents == [] && this.entries == entries
    {
      this.entries := entries;
      read, write := 0, 0;
      pops, contents := 0, [];
    }

    /** `enqueue`: fails, and changes nothing, exactly when the ring holds `mask + 1` entries. */
    method Enqueue(entry: E) returns (ok: bool)
      requires Valid()
      modifies this, entries
      ensures Valid()
      ensures ok <==> old(|contents|) < entries.Length
      ensures contents == if ok then old(contents) + [entry] else old(contents)
    {
      hide Slot, Wrapped;
      FullMeansFull(pops, pops + |contents|, entries.Length);
      var r, w := read, write;
      if (r + entries.Length) % WRAP == w {
        return false;
      }
      SlotOfWrapped(pops + |contents|, entries.Length);
      StoreEntry(entries[..], entries.Length, pops, contents, entry);
      WrappedNext(pops + |contents|);
      ghost var was := entries[..];
      entries[Slot(w, entries.Length)] := entry;
      assert entries[..] == was[Slot(w, entries.Length) := entry];
      write := (w + 1) % WRAP;
      contents := contents + [entry];
      ok := true;
    }

    /** `dequeue`: takes the oldest entry, and fails exactly when there is none. */
    method Dequeue() returns (r: Option<E>)
      requires Valid()
      modifies this
      ensures Valid()
      ensures r == if old(contents) == [] then None else Some(old(contents)[0])
      ensures contents == if old(contents) == [] then [] else old(contents)[1..]
    {
      hide Slot, Wrapped;
      if read == write {
        WrappedInjective(pops, pops + |contents|);
        return None;
      }
      SlotOfWrapped(pops, entries.Length);
      DropEntry(entries[..], entries.Length, pops, contents);
      WrappedNext(pops);
      r := Some(entries[Slot(read, entries.Length)]);
      read := (read + 1) % WRAP;
      pops, contents := pops + 1, contents[1..];
    }
  }
}
