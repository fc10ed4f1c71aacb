/** The typed arena with generational handles (lib/rust/arena).

    `Arena` is the slot vector with its threaded free list.  `Model` is what a client sees: a map
    from handles to values, plus the history of issued handles, from which the promise about
    stale handles is proved over whole runs.

    A generation type is given by its number of values: 256 for `u8`, 1 for `()`.
    The free-list terminator `usize::MAX` is `None`. */
module Arena {
  import opened Wrappers

  datatype Handle = Handle(index: nat, generation: nat)

  datatype Entry<V> = Free(next: Option<nat>) | Occupied(value: V, generation: nat)

  /** The client's view: what the live handles resolve to, and how many inserts were ever made. */
  datatype Model<V> = Model(contents: map<Handle, V>, inserts: nat)

  datatype Op<V> = Insert(index: nat, value: V) | Remove(handle: Handle) | Update(target: Handle, replacement: V) | Clear

  /** `Generation::increment`: wrapping addition of one; the identity when there is one value. */
  function Increment(g: nat, modulus: nat): (r: nat)
    requires g < modulus
    ensures r < modulus
  {
    if g + 1 == modulus then 0 else g + 1
  }

  /** The generation of the k-th insert. */
  function GenerationOf(k: nat, modulus: nat): (r: nat)
    requires modulus > 0
    ensures r < modulus
  {
    if k == 0 then 0 else Increment(GenerationOf(k - 1, modulus), modulus)
  }

  /** An insert may take any slot that no live handle uses. */
  ghost predicate Enabled<V>(m: Model<V>, op: Op<V>)
  {
    match op
    case Insert(index, _) => forall h :: h in m.contents ==> h.index != index
    case _ => true
  }

  function Apply<V>(m: Model<V>, op: Op<V>, modulus: nat): Model<V>
    requires modulus > 0
  {
    match op
    case Insert(index, value) =>
      Model(m.contents[Handle(index, GenerationOf(m.inserts, modulus)) := value], m.inserts + 1)
    case Remove(h) => Model(m.contents - {h}, m.inserts)
    case Update(h, value) => if h in m.contents then m.(contents := m.contents[h := value]) else m
    case Clear => Model(map[], m.inserts)
  }

  ghost predicate IsRun<V>(m: Model<V>, ops: seq<Op<V>>, modulus: nat)
    requires modulus > 0
    decreases |ops|
  {
    ops == [] || (Enabled(m, ops[0]) && IsRun(Apply(m, ops[0], modulus), ops[1..], modulus))
  }

  ghost function After<V>(m: Model<V>, ops: seq<Op<V>>, modulus: nat): Model<V>
    requires modulus > 0
    decreases |ops|
  {
    if ops == [] then m else After(Apply(m, ops[0], modulus), ops[1..], modulus)
  }

  /** The generation counter repeats with period `modulus` and no sooner. */
  lemma {:induction false} GenerationAfter(k: nat, d: nat, modulus: nat)
    requires 0 <= d < modulus
    ensures GenerationOf(k + d, modulus) == if GenerationOf(k, modulus) + d < modulus
                                            then GenerationOf(k, modulus) + d
                                            else GenerationOf(k, modulus) + d - modulus
  {
    if d > 0 {
      GenerationAfter(k, d - 1, modulus);
    }
  }

  /** ABA protection.  Take the handle of the k-th insert at any moment when it resolves to nothing,
      because it was removed, drained or cleared.  In every run from there it keeps resolving to
      nothing until `modulus` inserts have followed the one that created it. */
  lemma {:induction false} StaleHandleResolvesToNothing<V>(m: Model<V>, h: Handle, k: nat, ops: seq<Op<V>>, modulus: nat)
    requires modulus > 0 && IsRun(m, ops, modulus)
    requires k < m.inserts && h.generation == GenerationOf(k, modulus) && h !in m.contents
    ensures After(m, ops, modulus).inserts <= k + modulus ==> h !in After(m, ops, modulus).contents
    ensures After(m, ops, modulus).inserts >= m.inserts
    decreases |ops|
  {
    if ops != [] {
      var n := Apply(m, ops[0], modulus);
      if h !in n.contents {
        StaleHandleResolvesToNothing(n, h, k, ops[1..], modulus);
      } else {
        if m.inserts < k + modulus {
          GenerationAfter(k, m.inserts - k, modulus);
        }
        InsertsGrow(n, ops[1..], modulus);
      }
    }
  }

  lemma {:induction false} InsertsGrow<V>(m: Model<V>, ops: seq<Op<V>>, modulus: nat)
    requires modulus > 0
    ensures After(m, ops, modulus).inserts >= m.inserts
    decreases |ops|
  {
    if ops != [] {
      InsertsGrow(Apply(m, ops[0], modulus), ops[1..], modulus);
    }
  }

  /** The bound is sharp: the `modulus`-th insert after the k-th may revive the handle. */
  lemma PeriodIsExact(k: nat, modulus: nat)
    requires modulus > 0
    ensures GenerationOf(k + modulus, modulus) == GenerationOf(k, modulus)
  {
    GenerationAfter(k, modulus - 1, modulus);
  }

  /** Inserting and removing n times over at index 0. */
  ghost function Churn<V>(value: V, k: nat, n: nat, modulus: nat): seq<Op<V>>
    requires modulus > 0
    decreases n
  {
    if n == 0 then [] else
      [Op.Insert(0, value), Op.Remove(Handle(0, GenerationOf(k, modulus)))] + Churn(value, k + 1, n - 1, modulus)
  }

  lemma {:induction false} ChurnIsRun<V>(m: Model<V>, value: V, n: nat, modulus: nat)
    requires modulus > 0 && m.contents == map[]
    ensures IsRun(m, Churn(value, m.inserts, n, modulus), modulus)
    ensures After(m, Churn(value, m.inserts, n, modulus), modulus) == Model(map[], m.inserts + n)
    decreases n
  {
    if n > 0 {
      var ops := Churn(value, m.inserts, n, modulus);
      var m1 := Apply(m, ops[0], modulus);
      var m2 := Apply(m1, ops[1], modulus);
      assert m2 == Model(map[], m.inserts + 1);
      ChurnIsRun(m2, value, n - 1, modulus);
      assert ops[1..][1..] == Churn(value, m.inserts + 1, n - 1, modulus);
      assert Enabled(m, ops[0]) && Enabled(m1, ops[1]);
      assert IsRun(m1, ops[1..], modulus);
    }
  }

  /** The bound is exact: a removed handle is live again after one period of inserts. */
  lemma StaleHandleComesBack<V>(m: Model<V>, value: V, modulus: nat)
    requires modulus > 0 && m.contents == map[]
    ensures var ops := Churn(value, m.inserts, modulus, modulus);
            var h := Handle(0, GenerationOf(m.inserts, modulus));
            && IsRun(m, ops, modulus) && h !in After(m, ops, modulus).contents
            && h in Apply(After(m, ops, modulus), Op.Insert(0, value), modulus).contents
  {
    ChurnIsRun(m, value, modulus, modulus);
    PeriodIsExact(m.inserts, modulus);
  }

  /** Following the links from `head` visits exactly `list`, all of them Free slots. */
  ghost predicate Linked<V>(storage: seq<Entry<V>>, head: Option<nat>, list: seq<nat>)
    decreases |list|
  {
    if list == [] then head.None? else
      && head == Some(list[0])
      && list[0] < |storage|
      && storage[list[0]].Free?
      && Linked(storage, storage[list[0]].next, list[1..])
  }

  /** The free list is acyclic and covers exactly the Free slots. */
  ghost predicate FreeListValid<V>(storage: seq<Entry<V>>, head: Option<nat>, list: seq<nat>)
  {
    && Linked(storage, head, list)
    && (forall i, j :: 0 <= i < j < |list| ==> list[i] != list[j])
    && (forall s :: 0 <= s < |storage| ==> (storage[s].Free? <==> s in list))
  }

  /** The Occupied slots hold exactly the client's map. */
  ghost predicate Agrees<V>(storage: seq<Entry<V>>, contents: map<Handle, V>)
  {
    && (forall h :: h in contents ==> Holds(storage, h) && storage[h.index].value == contents[h])
    && (forall s :: 0 <= s < |storage| && storage[s].Occupied? ==> Handle(s, storage[s].generation) in contents)
  }

  predicate Holds<V>(storage: seq<Entry<V>>, h: Handle)
  {
    h.index < |storage| && storage[h.index].Occupied? && storage[h.index].generation == h.generation
  }

  /** Links depend only on the slots they visit. */
  lemma {:induction false} LinkedFrame<V>(a: seq<Entry<V>>, b: seq<Entry<V>>, head: Option<nat>, list: seq<nat>)
    requires Linked(a, head, list)
    requires forall i :: 0 <= i < |list| && list[i] < |a| ==> list[i] < |b| && b[list[i]] == a[list[i]]
    ensures Linked(b, head, list)
    decreases |list|
  {
    if list != [] {
      assert forall i :: 0 <= i < |list[1..]| ==> list[1..][i] == list[i + 1];
      LinkedFrame(a, b, a[list[0]].next, list[1..]);
    }
  }

  lemma PopFree<V>(storage: seq<Entry<V>>, head: Option<nat>, list: seq<nat>, value: V, generation: nat)
    requires FreeListValid(storage, head, list) && head.Some?
    ensures list != [] && head.value < |storage| && storage[head.value].Free?
    ensures FreeListValid(storage[head.value := Occupied(value, generation)], storage[head.value].next, list[1..])
  {
    LinkedFrame(storage, storage[head.value := Occupied(value, generation)], storage[head.value].next, list[1..]);
  }

  lemma PushFree<V>(storage: seq<Entry<V>>, head: Option<nat>, list: seq<nat>, slot: nat)
    requires FreeListValid(storage, head, list) && slot < |storage| && storage[slot].Occupied?
    ensures FreeListValid(storage[slot := Free(head)], Some(slot), [slot] + list)
  {
    LinkedFrame(storage, storage[slot := Free(head)], head, list);
    assert ([slot] + list)[1..] == list;
  }

  lemma AppendSlot<V>(storage: seq<Entry<V>>, list: seq<nat>, value: V, generation: nat)
    requires FreeListValid(storage, None, list)
    ensures list == [] && FreeListValid(storage + [Occupied(value, generation)], None, list)
  {
  }

  lemma ReplaceOccupied<V>(storage: seq<Entry<V>>, head: Option<nat>, list: seq<nat>, slot: nat, value: V, generation: nat)
    requires FreeListValid(storage, head, list) && slot < |storage| && storage[slot].Occupied?
    ensures FreeListValid(storage[slot := Occupied(value, generation)], head, list)
  {
    LinkedFrame(storage, storage[slot := Occupied(value, generation)], head, list);
  }

  lemma HoldsIffLive<V>(storage: seq<Entry<V>>, contents: map<Handle, V>, h: Handle)
    requires Agrees(storage, contents)
    ensures Holds(storage, h) <==> h in contents
    ensures h in contents ==> storage[h.index].value == contents[h]
  {
  }

  lemma AgreesAfterInsert<V>(a: seq<Entry<V>>, b: seq<Entry<V>>, contents: map<Handle, V>, h: Handle, value: V)
    requires Agrees(a, contents) && h.index < |b| && b[h.index] == Occupied(value, h.generation)
    requires forall s :: 0 <= s < |b| && s != h.index ==> s < |a| && b[s] == a[s]
    requires |a| <= |b| && (h.index < |a| ==> a[h.index].Free?)
    ensures Agrees(b, contents[h := value]) && |contents[h := value]| == |contents| + 1
  {
  }

  lemma AgreesAfterRemove<V>(storage: seq<Entry<V>>, contents: map<Handle, V>, h: Handle, link: Option<nat>)
    requires Agrees(storage, contents) && Holds(storage, h)
    ensures Agrees(storage[h.index := Free(link)], contents - {h}) && |contents - {h}| == |contents| - 1
  {
  }

  lemma AgreesAfterUpdate<V>(storage: seq<Entry<V>>, contents: map<Handle, V>, h: Handle, value: V)
    requires Agrees(storage, contents) && Holds(storage, h)
    ensures Agrees(storage[h.index := Occupied(value, h.generation)], contents[h := value])
    ensures |contents[h := value]| == |contents|
  {
  }

  /** The slot vector.  `freeList` names the Free slots in the order the links visit them. */
  class Arena<V> {
    var storage: seq<Entry<V>>
    var free: Option<nat>
    var generation: nat
    var count: nat
    const modulus: nat
    ghost var freeList: seq<nat>
    ghost var model: Model<V>

    ghost predicate Valid()
      reads this
    {
      && modulus > 0
      && FreeListValid(storage, free, freeList)
      && Agrees(storage, model.contents)
      && generation == GenerationOf(model.inserts, modulus)
      && count == |model.contents|
    }

    constructor (modulus: nat)
      requires modulus > 0
      ensures Valid() && model == Model(map[], 0) && this.modulus == modulus
    {
      storage, free, generation, count := [], None, 0, 0;
      this.modulus := modulus;
      freeList, model := [], Model(map[], 0);
    }

    /** The handle the next insert will return, which `insert_with` passes to its closure. */
    function NextHandle(): (h: Handle)
      requires Valid()
      reads this
      ensures forall g :: g in model.contents ==> g.index != h.index
      ensures h.generation == GenerationOf(model.inserts, modulus)
    {
      Handle(if free.Some? then free.value else |storage|, generation)
    }

    method Insert(value: V) returns (handle: Handle)
      requires Valid()
      modifies this
      ensures Valid() && handle == old(NextHandle())
      ensures model == Apply(old(model), Op.Insert(handle.index, value), modulus)
      ensures model.contents == old(model.contents)[handle := value]
    {
      hide FreeListValid, Agrees;
      handle := NextHandle();
      generation := Increment(generation, modulus);
      ghost var was := storage;
      if free.Some? {
        PopFree(storage, free, freeList, value, handle.generation);
        free := storage[handle.index].next;
        storage := storage[handle.index := Occupied(value, handle.generation)];
        freeList := freeList[1..];
      } else {
        AppendSlot(storage, freeList, value, handle.generation);
        storage := storage + [Occupied(value, handle.generation)];
      }
      count := count + 1;
      AgreesAfterInsert(was, storage, model.contents, handle, value);
      model := Apply(model, Op.Insert(handle.index, value), modulus);
      assert FreeListValid(storage, free, freeList);
      assert Agrees(storage, model.contents);
      assert generation == GenerationOf(model.inserts, modulus);
    }

    /** `remove`: a handle that resolves to nothing is left alone and answered with None. */
    method Remove(handle: Handle) returns (r: Option<V>)
      requires Valid()
      modifies this
      ensures Valid() && model == Apply(old(model), Op.Remove(handle), modulus)
      ensures model.contents == old(model.contents) - {handle}
      ensures r == if handle in old(model.contents) then Some(old(model.contents)[handle]) else None
    {
      hide FreeListValid, Agrees;
      HoldsIffLive(storage, model.contents, handle);
      if !Holds(storage, handle) {
        assert model.contents - {handle} == model.contents;
        return None;
      }
      r := Some(storage[handle.index].value);
      PushFree(storage, free, freeList, handle.index);
      AgreesAfterRemove(storage, model.contents, handle, free);
      model := Apply(model, Op.Remove(handle), modulus);
      storage := storage[handle.index := Free(free)];
      free := Some(handle.index);
      freeList := [handle.index] + freeList;
      count := count - 1;
      assert FreeListValid(storage, free, freeList);
      assert Agrees(storage, model.contents);
    }

    /** `get`. */
    function Get(handle: Handle): (r: Option<V>)
      requires Valid()
      reads this
      ensures r == if handle in model.contents then Some(model.contents[handle]) else None
    {
      if Holds(storage, handle) then Some(storage[handle.index].value) else None
    }

    /** Assignment through `get_mut` or `IndexMut`. */
    method Set(handle: Handle, value: V)
      requires Valid()
      modifies this
      ensures Valid() && model == Apply(old(model), Op.Update(handle, value), modulus)
      ensures handle in old(model.contents) ==> model.contents == old(model.contents)[handle := value]
    {
      hide FreeListValid, Agrees;
      HoldsIffLive(storage, model.contents, handle);
      if Holds(storage, handle) {
        ReplaceOccupied(storage, free, freeList, handle.index, value, handle.generation);
        AgreesAfterUpdate(storage, model.contents, handle, value);
        storage := storage[handle.index := Occupied(value, handle.generation)];
      }
      model := Apply(model, Op.Update(handle, value), modulus);
    }

    /** `clear`.  The generation counter is kept. */
    method Clear()
      requires Valid()
      modifies this
      ensures Valid() && model == Apply(old(model), Op.Clear, modulus)
    {
      storage, count, free := [], 0, None;
      freeList := [];
      model := Apply(model, Op.Clear, modulus);
    }

    /** `iter`: every live handle with its value, in slot order. */
    method Iter() returns (items: seq<(Handle, V)>)
      requires Valid()
      ensures items == LiveUpTo(storage, |storage|)
      ensures forall i :: 0 <= i < |items| ==> items[i].0 in model.contents && model.contents[items[i].0] == items[i].1
      ensures forall h :: h in model.contents ==> h in Keys(items)
      ensures forall i, j :: 0 <= i < j < |items| ==> items[i].0 != items[j].0
    {
      items := [];
      var i := 0;
      while i < |storage|
        invariant 0 <= i <= |storage| && items == LiveUpTo(storage, i)
      {
        if storage[i].Occupied? {
          items := items + [(Handle(i, storage[i].generation), storage[i].value)];
        }
        i := i + 1;
      }
      LiveIsExact(storage, model.contents, |storage|);
    }
  }

  function Keys<V>(items: seq<(Handle, V)>): set<Handle>
  {
    set i | 0 <= i < |items| :: items[i].0
  }

  /** The entries of the first n slots. */
  function LiveUpTo<V>(storage: seq<Entry<V>>, n: nat): seq<(Handle, V)>
    requires n <= |storage|
  {
    if n == 0 then []
    else LiveUpTo(storage, n - 1) +
         if storage[n - 1].Occupied? then [(Handle(n - 1, storage[n - 1].generation), storage[n - 1].value)] else []
  }

  /** `items` lists the live handles of the first n slots, each once. */
  ghost predicate Lists<V>(items: seq<(Handle, V)>, contents: map<Handle, V>, n: nat)
  {
    && (forall i :: 0 <= i < |items| ==>
          items[i].0 in contents && contents[items[i].0] == items[i].1 && items[i].0.index < n)
    && (forall h :: h in contents && h.index < n ==> h in Keys(items))
    && (forall i, j :: 0 <= i < j < |items| ==> items[i].0 != items[j].0)
  }

  lemma {:induction false} LiveIsExact<V>(storage: seq<Entry<V>>, contents: map<Handle, V>, n: nat)
    requires Agrees(storage, contents) && n <= |storage|
    ensures Lists(LiveUpTo(storage, n), contents, n)
  {
    hide Lists, Agrees;
    if n == 0 {
      ListsNothing(contents);
    } else {
      LiveIsExact(storage, contents, n - 1);
      var before := LiveUpTo(storage, n - 1);
      SlotIsExact(storage, contents, n - 1);
      if storage[n - 1].Occupied? {
        ListsMore(before, contents, n - 1, Handle(n - 1, storage[n - 1].generation));
      } else {
        assert LiveUpTo(storage, n) == before;
        ListsSame(before, contents, n - 1);
      }
    }
  }

  /** At most one live handle names a slot. */
  lemma SlotIsExact<V>(storage: seq<Entry<V>>, contents: map<Handle, V>, s: nat)
    requires Agrees(storage, contents) && s < |storage|
    ensures storage[s].Occupied? ==>
              var h := Handle(s, storage[s].generation); h in contents && contents[h] == storage[s].value
    ensures forall g :: g in contents && g.index == s ==> storage[s].Occupied? && g == Handle(s, storage[s].generation)
  {
  }

  lemma ListsNothing<V>(contents: map<Handle, V>)
    ensures Lists([], contents, 0)
  {
  }

  lemma ListsSame<V>(items: seq<(Handle, V)>, contents: map<Handle, V>, n: nat)
    requires Lists(items, contents, n) && forall g :: g in contents ==> g.index != n
    ensures Lists(items, contents, n + 1)
  {
  }

  lemma ListsMore<V>(items: seq<(Handle, V)>, contents: map<Handle, V>, n: nat, h: Handle)
    requires Lists(items, contents, n) && h in contents && h.index == n
    requires forall g :: g in contents && g.index == n ==> g == h
    ensures Lists(items + [(h, contents[h])], contents, n + 1)
  {
    var more := items + [(h, contents[h])];
    forall g | g in contents && g.index < n + 1
      ensures g in Keys(more)
    {
      if g.index < n {
        var i :| 0 <= i < |items| && items[i].0 == g;
        assert more[i].0 == g;
      } else {
        assert more[|items|].0 == g;
      }
    }
  }
}
