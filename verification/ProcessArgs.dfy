/** How a parent passes objects and arguments to a new process: the builder writes one block of bytes
    (lib/rust/rt/src/process.rs), and the runtime of the new process reads it (lib/rust/rt/src/args.rs). */
module ProcessArgs {
  import opened Wrappers

  type Byte = x: nat | x < 0x100

  const LIMIT := 0x1_0000

  datatype Passed = Passed(name: seq<Byte>, handle: nat)

  // ---- The format ----

  function Le16(n: nat): (r: seq<Byte>)
    requires n < LIMIT
    ensures |r| == 2
  {
    [n % 0x100, n / 0x100]
  }

  function Le32(n: nat): seq<Byte>
    requires n < LIMIT * LIMIT
  {
    Le16(n % LIMIT) + Le16(n / LIMIT)
  }

  function EncodeStr(s: seq<Byte>): seq<Byte>
    requires |s| < LIMIT
  {
    Le16(|s|) + s
  }

  predicate Fits(args: seq<seq<Byte>>)
  {
    forall i :: 0 <= i < |args| ==> |args[i]| < LIMIT
  }

  predicate ObjectFits(o: Passed)
  {
    |o.name| < LIMIT && o.handle < LIMIT * LIMIT
  }

  predicate ObjectsFit(objects: seq<Passed>)
  {
    forall i :: 0 <= i < |objects| ==> ObjectFits(objects[i])
  }

  function EncodeArgs(args: seq<seq<Byte>>): seq<Byte>
    requires Fits(args)
  {
    if args == [] then [] else EncodeStr(args[0]) + EncodeArgs(args[1..])
  }

  function EncodeObject(o: Passed): seq<Byte>
    requires ObjectFits(o)
  {
    EncodeStr(o.name) + Le32(o.handle)
  }

  function EncodeObjects(objects: seq<Passed>): seq<Byte>
    requires ObjectsFit(objects)
  {
    if objects == [] then [] else EncodeObject(objects[0]) + EncodeObjects(objects[1..])
  }

  /** The block for given objects and arguments, and no environment. */
  function Block(objects: seq<Passed>, args: seq<seq<Byte>>): seq<Byte>
    requires ObjectsFit(objects) && Fits(args) && |objects| < LIMIT && |args| < LIMIT
  {
    Le16(|objects|) + EncodeObjects(objects) + Le16(|args|) + EncodeArgs(args) + Le16(0)
  }

  lemma Associate(a: seq<Byte>, b: seq<Byte>, c: seq<Byte>)
    ensures a + (b + c) == (a + b) + c
  {
  }

  lemma {:induction false} ArgsConcat(a: seq<seq<Byte>>, b: seq<seq<Byte>>)
    requires Fits(a) && Fits(b)
    ensures Fits(a + b) && EncodeArgs(a + b) == EncodeArgs(a) + EncodeArgs(b)
  {
    hide EncodeStr;
    if a == [] {
      assert a + b == b;
    } else {
      assert (a + b)[0] == a[0] && (a + b)[1..] == a[1..] + b;
      ArgsConcat(a[1..], b);
      Associate(EncodeStr(a[0]), EncodeArgs(a[1..]), EncodeArgs(b));
    }
  }

  lemma {:induction false} ObjectsConcat(a: seq<Passed>, b: seq<Passed>)
    requires ObjectsFit(a) && ObjectsFit(b)
    ensures ObjectsFit(a + b) && EncodeObjects(a + b) == EncodeObjects(a) + EncodeObjects(b)
  {
    hide EncodeObject, ObjectFits;
    if a == [] {
      assert a + b == b;
    } else {
      assert (a + b)[0] == a[0] && (a + b)[1..] == a[1..] + b;
      ObjectsConcat(a[1..], b);
      Associate(EncodeObject(a[0]), EncodeObjects(a[1..]), EncodeObjects(b));
    }
  }

  lemma OneArg(s: seq<Byte>)
    requires |s| < LIMIT
    ensures EncodeArgs([s]) == EncodeStr(s)
  {
  }

  lemma OneObject(o: Passed)
    requires ObjectFits(o)
    ensures EncodeObjects([o]) == EncodeObject(o)
  {
  }

  // ---- Reading memory ----

  /** The bytes stand in memory at p. */
  ghost predicate At(m: seq<Byte>, p: nat, bytes: seq<Byte>)
  {
    p + |bytes| <= |m| && m[p..p + |bytes|] == bytes
  }

  lemma AtSplit(m: seq<Byte>, p: nat, a: seq<Byte>, b: seq<Byte>)
    ensures At(m, p, a + b) <==> At(m, p, a) && At(m, p + |a|, b)
  {
    if At(m, p, a) && At(m, p + |a|, b) {
      assert m[p..p + |a + b|] == m[p..p + |a|] + m[p + |a|..p + |a| + |b|];
    }
    if At(m, p, a + b) {
      assert m[p..p + |a|] == m[p..p + |a + b|][..|a|];
      assert m[p + |a|..p + |a| + |b|] == m[p..p + |a + b|][|a|..];
    }
  }

  function Read16(m: seq<Byte>, p: nat): nat
    requires p + 2 <= |m|
  {
    var low: nat, high: nat := m[p], m[p + 1];
    low + high * 0x100
  }

  function Read32(m: seq<Byte>, p: nat): nat
    requires p + 4 <= |m|
  {
    Read16(m, p) + Read16(m, p + 2) * LIMIT
  }

  lemma Read16At(m: seq<Byte>, p: nat, n: nat)
    requires n < LIMIT && At(m, p, Le16(n))
    ensures Read16(m, p) == n
  {
  }

  lemma Read32At(m: seq<Byte>, p: nat, n: nat)
    requires n < LIMIT * LIMIT && At(m, p, Le32(n))
    ensures Read32(m, p) == n
  {
  }

  ghost predicate StrAt(m: seq<Byte>, p: nat)
  {
    p + 2 <= |m| && p + 2 + Read16(m, p) <= |m|
  }

  /** `get_str`. */
  function GetStr(m: seq<Byte>, p: nat): (seq<Byte>, nat)
    requires StrAt(m, p)
  {
    (m[p + 2..p + 2 + Read16(m, p)], p + 2 + Read16(m, p))
  }

  lemma GetStrAt(m: seq<Byte>, p: nat, s: seq<Byte>)
    requires |s| < LIMIT && At(m, p, EncodeStr(s))
    ensures StrAt(m, p) && GetStr(m, p) == (s, p + |EncodeStr(s)|)
  {
    AtSplit(m, p, Le16(|s|), s);
    Read16At(m, p, |s|);
  }

  /** Both parts of an entry can be read back. */
  lemma GetObjectAt(m: seq<Byte>, p: nat, o: Passed)
    requires ObjectFits(o) && At(m, p, EncodeObject(o))
    ensures StrAt(m, p) && GetStr(m, p).0 == o.name
    ensures var q := GetStr(m, p).1; q + 4 == p + |EncodeObject(o)| <= |m| && Read32(m, q) == o.handle
  {
    AtSplit(m, p, EncodeStr(o.name), Le32(o.handle));
    GetStrAt(m, p, o.name);
    Read32At(m, p + |EncodeStr(o.name)|, o.handle);
  }

  // ---- Nothing is ambiguous ----

  /** Different argument lists have different bytes, even of different lengths. */
  lemma {:induction false} ArgsInjective(a: seq<seq<Byte>>, b: seq<seq<Byte>>)
    requires Fits(a) && Fits(b) && EncodeArgs(a) == EncodeArgs(b)
    ensures a == b
  {
    if a != [] && b != [] {
      var m := EncodeArgs(a);
      AtSplit(m, 0, EncodeStr(a[0]), EncodeArgs(a[1..]));
      AtSplit(m, 0, EncodeStr(b[0]), EncodeArgs(b[1..]));
      GetStrAt(m, 0, a[0]);
      GetStrAt(m, 0, b[0]);
      ArgsInjective(a[1..], b[1..]);
      assert a == [a[0]] + a[1..] && b == [b[0]] + b[1..];
    }
  }

  lemma {:induction false} ObjectsInjective(a: seq<Passed>, b: seq<Passed>)
    requires ObjectsFit(a) && ObjectsFit(b) && EncodeObjects(a) == EncodeObjects(b)
    ensures a == b
  {
    if a != [] && b != [] {
      var m := EncodeObjects(a);
      AtSplit(m, 0, EncodeObject(a[0]), EncodeObjects(a[1..]));
      AtSplit(m, 0, EncodeObject(b[0]), EncodeObjects(b[1..]));
      GetObjectAt(m, 0, a[0]);
      GetObjectAt(m, 0, b[0]);
      ObjectsInjective(a[1..], b[1..]);
      assert a == [a[0]] + a[1..] && b == [b[0]] + b[1..];
    }
  }

  // ---- The builder ----

  function FirstLong(args: seq<seq<Byte>>): (k: nat)
    ensures k <= |args| && Fits(args[..k]) && (k < |args| ==> |args[k]| >= LIMIT)
  {
    if args == [] || |args[0]| >= LIMIT then 0
    else
      assert forall j :: 0 < j <= |args| ==> args[..j] == [args[0]] + args[1..][..j - 1];
      1 + FirstLong(args[1..])
  }

  /** What a builder's fields amount to: `written` arguments of which the count says |accepted|, and objects
      of which the count claims `extra` too many. */
  ghost predicate Wrote(objects: seq<Byte>, objectsCount: nat, args: seq<Byte>, argsCount: nat, os: seq<Passed>,
                        extra: nat, written: seq<seq<Byte>>, accepted: seq<seq<Byte>>)
  {
    && ObjectsFit(os) && objects == EncodeObjects(os) && objectsCount == |os| + extra < LIMIT
    && Fits(written) && args == EncodeArgs(written) && argsCount == |accepted| < LIMIT && |accepted| <= |written|
  }

  /** `Builder`, without its kernel handles.  `env` stays empty: nothing adds to it.  The ghost fields are the
      objects and arguments of the calls that succeeded, and what the others left behind. */
  class Builder {
    var objects: seq<Byte>
    var objectsCount: nat
    var args: seq<Byte>
    var argsCount: nat

    ghost var os: seq<Passed>
    ghost var extra: nat
    ghost var written: seq<seq<Byte>>
    ghost var accepted: seq<seq<Byte>>

    ghost predicate Valid()
      reads this
    {
      Wrote(objects, objectsCount, args, argsCount, os, extra, written, accepted)
    }

    constructor ()
      ensures Valid() && os == [] && extra == 0 && written == accepted == []
    {
      objects, objectsCount, args, argsCount := [], 0, [], 0;
      os, extra, written, accepted := [], 0, [], [];
    }

    /** The block as `spawn` writes it. */
    ghost function Bytes(): seq<Byte>
      requires objectsCount < LIMIT && argsCount < LIMIT
      reads this
    {
      Le16(objectsCount) + objects + Le16(argsCount) + args + Le16(0)
    }

    /** The child finds a block for these objects and arguments. */
    ghost predicate ChildGets(objects: seq<Passed>, words: seq<seq<Byte>>)
      requires Valid()
      reads this
    {
      && ObjectsFit(objects) && Fits(words) && |objects| < LIMIT && |words| < LIMIT
      && At(Bytes(), 0, Block(objects, words))
    }

    /** `add_object_raw`; `shared` is what `io::share` returned.  A name that is too long is noticed after
        the count was raised. */
    method AddObject(name: seq<Byte>, shared: Option<nat>) returns (ok: bool)
      requires Valid() && (shared.Some? ==> shared.value < LIMIT * LIMIT)
      modifies this`objects, this`objectsCount, this`os, this`extra
      ensures Valid()
      ensures ok <==> shared.Some? && old(objectsCount) + 1 < LIMIT && |name| < LIMIT
      ensures os == if ok then old(os) + [Passed(name, shared.value)] else old(os)
      ensures extra == old(extra) + if shared.Some? && old(objectsCount) + 1 < LIMIT && |name| >= LIMIT then 1 else 0
    {
      if shared.None? || objectsCount + 1 == LIMIT {
        return false;
      }
      objectsCount := objectsCount + 1;
      if |name| >= LIMIT {
        extra := extra + 1;
        return false;
      }
      ghost var o := Passed(name, shared.value);
      ObjectsConcat(os, [o]);
      OneObject(o);
      objects := objects + EncodeStr(name);
      objects := objects + Le32(shared.value);
      Associate(EncodeObjects(os), EncodeStr(name), Le32(shared.value));
      os := os + [o];
      ok := true;
    }

    /** `add_args`.  The arguments before the first one that is too long are written and not counted. */
    method AddArgs(more: seq<seq<Byte>>) returns (ok: bool)
      requires Valid()
      modifies this`args, this`argsCount, this`written, this`accepted
      ensures Valid()
      ensures ok <==> old(argsCount) + |more| < LIMIT && Fits(more)
      ensures accepted == if ok then old(accepted) + more else old(accepted)
      ensures written == old(written) + if ok then more else if old(argsCount) + |more| >= LIMIT then [] else more[..FirstLong(more)]
    {
      hide EncodeStr, EncodeArgs;
      if argsCount + |more| >= LIMIT {
        return false;
      }
      ghost var before := written;
      var i := 0;
      assert before + more[..i] == before;
      while i < |more|
        invariant 0 <= i <= FirstLong(more) && written == before + more[..i] && Fits(written) && args == EncodeArgs(written)
        modifies this`args, this`written
      {
        if |more[i]| >= LIMIT {
          assert i == FirstLong(more);
          return false;
        }
        OneArg(more[i]);
        ArgsConcat(written, [more[i]]);
        assert before + more[..i] + [more[i]] == before + more[..i + 1];
        args := args + EncodeStr(more[i]);
        written := written + [more[i]];
        i := i + 1;
      }
      argsCount := argsCount + |more|;
      accepted := accepted + more;
      assert more[..i] == more;
      ok := true;
    }

    method Spawn() returns (block: seq<Byte>)
      requires Valid()
      ensures block == Bytes()
    {
      block := Le16(objectsCount) + objects;
      block := block + Le16(argsCount) + args;
      block := block + Le16(0);
    }
  }

  // ---- What the child gets ----

  lemma {:induction false} ArgsAtUnique(m: seq<Byte>, p: nat, a: seq<seq<Byte>>, b: seq<seq<Byte>>)
    requires Fits(a) && Fits(b) && |a| <= |b| && At(m, p, EncodeArgs(a)) && At(m, p, EncodeArgs(b))
    ensures a == b[..|a|]
    decreases |a|
  {
    if a != [] {
      hide Le16;
      AtSplit(m, p, EncodeStr(a[0]), EncodeArgs(a[1..]));
      AtSplit(m, p, EncodeStr(b[0]), EncodeArgs(b[1..]));
      GetStrAt(m, p, a[0]);
      GetStrAt(m, p, b[0]);
      ArgsAtUnique(m, p + |EncodeStr(a[0])|, a[1..], b[1..]);
      assert a == [a[0]] + a[1..] && b[..|a|] == [b[0]] + b[1..][..|a| - 1];
    }
  }

  lemma {:induction false} ObjectsAtUnique(m: seq<Byte>, p: nat, a: seq<Passed>, b: seq<Passed>)
    requires ObjectsFit(a) && ObjectsFit(b) && |a| == |b| && At(m, p, EncodeObjects(a)) && At(m, p, EncodeObjects(b))
    ensures a == b
    decreases |a|
  {
    if a != [] {
      hide EncodeObject;
      AtSplit(m, p, EncodeObject(a[0]), EncodeObjects(a[1..]));
      AtSplit(m, p, EncodeObject(b[0]), EncodeObjects(b[1..]));
      GetObjectAt(m, p, a[0]);
      GetObjectAt(m, p, b[0]);
      ObjectsAtUnique(m, p + |EncodeObject(a[0])|, a[1..], b[1..]);
      assert a == [a[0]] + a[1..] && b == [b[0]] + b[1..];
    }
  }

  /** A block says one thing only. */
  lemma BlockUnique(m: seq<Byte>, os: seq<Passed>, words: seq<seq<Byte>>, os': seq<Passed>, words': seq<seq<Byte>>)
    requires ObjectsFit(os) && Fits(words) && |os| < LIMIT && |words| < LIMIT && At(m, 0, Block(os, words))
    requires ObjectsFit(os') && Fits(words') && |os'| < LIMIT && |words'| < LIMIT && At(m, 0, Block(os', words'))
    ensures os == os' && words == words'
  {
    BlockParts(m, os, words);
    BlockParts(m, os', words');
    hide EncodeObjects, EncodeArgs, Block;
    ObjectsAtUnique(m, 2, os, os');
    ArgsAtUnique(m, 4 + |EncodeObjects(os)|, words, words');
  }

  /** The bytes of any builder, part by part. */
  lemma BytesParts(b: Builder)
    requires b.Valid()
    ensures var m, p := b.Bytes(), 2 + |b.objects|;
            && |m| == p + 2 + |b.args| + 2
            && At(m, 0, Le16(b.objectsCount)) && At(m, 2, EncodeObjects(b.os)) && p == 2 + |EncodeObjects(b.os)|
            && At(m, p, Le16(b.argsCount)) && At(m, p + 2, EncodeArgs(b.written)) && At(m, p + 2 + |b.args|, Le16(0))
  {
    hide EncodeObjects, EncodeArgs, Le16;
    var m, x, y, z := b.Bytes(), Le16(b.objectsCount), b.objects, Le16(b.argsCount);
    assert At(m, 0, m);
    AtSplit(m, 0, x + y + z + b.args, Le16(0));
    AtSplit(m, 0, x + y + z, b.args);
    AtSplit(m, 0, x + y, z);
    AtSplit(m, 0, x, y);
  }

  lemma SameNumber(m: seq<Byte>, p: nat, n: nat, k: nat)
    requires n < LIMIT && k < LIMIT && At(m, p, Le16(n))
    ensures At(m, p, Le16(k)) <==> n == k
  {
    hide At, Le16;
    Read16At(m, p, n);
    if At(m, p, Le16(k)) {
      Read16At(m, p, k);
    }
  }

  /** What follows the first n arguments reads as zero exactly if there is no further argument or it is
      empty. */
  lemma ZeroFollowsIff(m: seq<Byte>, p: nat, words: seq<seq<Byte>>, n: nat)
    requires Fits(words) && n <= |words| && Fits(words[..n])
    requires At(m, p, EncodeArgs(words)) && At(m, p + |EncodeArgs(words)|, Le16(0))
    ensures At(m, p, EncodeArgs(words[..n]))
    ensures At(m, p + |EncodeArgs(words[..n])|, Le16(0)) <==> |words| == n || words[n] == []
  {
    hide EncodeArgs, Le16, At;
    var front, rest := words[..n], words[n..];
    assert words == front + rest;
    ArgsConcat(front, rest);
    AtSplit(m, p, EncodeArgs(front), EncodeArgs(rest));
    if rest != [] {
      HeadOfArgs(rest);
      AtSplit(m, p + |EncodeArgs(front)|, Le16(|rest[0]|), rest[0] + EncodeArgs(rest[1..]));
      SameNumber(m, p + |EncodeArgs(front)|, |rest[0]|, 0);
    } else {
      assert words == front;
    }
  }

  lemma {:induction false} ArgsReadIff(m: seq<Byte>, p: nat, written: seq<seq<Byte>>, accepted: seq<seq<Byte>>)
    requires Fits(written) && |accepted| <= |written|
    requires At(m, p, EncodeArgs(written)) && At(m, p + |EncodeArgs(written)|, Le16(0))
    ensures Fits(accepted) && At(m, p, EncodeArgs(accepted)) && At(m, p + |EncodeArgs(accepted)|, Le16(0))
            <==> accepted == written[..|accepted|] && (|written| == |accepted| || written[|accepted|] == [])
  {
    hide EncodeArgs, Le16, At, Fits;
    var front := written[..|accepted|];
    FrontFits(written, |accepted|);
    ZeroFollowsIff(m, p, written, |accepted|);
    if accepted != front && Fits(accepted) && At(m, p, EncodeArgs(accepted)) {
      ArgsAtUnique(m, p, accepted, written);
    }
  }

  lemma FrontFits(words: seq<seq<Byte>>, n: nat)
    requires Fits(words) && n <= |words|
    ensures Fits(words[..n])
  {
  }

  /** A block is its parts. */
  lemma BlockIff(m: seq<Byte>, os: seq<Passed>, words: seq<seq<Byte>>)
    requires ObjectsFit(os) && Fits(words) && |os| < LIMIT && |words| < LIMIT
    ensures At(m, 0, Block(os, words)) <==>
              var p := 2 + |EncodeObjects(os)|;
              && At(m, 0, Le16(|os|)) && At(m, 2, EncodeObjects(os)) && At(m, p, Le16(|words|))
              && At(m, p + 2, EncodeArgs(words)) && At(m, p + 2 + |EncodeArgs(words)|, Le16(0))
  {
    hide EncodeObjects, EncodeArgs, Le16, At;
    var a, b, c, d := Le16(|os|), EncodeObjects(os), Le16(|words|), EncodeArgs(words);
    AtSplit(m, 0, a, b);
    AtSplit(m, 0, a + b, c);
    AtSplit(m, 0, a + b + c, d);
    AtSplit(m, 0, a + b + c + d, Le16(0));
  }

  /** After any calls, refused ones included, the child gets exactly the objects and arguments of the calls
      that succeeded if and only if no name was too long and no refused argument list left a non-empty
      argument right behind, or in place of, the accepted ones. */
  lemma ChildGetsIff(b: Builder)
    requires b.Valid()
    ensures b.ChildGets(b.os, b.accepted) <==>
              && b.extra == 0 && b.accepted == b.written[..|b.accepted|]
              && (|b.written| == |b.accepted| || b.written[|b.accepted|] == [])
  {
    hide EncodeObjects, EncodeArgs, Le16, At, Block;
    var m := b.Bytes();
    BytesParts(b);
    SameNumber(m, 0, b.objectsCount, |b.os|);
    ArgsReadIff(m, 4 + |b.objects|, b.written, b.accepted);
    if Fits(b.accepted) {
      BlockIff(m, b.os, b.accepted);
    }
  }

  /** A refused argument list on a builder that had no trouble: the child still gets what was accepted if and
      only if the list was too long, or began with an argument that is too long or empty. */
  method RefusedArgs(b: Builder, more: seq<seq<Byte>>) returns (ok: bool)
    requires b.Valid() && b.extra == 0 && b.written == b.accepted
    modifies b
    ensures b.Valid() && b.os == old(b.os)
    ensures ok ==> b.ChildGets(b.os, old(b.accepted) + more)
    ensures !ok ==> (b.ChildGets(b.os, old(b.accepted)) <==>
                       old(b.argsCount) + |more| >= LIMIT || FirstLong(more) == 0 || more[0] == [])
  {
    ok := b.AddArgs(more);
    ChildGetsIff(b);
  }

  /** A refused name on such a builder: the child does not get what was accepted. */
  method RefusedName(b: Builder, name: seq<Byte>, shared: Option<nat>) returns (ok: bool)
    requires b.Valid() && b.extra == 0 && b.written == b.accepted && (shared.Some? ==> shared.value < LIMIT * LIMIT)
    modifies b
    ensures b.Valid() && b.accepted == old(b.accepted)
    ensures ok ==> shared.Some? && b.ChildGets(old(b.os) + [Passed(name, shared.value)], b.accepted)
    ensures !ok ==> (b.ChildGets(old(b.os), b.accepted) <==> shared.None? || old(b.objectsCount) + 1 == LIMIT)
  {
    ok := b.AddObject(name, shared);
    ChildGetsIff(b);
  }

  /** What it gets instead: one object more, whose name and handle are bytes of the arguments, if there are
      enough of them. */
  lemma ForgedObject(b: Builder, o: Passed)
    requires b.Valid() && b.extra == 1
    requires var rest := b.args + Le16(0);
             |b.accepted| + 4 <= |rest| && o == Passed(rest[..|b.accepted|], Read32(rest, |b.accepted|))
    ensures ObjectFits(o) && ObjectsFit(b.os + [o])
    ensures At(b.Bytes(), 0, Le16(|b.os| + 1)) && At(b.Bytes(), 2, EncodeObjects(b.os + [o]))
  {
    hide EncodeObjects, EncodeArgs, Le16, Le32, At, Read32;
    var m, n, rest, p := b.Bytes(), |b.accepted|, b.args + Le16(0), 2 + |b.objects|;
    BytesParts(b);
    AtSplit(m, p + 2, b.args, Le16(0));
    ReadsBack(rest, n);
    ObjectsConcat(b.os, [o]);
    OneObject(o);
    ForgedBytes(m, p, rest, n, o);
    AtSplit(m, 2, EncodeObjects(b.os), EncodeObject(o));
  }

  lemma ForgedBytes(m: seq<Byte>, p: nat, rest: seq<Byte>, n: nat, o: Passed)
    requires n < LIMIT && n + 4 <= |rest| && At(m, p, Le16(n)) && At(m, p + 2, rest)
    requires ObjectFits(o) && o.name == rest[..n] && Le32(o.handle) == rest[n..n + 4]
    ensures At(m, p, EncodeObject(o))
  {
    hide Le16, Le32, At;
    assert rest == rest[..n] + (rest[n..n + 4] + rest[n + 4..]);
    AtSplit(m, p + 2, rest[..n], rest[n..n + 4] + rest[n + 4..]);
    AtSplit(m, p + 2 + n, rest[n..n + 4], rest[n + 4..]);
    AtSplit(m, p, Le16(n), rest[..n]);
    AtSplit(m, p, EncodeStr(o.name), Le32(o.handle));
  }

  /** Four bytes are the encoding of the number read from them. */
  lemma ReadsBack(m: seq<Byte>, p: nat)
    requires p + 4 <= |m|
    ensures Read32(m, p) < LIMIT * LIMIT && Le32(Read32(m, p)) == m[p..p + 4]
  {
    var low, high := Read16(m, p), Read16(m, p + 2);
    assert Read32(m, p) % LIMIT == low && Read32(m, p) / LIMIT == high;
    assert Le16(low) == m[p..p + 2] && Le16(high) == m[p + 2..p + 4];
  }

  /** Five zero bytes as the only argument and a name that is too long: the block is a well-formed one that
      passes an object nobody added. */
  method ForgedObjectExample() returns (block: seq<Byte>)
    ensures block == Block([Passed([5], 0)], [])
  {
    hide EncodeStr, Le16;
    var b := new Builder();
    var word: seq<Byte> := [0, 0, 0, 0, 0];
    var ok := b.AddArgs([word]);
    OneArg(word);
    assert [] + [word] == [word];
    ok := b.AddObject(seq(LIMIT, _ => 0), Some(1));
    block := b.Spawn();
    ForgedBlock();
  }

  lemma ForgedBlock()
    ensures Block([Passed([5], 0)], []) == Le16(1) + [] + Le16(1) + EncodeStr([0, 0, 0, 0, 0]) + Le16(0)
  {
    var o := Passed([5], 0);
    OneObject(o);
    assert EncodeObject(o) == [1, 0, 5, 0, 0, 0, 0];
    assert Le16(0) == [0, 0] && Le16(1) == [1, 0] && EncodeStr([0, 0, 0, 0, 0]) == [5, 0, 0, 0, 0, 0, 0];
    assert [1, 0] + [1, 0, 5, 0, 0, 0, 0] + [0, 0] + [] + [0, 0] == [1, 0] + [] + [1, 0] + [5, 0, 0, 0, 0, 0, 0] + [0, 0];
  }

  /** A block byte by byte: an object "in" with handle 7 and the argument "ls". */
  lemma BlockExample()
    ensures Block([Passed([0x69, 0x6e], 7)], [[0x6c, 0x73]])
         == [1, 0, 2, 0, 0x69, 0x6e, 7, 0, 0, 0, 1, 0, 2, 0, 0x6c, 0x73, 0, 0]
  {
    var o, word := Passed([0x69, 0x6e], 7), [0x6c, 0x73];
    OneObject(o);
    assert EncodeArgs([word]) == EncodeStr(word) + EncodeArgs([]) == [2, 0, 0x6c, 0x73];
    assert EncodeObject(o) == [2, 0, 0x69, 0x6e, 7, 0, 0, 0];
    assert Le16(1) == [1, 0] && Le16(0) == [0, 0];
  }

  // ---- The new process ----

  function Ascii(text: string): seq<Byte>
    requires forall i :: 0 <= i < |text| ==> text[i] < 128 as char
  {
    seq(|text|, i requires 0 <= i < |text| => text[i] as nat)
  }

  /** The names that `init` looks for. */
  predicate IsKnown(name: seq<Byte>)
  {
    name in {Ascii("in"), Ascii("out"), Ascii("err"), Ascii("file"), Ascii("net"), Ascii("process")}
  }

  /** The handle passed last under a name. */
  function Lookup(os: seq<Passed>, name: seq<Byte>): Option<nat>
  {
    if os == [] then None
    else if os[|os| - 1].name == name then Some(os[|os| - 1].handle)
    else Lookup(os[..|os| - 1], name)
  }

  /** It is the handle of the last object of that name, and None if and only if there is no such object. */
  lemma {:induction false} LookupIsLast(os: seq<Passed>, name: seq<Byte>)
    ensures Lookup(os, name).None? <==> forall i :: 0 <= i < |os| ==> os[i].name != name
    ensures forall i :: 0 <= i < |os| && os[i].name == name && (forall j :: i < j < |os| ==> os[j].name != name) ==>
              Lookup(os, name) == Some(os[i].handle)
    decreases |os|
  {
    if os != [] {
      var n := |os| - 1;
      LookupIsLast(os[..n], name);
      assert forall i :: 0 <= i < n ==> os[..n][i] == os[i];
    }
  }

  /** `Handles`. */
  class Handles {
    const memory: seq<Byte>
    var ptr: nat
    var count: nat

    ghost predicate Holds(os: seq<Passed>)
      reads this
    {
      count == |os| && ObjectsFit(os) && At(memory, ptr, EncodeObjects(os))
    }

    constructor (memory: seq<Byte>, ghost os: seq<Passed>, ghost words: seq<seq<Byte>>)
      requires ObjectsFit(os) && Fits(words) && |os| < LIMIT && |words| < LIMIT && At(memory, 0, Block(os, words))
      ensures Holds(os) && this.memory == memory && ptr == 2
    {
      BlockParts(memory, os, words);
      this.memory := memory;
      ptr, count := 2, Read16(memory, 0);
    }

    method Next(ghost os: seq<Passed>) returns (r: Option<Passed>)
      requires Holds(os)
      modifies this
      ensures r == if os == [] then None else Some(os[0])
      ensures Holds(if os == [] then [] else os[1..])
      ensures ptr == old(ptr) + if os == [] then 0 else |EncodeObject(os[0])|
    {
      if count == 0 {
        return None;
      }
      AtSplit(memory, ptr, EncodeObject(os[0]), EncodeObjects(os[1..]));
      GetObjectAt(memory, ptr, os[0]);
      count := count - 1;
      var (name, p) := GetStr(memory, ptr);
      var h := Read32(memory, p);
      ptr := p + 4;
      r := Some(Passed(name, h));
    }
  }

  lemma BlockParts(m: seq<Byte>, os: seq<Passed>, words: seq<seq<Byte>>)
    requires ObjectsFit(os) && Fits(words) && |os| < LIMIT && |words| < LIMIT && At(m, 0, Block(os, words))
    ensures |m| >= 2 && Read16(m, 0) == |os| && At(m, 2, EncodeObjects(os))
    ensures var p := 2 + |EncodeObjects(os)|;
            && p + 2 <= |m| && Read16(m, p) == |words| && At(m, p + 2, EncodeArgs(words))
            && At(m, p + 2 + |EncodeArgs(words)|, Le16(0))
  {
    hide EncodeObjects, EncodeArgs, Le16;
    BlockIff(m, os, words);
    Read16At(m, 0, |os|);
    Read16At(m, 2 + |EncodeObjects(os)|, |words|);
  }

  /** `init`: finds where the arguments start, and the handles of well-known names, the last of equal
      names winning. */
  method Init(memory: seq<Byte>, ghost os: seq<Passed>, ghost words: seq<seq<Byte>>)
    returns (globals: map<seq<Byte>, nat>, start: nat)
    requires ObjectsFit(os) && Fits(words) && |os| < LIMIT && |words| < LIMIT && At(memory, 0, Block(os, words))
    ensures start == 2 + |EncodeObjects(os)|
    ensures forall n :: n in globals ==> IsKnown(n)
    ensures forall n :: IsKnown(n) ==> (if n in globals then Some(globals[n]) else None) == Lookup(os, n)
  {
    hide IsKnown;
    BlockParts(memory, os, words);
    globals := map[];
    var count, p := Read16(memory, 0), 2;
    assert os[0..] == os;
    for i := 0 to count
      invariant At(memory, p, EncodeObjects(os[i..])) && p + |EncodeObjects(os[i..])| == 2 + |EncodeObjects(os)|
      invariant forall n :: n in globals ==> IsKnown(n)
      invariant forall n :: IsKnown(n) ==> (if n in globals then Some(globals[n]) else None) == Lookup(os[..i], n)
    {
      hide EncodeObject;
      assert os[i..][1..] == os[i + 1..];
      AtSplit(memory, p, EncodeObject(os[i]), EncodeObjects(os[i + 1..]));
      GetObjectAt(memory, p, os[i]);
      var (name, q) := GetStr(memory, p);
      var handle := Read32(memory, q);
      p := q + 4;
      if IsKnown(name) {
        globals := globals[name := handle];
      }
      assert os[..i + 1][..i] == os[..i];
    }
    assert os[..count] == os;
    start := p;
  }

  /** `Args`, an iterator that can be read from both ends. */
  class Args {
    const memory: seq<Byte>
    var count: nat
    var ptr: nat

    ghost predicate Holds(words: seq<seq<Byte>>)
      reads this
    {
      count == |words| && Fits(words) && At(memory, ptr, EncodeArgs(words))
    }

    constructor (memory: seq<Byte>, start: nat, ghost words: seq<seq<Byte>>)
      requires Fits(words) && |words| < LIMIT
      requires At(memory, start, Le16(|words|) + EncodeArgs(words))
      ensures Holds(words) && this.memory == memory && ptr == start + 2
    {
      AtSplit(memory, start, Le16(|words|), EncodeArgs(words));
      Read16At(memory, start, |words|);
      this.memory := memory;
      count, ptr := Read16(memory, start), start + 2;
    }

    constructor Copy(other: Args)
      ensures memory == other.memory && count == other.count && ptr == other.ptr
    {
      memory, count, ptr := other.memory, other.count, other.ptr;
    }

    method Next(ghost words: seq<seq<Byte>>) returns (r: Option<seq<Byte>>)
      requires Holds(words)
      modifies this
      ensures r == if words == [] then None else Some(words[0])
      ensures Holds(if words == [] then [] else words[1..])
      ensures ptr + |EncodeArgs(if words == [] then [] else words[1..])| == old(ptr) + |EncodeArgs(words)|
    {
      if count == 0 {
        return None;
      }
      AtSplit(memory, ptr, EncodeStr(words[0]), EncodeArgs(words[1..]));
      GetStrAt(memory, ptr, words[0]);
      count := count - 1;
      var (value, p) := GetStr(memory, ptr);
      ptr := p;
      r := Some(value);
    }

    /** `last`: reads everything, and ends just behind the arguments. */
    method Last(ghost words: seq<seq<Byte>>) returns (r: Option<seq<Byte>>)
      requires Holds(words)
      modifies this
      ensures r == if words == [] then None else Some(words[|words| - 1])
      ensures Holds([]) && ptr == old(ptr) + |EncodeArgs(words)|
    {
      r := None;
      ghost var left := words;
      while count > 0
        invariant Holds(left) && |left| <= |words| && left == words[|words| - |left|..]
        invariant ptr + |EncodeArgs(left)| == old(ptr) + |EncodeArgs(words)|
        invariant r == if |left| == |words| then None else Some(words[|words| - |left| - 1])
        decreases count
      {
        r := Next(left);
        left := left[1..];
      }
    }

    /** `next_back`: drops the last argument by counting one less. */
    method NextBack(ghost words: seq<seq<Byte>>) returns (r: Option<seq<Byte>>)
      requires Holds(words)
      modifies this
      ensures r == if words == [] then None else Some(words[|words| - 1])
      ensures Holds(if words == [] then [] else words[..|words| - 1]) && ptr == old(ptr)
    {
      if count == 0 {
        return None;
      }
      var all := new Args.Copy(this);
      count := count - 1;
      r := all.Last(words);
      ghost var front := words[..|words| - 1];
      assert words == front + [words[|words| - 1]];
      ArgsConcat(front, [words[|words| - 1]]);
      AtSplit(memory, ptr, EncodeArgs(front), EncodeArgs([words[|words| - 1]]));
    }
  }

  lemma TakeFront<T>(front: seq<T>, middle: seq<T>, back: seq<T>)
    requires middle != []
    ensures front + [middle[0]] + middle[1..] + back == front + middle + back
  {
  }

  lemma TakeBack<T>(front: seq<T>, middle: seq<T>, back: seq<T>)
    requires middle != []
    ensures front + middle[..|middle| - 1] + ([middle[|middle| - 1]] + back) == front + middle + back
  {
  }

  function Trues(s: seq<bool>): nat
  {
    if s == [] then 0 else Trues(s[..|s| - 1]) + if s[|s| - 1] then 1 else 0
  }

  lemma NoTrues()
    ensures Trues([]) == 0
  {
  }

  lemma MoreTrues(s: seq<bool>, i: nat)
    requires i < |s|
    ensures Trues(s[..i + 1]) == Trues(s[..i]) + if s[i] then 1 else 0
  {
    assert s[..i + 1][..i] == s[..i];
  }

  /** Any mixture of reads from both ends takes each argument once, from the end that was asked,
      and leaves the middle. */
  method TakeBothEnds(a: Args, fromBack: seq<bool>, ghost words: seq<seq<Byte>>)
    returns (front: seq<seq<Byte>>, back: seq<seq<Byte>>, ghost middle: seq<seq<Byte>>)
    requires a.Holds(words)
    modifies a
    ensures a.Holds(middle) && front + middle + back == words
    ensures var k := if |fromBack| <= |words| then |fromBack| else |words|;
            |back| == Trues(fromBack[..k]) && |front| == k - Trues(fromBack[..k])
  {
    hide EncodeArgs, Trues;
    NoTrues();
    front, back, middle := [], [], words;
    for i := 0 to |fromBack|
      invariant a.Holds(middle) && front + middle + back == words
      invariant |front| + |back| == if i <= |words| then i else |words|
      invariant |back| == Trues(fromBack[..|front| + |back|])
    {
      if i < |words| {
        MoreTrues(fromBack, i);
      }
      if fromBack[i] {
        var r := a.NextBack(middle);
        if r.Some? {
          TakeBack(front, middle, back);
          back := [r.value] + back;
          middle := middle[..|middle| - 1];
        }
      } else {
        var r := a.Next(middle);
        if r.Some? {
          TakeFront(front, middle, back);
          front := front + [r.value];
          middle := middle[1..];
        }
      }
    }
  }

  /** `add_args` of one good argument and one that is too long, on a new builder: the child finds as many
      environment variables as the good argument has bytes. */
  method LongArgumentExample(word: seq<Byte>) returns (ok: bool, env: nat)
    requires |word| < LIMIT
    ensures !ok && env == |word|
  {
    var b := new Builder();
    var long: seq<Byte> := seq(LIMIT, _ => 0);
    var more := [word, long];
    assert |more[1]| == LIMIT;
    ok := b.AddArgs(more);
    assert more[..1] == [word] && FirstLong(more) == 1;
    assert b.written == [word];
    BytesParts(b);
    var block := b.Spawn();
    assert |b.objects| == 0;
    AtSplit(block, 2, Le16(0), EncodeArgs([word]));
    assert [] + [word] == [word];
    UncountedBecomesEnv(block, 2, [], [word]);
    env := EnvCount(block, 2, [], |word|);
  }

  /** Where `Env` starts to read, and the number of variables it finds. */
  method EnvCount(memory: seq<Byte>, start: nat, ghost words: seq<seq<Byte>>, ghost n: nat) returns (count: nat)
    requires Fits(words) && |words| < LIMIT && n < LIMIT
    requires At(memory, start, Le16(|words|) + EncodeArgs(words))
    requires At(memory, start + 2 + |EncodeArgs(words)|, Le16(n))
    ensures count == n
  {
    var args := new Args(memory, start, words);
    var _ := args.Last(words);
    Read16At(memory, args.ptr, n);
    count := Read16(memory, args.ptr);
  }

  lemma HeadOfArgs(words: seq<seq<Byte>>)
    requires Fits(words) && words != []
    ensures EncodeArgs(words) == Le16(|words[0]|) + (words[0] + EncodeArgs(words[1..]))
  {
  }

  /** After a failed `add_args` the child takes the length of the first uncounted argument for the number
      of its environment variables. */
  lemma UncountedBecomesEnv(m: seq<Byte>, start: nat, words: seq<seq<Byte>>, stale: seq<seq<Byte>>)
    requires Fits(words) && Fits(stale) && stale != [] && |words| < LIMIT && Fits(words + stale)
    requires At(m, start, Le16(|words|) + EncodeArgs(words + stale))
    ensures At(m, start, Le16(|words|) + EncodeArgs(words))
    ensures At(m, start + 2 + |EncodeArgs(words)|, Le16(|stale[0]|))
  {
    hide Le16, EncodeArgs, At;
    ArgsConcat(words, stale);
    var a, b, c := Le16(|words|), EncodeArgs(words), EncodeArgs(stale);
    var rest := stale[0] + EncodeArgs(stale[1..]);
    HeadOfArgs(stale);
    AtSplit(m, start, a, b + c);
    AtSplit(m, start + 2, b, c);
    AtSplit(m, start, a, b);
    AtSplit(m, start + 2 + |b|, Le16(|stale[0]|), rest);
  }

  /** A block for some objects and arguments is read as exactly those, with no environment. */
  method RoundTrip(b: Builder, ghost os: seq<Passed>, ghost words: seq<seq<Byte>>)
    returns (objects: seq<Passed>, args: seq<seq<Byte>>, env: nat)
    requires b.Valid() && b.ChildGets(os, words)
    ensures objects == os && args == words && env == 0
  {
    hide EncodeObjects, EncodeArgs, EncodeObject;
    var block := b.Spawn();
    BlockParts(block, os, words);
    var handles := new Handles(block, os, words);
    objects := ReadObjects(handles, os);
    var globals, start := Init(block, os, words);
    AtSplit(block, start, Le16(|words|), EncodeArgs(words));
    Le16At(block, start, |words|);
    var reader := new Args(block, start, words);
    args := ReadArgs(reader, words);
    env := EnvCount(block, start, words, 0);
  }

  lemma Le16At(m: seq<Byte>, p: nat, n: nat)
    requires n < LIMIT && p + 2 <= |m| && Read16(m, p) == n
    ensures At(m, p, Le16(n))
  {
  }

  method ReadObjects(handles: Handles, ghost os: seq<Passed>) returns (all: seq<Passed>)
    requires handles.Holds(os)
    modifies handles
    ensures all == os
  {
    hide EncodeObjects, EncodeObject;
    all := [];
    ghost var left := os;
    var more := true;
    while more
      invariant handles.Holds(left) && all + left == os && (!more ==> left == [])
      decreases |left|, more
    {
      var r := handles.Next(left);
      more := r.Some?;
      if r.Some? {
        all := all + [r.value];
        left := left[1..];
      }
    }
  }

  method ReadArgs(args: Args, ghost words: seq<seq<Byte>>) returns (all: seq<seq<Byte>>)
    requires args.Holds(words)
    modifies args
    ensures all == words
  {
    hide EncodeArgs;
    all := [];
    ghost var left := words;
    var more := true;
    while more
      invariant args.Holds(left) && all + left == words && (!more ==> left == [])
      decreases |left|, more
    {
      var r := args.Next(left);
      more := r.Some?;
      if r.Some? {
        all := all + [r.value];
        left := left[1..];
      }
    }
  }
}
