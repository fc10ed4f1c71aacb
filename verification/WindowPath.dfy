/** Root-to-leaf paths packed into a `u32` (base/window_manager/src/window.rs): bit i says which way
    to go at depth i, and all bits from the leaf's depth on are zero. */
module WindowPath {
  import opened Wrappers

  /** A path whose first step is b and whose other steps are x. */
  function Push(b: bool, x: bv32): bv32
  {
    (if b then 1 else 0) | (x << 1)
  }

  function Encode(bits: seq<bool>): bv32
  {
    if bits == [] then 0 else Push(bits[0], Encode(bits[1..]))
  }

  function Double(x: bv32): bv32
  {
    x << 1
  }

  /** `1 << n`, built one place at a time. */
  function OneShl(n: nat): bv32
  {
    if n == 0 then 1 else Double(OneShl(n - 1))
  }

  /** `PathIter`. */
  datatype PathIter = PathIter(count: nat, path: bv32)

  function Low(path: bv32): bool
  {
    path & 1 != 0
  }

  function Rest(path: bv32): bv32
  {
    path >> 1
  }

  /** `PathIter::next`. */
  function Next(it: PathIter): (r: Option<(bool, PathIter)>)
  {
    if it.count == 0 then None else Some((Low(it.path), PathIter(it.count - 1, Rest(it.path))))
  }

  /** `path | u32::from(b) << n`. */
  function WithStep(path: bv32, b: bool, n: nat): bv32
  {
    Or(path, if b then OneShl(n) else 0)
  }

  function Or(x: bv32, y: bv32): bv32
  {
    x | y
  }

  /** `path ^ (1 << n)`. */
  function Flipped(path: bv32, n: nat): bv32
  {
    Xor(path, OneShl(n))
  }

  function Xor(x: bv32, y: bv32): bv32
  {
    x ^ y
  }

  /** `Window::move_up`. */
  function MoveUp(path: bv32, from: nat): bv32
  {
    Spliced(path, OneShl(from))
  }

  /** `path & mask | path >> 1 & !mask` for the mask below the bit `one`. */
  function Spliced(path: bv32, one: bv32): bv32
  {
    var mask := one - 1;
    (path & mask) | ((path >> 1) & !mask)
  }

  predicate Below(x: bv32, y: bv32)
  {
    x < y
  }

  predicate Small(x: bv32)
  {
    1 <= x <= 0x4000_0000
  }

  predicate TopClear(x: bv32)
  {
    x < 0x8000_0000
  }

  /* Facts about single words */

  lemma PushOr(b: bool, x: bv32, y: bv32)
    ensures Or(Push(b, x), Double(y)) == Push(b, Or(x, y))
  {
  }

  lemma OrZero(x: bv32)
    ensures Or(x, 0) == x && Double(0) == 0
  {
  }

  lemma PushXor(b: bool, x: bv32, y: bv32)
    ensures Xor(Push(b, x), Double(y)) == Push(b, Xor(x, y))
    ensures Xor(Push(b, 0), 1) == Push(!b, 0) && Or(0, 1) == Push(true, 0) && Or(0, 0) == Push(false, 0)
  {
  }

  lemma PushLow(b: bool, x: bv32)
    requires TopClear(x)
    ensures Low(Push(b, x)) == b && Rest(Push(b, x)) == x
  {
  }

  lemma PushBelow(b: bool, x: bv32, y: bv32)
    ensures Below(x, y) && Small(y) ==> Below(Push(b, x), Double(y)) && TopClear(Push(b, x))
    ensures Below(0, 1) && TopClear(0)
  {
  }

  lemma PushSpliced(b: bool, x: bv32, y: bv32)
    requires TopClear(x)
    ensures Spliced(Push(b, x), Double(y)) == Push(b, Spliced(x, y))
    ensures Spliced(Push(b, x), 1) == x
  {
  }

  /* Facts about paths */

  lemma OneShlBound(n: nat)
    requires n <= 30
    ensures Small(OneShl(n))
  {
    assert OneShl(1) == 2 && OneShl(2) == 4 && OneShl(3) == 8 && OneShl(4) == 0x10;
    assert OneShl(5) == 0x20 && OneShl(6) == 0x40 && OneShl(7) == 0x80 && OneShl(8) == 0x100;
    assert OneShl(9) == 0x200 && OneShl(10) == 0x400 && OneShl(11) == 0x800 && OneShl(12) == 0x1000;
    assert OneShl(13) == 0x2000 && OneShl(14) == 0x4000 && OneShl(15) == 0x8000 && OneShl(16) == 0x1_0000;
    assert OneShl(17) == 0x2_0000 && OneShl(18) == 0x4_0000 && OneShl(19) == 0x8_0000 && OneShl(20) == 0x10_0000;
    assert OneShl(21) == 0x20_0000 && OneShl(22) == 0x40_0000 && OneShl(23) == 0x80_0000 && OneShl(24) == 0x100_0000;
    assert OneShl(25) == 0x200_0000 && OneShl(26) == 0x400_0000 && OneShl(27) == 0x800_0000;
    assert OneShl(28) == 0x1000_0000 && OneShl(29) == 0x2000_0000 && OneShl(30) == 0x4000_0000;
  }

  /** A path of n steps has no bit at or above place n. */
  lemma {:induction false} EncodeBound(bits: seq<bool>)
    requires |bits| <= 31
    ensures TopClear(Encode(bits)) && Below(Encode(bits), OneShl(|bits|))
  {
    hide Push, Double, Below, Small, TopClear;
    if bits == [] {
      OneShlBound(0);
      PushBelow(false, 0, 1);
    } else {
      EncodeBound(bits[1..]);
      OneShlBound(|bits| - 1);
      PushBelow(bits[0], Encode(bits[1..]), OneShl(|bits| - 1));
    }
  }

  /** Reading an encoded path yields its steps, first to last. */
  lemma NextOfEncode(bits: seq<bool>)
    requires 0 < |bits| <= 32
    ensures Low(Encode(bits)) == bits[0] && Rest(Encode(bits)) == Encode(bits[1..])
  {
    hide Push, Low, Rest;
    EncodeBound(bits[1..]);
    PushLow(bits[0], Encode(bits[1..]));
  }

  /** `directions |= u32::from(b) << depth` appends a step to a path of that depth. */
  lemma {:induction false} EncodeAppend(bits: seq<bool>, b: bool)
    ensures WithStep(Encode(bits), b, |bits|) == Encode(bits + [b])
  {
    hide Push, Double, Or, Xor;
    if bits == [] {
      PushXor(b, 0, 0);
      assert ([] + [b])[1..] == [];
    } else {
      assert (bits + [b])[1..] == bits[1..] + [b];
      EncodeAppend(bits[1..], b);
      PushOr(bits[0], Encode(bits[1..]), if b then OneShl(|bits| - 1) else 0);
      OrZero(0);
    }
  }

  /** `directions ^ (1 << (depth - 1))` flips the last step. */
  lemma {:induction false} EncodeFlip(bits: seq<bool>, b: bool)
    ensures Flipped(Encode(bits + [b]), |bits|) == Encode(bits + [!b])
  {
    hide Push, Double, Xor;
    if bits == [] {
      PushXor(b, 0, 0);
      assert ([] + [b])[1..] == [] && ([] + [!b])[1..] == [];
    } else {
      assert (bits + [b])[1..] == bits[1..] + [b] && (bits + [!b])[1..] == bits[1..] + [!b];
      EncodeFlip(bits[1..], b);
      PushXor(bits[0], Encode(bits[1..] + [b]), OneShl(|bits| - 1));
    }
  }

  /** `move_up(from)` drops the step at depth `from` and keeps all others. */
  lemma {:induction false} MoveUpDropsStep(front: seq<bool>, b: bool, rest: seq<bool>)
    requires |front| + 1 + |rest| <= 32
    ensures MoveUp(Encode(front + [b] + rest), |front|) == Encode(front + rest)
    decreases |front|
  {
    hide Push, Double, Spliced;
    var bits := front + [b] + rest;
    EncodeBound(bits[1..]);
    if front == [] {
      assert bits[1..] == rest && front + rest == rest;
      PushSpliced(b, Encode(rest), 1);
    } else {
      assert bits[1..] == front[1..] + [b] + rest && (front + rest)[1..] == front[1..] + rest;
      MoveUpDropsStep(front[1..], b, rest);
      PushSpliced(front[0], Encode(bits[1..]), OneShl(|front| - 1));
    }
  }

  /** Different paths of the same length have different encodings. */
  lemma {:induction false} EncodeInjective(a: seq<bool>, b: seq<bool>)
    requires |a| == |b| <= 32 && Encode(a) == Encode(b)
    ensures a == b
  {
    hide Push, Low, Rest;
    if a != [] {
      NextOfEncode(a);
      NextOfEncode(b);
      EncodeInjective(a[1..], b[1..]);
    }
  }
}
