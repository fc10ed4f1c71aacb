/** The binary tree of a tiling workspace (base/window_manager/src/workspace.rs), as a value.

    `Tree` is what the node arena represents; `at` is the arena handle of each node. */
module WindowTree {
  import opened Wrappers
  import opened WindowPath
  import A = Arena

  type Handle = A.Handle

  datatype Node =
    | Parent(left: Handle, right: Handle, vertical: bool, ratio: nat)
    | Leaf(window: Handle)

  datatype Tree =
    | Tip(at: Handle, window: Handle)
    | Fork(at: Handle, left: Tree, right: Tree, vertical: bool, ratio: nat)

  datatype Window = Window(workspace: nat, path: bv32)

  /** Paths are at most this long: `for depth in 1..24`. */
  const MAX_DEPTH: nat := 23

  function Handles(t: Tree): set<Handle>
  {
    match t
    case Tip(at, _) => {at}
    case Fork(at, l, r, _, _) => {at} + Handles(l) + Handles(r)
  }

  function Windows(t: Tree): set<Handle>
  {
    match t
    case Tip(_, w) => {w}
    case Fork(_, l, r, _, _) => Windows(l) + Windows(r)
  }

  /** Each node has one parent and each window one leaf. */
  ghost predicate Proper(t: Tree)
  {
    t.Fork? ==>
      && Proper(t.left) && Proper(t.right)
      && t.at !in Handles(t.left) && t.at !in Handles(t.right)
      && Handles(t.left) !! Handles(t.right)
      && Windows(t.left) !! Windows(t.right)
  }

  ghost predicate Represents(nodes: map<Handle, Node>, t: Tree)
  {
    && t.at in nodes && nodes[t.at] == NodeOf(t)
    && (t.Fork? ==> Represents(nodes, t.left) && Represents(nodes, t.right))
  }

  /** The arena entry for the root of t. */
  function NodeOf(t: Tree): Node
  {
    match t
    case Tip(_, w) => Leaf(w)
    case Fork(_, l, r, vertical, ratio) => Parent(l.at, r.at, vertical, ratio)
  }

  function Child(t: Tree, b: bool): Tree
    requires t.Fork?
  {
    if b then t.right else t.left
  }

  ghost predicate Reaches(t: Tree, bits: seq<bool>)
  {
    bits == [] || (t.Fork? && Reaches(Child(t, bits[0]), bits[1..]))
  }

  ghost function Sub(t: Tree, bits: seq<bool>): Tree
    requires Reaches(t, bits)
  {
    if bits == [] then t else Sub(Child(t, bits[0]), bits[1..])
  }

  /** The tree with the subtree at `bits` replaced. */
  ghost function Graft(t: Tree, bits: seq<bool>, s: Tree): Tree
    requires Reaches(t, bits)
  {
    if bits == [] then s
    else if bits[0] then t.(right := Graft(t.right, bits[1..], s))
    else t.(left := Graft(t.left, bits[1..], s))
  }

  /** Every window below t, which hangs at `prefix`, stores its own root-to-leaf path. */
  ghost predicate PathsAgree(t: Tree, prefix: seq<bool>, windows: map<Handle, Window>)
    decreases t
  {
    match t
    case Tip(_, w) => |prefix| <= MAX_DEPTH && w in windows && windows[w] == Window(0, Encode(prefix))
    case Fork(_, l, r, _, _) => PathsAgree(l, prefix + [false], windows) && PathsAgree(r, prefix + [true], windows)
  }

  /** The steps taken when the tree is followed by a path iterator down to a leaf; None if the
      iterator runs out first. */
  ghost function Walk(t: Tree, it: PathIter): Option<seq<bool>>
    decreases t
  {
    if t.Tip? then Some([])
    else match Next(it)
         case None => None
         case Some((b, rest)) =>
           (match Walk(Child(t, b), rest)
            case None => None
            case Some(bits) => Some([b] + bits))
  }

  lemma {:induction false} WalkReaches(t: Tree, it: PathIter)
    ensures Walk(t, it).Some? ==> Reaches(t, Walk(t, it).value) && Sub(t, Walk(t, it).value).Tip?
    decreases t
  {
    hide Low, Rest;
    if t.Fork? && it.count > 0 {
      var (b, rest) := Next(it).value;
      WalkReaches(Child(t, b), rest);
      if Walk(Child(t, b), rest).Some? {
        var bits := Walk(Child(t, b), rest).value;
        assert ([b] + bits)[1..] == bits;
      }
    }
  }

  /** A stored path leads exactly to its leaf, although it says nothing about its length. */
  lemma {:induction false} EncodedPathLeadsHome(t: Tree, bits: seq<bool>, count: nat)
    requires Reaches(t, bits) && Sub(t, bits).Tip? && |bits| <= count <= 32
    ensures Walk(t, PathIter(count, Encode(bits))) == Some(bits)
    decreases t
  {
    hide Low, Rest;
    if bits != [] {
      NextOfEncode(bits);
      EncodedPathLeadsHome(Child(t, bits[0]), bits[1..], count - 1);
      assert [bits[0]] + bits[1..] == bits;
    }
  }

  lemma {:induction false} SubFacts(nodes: map<Handle, Node>, t: Tree, bits: seq<bool>)
    requires Represents(nodes, t) && Proper(t) && Reaches(t, bits)
    ensures Represents(nodes, Sub(t, bits)) && Proper(Sub(t, bits))
    ensures Handles(Sub(t, bits)) <= Handles(t) && Windows(Sub(t, bits)) <= Windows(t)
    decreases t
  {
    if bits != [] {
      SubFacts(nodes, Child(t, bits[0]), bits[1..]);
    }
  }

  lemma {:induction false} RepresentsFrame(nodes: map<Handle, Node>, next: map<Handle, Node>, t: Tree)
    requires Represents(nodes, t)
    requires forall h :: h in Handles(t) && h in nodes ==> h in next && next[h] == nodes[h]
    ensures Represents(next, t)
  {
    if t.Fork? {
      RepresentsFrame(nodes, next, t.left);
      RepresentsFrame(nodes, next, t.right);
    }
  }

  lemma {:induction false} RootInHandles(t: Tree)
    ensures t.at in Handles(t)
  {
  }

  lemma {:induction false} SubSets(t: Tree, bits: seq<bool>)
    requires Reaches(t, bits)
    ensures Handles(Sub(t, bits)) <= Handles(t) && Windows(Sub(t, bits)) <= Windows(t)
    decreases t
  {
    if bits != [] {
      SubSets(Child(t, bits[0]), bits[1..]);
    }
  }

  lemma {:induction false} GraftSets(t: Tree, bits: seq<bool>, s: Tree)
    requires Proper(t) && Reaches(t, bits)
    ensures Handles(Graft(t, bits, s)) == Handles(t) - Handles(Sub(t, bits)) + Handles(s)
    ensures Windows(Graft(t, bits, s)) == Windows(t) - Windows(Sub(t, bits)) + Windows(s)
    ensures bits != [] || s.at == t.at ==> Graft(t, bits, s).at == t.at
    decreases t
  {
    if bits != [] {
      SubSets(Child(t, bits[0]), bits[1..]);
      GraftSets(Child(t, bits[0]), bits[1..], s);
    }
  }

  lemma {:induction false} GraftProper(t: Tree, bits: seq<bool>, s: Tree)
    requires Proper(t) && Reaches(t, bits) && Proper(s)
    requires (Handles(s) - Handles(Sub(t, bits))) !! Handles(t)
    requires (Windows(s) - Windows(Sub(t, bits))) !! Windows(t)
    ensures Proper(Graft(t, bits, s))
    decreases t
  {
    if bits != [] {
      SubSets(Child(t, bits[0]), bits[1..]);
      GraftSets(Child(t, bits[0]), bits[1..], s);
      GraftProper(Child(t, bits[0]), bits[1..], s);
    }
  }

  /** Replacing a subtree in the tree mirrors rewriting its nodes in the arena. */
  lemma {:induction false} GraftRepresents(nodes: map<Handle, Node>, next: map<Handle, Node>, t: Tree, bits: seq<bool>, s: Tree)
    requires Represents(nodes, t) && Proper(t) && Reaches(t, bits)
    requires s.at == Sub(t, bits).at && Represents(next, s)
    requires forall h :: h in Handles(t) && h !in Handles(Sub(t, bits)) && h in nodes ==> h in next && next[h] == nodes[h]
    ensures Represents(next, Graft(t, bits, s))
    decreases t
  {
    if bits != [] {
      var child, other := Child(t, bits[0]), Child(t, !bits[0]);
      SubSets(child, bits[1..]);
      GraftRepresents(nodes, next, child, bits[1..], s);
      GraftSets(child, bits[1..], s);
      RepresentsFrame(nodes, next, other);
      RootInHandles(t);
    }
  }

  /* Stored paths */

  lemma {:induction false} PathsAgreeSub(t: Tree, bits: seq<bool>, prefix: seq<bool>, windows: map<Handle, Window>)
    requires Reaches(t, bits) && PathsAgree(t, prefix, windows)
    ensures PathsAgree(Sub(t, bits), prefix + bits, windows)
    decreases t
  {
    if bits == [] {
      assert prefix + bits == prefix;
    } else {
      assert prefix + bits == (prefix + [bits[0]]) + bits[1..];
      PathsAgreeSub(Child(t, bits[0]), bits[1..], prefix + [bits[0]], windows);
    }
  }

  lemma {:induction false} PathsAgreeFrame(t: Tree, prefix: seq<bool>, windows: map<Handle, Window>, next: map<Handle, Window>)
    requires PathsAgree(t, prefix, windows)
    requires forall w :: w in Windows(t) && w in windows ==> w in next && next[w] == windows[w]
    ensures PathsAgree(t, prefix, next)
    decreases t
  {
    if t.Fork? {
      PathsAgreeFrame(t.left, prefix + [false], windows, next);
      PathsAgreeFrame(t.right, prefix + [true], windows, next);
    }
  }

  /** If a subtree is replaced and only its windows change, and they agree with their new place, then
      all windows agree. */
  lemma {:induction false} PathsAgreeGraft(t: Tree, bits: seq<bool>, s: Tree, prefix: seq<bool>,
                                           windows: map<Handle, Window>, next: map<Handle, Window>)
    requires Proper(t) && Reaches(t, bits) && PathsAgree(t, prefix, windows)
    requires PathsAgree(s, prefix + bits, next)
    requires forall w :: w in Windows(t) && w !in Windows(Sub(t, bits)) && w in windows ==> w in next && next[w] == windows[w]
    ensures PathsAgree(Graft(t, bits, s), prefix, next)
    decreases t
  {
    if bits == [] {
      assert prefix + bits == prefix;
    } else {
      assert prefix + bits == (prefix + [bits[0]]) + bits[1..];
      SubSets(Child(t, bits[0]), bits[1..]);
      PathsAgreeGraft(Child(t, bits[0]), bits[1..], s, prefix + [bits[0]], windows, next);
      PathsAgreeFrame(Child(t, !bits[0]), prefix + [!bits[0]], windows, next);
    }
  }

  /** `next` is `windows` with `move_up(from)` applied once to each window in `moved`. */
  ghost predicate MovedUp(windows: map<Handle, Window>, next: map<Handle, Window>, moved: set<Handle>, from: nat)
  {
    && next.Keys == windows.Keys
    && forall w :: w in windows ==>
         next[w] == if w in moved then windows[w].(path := MoveUp(windows[w].path, from)) else windows[w]
  }

  /** The step at depth |front| is taken out of the paths of a subtree that moves up one level. */
  lemma {:induction false} SubtreeMovesUp(t: Tree, front: seq<bool>, b: bool, rest: seq<bool>,
                                          windows: map<Handle, Window>, next: map<Handle, Window>, moved: set<Handle>)
    requires PathsAgree(t, front + [b] + rest, windows)
    requires MovedUp(windows, next, moved, |front|) && Windows(t) <= moved
    ensures PathsAgree(t, front + rest, next)
    decreases t
  {
    hide MoveUp;
    if t.Tip? {
      MoveUpDropsStep(front, b, rest);
    } else {
      assert front + [b] + rest + [false] == front + [b] + (rest + [false]) && front + rest + [false] == front + (rest + [false]);
      assert front + [b] + rest + [true] == front + [b] + (rest + [true]) && front + rest + [true] == front + (rest + [true]);
      SubtreeMovesUp(t.left, front, b, rest + [false], windows, next, moved);
      SubtreeMovesUp(t.right, front, b, rest + [true], windows, next, moved);
    }
  }

  /** Where a window's leaf hangs. */
  ghost function PathTo(t: Tree, w: Handle): seq<bool>
    requires w in Windows(t)
  {
    if t.Tip? then [] else if w in Windows(t.right) then [true] + PathTo(t.right, w) else [false] + PathTo(t.left, w)
  }

  lemma {:induction false} PathToReaches(t: Tree, w: Handle)
    requires w in Windows(t)
    ensures Reaches(t, PathTo(t, w)) && Sub(t, PathTo(t, w)).Tip? && Sub(t, PathTo(t, w)).window == w
  {
    if t.Fork? {
      if w in Windows(t.right) {
        PathToReaches(t.right, w);
        assert ([true] + PathTo(t.right, w))[1..] == PathTo(t.right, w);
      } else {
        PathToReaches(t.left, w);
        assert ([false] + PathTo(t.left, w))[1..] == PathTo(t.left, w);
      }
    }
  }

  /** The stored word of every window, followed from the root, ends at the leaf that holds it; it has
      no bit at or above that depth, and the depth is at most 23. */
  lemma StoredPathIsExact(t: Tree, windows: map<Handle, Window>, w: Handle)
    requires PathsAgree(t, [], windows) && w in Windows(t)
    ensures w in windows && Walk(t, PathIter(32, windows[w].path)) == Some(PathTo(t, w))
    ensures Reaches(t, PathTo(t, w)) && Sub(t, PathTo(t, w)).Tip? && Sub(t, PathTo(t, w)).window == w
    ensures |PathTo(t, w)| <= MAX_DEPTH && Below(windows[w].path, OneShl(|PathTo(t, w)|))
  {
    hide Below, OneShl;
    var bits := PathTo(t, w);
    PathToReaches(t, w);
    PathsAgreeSub(t, bits, [], windows);
    assert [] + bits == bits;
    EncodedPathLeadsHome(t, bits, 32);
    EncodeBound(bits);
  }

  /** A tree of n windows has 2n - 1 nodes. */
  lemma {:induction false} NodeCount(t: Tree)
    requires Proper(t)
    ensures |Handles(t)| == 2 * |Windows(t)| - 1
  {
    if t.Fork? {
      NodeCount(t.left);
      NodeCount(t.right);
      assert |Handles(t.left) + Handles(t.right)| == |Handles(t.left)| + |Handles(t.right)|;
      assert Handles(t) == {t.at} + (Handles(t.left) + Handles(t.right));
    }
  }

  /* ---------------------------------------------------------------------------------------------
     Geometry
     ------------------------------------------------------------------------------------------ */

  /** Two inclusive ranges; a range with high == low - 1 is empty. */
  datatype Rect = Rect(x0: int, x1: int, y0: int, y1: int)

  predicate Contains(r: Rect, x: int, y: int)
  {
    r.x0 <= x <= r.x1 && r.y0 <= y <= r.y1
  }

  ghost predicate Shaped(r: Rect)
  {
    r.x0 <= r.x1 + 1 && r.y0 <= r.y1 + 1
  }

  /** `Ratio::partition_range`: where a range is cut.  The first part ends at the result. */
  type Cut = (nat, int, int) -> int

  ghost predicate Sensible(cut: Cut)
  {
    forall ratio, low, high :: low <= high + 1 ==> low - 1 <= cut(ratio, low, high) <= high
  }

  function Halves(cut: Cut, vertical: bool, ratio: nat, r: Rect): (Rect, Rect)
  {
    if vertical then
      var mid := cut(ratio, r.y0, r.y1);
      (r.(y1 := mid), r.(y0 := mid + 1))
    else
      var mid := cut(ratio, r.x0, r.x1);
      (r.(x1 := mid), r.(x0 := mid + 1))
  }

  function Half(cut: Cut, vertical: bool, ratio: nat, r: Rect, b: bool): Rect
  {
    var (l, u) := Halves(cut, vertical, ratio, r);
    if b then u else l
  }

  /** The rectangle of the node at `bits`. */
  ghost function RectAt(cut: Cut, t: Tree, r: Rect, bits: seq<bool>): Rect
    requires Reaches(t, bits)
    decreases t
  {
    if bits == [] then r else RectAt(cut, Child(t, bits[0]), Half(cut, t.vertical, t.ratio, r, bits[0]), bits[1..])
  }

  /** The way `window_at` goes: right exactly when the right half contains the point. */
  ghost function Locate(cut: Cut, t: Tree, r: Rect, x: int, y: int): (bits: seq<bool>)
    ensures Reaches(t, bits) && Sub(t, bits).Tip?
    decreases t
  {
    if t.Tip? then [] else
      var b := Contains(Half(cut, t.vertical, t.ratio, r, true), x, y);
      var rest := Locate(cut, Child(t, b), Half(cut, t.vertical, t.ratio, r, b), x, y);
      assert ([b] + rest)[1..] == rest;
      [b] + rest
  }

  lemma HalvesPartition(cut: Cut, vertical: bool, ratio: nat, r: Rect, x: int, y: int)
    requires Sensible(cut) && Shaped(r)
    ensures Shaped(Half(cut, vertical, ratio, r, false)) && Shaped(Half(cut, vertical, ratio, r, true))
    ensures Contains(r, x, y) <==> Contains(Half(cut, vertical, ratio, r, false), x, y) || Contains(Half(cut, vertical, ratio, r, true), x, y)
    ensures !(Contains(Half(cut, vertical, ratio, r, false), x, y) && Contains(Half(cut, vertical, ratio, r, true), x, y))
  {
  }

  /** No node reaches beyond the rectangle it was cut from. */
  lemma {:induction false} RectWithin(cut: Cut, t: Tree, r: Rect, bits: seq<bool>, x: int, y: int)
    requires Sensible(cut) && Shaped(r) && Reaches(t, bits)
    ensures Contains(RectAt(cut, t, r, bits), x, y) ==> Contains(r, x, y)
    decreases t
  {
    hide Half, Contains, Shaped, Sensible;
    if bits != [] {
      HalvesPartition(cut, t.vertical, t.ratio, r, x, y);
      RectWithin(cut, Child(t, bits[0]), Half(cut, t.vertical, t.ratio, r, bits[0]), bits[1..], x, y);
    }
  }

  /** The leaves tile the screen: `window_at` returns a rectangle with the point in it exactly when the
      point is on the screen, and no other leaf's rectangle contains the point. */
  lemma {:induction false} LeavesTileTheScreen(cut: Cut, t: Tree, r: Rect, x: int, y: int, bits: seq<bool>)
    requires Sensible(cut) && Shaped(r)
    requires Reaches(t, bits) && Sub(t, bits).Tip?
    ensures Contains(RectAt(cut, t, r, Locate(cut, t, r, x, y)), x, y) <==> Contains(r, x, y)
    ensures Contains(RectAt(cut, t, r, bits), x, y) ==> bits == Locate(cut, t, r, x, y)
    decreases t
  {
    hide Half, Contains, Shaped, Sensible;
    if t.Fork? {
      HalvesPartition(cut, t.vertical, t.ratio, r, x, y);
      var b := Contains(Half(cut, t.vertical, t.ratio, r, true), x, y);
      var half := Half(cut, t.vertical, t.ratio, r, b);
      var way := Locate(cut, Child(t, b), half, x, y);
      assert ([b] + way)[1..] == way;
      LeavesTileTheScreen(cut, Child(t, b), half, x, y, way);
      RectWithin(cut, Child(t, bits[0]), Half(cut, t.vertical, t.ratio, r, bits[0]), bits[1..], x, y);
      if bits[0] == b {
        LeavesTileTheScreen(cut, Child(t, b), half, x, y, bits[1..]);
        assert bits == [bits[0]] + bits[1..];
      }
    }
  }
}
