/** The workspace (base/window_manager/src/workspace.rs): its tree lives in a node arena and is changed
    in place. */
module Workspace {
  import opened Wrappers
  import opened WindowPath
  import opened WindowTree
  import A = Arena

  datatype Path = Path(depth: nat, directions: bv32)

  datatype Direction = Left | Up | Right | Down

  datatype Size = Size(x: int, y: int)

  /** `Ratio::partition`: how a length is shared, used only to choose a split direction. */
  type Share = (nat, int) -> (int, int)

  datatype SplitResult = Split(path: Path, displaced: Option<(Handle, Path)>) | TooDeep | NoLeaf

  datatype RemoveResult = Removed(path: Path) | RemovedLast | NoSuchLeaf

  /** Where a descent ended: at a leaf, below the depth limit, or with the path used up. */
  datatype Descent = Found(leaf: Handle, window: Handle) | Below | UsedUp

  ghost function Prepend(bits: seq<bool>, rest: Option<seq<bool>>): Option<seq<bool>>
  {
    match rest case None => None case Some(more) => Some(bits + more)
  }

  /** One step of a descent, in the tree. */
  lemma {:induction false} StepDown(t: Tree, bits: seq<bool>, it: PathIter)
    requires Reaches(t, bits) && Sub(t, bits).Fork? && it.count > 0
    ensures var (b, rest) := Next(it).value;
            && Reaches(t, bits + [b])
            && Sub(t, bits + [b]) == Child(Sub(t, bits), b)
            && Prepend(bits, Walk(Sub(t, bits), it)) == Prepend(bits + [b], Walk(Child(Sub(t, bits), b), rest))
  {
    hide Low, Rest;
    var (b, rest) := Next(it).value;
    ReachesFurther(t, bits, b);
    match Walk(Child(Sub(t, bits), b), rest)
    case None =>
    case Some(more) => assert bits + ([b] + more) == bits + [b] + more;
  }

  lemma {:induction false} ReachesFurther(t: Tree, bits: seq<bool>, b: bool)
    requires Reaches(t, bits) && Sub(t, bits).Fork?
    ensures Reaches(t, bits + [b]) && Sub(t, bits + [b]) == Child(Sub(t, bits), b)
    decreases t
  {
    if bits == [] {
      assert ([] + [b])[1..] == [];
    } else {
      assert (bits + [b])[1..] == bits[1..] + [b];
      ReachesFurther(Child(t, bits[0]), bits[1..], b);
    }
  }

  /** The windows below t from left to right, each once. */
  ghost function LeafOrder(t: Tree): seq<Handle>
  {
    match t
    case Tip(_, w) => [w]
    case Fork(_, l, r, _, _) => LeafOrder(l) + LeafOrder(r)
  }

  lemma {:induction false} LeafOrderIsExact(t: Tree)
    requires Proper(t)
    ensures forall w :: w in LeafOrder(t) <==> w in Windows(t)
    ensures forall i, j :: 0 <= i < j < |LeafOrder(t)| ==> LeafOrder(t)[i] != LeafOrder(t)[j]
  {
    if t.Fork? {
      LeafOrderIsExact(t.left);
      LeafOrderIsExact(t.right);
      var l, r := LeafOrder(t.left), LeafOrder(t.right);
      assert forall i :: 0 <= i < |l| ==> l[i] in l;
      assert forall i :: 0 <= i < |r| ==> r[i] in r;
    }
  }

  /** The subtree that replaces a leaf: a fork of the old window and the new one, the new one on
      side d. */
  ghost function Pair(at: Handle, first: Handle, old_: Handle, second: Handle, new_: Handle, d: bool, vertical: bool, ratio: nat): Tree
  {
    if d then Fork(at, Tip(first, old_), Tip(second, new_), vertical, ratio)
    else Fork(at, Tip(second, new_), Tip(first, old_), vertical, ratio)
  }

  /** Splitting keeps the arena and the tree in step. */
  lemma SplitKeepsTree(nodes: map<Handle, Node>, next: map<Handle, Node>, t: Tree, bits: seq<bool>, s: Tree, window: Handle)
    requires Represents(nodes, t) && Proper(t) && Handles(t) == nodes.Keys
    requires Reaches(t, bits) && Sub(t, bits).Tip? && window !in Windows(t)
    requires s.Fork? && s.left.Tip? && s.right.Tip? && s.at == Sub(t, bits).at
    requires Proper(s) && Represents(next, s)
    requires Handles(s) * nodes.Keys == {s.at} && Windows(s) == {Sub(t, bits).window, window}
    requires next.Keys == nodes.Keys + Handles(s)
    requires forall h :: h in nodes && h != s.at ==> next[h] == nodes[h]
    ensures Represents(next, Graft(t, bits, s)) && Proper(Graft(t, bits, s)) && Graft(t, bits, s).at == t.at
    ensures Handles(Graft(t, bits, s)) == next.Keys
    ensures Windows(Graft(t, bits, s)) == Windows(t) + {window}
  {
    SubSets(t, bits);
    GraftSets(t, bits, s);
    GraftProper(t, bits, s);
    GraftRepresents(nodes, next, t, bits, s);
  }

  /** The sibling's root node moves to where the parent was. */
  ghost function Rooted(t: Tree, at: Handle): Tree
  {
    match t
    case Tip(_, w) => Tip(at, w)
    case Fork(_, l, r, vertical, ratio) => Fork(at, l, r, vertical, ratio)
  }

  lemma RootedFacts(nodes: map<Handle, Node>, next: map<Handle, Node>, s: Tree, at: Handle)
    requires Represents(nodes, s) && Proper(s) && at !in Handles(s)
    requires at in next && next[at] == nodes[s.at]
    requires forall h :: h in Handles(s) && h != s.at && h in nodes ==> h in next && next[h] == nodes[h]
    ensures Represents(next, Rooted(s, at)) && Proper(Rooted(s, at))
    ensures Handles(Rooted(s, at)) == Handles(s) - {s.at} + {at} && Windows(Rooted(s, at)) == Windows(s)
  {
    if s.Fork? {
      RepresentsFrame(nodes, next, s.left);
      RepresentsFrame(nodes, next, s.right);
    }
  }

  /** Removing a leaf keeps the arena and the tree in step. */
  lemma RemoveKeepsTree(nodes: map<Handle, Node>, next: map<Handle, Node>, t: Tree, bits: seq<bool>, b: bool)
    requires Represents(nodes, t) && Proper(t) && Handles(t) == nodes.Keys
    requires Reaches(t, bits) && Sub(t, bits).Fork? && Child(Sub(t, bits), b).Tip?
    requires var parent, sibling := Sub(t, bits).at, Child(Sub(t, bits), !b).at;
             && next.Keys == nodes.Keys - {Child(Sub(t, bits), b).at, sibling}
             && (sibling in nodes && parent in next ==> next[parent] == nodes[sibling])
             && (forall h :: h in next && h != parent ==> next[h] == nodes[h])
    ensures var s := Rooted(Child(Sub(t, bits), !b), Sub(t, bits).at);
            && Represents(next, Graft(t, bits, s)) && Proper(Graft(t, bits, s)) && Graft(t, bits, s).at == t.at
            && Handles(Graft(t, bits, s)) == next.Keys
            && Windows(Graft(t, bits, s)) == Windows(t) - {Child(Sub(t, bits), b).window}
  {
    var parent := Sub(t, bits);
    var leaf, sibling := Child(parent, b), Child(parent, !b);
    SubFacts(nodes, t, bits);
    RootInHandles(sibling);
    RootInHandles(leaf);
    RootedFacts(nodes, next, sibling, parent.at);
    var s := Rooted(sibling, parent.at);
    GraftSets(t, bits, s);
    GraftProper(t, bits, s);
    GraftRepresents(nodes, next, t, bits, s);
  }

  /** The arena holds exactly the nodes reachable from the root. */
  ghost predicate TreeValid(nodes: map<Handle, Node>, root: Handle, tree: Option<Tree>)
  {
    match tree
    case None => nodes == map[]
    case Some(t) => root == t.at && Represents(nodes, t) && Proper(t) && Handles(t) == nodes.Keys
  }

  lemma NodeAt(nodes: map<Handle, Node>, t: Tree, bits: seq<bool>)
    requires Represents(nodes, t) && Proper(t) && Reaches(t, bits)
    ensures Sub(t, bits).at in nodes && nodes[Sub(t, bits).at] == NodeOf(Sub(t, bits))
  {
  }

  class Workspace {
    const nodes: A.Arena<Node>
    var root: Handle
    const cut: Cut
    const share: Share
    ghost var tree: Option<Tree>

    ghost predicate Valid()
      reads this, nodes
    {
      nodes.Valid() && TreeValid(nodes.model.contents, root, tree)
    }

    constructor (cut: Cut, share: Share)
      ensures Valid() && tree == None && fresh(nodes) && this.cut == cut && this.share == share
    {
      this.nodes := new A.Arena(1);
      root := A.Handle(0, 0);
      this.cut, this.share := cut, share;
      tree := None;
    }

    /** The loop of `split_leaf`: follows the path to the first leaf, at most 23 levels down. */
    method Descend(path: PathIter, size: Size) returns (end: Descent, depth: nat, directions: bv32, area: Size, ghost bits: seq<bool>)
      requires Valid() && tree.Some?
      ensures Reaches(tree.value, bits) && depth == |bits| + 1 && directions == Encode(bits)
      ensures area == AreaAt(share, tree.value, size, bits)
      ensures end.Found? ==>
                && Walk(tree.value, path) == Some(bits) && |bits| < MAX_DEPTH
                && Sub(tree.value, bits) == Tip(end.leaf, end.window)
      ensures end.Below? ==> path.count >= MAX_DEPTH && (Walk(tree.value, path).Some? ==> |Walk(tree.value, path).value| >= MAX_DEPTH)
      ensures end.UsedUp? ==> path.count < MAX_DEPTH && Walk(tree.value, path).None?
    {
      hide A.Arena.Valid, Represents, Proper, Handles, Low, Rest, WithStep, Walk, Shared;
      ghost var t := tree.value;
      var cur, it := root, path;
      bits, directions, area, depth := [], 0, size, 1;
      PrependNothing(Walk(t, path));
      while depth < 24
        invariant 1 <= depth <= 24 && |bits| == depth - 1
        invariant it.count + |bits| == path.count
        invariant Reaches(t, bits) && Sub(t, bits).at == cur
        invariant directions == Encode(bits) && area == AreaAt(share, t, size, bits)
        invariant Walk(t, path) == Prepend(bits, Walk(Sub(t, bits), it))
      {
        NodeAt(nodes.model.contents, t, bits);
        match nodes.Get(cur).value
        case Leaf(w) =>
          WalkStops(t, bits, it);
          return Found(cur, w), depth, directions, area, bits;
        case Parent(left, right, vertical, ratio) =>
          WalkNeedsSteps(t, bits, it);
          var step := Next(it);
          if step.None? {
            return UsedUp, depth, directions, area, bits;
          }
          StepDown(t, bits, it);
          var (d, rest) := step.value;
          EncodeAppend(bits, d);
          AreaFurther(share, t, size, bits, d);
          directions := WithStep(directions, d, depth - 1);
          area := Shared(share, vertical, ratio, area, d);
          cur, it, depth := if d then right else left, rest, depth + 1;
          bits := bits + [d];
      }
      WalkIsLonger(bits, Walk(Sub(t, bits), it));
      return Below, depth, directions, area, bits;
    }

    /** The arena work of `split_leaf`: two new leaves, and the old leaf becomes their parent. */
    method ForkLeaf(leaf: Handle, w: Handle, window: Handle, way: Direction, ratio: nat, ghost bits: seq<bool>)
      requires Valid() && tree.Some? && Reaches(tree.value, bits) && Sub(tree.value, bits) == Tip(leaf, w)
      requires window !in Windows(tree.value)
      modifies this`tree, nodes
      ensures Valid() && tree.Some? && SplitTree(old(tree).value, bits, window, way, ratio, tree.value)
      ensures Windows(tree.value) == Windows(old(tree).value) + {window}
    {
      hide A.Arena.Valid, A.Apply, A.Arena.NextHandle, Graft, Windows, Handles, Proper, Represents, Reaches, Sub;
      ghost var t, before := tree.value, nodes.model.contents;
      NodeAt(before, t, bits);
      var first := nodes.Insert(Leaf(w));
      var second := nodes.Insert(Leaf(window));
      if Second(way) {
        nodes.Set(leaf, Parent(first, second, Vertical(way), ratio));
      } else {
        nodes.Set(leaf, Parent(second, first, Vertical(way), ratio));
      }
      ghost var s := Pair(leaf, first, w, second, window, Second(way), Vertical(way), ratio);
      PairFacts(before, nodes.model.contents, t, bits, leaf, first, w, second, window, Second(way), Vertical(way), ratio);
      tree := Some(Graft(t, bits, s));
    }

    /** `split_leaf`. */
    method SplitLeaf(path: PathIter, window: Handle, direction: Option<Direction>, ratio: nat, size: Size)
      returns (r: SplitResult, ghost bits: seq<bool>, ghost way: Direction)
      requires Valid() && (tree.Some? ==> window !in Windows(tree.value))
      modifies this, nodes
      ensures Valid()
      ensures old(tree).None? ==> r == Split(Path(0, 0), None) && (exists at :: tree == Some(Tip(at, window)))
      ensures old(tree).Some? ==> SplitOutcome(old(tree).value, path, window, way, ratio, r, bits, tree)
      ensures old(tree).Some? && Reaches(old(tree).value, bits) ==> way == Chosen(direction, AreaAt(share, old(tree).value, size, bits))
    {
      hide A.Arena.Valid, A.Apply, A.Arena.NextHandle, Represents, Proper, Walk, SplitTree, WithStep, Flipped, Encode;
      TreeExists();
      if nodes.count == 0 {
        root := nodes.Insert(Leaf(window));
        tree := Some(Tip(root, window));
        OneLeaf(nodes.model.contents, root, window);
        return Split(Path(0, 0), None), [], Right;
      }
      var end, depth, directions, area;
      end, depth, directions, area, bits := Descend(path, size);
      var towards := Chosen(direction, area);
      way := towards;
      match end
      case Below => r := TooDeep;
      case UsedUp => r := NoLeaf;
      case Found(leaf, w) =>
        EncodeAppend(bits, Second(towards));
        EncodeFlip(bits, Second(towards));
        ForkLeaf(leaf, w, window, towards, ratio, bits);
        directions := WithStep(directions, Second(towards), depth - 1);
        r := Split(Path(depth, directions), Some((w, Path(depth, Flipped(directions, depth - 1)))));
    }

    /** The arena work of `remove_leaf`: the leaf goes and its sibling's node takes the parent's place. */
    method Unfork(leaf: Handle, parent: Handle, sibling: Handle, ghost front: seq<bool>, ghost b: bool)
      requires Valid() && tree.Some? && Reaches(tree.value, front)
      requires var p := Sub(tree.value, front);
               && p.Fork? && Child(p, b).Tip?
               && p.at == parent && Child(p, b).at == leaf && Child(p, !b).at == sibling
      modifies this`tree, nodes
      ensures Valid() && tree == Some(WithoutLeaf(old(tree).value, front, b))
      ensures Windows(tree.value) == Windows(old(tree).value) - {Child(Sub(old(tree).value, front), b).window}
    {
      hide A.Arena.Valid, A.Apply, A.Arena.NextHandle, Graft, Rooted, Windows, Handles, Proper, Represents, Reaches, Sub;
      ghost var t, before := tree.value, nodes.model.contents;
      ForkNodes(before, t, front, b);
      var _ := nodes.Remove(leaf);
      var moved := nodes.Remove(sibling);
      nodes.Set(parent, moved.value);
      RemoveKeepsTree(before, nodes.model.contents, t, front, b);
      tree := Some(WithoutLeaf(t, front, b));
    }

    /** `remove_leaf`. */
    method RemoveLeaf(path: PathIter) returns (r: RemoveResult)
      requires Valid() && tree.Some?
      modifies this`tree, nodes
      ensures Valid()
      ensures RemoveOutcome(old(tree).value, path, r, tree)
    {
      hide A.Arena.Valid, A.Apply, Represents, Proper, Handles, Windows, Low, Rest, WithStep, Walk, Graft, Rooted;
      ghost var t := tree.value;
      ghost var bits := [];
      var cur, it, here := root, path, Path(0, 0);
      var parent, sibling, above := cur, cur, here;
      PrependNothing(Walk(t, path));
      while true
        invariant tree == Some(t) && Valid()
        invariant Reaches(t, bits) && Sub(t, bits).at == cur && here == Path(|bits|, Encode(bits))
        invariant Walk(t, path) == Prepend(bits, Walk(Sub(t, bits), it))
        invariant bits != [] ==> AboveLeaf(t, bits[..|bits| - 1], bits[|bits| - 1], cur, parent, sibling, above, Sub(t, bits))
        modifies {}
        decreases Sub(t, bits)
      {
        NodeAt(nodes.model.contents, t, bits);
        match nodes.Get(cur).value
        case Leaf(w) =>
          WalkStops(t, bits, it);
          break;
        case Parent(left, right, vertical, ratio) =>
          WalkNeedsSteps(t, bits, it);
          var step := Next(it);
          if step.None? {
            return NoSuchLeaf;
          }
          StepDown(t, bits, it);
          var (d, rest) := step.value;
          EncodeAppend(bits, d);
          assert (bits + [d])[..|bits|] == bits;
          parent, sibling, above := cur, if d then left else right, here;
          cur, it := if d then right else left, rest;
          here := Path(here.depth + 1, WithStep(here.directions, d, here.depth));
          bits := bits + [d];
      }
      if here.depth == 0 {
        var _ := nodes.Remove(cur);
        LastLeaf(t, nodes.model.contents, cur);
        tree := None;
        return RemovedLast;
      }
      Unfork(cur, parent, sibling, bits[..|bits| - 1], bits[|bits| - 1]);
      r := Removed(above);
    }

    /** `windows`: the windows of all leaf nodes in arena order, each live window exactly once. */
    method AllWindows() returns (windows: seq<Handle>)
      requires Valid()
      ensures forall w :: w in windows <==> tree.Some? && w in Windows(tree.value)
      ensures forall i, j :: 0 <= i < j < |windows| ==> windows[i] != windows[j]
    {
      hide A.Arena.Valid, A.LiveUpTo, Represents, Proper, Handles, Windows, OneLeafEach, LeafWindows;
      var items := nodes.Iter();
      windows := [];
      var i := 0;
      NoLeafWindows();
      while i < |items|
        invariant 0 <= i <= |items|
        invariant windows == LeafWindows(items[..i])
      {
        assert items[..i + 1] == items[..i] + [items[i]];
        LeafWindowsAppend(items[..i], items[i]);
        if items[i].1.Leaf? {
          windows := windows + [items[i].1.window];
        }
        i := i + 1;
      }
      assert items[..i] == items;
      if tree.Some? {
        LeafNodesAreExact(nodes.model.contents, tree.value);
        LeafWindowsExact(items, nodes.model.contents, Windows(tree.value));
      } else {
        NoNodes(nodes.model.contents);
        LeafWindowsExact(items, nodes.model.contents, {});
      }
    }

    /** The inner function of `apply_with_prefix`: the windows below a node, left to right. */
    method VisitLeaves(cur: Handle, ghost t: Tree) returns (visited: seq<Handle>)
      requires Valid() && Represents(nodes.model.contents, t) && t.at == cur
      ensures visited == LeafOrder(t)
      decreases t
    {
      hide A.Arena.Valid, TreeValid;
      match nodes.Get(cur).value
      case Leaf(w) => visited := [w];
      case Parent(left, right, vertical, ratio) =>
        var first := VisitLeaves(left, t.left);
        var second := VisitLeaves(right, t.right);
        visited := first + second;
    }

    /** `apply_with_prefix`: the windows the callback is given, in order.  They are the leaves of the
        subtree the prefix leads to, or none if it leads past a leaf. */
    method WithPrefix(prefix: PathIter) returns (visited: seq<Handle>)
      requires Valid() && tree.Some?
      ensures visited == if Reaches(tree.value, Steps(prefix)) then LeafOrder(Sub(tree.value, Steps(prefix))) else []
    {
      hide A.Arena.Valid, Represents, Proper, Handles, Low, Rest;
      ghost var t := tree.value;
      ghost var bits := [];
      var cur, it := root, prefix;
      while it.count > 0
        invariant Reaches(t, bits) && Sub(t, bits).at == cur && Steps(prefix) == bits + Steps(it)
        decreases it.count
      {
        NodeAt(nodes.model.contents, t, bits);
        var (d, rest) := Next(it).value;
        ConcatStep(bits, d, Steps(rest));
        match nodes.Get(cur).value
        case Leaf(w) =>
          NoWayPastTip(t, bits, [d] + Steps(rest));
          return [];
        case Parent(left, right, vertical, ratio) =>
          ReachesFurther(t, bits, d);
          cur, it := if d then right else left, rest;
          bits := bits + [d];
      }
      assert Steps(prefix) == bits;
      SubFacts(nodes.model.contents, t, bits);
      visited := VisitLeaves(cur, Sub(t, bits));
    }

    /** `calculate_rect`: the rectangle of the leaf the path leads to. */
    method CalculateRect(path: PathIter, screen: Rect) returns (r: RectResult)
      requires Valid()
      ensures r == if tree.None? then NoTree else LeafRect(cut, tree.value, path, screen)
    {
      hide A.Arena.Valid, Represents, Proper, Handles, Low, Rest, Walk, Half;
      TreeExists();
      if nodes.Get(root).None? {
        RootIsLive();
        return NoTree;
      }
      RootIsLive();
      ghost var t := tree.value;
      ghost var bits := [];
      var cur, it, rect := root, path, screen;
      PrependNothing(Walk(t, path));
      while true
        invariant Reaches(t, bits) && Sub(t, bits).at == cur && rect == RectAt(cut, t, screen, bits)
        invariant Walk(t, path) == Prepend(bits, Walk(Sub(t, bits), it))
        decreases Sub(t, bits)
      {
        NodeAt(nodes.model.contents, t, bits);
        match nodes.Get(cur).value
        case Leaf(w) =>
          WalkStops(t, bits, it);
          return At(w, rect);
        case Parent(left, right, vertical, ratio) =>
          WalkNeedsSteps(t, bits, it);
          var step := Next(it);
          if step.None? {
            return OffPath;
          }
          StepDown(t, bits, it);
          var (d, rest) := step.value;
          RectFurther(cut, t, screen, bits, d);
          rect := Half(cut, vertical, ratio, rect, d);
          cur, it := if d then right else left, rest;
          bits := bits + [d];
      }
    }

    lemma RootIsLive()
      requires Valid()
      ensures nodes.Get(root).Some? <==> tree.Some?
    {
    }

    /** `window_at`: at each fork goes right if the right half contains the point, else left. */
    method WindowAt(x: int, y: int, screen: Rect) returns (r: Option<(Handle, Rect)>)
      requires Valid()
      ensures r == if tree.None? then None else Some(WindowUnder(cut, tree.value, x, y, screen))
    {
      hide A.Arena.Valid, Represents, Proper, Handles, Half, Contains, Locate;
      if nodes.Get(root).None? {
        RootIsLive();
        return None;
      }
      RootIsLive();
      ghost var t := tree.value;
      ghost var bits := [];
      var cur, rect := root, screen;
      while true
        invariant Reaches(t, bits) && Sub(t, bits).at == cur && rect == RectAt(cut, t, screen, bits)
        invariant Locate(cut, t, screen, x, y) == bits + Locate(cut, Sub(t, bits), rect, x, y)
        decreases Sub(t, bits)
      {
        NodeAt(nodes.model.contents, t, bits);
        match nodes.Get(cur).value
        case Leaf(w) =>
          LocateStops(cut, Sub(t, bits), rect, x, y);
          assert bits + [] == bits;
          return Some((w, rect));
        case Parent(left, right, vertical, ratio) =>
          var d := Contains(Half(cut, vertical, ratio, rect, true), x, y);
          ReachesFurther(t, bits, d);
          RectFurther(cut, t, screen, bits, d);
          LocateStep(cut, Sub(t, bits), rect, x, y);
          ghost var rest := Locate(cut, Child(Sub(t, bits), d), Half(cut, vertical, ratio, rect, d), x, y);
          ConcatStep(bits, d, rest);
          rect := Half(cut, vertical, ratio, rect, d);
          cur := if d then right else left;
          bits := bits + [d];
      }
    }

    lemma TreeExists()
      requires Valid()
      ensures nodes.count > 0 <==> tree.Some?
    {
    }
  }

  lemma PairFacts(nodes: map<Handle, Node>, next: map<Handle, Node>, t: Tree, bits: seq<bool>, leaf: Handle,
                  first: Handle, w: Handle, second: Handle, window: Handle, d: bool, vertical: bool, ratio: nat)
    requires Represents(nodes, t) && Proper(t) && Handles(t) == nodes.Keys
    requires Reaches(t, bits) && Sub(t, bits) == Tip(leaf, w) && window !in Windows(t)
    requires first !in nodes && second !in nodes && first != second && leaf in nodes
    requires next == nodes[first := Leaf(w)][second := Leaf(window)]
                     [leaf := if d then Parent(first, second, vertical, ratio) else Parent(second, first, vertical, ratio)]
    ensures var s := Pair(leaf, first, w, second, window, d, vertical, ratio);
            && Represents(next, Graft(t, bits, s)) && Proper(Graft(t, bits, s)) && Graft(t, bits, s).at == t.at
            && Handles(Graft(t, bits, s)) == next.Keys
            && Windows(Graft(t, bits, s)) == Windows(t) + {window}
  {
    var s := Pair(leaf, first, w, second, window, d, vertical, ratio);
    SubSets(t, bits);
    assert w in Windows(t) && w != window;
    SplitKeepsTree(nodes, next, t, bits, s, window);
  }

  /** The area left for the node at `bits`, by `Ratio::partition`. */
  ghost function AreaAt(share: Share, t: Tree, size: Size, bits: seq<bool>): Size
    requires Reaches(t, bits)
    decreases t
  {
    if bits == [] then size else AreaAt(share, Child(t, bits[0]), Shared(share, t.vertical, t.ratio, size, bits[0]), bits[1..])
  }

  function Shared(share: Share, vertical: bool, ratio: nat, size: Size, d: bool): Size
  {
    var (l, r) := share(ratio, if vertical then size.y else size.x);
    var v := if d then r else l;
    if vertical then size.(y := v) else size.(x := v)
  }

  lemma {:induction false} AreaFurther(share: Share, t: Tree, size: Size, bits: seq<bool>, b: bool)
    requires Reaches(t, bits) && Sub(t, bits).Fork? && Reaches(t, bits + [b])
    ensures AreaAt(share, t, size, bits + [b])
         == Shared(share, Sub(t, bits).vertical, Sub(t, bits).ratio, AreaAt(share, t, size, bits), b)
    decreases t
  {
    hide Shared;
    if bits == [] {
      assert ([] + [b])[1..] == [];
    } else {
      assert (bits + [b])[1..] == bits[1..] + [b];
      AreaFurther(share, Child(t, bits[0]), Shared(share, t.vertical, t.ratio, size, bits[0]), bits[1..], b);
    }
  }

  /** Without a direction the split makes the aspect ratio as close to 1 as possible. */
  function Chosen(direction: Option<Direction>, area: Size): Direction
  {
    match direction
    case Some(way) => way
    case None => if area.x < area.y then Down else Right
  }

  /** The new window takes the second half. */
  predicate Second(way: Direction)
  {
    way.Right? || way.Down?
  }

  predicate Vertical(way: Direction)
  {
    way.Up? || way.Down?
  }

  /** What `split_leaf` does to a tree, and what it says about it.  The leaf the path leads to is split
      if it lies less than 23 levels down; both resulting paths are exact. */
  ghost predicate SplitOutcome(t: Tree, path: PathIter, window: Handle, way: Direction, ratio: nat,
                               r: SplitResult, bits: seq<bool>, tree: Option<Tree>)
  {
    match r
    case TooDeep => tree == Some(t) && path.count >= MAX_DEPTH && (Walk(t, path).Some? ==> |Walk(t, path).value| >= MAX_DEPTH)
    case NoLeaf => tree == Some(t) && path.count < MAX_DEPTH && Walk(t, path).None?
    case Split(p, displaced) =>
      && Walk(t, path) == Some(bits) && |bits| < MAX_DEPTH && Reaches(t, bits) && Sub(t, bits).Tip?
      && tree.Some? && Windows(tree.value) == Windows(t) + {window}
      && SplitTree(t, bits, window, way, ratio, tree.value)
      && p == Path(|bits| + 1, Encode(bits + [Second(way)]))
      && displaced == Some((Sub(t, bits).window, Path(|bits| + 1, Encode(bits + [!Second(way)]))))
  }

  /** The leaf at `bits` became a pair; the two leaf nodes are new. */
  ghost predicate SplitTree(t: Tree, bits: seq<bool>, window: Handle, way: Direction, ratio: nat, next: Tree)
    requires Reaches(t, bits) && Sub(t, bits).Tip?
  {
    exists first, second ::
      next == Graft(t, bits, Pair(Sub(t, bits).at, first, Sub(t, bits).window, second, window, Second(way), Vertical(way), ratio))
  }

  /** The tree without the leaf on side b of the fork at `front`: its sibling moves up. */
  ghost function WithoutLeaf(t: Tree, front: seq<bool>, b: bool): Tree
    requires Reaches(t, front) && Sub(t, front).Fork?
  {
    Graft(t, front, Rooted(Child(Sub(t, front), !b), Sub(t, front).at))
  }

  lemma ForkNodes(nodes: map<Handle, Node>, t: Tree, front: seq<bool>, b: bool)
    requires Represents(nodes, t) && Proper(t) && Reaches(t, front) && Sub(t, front).Fork?
    ensures var p := Sub(t, front);
            && p.at in nodes && Child(p, b).at in nodes && Child(p, !b).at in nodes
            && p.at != Child(p, b).at && p.at != Child(p, !b).at && Child(p, b).at != Child(p, !b).at
  {
  }

  /** What the loop of `remove_leaf` remembers about the node above the current one. */
  ghost predicate AboveLeaf(t: Tree, front: seq<bool>, b: bool, cur: Handle, parent: Handle, sibling: Handle, above: Path, here: Tree)
  {
    && Reaches(t, front) && Sub(t, front).Fork?
    && Child(Sub(t, front), b) == here && here.at == cur
    && Sub(t, front).at == parent && Child(Sub(t, front), !b).at == sibling
    && above == Path(|front|, Encode(front))
  }

  lemma LastLeaf(t: Tree, next: map<Handle, Node>, at: Handle)
    requires t.Tip? && t.at == at && next.Keys == Handles(t) - {at}
    ensures next == map[]
  {
  }

  /** What `remove_leaf` does to a tree: the leaf the path leads to disappears, and the answer is the
      path of the subtree that moved up. */
  ghost predicate RemoveOutcome(t: Tree, path: PathIter, r: RemoveResult, tree: Option<Tree>)
  {
    match r
    case NoSuchLeaf => tree == Some(t) && Walk(t, path).None?
    case RemovedLast => tree == None && t.Tip?
    case Removed(p) =>
      && Walk(t, path).Some? && Walk(t, path).value != []
      && var bits := Walk(t, path).value;
         var front, b := bits[..|bits| - 1], bits[|bits| - 1];
         && Reaches(t, front) && Sub(t, front).Fork? && Child(Sub(t, front), b).Tip?
         && p == Path(|front|, Encode(front))
         && tree == Some(WithoutLeaf(t, front, b))
         && Windows(tree.value) == Windows(t) - {Child(Sub(t, front), b).window}
  }

  function LeafWindows(items: seq<(Handle, Node)>): seq<Handle>
  {
    if items == [] then [] else
      (if items[0].1.Leaf? then [items[0].1.window] else []) + LeafWindows(items[1..])
  }

  lemma {:induction false} LeafWindowsAppend(items: seq<(Handle, Node)>, item: (Handle, Node))
    ensures LeafWindows(items + [item]) == LeafWindows(items) + if item.1.Leaf? then [item.1.window] else []
  {
    if items == [] {
      assert [] + [item] == [item];
    } else {
      assert (items + [item])[1..] == items[1..] + [item];
      LeafWindowsAppend(items[1..], item);
    }
  }

  lemma NoLeafWindows()
    ensures LeafWindows([]) == []
  {
  }

  /** Among the nodes `hs`, every window in `windows` has exactly one leaf and there are no others. */
  ghost predicate OneLeafEach(nodes: map<Handle, Node>, hs: set<Handle>, windows: set<Handle>)
    requires hs <= nodes.Keys
  {
    && (forall h :: h in hs && nodes[h].Leaf? ==> nodes[h].window in windows)
    && (forall g, h :: g in hs && h in hs && nodes[g].Leaf? && nodes[h].Leaf? && nodes[g].window == nodes[h].window ==> g == h)
    && (forall w :: w in windows ==> exists h :: h in hs && nodes[h] == Leaf(w))
  }

  lemma NoNodes(nodes: map<Handle, Node>)
    requires nodes == map[]
    ensures OneLeafEach(nodes, nodes.Keys, {})
  {
  }

  lemma {:induction false} LeafNodesAreExact(nodes: map<Handle, Node>, t: Tree)
    requires Represents(nodes, t) && Proper(t) && Handles(t) <= nodes.Keys
    ensures OneLeafEach(nodes, Handles(t), Windows(t))
  {
    if t.Fork? {
      LeafNodesAreExact(nodes, t.left);
      LeafNodesAreExact(nodes, t.right);
      forall w | w in Windows(t)
        ensures exists h :: h in Handles(t) && nodes[h] == Leaf(w)
      {
        if w in Windows(t.left) {
          var h :| h in Handles(t.left) && nodes[h] == Leaf(w);
          assert h in Handles(t);
        } else {
          var h :| h in Handles(t.right) && nodes[h] == Leaf(w);
          assert h in Handles(t);
        }
      }
    }
  }

  lemma {:induction false} LeafWindowsMembers(items: seq<(Handle, Node)>, w: Handle)
    ensures w in LeafWindows(items) <==> exists i :: 0 <= i < |items| && items[i].1 == Leaf(w)
  {
    if items != [] {
      LeafWindowsMembers(items[1..], w);
      if exists i :: 0 <= i < |items| && items[i].1 == Leaf(w) {
        var i :| 0 <= i < |items| && items[i].1 == Leaf(w);
        assert i > 0 ==> items[1..][i - 1].1 == Leaf(w);
      }
      if w in LeafWindows(items[1..]) {
        var i :| 0 <= i < |items[1..]| && items[1..][i].1 == Leaf(w);
        assert items[i + 1].1 == Leaf(w);
      }
    }
  }

  lemma {:induction false} LeafWindowsDistinct(items: seq<(Handle, Node)>)
    requires forall i, j :: 0 <= i < j < |items| && items[i].1.Leaf? && items[j].1.Leaf? ==> items[i].1.window != items[j].1.window
    ensures forall i, j :: 0 <= i < j < |LeafWindows(items)| ==> LeafWindows(items)[i] != LeafWindows(items)[j]
  {
    if items != [] {
      LeafWindowsDistinct(items[1..]);
      if items[0].1.Leaf? {
        var w := items[0].1.window;
        LeafWindowsMembers(items[1..], w);
        assert w !in LeafWindows(items[1..]);
      }
    }
  }

  lemma LeafWindowsExact(items: seq<(Handle, Node)>, nodes: map<Handle, Node>, windows: set<Handle>)
    requires forall i :: 0 <= i < |items| ==> items[i].0 in nodes && nodes[items[i].0] == items[i].1
    requires forall h :: h in nodes ==> h in A.Keys(items)
    requires forall i, j :: 0 <= i < j < |items| ==> items[i].0 != items[j].0
    requires OneLeafEach(nodes, nodes.Keys, windows)
    ensures forall w :: w in LeafWindows(items) <==> w in windows
    ensures forall i, j :: 0 <= i < j < |LeafWindows(items)| ==> LeafWindows(items)[i] != LeafWindows(items)[j]
  {
    hide LeafWindows;
    LeafWindowsDistinct(items);
    forall w
      ensures w in LeafWindows(items) <==> w in windows
    {
      LeafWindowsMembers(items, w);
      if w in windows {
        var h :| h in nodes && nodes[h] == Leaf(w);
        assert h in A.Keys(items);
      }
    }
  }

  datatype RectResult = NoTree | OffPath | At(window: Handle, rect: Rect)

  /** The window and rectangle of the leaf a path leads to. */
  ghost function LeafRect(cut: Cut, t: Tree, path: PathIter, screen: Rect): RectResult
  {
    match Walk(t, path)
    case None => OffPath
    case Some(bits) => WalkReaches(t, path); At(Sub(t, bits).window, RectAt(cut, t, screen, bits))
  }

  /** The window and rectangle of the leaf a point leads to. */
  ghost function WindowUnder(cut: Cut, t: Tree, x: int, y: int, screen: Rect): (Handle, Rect)
  {
    var bits := Locate(cut, t, screen, x, y);
    (Sub(t, bits).window, RectAt(cut, t, screen, bits))
  }

  /** All steps of a path iterator. */
  ghost function Steps(it: PathIter): seq<bool>
    decreases it.count
  {
    match Next(it) case None => [] case Some((b, rest)) => [b] + Steps(rest)
  }

  lemma {:induction false} StepsOfEncode(bits: seq<bool>)
    requires |bits| <= 32
    ensures Steps(PathIter(|bits|, Encode(bits))) == bits
  {
    hide Low, Rest;
    if bits != [] {
      NextOfEncode(bits);
      StepsOfEncode(bits[1..]);
    }
  }

  lemma {:induction false} NoWayPastTip(t: Tree, bits: seq<bool>, more: seq<bool>)
    requires Reaches(t, bits) && Sub(t, bits).Tip? && more != []
    ensures !Reaches(t, bits + more)
    decreases t
  {
    if bits == [] {
      assert bits + more == more;
    } else {
      assert (bits + more)[0] == bits[0] && (bits + more)[1..] == bits[1..] + more;
      NoWayPastTip(Child(t, bits[0]), bits[1..], more);
    }
  }

  lemma {:induction false} RectFurther(cut: Cut, t: Tree, r: Rect, bits: seq<bool>, b: bool)
    requires Reaches(t, bits) && Sub(t, bits).Fork? && Reaches(t, bits + [b])
    ensures RectAt(cut, t, r, bits + [b]) == Half(cut, Sub(t, bits).vertical, Sub(t, bits).ratio, RectAt(cut, t, r, bits), b)
    decreases t
  {
    hide Half;
    if bits == [] {
      assert ([] + [b])[1..] == [];
    } else {
      assert (bits + [b])[1..] == bits[1..] + [b];
      RectFurther(cut, Child(t, bits[0]), Half(cut, t.vertical, t.ratio, r, bits[0]), bits[1..], b);
    }
  }

  lemma ConcatStep(bits: seq<bool>, d: bool, rest: seq<bool>)
    ensures bits + ([d] + rest) == (bits + [d]) + rest
  {
  }

  lemma LocateStops(cut: Cut, t: Tree, r: Rect, x: int, y: int)
    requires t.Tip?
    ensures Locate(cut, t, r, x, y) == []
  {
  }

  lemma LocateStep(cut: Cut, t: Tree, r: Rect, x: int, y: int)
    requires t.Fork?
    ensures var b := Contains(Half(cut, t.vertical, t.ratio, r, true), x, y);
            Locate(cut, t, r, x, y) == [b] + Locate(cut, Child(t, b), Half(cut, t.vertical, t.ratio, r, b), x, y)
  {
  }

  lemma OneLeaf(nodes: map<Handle, Node>, at: Handle, window: Handle)
    requires nodes == map[at := Leaf(window)]
    ensures Represents(nodes, Tip(at, window)) && Proper(Tip(at, window)) && Handles(Tip(at, window)) == nodes.Keys
  {
  }

  lemma PrependNothing(rest: Option<seq<bool>>)
    ensures Prepend([], rest) == rest
  {
    if rest.Some? {
      assert [] + rest.value == rest.value;
    }
  }

  lemma WalkStops(t: Tree, bits: seq<bool>, it: PathIter)
    requires Reaches(t, bits) && Sub(t, bits).Tip?
    ensures Prepend(bits, Walk(Sub(t, bits), it)) == Some(bits)
  {
    assert bits + [] == bits;
  }

  lemma WalkNeedsSteps(t: Tree, bits: seq<bool>, it: PathIter)
    requires Reaches(t, bits) && Sub(t, bits).Fork?
    ensures it.count == 0 ==> Prepend(bits, Walk(Sub(t, bits), it)) == None
  {
  }

  lemma WalkIsLonger(bits: seq<bool>, rest: Option<seq<bool>>)
    ensures Prepend(bits, rest).Some? ==> |Prepend(bits, rest).value| >= |bits|
  {
  }
}
