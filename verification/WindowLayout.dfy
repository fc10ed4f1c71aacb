/** What opening and closing a window does on the screen (base/window_manager/src/manager.rs and
    workspace.rs). */
module WindowLayout {
  import opened Wrappers
  import opened WindowPath
  import opened WindowTree
  import opened Workspace
  import opened WindowManager
  import A = Arena

  // ---- Rectangles when a subtree is replaced ----

  /** A window elsewhere keeps its rectangle. */
  lemma {:induction false} AreaOutside(cut: Cut, t: Tree, bits: seq<bool>, s: Tree, screen: Rect, w: Handle)
    requires Proper(t) && Reaches(t, bits) && w in Windows(t) && w !in Windows(Sub(t, bits)) && w !in Windows(s)
    ensures w in Windows(Graft(t, bits, s)) && AreaOf(cut, Graft(t, bits, s), w, screen) == AreaOf(cut, t, w, screen)
    decreases t
  {
    hide Half;
    var d, child := bits[0], Child(t, bits[0]);
    GraftSets(child, bits[1..], s);
    SubSets(child, bits[1..]);
    if w in Windows(child) {
      AreaOutside(cut, child, bits[1..], s, Half(cut, t.vertical, t.ratio, screen, d), w);
    }
    var next := Graft(t, bits, s);
    AreaBelow(cut, t, screen, w);
    AreaBelow(cut, next, screen, w);
  }

  lemma AreaBelow(cut: Cut, t: Tree, screen: Rect, w: Handle)
    requires t.Fork? && w in Windows(t)
    ensures var d := w in Windows(t.right);
            w in Windows(Child(t, d)) &&
            AreaOf(cut, t, w, screen) == AreaOf(cut, Child(t, d), w, Half(cut, t.vertical, t.ratio, screen, d))
  {
    hide Half;
    var d := w in Windows(t.right);
    assert ([d] + PathTo(Child(t, d), w))[1..] == PathTo(Child(t, d), w);
    PathToReaches(Child(t, d), w);
    PathToReaches(t, w);
  }

  /** A window of the new subtree has its place in the rectangle of the old one. */
  lemma {:induction false} AreaInside(cut: Cut, t: Tree, bits: seq<bool>, s: Tree, screen: Rect, w: Handle)
    requires Proper(t) && Reaches(t, bits) && w in Windows(s) && (w in Windows(t) ==> w in Windows(Sub(t, bits)))
    ensures w in Windows(Graft(t, bits, s))
    ensures AreaOf(cut, Graft(t, bits, s), w, screen) == AreaOf(cut, s, w, RectAt(cut, t, screen, bits))
    decreases t
  {
    hide Half;
    if bits != [] {
      var d, child := bits[0], Child(t, bits[0]);
      GraftSets(child, bits[1..], s);
      SubSets(child, bits[1..]);
      AreaInside(cut, child, bits[1..], s, Half(cut, t.vertical, t.ratio, screen, d), w);
      AreaBelow(cut, Graft(t, bits, s), screen, w);
    }
  }

  lemma AreaOfTip(cut: Cut, t: Tree, bits: seq<bool>, screen: Rect)
    requires Proper(t) && Reaches(t, bits) && Sub(t, bits).Tip?
    ensures Sub(t, bits).window in Windows(t) && AreaOf(cut, t, Sub(t, bits).window, screen) == RectAt(cut, t, screen, bits)
  {
    hide RectAt, Proper;
    PathToUnique(t, bits);
  }

  /** Where the two ways part, the first goes left. */
  ghost predicate LeftOf(a: seq<bool>, b: seq<bool>)
  {
    exists n :: 0 <= n < |a| && n < |b| && a[..n] == b[..n] && !a[n] && b[n]
  }

  lemma LeftOfBelow(d: bool, a: seq<bool>, b: seq<bool>)
    requires LeftOf(a, b)
    ensures LeftOf([d] + a, [d] + b)
  {
    var n :| 0 <= n < |a| && n < |b| && a[..n] == b[..n] && !a[n] && b[n];
    var c, e := [d] + a, [d] + b;
    assert c[..n + 1] == [d] + a[..n] && e[..n + 1] == [d] + b[..n] && c[n + 1] == a[n] && e[n + 1] == b[n];
  }

  lemma LeftAtOnce(a: seq<bool>, b: seq<bool>)
    requires a != [] && b != [] && !a[0] && b[0]
    ensures LeftOf(a, b)
  {
    assert a[..0] == b[..0];
  }

  /** The leaves are listed from left to right. */
  lemma {:induction false} LeavesLeftToRight(t: Tree, i: nat, j: nat)
    requires Proper(t) && i < j < |LeafOrder(t)|
    ensures LeafOrder(t)[i] in Windows(t) && LeafOrder(t)[j] in Windows(t)
    ensures LeftOf(PathTo(t, LeafOrder(t)[i]), PathTo(t, LeafOrder(t)[j]))
  {
    hide LeftOf;
    LeafOrderIsExact(t);
    LeafOrderIsExact(t.left);
    LeafOrderIsExact(t.right);
    var l, r, x, y := LeafOrder(t.left), LeafOrder(t.right), LeafOrder(t)[i], LeafOrder(t)[j];
    if i < |l| <= j {
      assert x in l && y in r;
      LeftAtOnce(PathTo(t, x), PathTo(t, y));
    } else {
      var d := i >= |l|;
      var c, k := Child(t, d), if d then |l| else 0;
      assert x == LeafOrder(c)[i - k] && y == LeafOrder(c)[j - k];
      LeavesLeftToRight(c, i - k, j - k);
      LeftOfBelow(d, PathTo(c, x), PathTo(c, y));
    }
  }

  // ---- Opening ----

  /** The leaf that a new window splits, and the space left for it. */
  ghost function LastWindow(t: Tree): Handle
  {
    if t.Tip? then t.window else LastWindow(t.right)
  }

  lemma {:induction false} LastIsRightmost(t: Tree)
    ensures Reaches(t, Ones(RightDepth(t)))
    ensures Sub(t, Ones(RightDepth(t))).Tip? && Sub(t, Ones(RightDepth(t))).window == LastWindow(t)
    decreases t
  {
    if t.Fork? {
      LastIsRightmost(t.right);
      assert Ones(RightDepth(t))[1..] == Ones(RightDepth(t.right));
    }
  }

  /** Side by side: `first` and `second` share out `whole` from left to right, first up to `mid`. */
  predicate Beside(first: Rect, second: Rect, whole: Rect, mid: int)
  {
    && first.y0 == second.y0 == whole.y0 && first.y1 == second.y1 == whole.y1
    && first.x0 == whole.x0 && first.x1 == mid && second.x0 == mid + 1 && second.x1 == whole.x1
  }

  /** One above the other. */
  predicate Above(first: Rect, second: Rect, whole: Rect, mid: int)
  {
    && first.x0 == second.x0 == whole.x0 && first.x1 == second.x1 == whole.x1
    && first.y0 == whole.y0 && first.y1 == mid && second.y0 == mid + 1 && second.y1 == whole.y1
  }

  /** The two parts of a rectangle after a split in some direction. */
  predicate Parted(way: Direction, displaced: Rect, new_: Rect, whole: Rect, midX: int, midY: int)
  {
    match way
    case Left => Beside(new_, displaced, whole, midX)
    case Right => Beside(displaced, new_, whole, midX)
    case Up => Above(new_, displaced, whole, midY)
    case Down => Above(displaced, new_, whole, midY)
  }

  /** A split leaf shares its rectangle with the new window, which lies on the side that was asked for.  All
      other windows stay where they are. */
  lemma SplitOnScreen(cut: Cut, t: Tree, bits: seq<bool>, window: Handle, way: Direction, ratio: nat, next: Tree,
                      screen: Rect)
    requires Proper(t) && Reaches(t, bits) && Sub(t, bits).Tip? && window !in Windows(t)
    requires SplitTree(t, bits, window, way, ratio, next)
    ensures Sub(t, bits).window in Windows(t) && Windows(next) == Windows(t) + {window}
    ensures var whole := AreaOf(cut, t, Sub(t, bits).window, screen);
            Parted(way, AreaOf(cut, next, Sub(t, bits).window, screen), AreaOf(cut, next, window, screen), whole,
                   cut(ratio, whole.x0, whole.x1), cut(ratio, whole.y0, whole.y1))
    ensures forall w :: w in Windows(t) && w != Sub(t, bits).window ==>
              AreaOf(cut, next, w, screen) == AreaOf(cut, t, w, screen)
  {
    hide Proper, Graft, AreaOf, RectAt;
    var old_ := Sub(t, bits).window;
    AreaOfTip(cut, t, bits, screen);
    var first, second :|
      next == Graft(t, bits, Pair(Sub(t, bits).at, first, old_, second, window, Second(way), Vertical(way), ratio));
    var s := Pair(Sub(t, bits).at, first, old_, second, window, Second(way), Vertical(way), ratio);
    GraftSets(t, bits, s);
    AreaInside(cut, t, bits, s, screen, old_);
    AreaInside(cut, t, bits, s, screen, window);
    PairAreas(cut, s, RectAt(cut, t, screen, bits));
    forall w | w in Windows(t) && w != old_
      ensures AreaOf(cut, next, w, screen) == AreaOf(cut, t, w, screen)
    {
      AreaOutside(cut, t, bits, s, screen, w);
    }
  }

  lemma PairAreas(cut: Cut, s: Tree, whole: Rect)
    requires s.Fork? && s.left.Tip? && s.right.Tip? && s.left.window != s.right.window
    ensures var first, second := AreaOf(cut, s, s.left.window, whole), AreaOf(cut, s, s.right.window, whole);
            if s.vertical then Above(first, second, whole, cut(s.ratio, whole.y0, whole.y1))
            else Beside(first, second, whole, cut(s.ratio, whole.x0, whole.x1))
  {
    AreaBelow(cut, s, whole, s.left.window);
    AreaBelow(cut, s, whole, s.right.window);
  }

  /** A new window takes the second part of the last window's rectangle: the lower one if the space is higher
      than wide and the right one otherwise.  All other windows stay where they are. */
  lemma OpenedOnScreen(cut: Cut, share: Share, size: Size, t: Tree, window: Handle, next: Tree, screen: Rect)
    requires Proper(t) && window !in Windows(t) && Opened(Some(t), window, share, size, Some(next))
    ensures LastWindow(t) in Windows(t) && Windows(next) == Windows(t) + {window}
    ensures var whole, area := AreaOf(cut, t, LastWindow(t), screen), AreaAt(share, t, size, Ones(RightDepth(t)));
            var first, second := AreaOf(cut, next, LastWindow(t), screen), AreaOf(cut, next, window, screen);
            if area.x < area.y then Above(first, second, whole, cut(0, whole.y0, whole.y1))
            else Beside(first, second, whole, cut(0, whole.x0, whole.x1))
    ensures forall w :: w in Windows(t) && w != LastWindow(t) ==>
              AreaOf(cut, next, w, screen) == AreaOf(cut, t, w, screen)
  {
    hide Proper, Graft, AreaOf, RectAt, AreaAt, SplitTree;
    var bits := Ones(RightDepth(t));
    LastIsRightmost(t);
    SplitOnScreen(cut, t, bits, window, Chosen(None, AreaAt(share, t, size, bits)), 0, next, screen);
  }

  /** The first window has the whole screen. */
  lemma FirstFillsScreen(cut: Cut, share: Share, size: Size, window: Handle, next: Tree, screen: Rect)
    requires Opened(None, window, share, size, Some(next))
    ensures Windows(next) == {window} && AreaOf(cut, next, window, screen) == screen
  {
  }

  /** `partition` and `partition_range` cut a length at the same place. */
  ghost predicate SameCut(cut: Cut, share: Share)
  {
    forall ratio, low, high :: low <= high + 1 ==>
      share(ratio, high - low + 1) == (cut(ratio, low, high) - low + 1, high - cut(ratio, low, high))
  }

  function SizeOf(r: Rect): Size
  {
    Size(r.x1 - r.x0 + 1, r.y1 - r.y0 + 1)
  }

  lemma SharedIsHalf(cut: Cut, share: Share, vertical: bool, ratio: nat, r: Rect, d: bool)
    requires Sensible(cut) && SameCut(cut, share) && Shaped(r)
    ensures Shared(share, vertical, ratio, SizeOf(r), d) == SizeOf(Half(cut, vertical, ratio, r, d))
    ensures Shaped(Half(cut, vertical, ratio, r, d))
  {
  }

  /** Then the space that the choice of a direction is based on is the size of the rectangle on the screen. */
  lemma {:induction false} SpaceIsRectangle(cut: Cut, share: Share, t: Tree, r: Rect, bits: seq<bool>)
    requires Sensible(cut) && SameCut(cut, share) && Shaped(r) && Reaches(t, bits)
    ensures AreaAt(share, t, SizeOf(r), bits) == SizeOf(RectAt(cut, t, r, bits))
    decreases t
  {
    hide Half, Shared, Sensible, SameCut, Shaped, SizeOf;
    if bits != [] {
      SharedIsHalf(cut, share, t.vertical, t.ratio, r, bits[0]);
      SpaceIsRectangle(cut, share, Child(t, bits[0]), Half(cut, t.vertical, t.ratio, r, bits[0]), bits[1..]);
    }
  }

  /** So a window is split along the longer side that it has on the screen. */
  lemma SplitAlongLongerSide(cut: Cut, share: Share, t: Tree, window: Handle, next: Tree, screen: Rect)
    requires Sensible(cut) && SameCut(cut, share) && Shaped(screen)
    requires Proper(t) && window !in Windows(t) && Opened(Some(t), window, share, SizeOf(screen), Some(next))
    ensures LastWindow(t) in Windows(t) && Windows(next) == Windows(t) + {window}
    ensures var whole := AreaOf(cut, t, LastWindow(t), screen);
            var first, second := AreaOf(cut, next, LastWindow(t), screen), AreaOf(cut, next, window, screen);
            if whole.x1 - whole.x0 < whole.y1 - whole.y0 then Above(first, second, whole, cut(0, whole.y0, whole.y1))
            else Beside(first, second, whole, cut(0, whole.x0, whole.x1))
  {
    hide Proper, AreaOf, RectAt, AreaAt, Opened, Sensible, SameCut;
    OpenedOnScreen(cut, share, SizeOf(screen), t, window, next, screen);
    LastIsRightmost(t);
    AreaOfTip(cut, t, Ones(RightDepth(t)), screen);
    SpaceIsRectangle(cut, share, t, screen, Ones(RightDepth(t)));
  }

  // ---- Closing ----

  /** The windows that share the parent of a window. */
  ghost function Neighbours(t: Tree, w: Handle): set<Handle>
    requires w in Windows(t) && PathTo(t, w) != []
  {
    PathToReaches(t, w);
    ParentIsFork(t, PathTo(t, w));
    var bits := PathTo(t, w);
    Windows(Child(Sub(t, bits[..|bits| - 1]), !bits[|bits| - 1]))
  }

  lemma {:induction false} ParentIsFork(t: Tree, bits: seq<bool>)
    requires Reaches(t, bits) && bits != []
    ensures var front, b := bits[..|bits| - 1], bits[|bits| - 1];
            Reaches(t, front) && Sub(t, front).Fork? && Sub(t, bits) == Child(Sub(t, front), b)
    decreases t
  {
    if |bits| > 1 {
      ParentIsFork(Child(t, bits[0]), bits[1..]);
      assert bits[1..][..|bits| - 2] == bits[..|bits| - 1][1..];
    }
  }

  lemma {:induction false} RectShaped(cut: Cut, t: Tree, r: Rect, bits: seq<bool>)
    requires Sensible(cut) && Shaped(r) && Reaches(t, bits)
    ensures Shaped(RectAt(cut, t, r, bits))
    decreases t
  {
    hide Half, Shaped, Sensible;
    if bits != [] {
      HalvesPartition(cut, t.vertical, t.ratio, r, 0, 0);
      RectShaped(cut, Child(t, bits[0]), Half(cut, t.vertical, t.ratio, r, bits[0]), bits[1..]);
    }
  }

  /** The windows below a node cover its rectangle. */
  ghost predicate Covered(cut: Cut, t: Tree, among: set<Handle>, r: Rect, x: int, y: int)
    requires among <= Windows(t)
  {
    exists w :: w in among && Contains(AreaOf(cut, t, w, r), x, y)
  }

  lemma CoveredIff(cut: Cut, t: Tree, r: Rect, x: int, y: int)
    requires Proper(t) && Sensible(cut) && Shaped(r)
    ensures Covered(cut, t, Windows(t), r, x, y) <==> Contains(r, x, y)
  {
    hide Proper, Windows, AreaOf, Contains, Shaped, Sensible;
    LocatedWindow(cut, t, x, y, r);
    var (w, rect) := WindowUnder(cut, t, x, y, r);
    assert w in Windows(t);
  }

  lemma {:induction false} GraftItself(t: Tree, bits: seq<bool>)
    requires Reaches(t, bits)
    ensures Graft(t, bits, Sub(t, bits)) == t
    decreases t
  {
    if bits != [] {
      GraftItself(Child(t, bits[0]), bits[1..]);
    }
  }

  lemma RootedAreas(cut: Cut, s: Tree, at: Handle, w: Handle, r: Rect)
    requires w in Windows(s)
    ensures w in Windows(Rooted(s, at)) && AreaOf(cut, Rooted(s, at), w, r) == AreaOf(cut, s, w, r)
  {
    if s.Fork? {
      hide Half;
      AreaBelow(cut, s, r, w);
      AreaBelow(cut, Rooted(s, at), r, w);
    }
  }

  /** The windows of a fork before and after one of its leaves is gone. */
  lemma ForkAreas(cut: Cut, fork: Tree, b: bool, at: Handle, r: Rect, x: int, y: int)
    requires Proper(fork) && fork.Fork? && Child(fork, b).Tip? && Sensible(cut) && Shaped(r)
    ensures var s := Rooted(Child(fork, !b), at);
            var beside, w := Windows(Child(fork, !b)), Child(fork, b).window;
            && Windows(s) == beside && Windows(fork) == beside + {w} && w !in beside
            && (Covered(cut, s, beside, r, x, y) <==>
                  Contains(AreaOf(cut, fork, w, r), x, y) || Covered(cut, fork, beside, r, x, y))
  {
    var sibling, w := Child(fork, !b), Child(fork, b).window;
    var s, half := Rooted(sibling, at), Half(cut, fork.vertical, fork.ratio, r, !b);
    HalvesPartition(cut, fork.vertical, fork.ratio, r, x, y);
    AreaBelow(cut, fork, r, w);
    assert Windows(s) == Windows(sibling);
    hide Half, Contains, Shaped, Sensible, AreaOf, Rooted, Windows, Proper;
    CoveredIff(cut, sibling, r, x, y);
    CoveredIff(cut, sibling, half, x, y);
    forall h | h in Windows(sibling)
      ensures AreaOf(cut, s, h, r) == AreaOf(cut, sibling, h, r) && AreaOf(cut, fork, h, r) == AreaOf(cut, sibling, h, half)
    {
      RootedAreas(cut, sibling, at, h, r);
      SiblingArea(cut, fork, !b, r, h);
    }
  }

  lemma SiblingArea(cut: Cut, fork: Tree, b: bool, r: Rect, h: Handle)
    requires Proper(fork) && fork.Fork? && h in Windows(Child(fork, b))
    ensures AreaOf(cut, fork, h, r) == AreaOf(cut, Child(fork, b), h, Half(cut, fork.vertical, fork.ratio, r, b))
  {
    hide Half, AreaOf;
    AreaBelow(cut, fork, r, h);
  }

  /** When a window is closed, the windows beside it take over its space, and all others stay where they
      are: a point belongs to a neighbour afterwards exactly if it belonged to a neighbour or to the closed
      window before. */
  lemma ClosedOnScreen(cut: Cut, t: Tree, w: Handle, next: Tree, screen: Rect, x: int, y: int)
    requires Proper(t) && w in Windows(t) && Closed(t, w, Some(next)) && Sensible(cut) && Shaped(screen)
    ensures Windows(next) == Windows(t) - {w} && Neighbours(t, w) <= Windows(next)
    ensures forall h :: h in Windows(next) && h !in Neighbours(t, w) ==>
              AreaOf(cut, next, h, screen) == AreaOf(cut, t, h, screen)
    ensures (exists h :: h in Neighbours(t, w) && Contains(AreaOf(cut, next, h, screen), x, y)) <==>
            Contains(AreaOf(cut, t, w, screen), x, y)
            || exists h :: h in Neighbours(t, w) && Contains(AreaOf(cut, t, h, screen), x, y)
  {
    hide Proper, Graft, AreaOf, RectAt, Contains, Shaped, Sensible, Rooted;
    var bits := PathTo(t, w);
    var front, b := bits[..|bits| - 1], bits[|bits| - 1];
    PathToReaches(t, w);
    ParentIsFork(t, bits);
    var fork, whole := Sub(t, front), RectAt(cut, t, screen, front);
    var s, beside := Rooted(Child(fork, !b), fork.at), Neighbours(t, w);
    SubProper(t, front);
    SubSets(t, front);
    RectShaped(cut, t, screen, front);
    ForkAreas(cut, fork, b, fork.at, whole, x, y);
    GraftSets(t, front, s);
    GraftItself(t, front);
    AreaInside(cut, t, front, fork, screen, w);
    forall h | h in beside
      ensures AreaOf(cut, next, h, screen) == AreaOf(cut, s, h, whole) && AreaOf(cut, t, h, screen) == AreaOf(cut, fork, h, whole)
    {
      AreaInside(cut, t, front, s, screen, h);
      AreaInside(cut, t, front, fork, screen, h);
    }
    forall h | h in Windows(next) && h !in beside
      ensures AreaOf(cut, next, h, screen) == AreaOf(cut, t, h, screen)
    {
      AreaOutside(cut, t, front, s, screen, h);
    }
  }

  // ---- Opening and closing ----

  lemma {:induction false} GraftTwice(t: Tree, bits: seq<bool>, s: Tree, u: Tree)
    requires Reaches(t, bits)
    ensures Reaches(Graft(t, bits, s), bits) && Graft(Graft(t, bits, s), bits, u) == Graft(t, bits, u)
    decreases t
  {
    if bits != [] {
      GraftTwice(Child(t, bits[0]), bits[1..], s, u);
    }
  }

  /** Closing the window that was opened last gives the tree from before, node for node. */
  lemma OpenThenClose(t: Tree, window: Handle, share: Share, size: Size, next: Tree, after: Option<Tree>)
    requires Opened(Some(t), window, share, size, Some(next)) && Proper(next)
    requires window in Windows(next) && Closed(next, window, after)
    ensures after == Some(t)
  {
    hide Proper, Graft, AreaAt;
    var bits := Ones(RightDepth(t));
    LastIsRightmost(t);
    var way := Chosen(None, AreaAt(share, t, size, bits));
    var first, second :|
      next == Graft(t, bits, Pair(Sub(t, bits).at, first, Sub(t, bits).window, second, window, Second(way), Vertical(way), 0));
    var s := Pair(Sub(t, bits).at, first, Sub(t, bits).window, second, window, Second(way), Vertical(way), 0);
    SubOfGraft(t, bits, s);
    ReachesFurther(next, bits, true);
    PathToUnique(next, bits + [true]);
    assert (bits + [true])[..|bits|] == bits;
    GraftTwice(t, bits, s, Sub(t, bits));
    GraftItself(t, bits);
  }

  /** The tree alone says what windows store. */
  lemma PathsAreDetermined(t: Tree, windows: map<Handle, Window>, others: map<Handle, Window>)
    requires Agree(Some(t), windows) && Agree(Some(t), others)
    ensures windows == others
  {
    hide PathsAgree, Encode;
    forall w | w in Windows(t)
      ensures windows[w] == others[w]
    {
      StoredPath(t, windows, w);
      StoredPath(t, others, w);
    }
  }

  lemma StoredPath(t: Tree, windows: map<Handle, Window>, w: Handle)
    requires PathsAgree(t, [], windows) && w in Windows(t)
    ensures w in windows && windows[w] == Window(0, Encode(PathTo(t, w)))
  {
    hide Encode;
    PathToReaches(t, w);
    PathsAgreeSub(t, PathTo(t, w), [], windows);
    assert [] + PathTo(t, w) == PathTo(t, w);
  }

  /** On the real manager: a window that is opened beside others and closed again leaves no trace in the tree
      or in the paths that other windows store. */
  method OpenAndClose(m: Manager, size: Size) returns (r: Option<Handle>)
    requires m.Valid() && m.workspace.tree.Some?
    modifies m.windows, m.workspace, m.workspace.nodes
    ensures m.Valid() && m.workspace.tree == old(m.workspace.tree)
    ensures m.windows.model.contents == old(m.windows.model.contents)
  {
    hide A.Arena.Valid, Opened, Closed, PathsAgree, Windows, Proper;
    ghost var t, was := m.workspace.tree.value, m.windows.model.contents;
    r := m.NewWindow(size);
    if r.Some? {
      ghost var next := m.workspace.tree.value;
      TreeIsProper(m.workspace.nodes.model.contents, m.workspace.root, next);
      assert was.Keys != {} by {
        WindowsNonEmpty(t);
      }
      var d := m.DestroyWindow(r.value);
      OpenThenClose(t, r.value, m.workspace.share, size, next, m.workspace.tree);
      PathsAreDetermined(t, was, m.windows.model.contents);
    }
  }
}
