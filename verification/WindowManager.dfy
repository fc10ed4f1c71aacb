/** The window manager (base/window_manager/src/manager.rs) with its one workspace.  Windows and tree
    nodes live in two arenas; each window stores the path of its leaf. */
module WindowManager {
  import opened Wrappers
  import opened WindowPath
  import opened WindowTree
  import opened Workspace
  import A = Arena

  datatype DestroyResult = Destroyed(window: Window) | NoSuchWindow | Panicked

  /** `PathIter::right_bottom`. */
  function RightBottom(): PathIter
  {
    PathIter(32, 0xFFFF_FFFF)
  }

  /** The live windows are the leaves of the tree, and each stores its own path. */
  ghost predicate Agree(tree: Option<Tree>, windows: map<Handle, Window>)
  {
    match tree
    case None => windows == map[]
    case Some(t) => Windows(t) == windows.Keys && PathsAgree(t, [], windows)
  }

  /** After a split, the new window and the displaced one store their new paths. */
  lemma SplitKeepsAgreement(t: Tree, windows: map<Handle, Window>, window: Handle, bits: seq<bool>, way: Direction, ratio: nat, next: Tree)
    requires Proper(t) && Windows(t) == windows.Keys && PathsAgree(t, [], windows) && window !in windows
    requires Reaches(t, bits) && Sub(t, bits).Tip? && |bits| < MAX_DEPTH
    requires SplitTree(t, bits, window, way, ratio, next) && Windows(next) == Windows(t) + {window}
    ensures Sub(t, bits).window in windows
    ensures Agree(Some(next), windows[window := Window(0, Encode(bits + [Second(way)]))]
                                     [Sub(t, bits).window := Window(0, Encode(bits + [!Second(way)]))])
  {
    hide Encode, Graft, PathsAgree, Proper, Pair;
    var w := Sub(t, bits).window;
    SubSets(t, bits);
    var after := windows[window := Window(0, Encode(bits + [Second(way)]))][w := Window(0, Encode(bits + [!Second(way)]))];
    var first, second :|
      next == Graft(t, bits, Pair(Sub(t, bits).at, first, w, second, window, Second(way), Vertical(way), ratio));
    var s := Pair(Sub(t, bits).at, first, w, second, window, Second(way), Vertical(way), ratio);
    assert [] + bits == bits;
    PairAgrees(Sub(t, bits).at, first, w, second, window, Second(way), Vertical(way), ratio, bits, after);
    PathsAgreeGraft(t, bits, s, [], windows, after);
  }

  lemma PairAgrees(at: Handle, first: Handle, w: Handle, second: Handle, window: Handle, d: bool, vertical: bool, ratio: nat,
                   bits: seq<bool>, windows: map<Handle, Window>)
    requires |bits| < MAX_DEPTH && w in windows && window in windows
    requires windows[window] == Window(0, Encode(bits + [d])) && windows[w] == Window(0, Encode(bits + [!d]))
    ensures PathsAgree(Pair(at, first, w, second, window, d, vertical, ratio), bits, windows)
  {
  }

  lemma TreeIsProper(nodes: map<Handle, Node>, root: Handle, t: Tree)
    requires TreeValid(nodes, root, Some(t))
    ensures Proper(t)
  {
  }

  /** After a removal, moving up exactly the windows of the sibling subtree restores agreement. */
  lemma RemoveKeepsAgreement(t: Tree, windows: map<Handle, Window>, front: seq<bool>, b: bool, next: map<Handle, Window>)
    requires Proper(t) && Windows(t) == windows.Keys && PathsAgree(t, [], windows)
    requires Reaches(t, front) && Sub(t, front).Fork? && Child(Sub(t, front), b).Tip?
    requires Windows(WithoutLeaf(t, front, b)) == Windows(t) - {Child(Sub(t, front), b).window}
    requires MovedUp(windows - {Child(Sub(t, front), b).window}, next, Windows(Child(Sub(t, front), !b)), |front|)
    ensures Agree(Some(WithoutLeaf(t, front, b)), next)
  {
    hide MoveUp;
    var fork, w := Sub(t, front), Child(Sub(t, front), b).window;
    var sibling := Child(fork, !b);
    PathsAgreeSub(t, front, [], windows);
    assert [] + front == front;
    assert PathsAgree(sibling, front + [!b], windows);
    SubProper(t, front);
    PathsAgreeFrame(sibling, front + [!b], windows, windows - {w});
    assert front + [!b] == front + [!b] + [] && front == front + [];
    SubtreeMovesUp(sibling, front, !b, [], windows - {w}, next, Windows(sibling));
    RootedAgrees(sibling, fork.at, front, next);
    SubSets(t, front);
    PathsAgreeGraft(t, front, Rooted(sibling, fork.at), [], windows, next);
  }

  lemma RootedAgrees(s: Tree, at: Handle, prefix: seq<bool>, windows: map<Handle, Window>)
    requires PathsAgree(s, prefix, windows)
    ensures PathsAgree(Rooted(s, at), prefix, windows)
  {
  }

  lemma {:induction false} SubProper(t: Tree, bits: seq<bool>)
    requires Proper(t) && Reaches(t, bits)
    ensures Proper(Sub(t, bits))
    decreases t
  {
    if bits != [] {
      SubProper(Child(t, bits[0]), bits[1..]);
    }
  }

  lemma FirstWindow(t: Tree, window: Handle)
    requires t.Tip? && t.window == window
    ensures Agree(Some(t), map[window := Window(0, 0)])
  {
  }

  function Ones(n: nat): seq<bool>
  {
    if n == 0 then [] else [true] + Ones(n - 1)
  }

  /** The right-bottom leaf was split, along its longer side, and the window is its second half. */
  ghost predicate Opened(before: Option<Tree>, window: Handle, share: Share, size: Size, after: Option<Tree>)
  {
    && after.Some?
    && (before.None? ==> after.value.Tip? && after.value.window == window)
    && (before.Some? ==>
          var t, bits := before.value, Ones(RightDepth(before.value));
          && Reaches(t, bits) && Sub(t, bits).Tip?
          && SplitTree(t, bits, window, Chosen(None, AreaAt(share, t, size, bits)), 0, after.value))
  }

  /** The sibling of the window took the place of their parent. */
  ghost predicate Closed(t: Tree, window: Handle, after: Option<Tree>)
  {
    && window in Windows(t) && PathTo(t, window) != []
    && var bits := PathTo(t, window);
       var front, b := bits[..|bits| - 1], bits[|bits| - 1];
       Reaches(t, front) && Sub(t, front).Fork? && after == Some(WithoutLeaf(t, front, b))
  }

  class Manager {
    const windows: A.Arena<Window>
    const workspace: Workspace

    ghost predicate Valid()
      reads this, windows, workspace, workspace.nodes
    {
      && windows.Valid() && workspace.Valid()
      && (windows as object) != workspace.nodes
      && Agree(workspace.tree, windows.model.contents)
    }

    constructor (cut: Cut, share: Share)
      ensures Valid() && workspace.tree == None && workspace.cut == cut && workspace.share == share
      ensures fresh(windows) && fresh(workspace) && fresh(workspace.nodes)
    {
      windows := new A.Arena(1);
      workspace := new Workspace(cut, share);
    }

    /** `new_window`: splits the bottom-right leaf.  It panics, changing nothing, exactly when that leaf
        is already 23 levels down. */
    method NewWindow(size: Size) returns (r: Option<Handle>)
      requires Valid()
      modifies windows, workspace, workspace.nodes
      ensures Valid()
      ensures r.None? ==> workspace.tree == old(workspace.tree) && windows.model == old(windows.model)
      ensures r.Some? ==> r.value !in old(windows.model.contents)
                          && windows.model.contents.Keys == old(windows.model.contents).Keys + {r.value}
      ensures r.None? <==> old(workspace.tree).Some? && RightDepth(old(workspace.tree).value) == MAX_DEPTH
      ensures r.Some? ==> Opened(old(workspace.tree), r.value, workspace.share, size, workspace.tree)
    {
      hide A.Arena.Valid, A.Apply, A.Arena.NextHandle, TreeValid, Proper, Windows, PathsAgree, SplitTree, Walk, Encode;
      var handle := windows.NextHandle();
      ghost var before, was := workspace.tree, windows.model.contents;
      if before.Some? {
        TreeIsProper(workspace.nodes.model.contents, workspace.root, before.value);
      }
      var res;
      ghost var bits, way;
      res, bits, way := workspace.SplitLeaf(RightBottom(), handle, None, 0, size);
      if before.Some? {
        RightBottomWalk(before.value, was);
      }
      if !res.Split? {
        return None;
      }
      if before.Some? {
        SplitKeepsAgreement(before.value, was, handle, bits, way, 0, workspace.tree.value);
      } else {
        FirstWindow(workspace.tree.value, handle);
      }
      var _ := windows.Insert(Window(0, res.path.directions));
      if res.displaced.Some? {
        var (w, path) := res.displaced.value;
        windows.Set(w, Window(0, path.directions));
      }
      r := Some(handle);
    }

    /** The callback of `destroy_window`: every window the prefix leads to moves up one level, once. */
    method MoveUpAll(visited: seq<Handle>, from: nat)
      requires windows.Valid()
      requires forall i, j :: 0 <= i < j < |visited| ==> visited[i] != visited[j]
      requires forall i :: 0 <= i < |visited| ==> visited[i] in windows.model.contents
      modifies windows
      ensures windows.Valid()
      ensures MovedUp(old(windows.model.contents), windows.model.contents, Members(visited), from)
    {
      hide A.Arena.Valid, A.Apply, MoveUp, Members, MovedUp;
      ghost var before := windows.model.contents;
      NothingMoved(before, from);
      var i := 0;
      while i < |visited|
        invariant 0 <= i <= |visited| && windows.Valid()
        invariant MovedUp(before, windows.model.contents, Members(visited[..i]), from)
      {
        MoveUpStep(before, windows.model.contents, visited, i, from);
        var w := windows.Get(visited[i]).value;
        windows.Set(visited[i], w.(path := MoveUp(w.path, from)));
        i := i + 1;
      }
      assert visited[..i] == visited;
    }

    /** `destroy_window`.  A dead handle is an error; the last window makes `remove_leaf(..).unwrap()`
        panic; otherwise exactly that window goes. */
    method DestroyWindow(handle: Handle) returns (r: DestroyResult)
      requires Valid()
      modifies windows, workspace, workspace.nodes
      ensures Valid()
      ensures r.NoSuchWindow? <==> handle !in old(windows.model.contents)
      ensures r.Panicked? <==> old(windows.model.contents).Keys == {handle}
      ensures r.Destroyed? ==> r.window == old(windows.model.contents)[handle]
      ensures windows.model.contents.Keys == old(windows.model.contents).Keys - {handle}
      ensures r.Destroyed? ==> old(workspace.tree).Some? && Closed(old(workspace.tree).value, handle, workspace.tree)
      ensures r.Panicked? ==> workspace.tree == None
      ensures r.NoSuchWindow? ==> workspace.tree == old(workspace.tree) && windows.model.contents == old(windows.model.contents)
    {
      hide A.Arena.Valid, A.Apply, TreeValid, Proper, Windows, PathsAgree, Walk, Encode, Graft, Rooted, MovedUp, Reaches, Sub, LeafOrder, Members;
      ghost var was := windows.model.contents;
      var removed := windows.Remove(handle);
      if removed.None? {
        assert windows.model.contents == was;
        return NoSuchWindow;
      }
      ghost var t := workspace.tree.value;
      TreeIsProper(workspace.nodes.model.contents, workspace.root, t);
      StoredPathIsExact(t, was, handle);
      var res := workspace.RemoveLeaf(PathIter(32, removed.value.path));
      match res
      case NoSuchLeaf => assert false;
      case RemovedLast =>
        OnlyWindow(t, handle);
        assert windows.model.contents.Keys == {};
        return Panicked;
      case Removed(path) =>
        ghost var bits := PathTo(t, handle);
        ghost var front, b := bits[..|bits| - 1], bits[|bits| - 1];
        assert front + [b] == bits;
        MovedSubtree(t, front, b, handle, workspace.tree.value);
        StepsOfEncode(front);
        var visited := workspace.WithPrefix(PathIter(path.depth, path.directions));
        MoveUpAll(visited, path.depth);
        RemoveKeepsAgreement(t, was, front, b, windows.model.contents);
        return Destroyed(removed.value);
    }

    /** `window_rect`. */
    method WindowRect(handle: Handle, screen: Rect) returns (r: Option<Rect>)
      requires Valid()
      ensures r == if handle in windows.model.contents
                   then Some(AreaOf(workspace.cut, workspace.tree.value, handle, screen))
                   else None
    {
      hide A.Arena.Valid, TreeValid, Proper, Walk, Encode, Sub, RectAt;
      var entry := windows.Get(handle);
      if entry.None? {
        return None;
      }
      ghost var t := workspace.tree.value;
      StoredPathIsExact(t, windows.model.contents, handle);
      var rect := workspace.CalculateRect(PathIter(32, entry.value.path), screen);
      r := Some(rect.rect);
    }

    /** `window_at`: a window of the workspace, with exactly the rectangle `window_rect` gives it. */
    method WindowAt(x: int, y: int, screen: Rect) returns (r: Option<(Handle, Rect)>)
      requires Valid()
      ensures r.None? <==> windows.model.contents == map[]
      ensures r.Some? ==>
                && r.value.0 in windows.model.contents
                && r.value.1 == AreaOf(workspace.cut, workspace.tree.value, r.value.0, screen)
      ensures r.Some? && Sensible(workspace.cut) && Shaped(screen) ==>
                && (Contains(r.value.1, x, y) <==> Contains(screen, x, y))
                && (forall h :: h in windows.model.contents && h != r.value.0 ==>
                      !Contains(AreaOf(workspace.cut, workspace.tree.value, h, screen), x, y))
    {
      hide A.Arena.Valid, TreeValid, PathsAgree, Encode, RectAt, Locate, Sensible, Shaped, Contains;
      r := workspace.WindowAt(x, y, screen);
      if r.Some? {
        TreeIsProper(workspace.nodes.model.contents, workspace.root, workspace.tree.value);
        LocatedWindow(workspace.cut, workspace.tree.value, x, y, screen);
      }
    }
  }

  function Members(s: seq<Handle>): set<Handle>
  {
    set i | 0 <= i < |s| :: s[i]
  }

  lemma NothingMoved(windows: map<Handle, Window>, from: nat)
    ensures MovedUp(windows, windows, Members([]), from)
  {
  }

  lemma MoveUpStep(before: map<Handle, Window>, now: map<Handle, Window>, visited: seq<Handle>, i: nat, from: nat)
    requires i < |visited| && visited[i] in before && MovedUp(before, now, Members(visited[..i]), from)
    requires forall j, k :: 0 <= j < k < |visited| ==> visited[j] != visited[k]
    ensures visited[i] in now
    ensures MovedUp(before, now[visited[i] := now[visited[i]].(path := MoveUp(now[visited[i]].path, from))], Members(visited[..i + 1]), from)
  {
    hide MoveUp;
    var w := visited[i];
    assert w !in Members(visited[..i]);
    assert Members(visited[..i + 1]) == Members(visited[..i]) + {w} by {
      assert visited[..i + 1] == visited[..i] + [w];
      forall h | h in Members(visited[..i])
        ensures h in Members(visited[..i + 1])
      {
        var j :| 0 <= j < i && visited[..i][j] == h;
        assert visited[..i + 1][j] == h;
      }
      assert visited[..i + 1][i] == w;
    }
  }

  lemma OnlyWindow(t: Tree, handle: Handle)
    requires t.Tip? && handle in Windows(t)
    ensures Windows(t) == {handle}
  {
  }

  lemma {:induction false} SubOfGraft(t: Tree, bits: seq<bool>, s: Tree)
    requires Reaches(t, bits)
    ensures Reaches(Graft(t, bits, s), bits) && Sub(Graft(t, bits, s), bits) == s
    decreases t
  {
    if bits != [] {
      SubOfGraft(Child(t, bits[0]), bits[1..], s);
    }
  }

  lemma {:induction false} WindowsNonEmpty(t: Tree)
    ensures Windows(t) != {}
  {
    if t.Fork? {
      WindowsNonEmpty(t.left);
    }
  }

  /** After a removal the prefix leads to the sibling's subtree, whose windows are listed once each. */
  lemma MovedSubtree(t: Tree, front: seq<bool>, b: bool, handle: Handle, next: Tree)
    requires Proper(t) && Reaches(t, front) && Sub(t, front).Fork? && Child(Sub(t, front), b).Tip?
    requires handle in Windows(t) && PathTo(t, handle) == front + [b]
    requires next == WithoutLeaf(t, front, b)
    ensures Child(Sub(t, front), b).window == handle
    ensures Reaches(next, front)
    ensures var order := LeafOrder(Sub(next, front));
            && Members(order) == Windows(Child(Sub(t, front), !b))
            && (forall i :: 0 <= i < |order| ==> order[i] in Windows(t) && order[i] != handle)
            && (forall i, j :: 0 <= i < j < |order| ==> order[i] != order[j])
    ensures Windows(t) != {handle}
  {
    hide Graft, Rooted, Proper, LeafOrder, Windows;
    PathToReaches(t, handle);
    ReachesFurther(t, front, b);
    SubOfGraft(t, front, Rooted(Child(Sub(t, front), !b), Sub(t, front).at));
    SubProper(t, front);
    SubSets(t, front);
    RootedOrder(Child(Sub(t, front), !b), Sub(t, front).at);
    SiblingOrder(Sub(t, front), b);
  }

  lemma SiblingOrder(fork: Tree, b: bool)
    requires Proper(fork) && fork.Fork? && Child(fork, b).Tip?
    ensures var order := LeafOrder(Child(fork, !b));
            && order != []
            && Members(order) == Windows(Child(fork, !b))
            && (forall i :: 0 <= i < |order| ==> order[i] in Windows(fork) && order[i] != Child(fork, b).window)
            && (forall i, j :: 0 <= i < j < |order| ==> order[i] != order[j])
    ensures Windows(fork) > {Child(fork, b).window}
  {
    var sibling := Child(fork, !b);
    LeafOrderIsExact(sibling);
    WindowsNonEmpty(sibling);
    var w :| w in Windows(sibling);
    assert w in LeafOrder(sibling);
    assert forall i :: 0 <= i < |LeafOrder(sibling)| ==> LeafOrder(sibling)[i] in LeafOrder(sibling);
  }

  lemma RootedOrder(s: Tree, at: Handle)
    ensures LeafOrder(Rooted(s, at)) == LeafOrder(s)
  {
  }

  lemma {:induction false} PathToUnique(t: Tree, bits: seq<bool>)
    requires Proper(t) && Reaches(t, bits) && Sub(t, bits).Tip?
    ensures Sub(t, bits).window in Windows(t) && PathTo(t, Sub(t, bits).window) == bits
    decreases t
  {
    if bits != [] {
      PathToUnique(Child(t, bits[0]), bits[1..]);
      assert [bits[0]] + bits[1..] == bits;
    }
  }

  /** The rectangle of a window: that of its leaf. */
  ghost function AreaOf(cut: Cut, t: Tree, w: Handle, screen: Rect): Rect
    requires w in Windows(t)
  {
    PathToReaches(t, w);
    RectAt(cut, t, screen, PathTo(t, w))
  }

  lemma LocatedWindow(cut: Cut, t: Tree, x: int, y: int, screen: Rect)
    requires Proper(t)
    ensures var (w, rect) := WindowUnder(cut, t, x, y, screen);
            && w in Windows(t) && rect == AreaOf(cut, t, w, screen)
            && (Sensible(cut) && Shaped(screen) ==>
                  && (Contains(rect, x, y) <==> Contains(screen, x, y))
                  && (forall h :: h in Windows(t) && h != w ==> !Contains(AreaOf(cut, t, h, screen), x, y)))
  {
    hide Locate, RectAt, Proper, Windows;
    var bits := Locate(cut, t, screen, x, y);
    PathToUnique(t, bits);
    if Sensible(cut) && Shaped(screen) {
      LeavesTileTheScreen(cut, t, screen, x, y, bits);
      forall h | h in Windows(t) && h != Sub(t, bits).window
        ensures !Contains(AreaOf(cut, t, h, screen), x, y)
      {
        PathToReaches(t, h);
        LeavesTileTheScreen(cut, t, screen, x, y, PathTo(t, h));
      }
    }
  }

  /** How far down the bottom-right leaf lies. */
  function RightDepth(t: Tree): nat
  {
    if t.Tip? then 0 else 1 + RightDepth(t.right)
  }

  lemma OnesWord()
    ensures Encode(Ones(32)) == 0xFFFF_FFFF
  {
    OnesStep(0); OnesStep(1); OnesStep(2); OnesStep(3); OnesStep(4); OnesStep(5); OnesStep(6); OnesStep(7);
    assert Encode(Ones(8)) == 0xFF;
    OnesStep(8); OnesStep(9); OnesStep(10); OnesStep(11); OnesStep(12); OnesStep(13); OnesStep(14); OnesStep(15);
    assert Encode(Ones(16)) == 0xFFFF;
    OnesStep(16); OnesStep(17); OnesStep(18); OnesStep(19); OnesStep(20); OnesStep(21); OnesStep(22); OnesStep(23);
    assert Encode(Ones(24)) == 0xFF_FFFF;
    OnesStep(24); OnesStep(25); OnesStep(26); OnesStep(27); OnesStep(28); OnesStep(29); OnesStep(30); OnesStep(31);
  }

  lemma OnesStep(n: nat)
    ensures Encode(Ones(n + 1)) == Push(true, Encode(Ones(n)))
  {
  }

  lemma {:induction false} WalkRight(t: Tree, n: nat)
    requires RightDepth(t) <= n <= 32
    ensures Walk(t, PathIter(n, Encode(Ones(n)))) == Some(Ones(RightDepth(t)))
    ensures |Ones(RightDepth(t))| == RightDepth(t)
    decreases t
  {
    hide Low, Rest, Encode;
    if t.Fork? {
      OnesLength(n);
      NextOfEncode(Ones(n));
      assert Ones(n)[1..] == Ones(n - 1);
      WalkRight(t.right, n - 1);
    }
  }

  lemma {:induction false} OnesLength(n: nat)
    ensures |Ones(n)| == n
  {
    if n > 0 {
      OnesLength(n - 1);
    }
  }

  lemma {:induction false} DepthBound(t: Tree, prefix: seq<bool>, windows: map<Handle, Window>)
    requires PathsAgree(t, prefix, windows)
    ensures |prefix| + RightDepth(t) <= MAX_DEPTH
    decreases t
  {
    if t.Fork? {
      DepthBound(t.right, prefix + [true], windows);
    }
  }

  /** `right_bottom` leads to the bottom-right leaf. */
  lemma RightBottomWalk(t: Tree, windows: map<Handle, Window>)
    requires PathsAgree(t, [], windows)
    ensures RightDepth(t) <= MAX_DEPTH
    ensures Walk(t, RightBottom()) == Some(Ones(RightDepth(t))) && |Ones(RightDepth(t))| == RightDepth(t)
  {
    hide Walk, Encode;
    DepthBound(t, [], windows);
    OnesWord();
    WalkRight(t, 32);
  }
}
