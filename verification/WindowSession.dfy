/** Whole sessions of the window manager: any sequence of `new_window` and `destroy_window`, up to the first
    panic. */
module WindowSession {
  import opened Wrappers
  import opened WindowPath
  import opened WindowTree
  import opened Workspace
  import A = Arena
  import opened WindowManager

  datatype Command = Open(size: Size) | Close(window: Handle)

  datatype Answer = Made(window: Handle) | Refused | Done(result: DestroyResult)

  predicate Panics(a: Answer)
  {
    a.Refused? || (a.Done? && a.result.Panicked?)
  }

  /** What a command does to the tree and to the set of open windows. */
  ghost predicate Did(command: Command, answer: Answer, share: Share, tree: Option<Tree>, open: set<Handle>,
                      tree': Option<Tree>, open': set<Handle>)
  {
    match command
    case Open(size) =>
      if tree.Some? && RightDepth(tree.value) == MAX_DEPTH then answer == Refused && tree' == tree && open' == open
      else
        && answer.Made? && answer.window !in open && open' == open + {answer.window}
        && Opened(tree, answer.window, share, size, tree')
    case Close(w) =>
      && answer.Done?
      && open' == open - {w}
      && (answer.result.NoSuchWindow? <==> w !in open)
      && (answer.result.Panicked? <==> open == {w})
      && (answer.result.NoSuchWindow? ==> tree' == tree)
      && (answer.result.Panicked? ==> tree' == None)
      && (answer.result.Destroyed? ==> tree.Some? && Closed(tree.value, w, tree'))
  }

  /** The answers to the first commands, and the trees and open windows in between. */
  ghost predicate History(commands: seq<Command>, answers: seq<Answer>, share: Share, trees: seq<Option<Tree>>,
                          opens: seq<set<Handle>>)
  {
    && |answers| <= |commands| && |trees| == |opens| == |answers| + 1
    && trees[0] == None && opens[0] == {}
    && (forall i :: 0 <= i < |answers| ==>
          Did(commands[i], answers[i], share, trees[i], opens[i], trees[i + 1], opens[i + 1]))
    && (forall i :: 0 <= i < |answers| - 1 ==> !Panics(answers[i]))
  }

  lemma MoreHistory(commands: seq<Command>, answers: seq<Answer>, share: Share, trees: seq<Option<Tree>>,
                    opens: seq<set<Handle>>, a: Answer, tree: Option<Tree>, open: set<Handle>)
    requires History(commands, answers, share, trees, opens) && |answers| < |commands|
    requires answers != [] ==> !Panics(answers[|answers| - 1])
    requires Did(commands[|answers|], a, share, trees[|answers|], opens[|answers|], tree, open)
    ensures History(commands, answers + [a], share, trees + [tree], opens + [open])
  {
    hide Did;
  }

  method Perform(m: Manager, command: Command) returns (a: Answer)
    requires m.Valid()
    modifies m.windows, m.workspace, m.workspace.nodes
    ensures m.Valid()
    ensures Did(command, a, m.workspace.share, old(m.workspace.tree), old(m.windows.model.contents.Keys),
                m.workspace.tree, m.windows.model.contents.Keys)
  {
    hide Opened, Closed, Manager.Valid;
    match command {
      case Open(size) =>
        var r := m.NewWindow(size);
        a := if r.None? then Refused else Made(r.value);
      case Close(window) =>
        var r := m.DestroyWindow(window);
        a := Done(r);
    }
  }

  /** Every session: the answers and the trees are those of a history that starts with nothing and stops at
      the first panic only.  At its end the tree holds exactly the open windows, the stored path of each
      leads to its own leaf, and n > 0 windows take 2n - 1 nodes. */
  method RunSession(commands: seq<Command>, cut: Cut, share: Share)
    returns (m: Manager, answers: seq<Answer>, ghost trees: seq<Option<Tree>>, ghost opens: seq<set<Handle>>)
    ensures m.Valid() && History(commands, answers, share, trees, opens)
    ensures |answers| == |commands| || (answers != [] && Panics(answers[|answers| - 1]))
    ensures trees[|answers|] == m.workspace.tree && opens[|answers|] == m.windows.model.contents.Keys
    ensures forall h :: h in m.windows.model.contents ==>
              && m.workspace.tree.Some? && h in Windows(m.workspace.tree.value)
              && Walk(m.workspace.tree.value, PathIter(32, m.windows.model.contents[h].path))
                 == Some(PathTo(m.workspace.tree.value, h))
    ensures m.windows.model.contents != map[] ==>
              |m.workspace.nodes.model.contents| == 2 * |m.windows.model.contents| - 1
  {
    m := new Manager(cut, share);
    answers, trees, opens := [], [None], [{}];
    assert m.windows.model.contents.Keys == {} by {
      assert m.windows.model.contents == map[];
    }
    var stopped := false;
    hide A.Arena.Valid, TreeValid, PathsAgree, Walk, Encode, Did, Windows;
    while |answers| < |commands| && !stopped
      invariant m.Valid() && fresh(m) && fresh(m.windows) && fresh(m.workspace) && fresh(m.workspace.nodes)
      invariant m.workspace.share == share
      invariant History(commands, answers, share, trees, opens)
      invariant trees[|answers|] == m.workspace.tree && opens[|answers|] == m.windows.model.contents.Keys
      invariant stopped <==> answers != [] && Panics(answers[|answers| - 1])
      decreases |commands| - |answers|
    {
      var a := Perform(m, commands[|answers|]);
      MoreHistory(commands, answers, share, trees, opens, a, m.workspace.tree, m.windows.model.contents.Keys);
      stopped := Panics(a);
      answers, trees, opens := answers + [a], trees + [m.workspace.tree], opens + [m.windows.model.contents.Keys];
    }
    SessionFacts(m.workspace.nodes.model.contents, m.workspace.root, m.workspace.tree, m.windows.model.contents);
  }

  lemma SessionFacts(nodes: map<Handle, Node>, root: Handle, tree: Option<Tree>, windows: map<Handle, Window>)
    requires TreeValid(nodes, root, tree) && Agree(tree, windows)
    ensures forall h :: h in windows ==>
              tree.Some? && h in Windows(tree.value) && Walk(tree.value, PathIter(32, windows[h].path)) == Some(PathTo(tree.value, h))
    ensures windows != map[] ==> |nodes| == 2 * |windows| - 1
  {
    hide Represents, Proper, Handles, PathsAgree, Walk, Encode;
    if tree.Some? {
      forall h | h in windows
        ensures Walk(tree.value, PathIter(32, windows[h].path)) == Some(PathTo(tree.value, h))
      {
        StoredPathIsExact(tree.value, windows, h);
      }
      NodeCount(tree.value);
      assert |nodes| == |nodes.Keys| && |windows| == |windows.Keys|;
    }
  }

  // ---- The two panics ----

  lemma OnesReach(t: Tree)
    ensures Reaches(t, Ones(RightDepth(t))) && Sub(t, Ones(RightDepth(t))).Tip?
    decreases t
  {
    if t.Fork? {
      OnesReach(t.right);
      assert Ones(RightDepth(t))[1..] == Ones(RightDepth(t.right));
    }
  }

  lemma {:induction false} GraftDeepens(t: Tree, s: Tree)
    ensures Reaches(t, Ones(RightDepth(t)))
    ensures RightDepth(Graft(t, Ones(RightDepth(t)), s)) == RightDepth(t) + RightDepth(s)
    decreases t
  {
    OnesReach(t);
    if t.Fork? {
      GraftDeepens(t.right, s);
      assert Ones(RightDepth(t))[1..] == Ones(RightDepth(t.right));
    }
  }

  /** Every new window goes below the one before it. */
  lemma OpenedDeepens(tree: Option<Tree>, window: Handle, share: Share, size: Size, tree': Option<Tree>)
    requires Opened(tree, window, share, size, tree')
    ensures tree'.Some? && RightDepth(tree'.value) == if tree.None? then 0 else RightDepth(tree.value) + 1
  {
    if tree.Some? {
      var t, bits := tree.value, Ones(RightDepth(tree.value));
      var way := Chosen(None, AreaAt(share, t, size, bits));
      var first, second :|
        tree'.value == Graft(t, bits, Pair(Sub(t, bits).at, first, Sub(t, bits).window, second, window, Second(way), Vertical(way), 0));
      GraftDeepens(t, Pair(Sub(t, bits).at, first, Sub(t, bits).window, second, window, Second(way), Vertical(way), 0));
    }
  }

  /** When windows are only opened, exactly the first 24 calls succeed. */
  lemma {:induction false} OpensDeepen(commands: seq<Command>, answers: seq<Answer>, share: Share,
                                       trees: seq<Option<Tree>>, opens: seq<set<Handle>>, n: nat)
    requires History(commands, answers, share, trees, opens) && n <= |answers|
    requires forall i :: 0 <= i < |commands| ==> commands[i].Open?
    ensures n <= MAX_DEPTH + 1 ==>
              && (if n == 0 then trees[n] == None else trees[n].Some? && RightDepth(trees[n].value) == n - 1)
              && (forall i :: 0 <= i < n ==> answers[i].Made?)
    ensures n <= MAX_DEPTH + 2
    ensures n == MAX_DEPTH + 2 ==> answers[n - 1] == Refused
    decreases n
  {
    hide Opened;
    if n > 0 {
      OpensDeepen(commands, answers, share, trees, opens, n - 1);
      var i := n - 1;
      assert Did(commands[i], answers[i], share, trees[i], opens[i], trees[i + 1], opens[i + 1]);
      if i <= MAX_DEPTH {
        OpenedDeepens(trees[i], answers[i].window, share, commands[i].size, trees[i + 1]);
      } else {
        assert i == MAX_DEPTH + 1;
      }
    }
  }

  /** The 25th window. */
  method TooManyWindows(size: Size, cut: Cut, share: Share) returns (answers: seq<Answer>)
    ensures |answers| == 25 && answers[24] == Refused && forall i :: 0 <= i < 24 ==> answers[i].Made?
  {
    hide Did;
    var commands := seq(25, _ => Open(size));
    var m;
    ghost var trees, opens;
    m, answers, trees, opens := RunSession(commands, cut, share);
    OpensDeepen(commands, answers, share, trees, opens, |answers|);
    assert |answers| == 25;
    OpensDeepen(commands, answers, share, trees, opens, 24);
  }

  /** The only window. */
  method DestroyOnlyWindow(size: Size, cut: Cut, share: Share) returns (r: DestroyResult)
    ensures r == Panicked
  {
    var m := new Manager(cut, share);
    assert m.windows.model.contents == map[];
    var w := m.NewWindow(size);
    assert m.windows.model.contents.Keys == {w.value};
    r := m.DestroyWindow(w.value);
  }
}
