/** The linter's walk over a syntax tree with a cursor: down, sideways, or up until one can go sideways. */
module TreeWalk {
  import opened Options
  import opened Syntax

  /** A position in a tree: the child to take at each level. */
  type Path = seq<nat>

  predicate ValidPath(n: Node, p: Path) {
    p == [] || (p[0] < |n.children| && ValidPath(n.children[p[0]], p[1..]))
  }

  function NodeAt(n: Node, p: Path): Node
    requires ValidPath(n, p)
  {
    if p == [] then n else NodeAt(n.children[p[0]], p[1..])
  }

  /** The positions of the tree below `at`, in document order. */
  function Preorder(n: Node, at: Path): seq<Path>
    decreases n, |n.children| + 1
  {
    [at] + PreorderFrom(n, at, 0)
  }

  function PreorderFrom(n: Node, at: Path, i: nat): seq<Path>
    requires i <= |n.children|
    decreases n, |n.children| - i
  {
    if i == |n.children| then []
    else Preorder(n.children[i], at + [i]) + PreorderFrom(n, at, i + 1)
  }

  /** Document order: an ancestor first, then what is in an earlier branch. */
  predicate DocumentBefore(a: Path, b: Path) {
    b != [] && (a == [] || a[0] < b[0] || (a[0] == b[0] && DocumentBefore(a[1..], b[1..])))
  }

  lemma {:induction false} ShiftBefore(at: Path, a: Path, b: Path)
    ensures DocumentBefore(at + a, at + b) <==> DocumentBefore(a, b)
  {
    if at == [] {
      assert at + a == a && at + b == b;
    } else {
      ShiftBefore(at[1..], a, b);
      assert (at + a)[1..] == at[1..] + a && (at + b)[1..] == at[1..] + b;
    }
  }

  /** `p` is `at` followed by a position of `n`, in a branch from `i` on. */
  predicate Extends(n: Node, at: Path, i: nat, p: Path) {
    |p| > |at| && p[..|at|] == at && p[|at|] >= i && ValidPath(n, p[|at|..])
  }

  /** The preorder has exactly the positions of the tree. */
  lemma {:induction false} PreorderHasAll(n: Node, at: Path, p: Path)
    ensures p in Preorder(n, at) <==> at <= p && ValidPath(n, p[|at|..])
    decreases n, |n.children| + 1
  {
    PreorderFromHasAll(n, at, 0, p);
    if at <= p && |p| == |at| {
      assert p == at;
    }
  }

  lemma {:induction false} PreorderFromHasAll(n: Node, at: Path, i: nat, p: Path)
    requires i <= |n.children|
    ensures p in PreorderFrom(n, at, i) <==> Extends(n, at, i, p)
    decreases n, |n.children| - i
  {
    if i >= |n.children| {
    } else {
      PreorderHasAll(n.children[i], at + [i], p);
      PreorderFromHasAll(n, at, i + 1, p);
      if |p| > |at| {
        assert p[..|at| + 1] == p[..|at|] + [p[|at|]];
        assert p[|at|..][1..] == p[|at| + 1..];
        assert at + [i] <= p <==> p[..|at|] == at && p[|at|] == i;
      }
    }
  }

  ghost predicate InOrder(paths: seq<Path>) {
    forall j, k :: 0 <= j < k < |paths| ==> DocumentBefore(paths[j], paths[k])
  }

  /** The preorder is in document order; so no position comes twice. */
  lemma {:induction false} PreorderIsOrdered(n: Node, at: Path)
    ensures InOrder(Preorder(n, at))
    decreases n, |n.children| + 1
  {
    PreorderFromIsOrdered(n, at, 0);
    var rest := PreorderFrom(n, at, 0);
    forall k | 0 <= k < |rest|
      ensures DocumentBefore(at, rest[k])
    {
      PreorderFromHasAll(n, at, 0, rest[k]);
      ShiftBefore(at, [], rest[k][|at|..]);
      assert at + [] == at && at + rest[k][|at|..] == rest[k];
    }
  }

  lemma {:induction false} PreorderFromIsOrdered(n: Node, at: Path, i: nat)
    requires i <= |n.children|
    ensures InOrder(PreorderFrom(n, at, i))
    decreases n, |n.children| - i
  {
    if i >= |n.children| {
    } else {
      PreorderIsOrdered(n.children[i], at + [i]);
      PreorderFromIsOrdered(n, at, i + 1);
      var first, rest := Preorder(n.children[i], at + [i]), PreorderFrom(n, at, i + 1);
      forall j, k | 0 <= j < |first| && 0 <= k < |rest|
        ensures DocumentBefore(first[j], rest[k])
      {
        PreorderHasAll(n.children[i], at + [i], first[j]);
        PreorderFromHasAll(n, at, i + 1, rest[k]);
        var a, b := first[j][|at|..], rest[k][|at|..];
        assert first[j][..|at| + 1][..|at|] == at;
        assert first[j] == at + a && rest[k] == at + b && a[0] == i;
        ShiftBefore(at, a, b);
      }
    }
  }

  lemma {:induction false} NeverBeforeItself(a: Path)
    ensures !DocumentBefore(a, a)
  {
    if a == [] {
    } else {
      NeverBeforeItself(a[1..]);
    }
  }

  // ---------------------------------------------------------------------- the cursor

  lemma {:induction false} StepDown(n: Node, p: Path, i: nat)
    requires ValidPath(n, p)
    ensures ValidPath(n, p + [i]) <==> i < |NodeAt(n, p).children|
    ensures i < |NodeAt(n, p).children| ==> NodeAt(n, p + [i]) == NodeAt(n, p).children[i]
  {
    if p == [] {
      assert p + [i] == [i] && [i][1..] == [];
    } else {
      StepDown(n.children[p[0]], p[1..], i);
      assert (p + [i])[1..] == p[1..] + [i];
    }
  }

  lemma {:induction false} StepUp(n: Node, p: Path)
    requires ValidPath(n, p) && p != []
    ensures ValidPath(n, p[..|p| - 1]) && p[|p| - 1] < |NodeAt(n, p[..|p| - 1]).children|
    ensures NodeAt(n, p) == NodeAt(n, p[..|p| - 1]).children[p[|p| - 1]]
  {
    if |p| > 1 {
      StepUp(n.children[p[0]], p[1..]);
      assert p[1..][..|p| - 2] == p[..|p| - 1][1..];
    } else {
      assert p[1..] == [] && p[..0] == [];
    }
  }

  /** A cursor that never leaves the tree below its start. */
  class TreeCursor {
    const root: Node
    var path: Path

    predicate Valid()
      reads `path
    {
      ValidPath(root, path)
    }

    constructor (root: Node)
      ensures this.root == root && path == [] && Valid()
    {
      this.root := root;
      path := [];
    }

    function Current(): Node
      requires Valid()
      reads `path
    {
      NodeAt(root, path)
    }

    method GotoFirstChild() returns (moved: bool)
      requires Valid()
      modifies `path
      ensures Valid()
      ensures moved <==> old(Current()).children != []
      ensures path == if moved then old(path) + [0] else old(path)
    {
      StepDown(root, path, 0);
      moved := Current().children != [];
      if moved {
        path := path + [0];
      }
    }

    method GotoNextSibling() returns (moved: bool)
      requires Valid()
      modifies `path
      ensures Valid()
      ensures moved <==> old(path) != [] && ValidPath(root, Next(old(path)))
      ensures path == if moved then Next(old(path)) else old(path)
    {
      if path == [] {
        return false;
      }
      StepUp(root, path);
      var up, i := path[..|path| - 1], path[|path| - 1];
      StepDown(root, up, i + 1);
      moved := i + 1 < |NodeAt(root, up).children|;
      if moved {
        path := up + [i + 1];
      }
    }

    method GotoParent() returns (moved: bool)
      requires Valid()
      modifies `path
      ensures Valid()
      ensures moved <==> old(path) != []
      ensures path == if moved then old(path)[..|old(path)| - 1] else old(path)
    {
      if path == [] {
        return false;
      }
      StepUp(root, path);
      path := path[..|path| - 1];
      return true;
    }
  }

  /** The same level, one further. */
  function Next(p: Path): Path
    requires p != []
  {
    p[..|p| - 1] + [p[|p| - 1] + 1]
  }

  // ------------------------------------------------------------------------ the walk

  datatype Stage = Ast | Reflection | ControlFlow | Ir

  /** A rule's stage and whether the active experimental target lets it run. */
  datatype Rule = Rule(stage: Stage, enabled: bool)

  /** One call of a rule at a position. */
  datatype Call = Call(rule: nat, at: Path)

  predicate Dispatched(rules: seq<Rule>, r: nat) {
    r < |rules| && rules[r].stage.Ast? && rules[r].enabled
  }

  /** The calls at one position, in rule order, by the first `k` rules. */
  function CallsAt(rules: seq<Rule>, at: Path, k: nat): seq<Call>
    requires k <= |rules|
  {
    if k == 0 then []
    else CallsAt(rules, at, k - 1) + if Dispatched(rules, k - 1) then [Call(k - 1, at)] else []
  }

  function Calls(rules: seq<Rule>, root: Node, paths: seq<Path>): seq<Call>
    requires forall k :: 0 <= k < |paths| ==> ValidPath(root, paths[k])
  {
    if paths == [] then []
    else
      var p := paths[|paths| - 1];
      Calls(rules, root, paths[..|paths| - 1]) + if NodeAt(root, p).named then CallsAt(rules, p, |rules|) else []
  }

  /** What the preorder has after the subtree at `p`. */
  function After(root: Node, p: Path): seq<Path>
    requires ValidPath(root, p)
  {
    if p == [] then []
    else
      var up, i := p[..|p| - 1], p[|p| - 1];
      (StepUp(root, p); PreorderFrom(NodeAt(root, up), up, i + 1) + After(root, up))
  }

  lemma AfterIs(root: Node, p: Path)
    requires ValidPath(root, p) && p != []
    ensures ValidPath(root, p[..|p| - 1]) && p[|p| - 1] < |NodeAt(root, p[..|p| - 1]).children|
    ensures var up, i := p[..|p| - 1], p[|p| - 1];
            After(root, p) == PreorderFrom(NodeAt(root, up), up, i + 1) + After(root, up)
  {
    StepUp(root, p);
  }

  /** Going down: the subtree is the node, its first child's subtree and what comes after that. */
  lemma DescendKeeps(root: Node, p: Path)
    requires ValidPath(root, p)
    requires NodeAt(root, p).children != []
    ensures ValidPath(root, p + [0])
    ensures Preorder(NodeAt(root, p), p) + After(root, p) ==
            [p] + (Preorder(NodeAt(root, p + [0]), p + [0]) + After(root, p + [0]))
  {
    hide Preorder, PreorderFrom, After, NodeAt, ValidPath;
    StepDown(root, p, 0);
    var q, n := p + [0], NodeAt(root, p);
    AfterIs(root, q);
    assert q[..|q| - 1] == p && q[|q| - 1] == 0;
    FirstChildFirst(n, p);
  }

  lemma FirstChildFirst(n: Node, p: Path)
    requires n.children != []
    ensures Preorder(n, p) == [p] + (Preorder(n.children[0], p + [0]) + PreorderFrom(n, p, 1))
  {
  }

  /** Going sideways: what comes after a subtree starts with the next sibling's. */
  lemma SidewaysKeeps(root: Node, p: Path)
    requires ValidPath(root, p) && p != [] && ValidPath(root, Next(p))
    ensures After(root, p) == Preorder(NodeAt(root, Next(p)), Next(p)) + After(root, Next(p))
  {
    var q := Next(p);
    hide Preorder, PreorderFrom, After, NodeAt, ValidPath;
    var up, i := p[..|p| - 1], p[|p| - 1];
    AfterIs(root, p);
    AfterIs(root, q);
    assert q[..|q| - 1] == up && q[|q| - 1] == i + 1 && q == up + [i + 1];
    StepUp(root, q);
  }

  /** Going up from a last child: the same still comes after. */
  lemma UpKeeps(root: Node, p: Path)
    requires ValidPath(root, p) && p != [] && !ValidPath(root, Next(p))
    ensures ValidPath(root, p[..|p| - 1]) && After(root, p) == After(root, p[..|p| - 1])
  {
    AfterIs(root, p);
    StepDown(root, p[..|p| - 1], p[|p| - 1] + 1);
  }

  lemma LeafIs(n: Node, p: Path)
    requires n.children == []
    ensures Preorder(n, p) == [p]
  {
  }

  /** Calls the rules of the stage on a node. */
  method Dispatch(rules: seq<Rule>, at: Path) returns (calls: seq<Call>)
    ensures calls == CallsAt(rules, at, |rules|)
  {
    calls := [];
    for r := 0 to |rules|
      invariant calls == CallsAt(rules, at, r)
    {
      if !rules[r].stage.Ast? {
        continue;
      }
      if !rules[r].enabled {
        continue;
      }
      calls := calls + [Call(r, at)];
    }
  }

  /** Sideways, or up until one can go sideways: to where the rest of the preorder starts, if there is any. */
  method MoveOn(cursor: TreeCursor) returns (found: bool)
    requires cursor.Valid()
    modifies cursor`path
    ensures cursor.Valid()
    ensures !found ==> After(cursor.root, old(cursor.path)) == []
    ensures found ==>
              After(cursor.root, old(cursor.path)) == Preorder(cursor.Current(), cursor.path) + After(cursor.root, cursor.path)
  {
    ghost var from := cursor.path;
    ghost var up := cursor.path;
    found := cursor.GotoNextSibling();
    while !found
      invariant cursor.Valid() && ValidPath(cursor.root, up)
      invariant After(cursor.root, from) == After(cursor.root, up)
      invariant found ==> up != [] && cursor.path == Next(up)
      invariant !found ==> cursor.path == up && (up != [] ==> !ValidPath(cursor.root, Next(up)))
      decreases |up|, !found
    {
      if up != [] {
        UpKeeps(cursor.root, up);
      }
      var climbed := cursor.GotoParent();
      if !climbed {
        return false;
      }
      up := cursor.path;
      found := cursor.GotoNextSibling();
    }
    SidewaysKeeps(cursor.root, up);
  }

  /** What is left of the preorder when the cursor stands at `p`. */
  function Rest(root: Node, p: Path): seq<Path>
    requires ValidPath(root, p)
  {
    Preorder(NodeAt(root, p), p) + After(root, p)
  }

  /** One turn of the walk: the calls at the node, and on to the next in document order. */
  method Turn(cursor: TreeCursor, rules: seq<Rule>) returns (calls: seq<Call>, found: bool)
    requires cursor.Valid()
    modifies cursor`path
    ensures cursor.Valid()
    ensures calls == if NodeAt(cursor.root, old(cursor.path)).named then CallsAt(rules, old(cursor.path), |rules|) else []
    ensures Rest(cursor.root, old(cursor.path)) == [old(cursor.path)] + if found then Rest(cursor.root, cursor.path) else []
  {
    hide CallsAt, Preorder, After;
    ghost var here := cursor.path;
    calls := [];
    if cursor.Current().named {
      calls := Dispatch(rules, cursor.path);
    }
    found := cursor.GotoFirstChild();
    if found {
      DescendKeeps(cursor.root, here);
    } else {
      LeafIs(NodeAt(cursor.root, here), here);
      found := MoveOn(cursor);
    }
  }

  /** Every enabled AST rule is called on every named node, in document order; then the walk ends. */
  method Walk(root: Option<Node>, rules: seq<Rule>) returns (calls: seq<Call>)
    ensures root.None? ==> calls == []
    ensures root.Some? ==>
              && (forall k :: 0 <= k < |Preorder(root.value, [])| ==> ValidPath(root.value, Preorder(root.value, [])[k]))
              && calls == Calls(rules, root.value, Preorder(root.value, []))
  {
    if root.None? {
      return [];
    }
    PreorderIsValid(root.value);
    var cursor := new TreeCursor(root.value);
    calls := [];
    ghost var done: seq<Path> := [];
    hide Rest, CallsAt, Preorder, NodeAt;
    while true
      invariant cursor.root == root.value && cursor.Valid()
      invariant forall k :: 0 <= k < |done| ==> ValidPath(root.value, done[k])
      invariant calls == Calls(rules, root.value, done)
      invariant Preorder(root.value, []) == done + Rest(root.value, cursor.path)
      decreases |Rest(root.value, cursor.path)|
    {
      ghost var here := cursor.path;
      var more, found := Turn(cursor, rules);
      calls := calls + more;
      done := done + [here];
      if !found {
        return;
      }
    }
  }

  lemma PreorderIsValid(root: Node)
    ensures forall k :: 0 <= k < |Preorder(root, [])| ==> ValidPath(root, Preorder(root, [])[k])
  {
    forall k | 0 <= k < |Preorder(root, [])|
      ensures ValidPath(root, Preorder(root, [])[k])
    {
      var p := Preorder(root, [])[k];
      PreorderHasAll(root, [], p);
      assert p[0..] == p;
    }
  }

  // ---------------------------------------------------------------- what is called

  lemma {:induction false} CallsAtAre(rules: seq<Rule>, at: Path, k: nat, c: Call)
    requires k <= |rules|
    ensures c in CallsAt(rules, at, k) <==> c.at == at && c.rule < k && Dispatched(rules, c.rule)
  {
    if k == 0 {
    } else {
      CallsAtAre(rules, at, k - 1, c);
    }
  }

  lemma {:induction false} CallsAre(rules: seq<Rule>, root: Node, paths: seq<Path>, c: Call)
    requires forall k :: 0 <= k < |paths| ==> ValidPath(root, paths[k])
    ensures c in Calls(rules, root, paths) <==>
            c.at in paths && NodeAt(root, c.at).named && Dispatched(rules, c.rule)
  {
    if paths == [] {
    } else {
      var k := |paths| - 1;
      CallsAre(rules, root, paths[..k], c);
      CallsAtAre(rules, paths[k], |rules|, c);
      assert paths == paths[..k] + [paths[k]];
    }
  }

  /** Exactly the enabled AST rules are called, on exactly the named nodes. */
  lemma CalledExactly(rules: seq<Rule>, root: Node, c: Call)
    ensures (forall k :: 0 <= k < |Preorder(root, [])| ==> ValidPath(root, Preorder(root, [])[k]))
            && (c in Calls(rules, root, Preorder(root, [])) <==>
                ValidPath(root, c.at) && NodeAt(root, c.at).named
                && c.rule < |rules| && rules[c.rule].stage == Ast && rules[c.rule].enabled)
  {
    PreorderIsValid(root);
    CallsAre(rules, root, Preorder(root, []), c);
    PreorderHasAll(root, [], c.at);
    assert c.at[0..] == c.at;
  }

  /** Calls follow the document, and at one node the order of the rules; so none is made twice. */
  predicate CallBefore(c: Call, d: Call) {
    DocumentBefore(c.at, d.at) || (c.at == d.at && c.rule < d.rule)
  }

  ghost predicate CallsInOrder(calls: seq<Call>) {
    forall i, j :: 0 <= i < j < |calls| ==> CallBefore(calls[i], calls[j])
  }

  lemma {:induction false} CallsAtAreOrdered(rules: seq<Rule>, at: Path, k: nat)
    requires k <= |rules|
    ensures CallsInOrder(CallsAt(rules, at, k))
  {
    if k == 0 {
    } else {
      CallsAtAreOrdered(rules, at, k - 1);
      forall c | c in CallsAt(rules, at, k - 1)
        ensures c.at == at && c.rule < k - 1
      {
        CallsAtAre(rules, at, k - 1, c);
      }
    }
  }

  lemma {:induction false} CallsAreOrdered(rules: seq<Rule>, root: Node, paths: seq<Path>)
    requires (forall k :: 0 <= k < |paths| ==> ValidPath(root, paths[k])) && InOrder(paths)
    ensures CallsInOrder(Calls(rules, root, paths))
  {
    if paths == [] {
    } else {
      var k := |paths| - 1;
      var first, last := Calls(rules, root, paths[..k]), CallsAt(rules, paths[k], |rules|);
      CallsAreOrdered(rules, root, paths[..k]);
      CallsAtAreOrdered(rules, paths[k], |rules|);
      forall c, d | c in first && d in last
        ensures CallBefore(c, d)
      {
        CallsAre(rules, root, paths[..k], c);
        CallsAtAre(rules, paths[k], |rules|, d);
      }
      hide CallsInOrder;
      assert first + [] == first;
    }
  }

  /** No call of the walk is made twice, and they come in document order. */
  lemma CalledOnceInOrder(rules: seq<Rule>, root: Node, i: nat, j: nat)
    requires forall k :: 0 <= k < |Preorder(root, [])| ==> ValidPath(root, Preorder(root, [])[k])
    requires i < j < |Calls(rules, root, Preorder(root, []))|
    ensures var calls := Calls(rules, root, Preorder(root, []));
            CallBefore(calls[i], calls[j]) && calls[i] != calls[j]
  {
    PreorderIsOrdered(root, []);
    CallsAreOrdered(rules, root, Preorder(root, []));
    NeverBeforeItself(Calls(rules, root, Preorder(root, []))[i].at);
  }
}
