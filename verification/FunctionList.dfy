/** Which parts of a syntax tree are functions of their own, and which hold a syntax error, by position. */
module FunctionList {
  import opened Graph
  import opened Syntax
  import opened TreeWalk
  import CfgBuilder

  /** A function definition stands at `p`, and none above it. */
  ghost predicate OutermostAt(n: Node, p: Path) {
    && ValidPath(n, p) && NodeAt(n, p).kind.FunctionDefinition?
    && forall k: nat :: k < |p| && ValidPath(n, p[..k]) ==> !NodeAt(n, p[..k]).kind.FunctionDefinition?
  }

  /** The positions of the functions of `n`, which stands at `at`. */
  function FunctionPaths(n: Node, at: Path): seq<Path>
    decreases n, |n.children| + 1
  {
    if n.kind.FunctionDefinition? then [at] else FunctionPathsFrom(n, at, 0)
  }

  function FunctionPathsFrom(n: Node, at: Path, i: nat): seq<Path>
    requires i <= |n.children|
    decreases n, |n.children| - i
  {
    if i == |n.children| then [] else FunctionPaths(n.children[i], at + [i]) + FunctionPathsFrom(n, at, i + 1)
  }

  lemma {:induction false} PathsMatch(n: Node, at: Path)
    ensures |FunctionPaths(n, at)| == |CfgBuilder.FunctionsIn(n)|
    ensures forall k :: 0 <= k < |FunctionPaths(n, at)| ==>
              var p := FunctionPaths(n, at)[k];
              at <= p && ValidPath(n, p[|at|..]) && NodeAt(n, p[|at|..]) == CfgBuilder.FunctionsIn(n)[k]
    decreases n, |n.children| + 1
  {
    if n.kind.FunctionDefinition? {
    } else {
      PathsFromMatch(n, at, 0);
    }
  }

  lemma {:induction false} PathsFromMatch(n: Node, at: Path, i: nat)
    requires i <= |n.children|
    ensures |FunctionPathsFrom(n, at, i)| == |CfgBuilder.FunctionsInAll(n, i)|
    ensures forall k :: 0 <= k < |FunctionPathsFrom(n, at, i)| ==>
              var p := FunctionPathsFrom(n, at, i)[k];
              at <= p && ValidPath(n, p[|at|..]) && NodeAt(n, p[|at|..]) == CfgBuilder.FunctionsInAll(n, i)[k]
    decreases n, |n.children| - i
  {
    if i == |n.children| {
    } else {
      PathsMatch(n.children[i], at + [i]);
      PathsFromMatch(n, at, i + 1);
      var first := FunctionPaths(n.children[i], at + [i]);
      forall k | 0 <= k < |first|
        ensures at <= first[k] && ValidPath(n, first[k][|at|..]) && NodeAt(n, first[k][|at|..]) == CfgBuilder.FunctionsIn(n.children[i])[k]
      {
        Below(n, at, i, first[k]);
      }
    }
  }

  lemma Below(n: Node, at: Path, i: nat, p: Path)
    requires i < |n.children| && at + [i] <= p && ValidPath(n.children[i], p[|at| + 1..])
    ensures at <= p && ValidPath(n, p[|at|..]) && NodeAt(n, p[|at|..]) == NodeAt(n.children[i], p[|at| + 1..])
  {
    assert p[|at|] == (at + [i])[|at|] == i;
    assert p[|at|..][1..] == p[|at| + 1..];
    assert at == (at + [i])[..|at|] == p[..|at|];
  }

  lemma {:induction false} OutermostBelow(n: Node, i: nat, q: Path)
    requires i < |n.children| && !n.kind.FunctionDefinition?
    ensures OutermostAt(n, [i] + q) <==> OutermostAt(n.children[i], q)
  {
    var p := [i] + q;
    assert p[1..] == q;
    forall k: nat | 0 < k < |p|
      ensures ValidPath(n, p[..k]) <==> ValidPath(n.children[i], q[..k - 1])
      ensures ValidPath(n, p[..k]) ==> NodeAt(n, p[..k]) == NodeAt(n.children[i], q[..k - 1])
    {
      assert p[..k] == [i] + q[..k - 1] && p[..k][1..] == q[..k - 1];
    }
    assert p[..0] == [];
    if OutermostAt(n, p) {
      forall k: nat | k < |q| && ValidPath(n.children[i], q[..k])
        ensures !NodeAt(n.children[i], q[..k]).kind.FunctionDefinition?
      {
        assert k + 1 < |p| && ValidPath(n, p[..k + 1]);
      }
    }
  }

  lemma {:induction false} PathsHaveAll(n: Node, at: Path, q: Path)
    ensures at + q in FunctionPaths(n, at) <==> OutermostAt(n, q)
    decreases n, |n.children| + 1
  {
    if n.kind.FunctionDefinition? {
      assert at + q == at <==> q == [];
      assert OutermostAt(n, []);
      if q != [] {
        assert q[..0] == [] && ValidPath(n, q[..0]);
      }
    } else {
      PathsFromHaveAll(n, at, 0, q);
    }
  }

  lemma {:induction false} PathsFromHaveAll(n: Node, at: Path, i: nat, q: Path)
    requires i <= |n.children| && !n.kind.FunctionDefinition?
    ensures at + q in FunctionPathsFrom(n, at, i) <==> q != [] && q[0] >= i && OutermostAt(n, q)
    decreases n, |n.children| - i
  {
    if i == |n.children| {
    } else {
      PathsFromHaveAll(n, at, i + 1, q);
      PathsMatch(n.children[i], at + [i]);
      if q != [] && q[0] == i {
        assert q == [i] + q[1..] && at + q == (at + [i]) + q[1..];
        PathsHaveAll(n.children[i], at + [i], q[1..]);
        OutermostBelow(n, i, q[1..]);
      } else {
        StartsWithChild(at, i, q);
      }
    }
  }

  lemma StartsWithChild(at: Path, i: nat, q: Path)
    ensures at + [i] <= at + q <==> q != [] && q[0] == i
  {
    if q != [] {
      assert (at + q)[..|at| + 1] == at + [q[0]];
      assert (at + [i])[|at|] == i && (at + [q[0]])[|at|] == q[0];
    }
  }

  lemma {:induction false} PathsAreOrdered(n: Node, at: Path)
    ensures InOrder(FunctionPaths(n, at))
    decreases n, |n.children| + 1
  {
    if n.kind.FunctionDefinition? {
    } else {
      PathsFromAreOrdered(n, at, 0);
    }
  }

  lemma {:induction false} PathsFromAreOrdered(n: Node, at: Path, i: nat)
    requires i <= |n.children|
    ensures InOrder(FunctionPathsFrom(n, at, i))
    ensures forall p :: p in FunctionPathsFrom(n, at, i) ==> |p| > |at| && p[..|at|] == at && p[|at|] >= i
    decreases n, |n.children| - i
  {
    if i == |n.children| {
    } else {
      PathsAreOrdered(n.children[i], at + [i]);
      PathsMatch(n.children[i], at + [i]);
      PathsFromAreOrdered(n, at, i + 1);
      var first, rest := FunctionPaths(n.children[i], at + [i]), FunctionPathsFrom(n, at, i + 1);
      forall j | 0 <= j < |first|
        ensures |first[j]| > |at| && first[j][..|at|] == at && first[j][|at|] == i
      {
        assert (at + [i])[|at|] == i && (at + [i])[..|at|] == at;
      }
      forall j, k | 0 <= j < |first| && 0 <= k < |rest|
        ensures DocumentBefore(first[j], rest[k])
      {
        assert rest[k] in rest;
        ShiftBefore(at, first[j][|at|..], rest[k][|at|..]);
        assert at + first[j][|at|..] == first[j] && at + rest[k][|at|..] == rest[k];
      }
    }
  }

  /** The functions of a tree are its outermost function definitions, each once and in document order. */
  lemma FunctionsAreOutermost(root: Node) returns (paths: seq<Path>)
    ensures |paths| == |CfgBuilder.FunctionsIn(root)| && InOrder(paths)
    ensures forall p :: p in paths <==> OutermostAt(root, p)
    ensures forall k :: 0 <= k < |paths| ==> ValidPath(root, paths[k]) && CfgBuilder.FunctionsIn(root)[k] == NodeAt(root, paths[k])
  {
    paths := FunctionPaths(root, []);
    PathsMatch(root, []);
    PathsAreOrdered(root, []);
    forall p
      ensures p in paths <==> OutermostAt(root, p)
    {
      PathsHaveAll(root, [], p);
      assert [] + p == p;
    }
  }

  lemma {:induction false} ErrorStands(n: Node) returns (p: Path)
    requires HasError(n)
    ensures ValidPath(n, p) && NodeAt(n, p).isError
    decreases n
  {
    if n.isError {
      p := [];
    } else {
      var i :| 0 <= i < |n.children| && HasError(n.children[i]);
      var q := ErrorStands(n.children[i]);
      p := [i] + q;
      assert p[1..] == q;
    }
  }

  lemma {:induction false} ErrorCounts(n: Node, p: Path)
    requires ValidPath(n, p) && NodeAt(n, p).isError
    ensures HasError(n)
    decreases n
  {
    if p == [] {
    } else {
      ErrorCounts(n.children[p[0]], p[1..]);
    }
  }

  ghost predicate Broken(n: Node) {
    exists p :: ValidPath(n, p) && NodeAt(n, p).isError
  }

  /** A tree holds an error exactly when an error node stands somewhere in it. */
  lemma ErrorsAreAnywhere(n: Node)
    ensures HasError(n) <==> Broken(n)
  {
    if HasError(n) {
      var p := ErrorStands(n);
    }
    forall p | ValidPath(n, p) && NodeAt(n, p).isError
      ensures HasError(n)
    {
      ErrorCounts(n, p);
    }
  }

  /** The spans are those of the broken functions, at the places `from`, in this order. */
  ghost predicate SkippedFrom(nodes: seq<Node>, spans: seq<ByteSpan>, from: seq<nat>) {
    && |from| == |spans| && (forall j, k :: 0 <= j < k < |from| ==> from[j] < from[k])
    && (forall i: nat :: i in from <==> i < |nodes| && Broken(nodes[i]))
    && (forall k :: 0 <= k < |from| ==> from[k] < |nodes| && spans[k] == nodes[from[k]].Span())
  }

  /** Reported are the functions with an error, in order, each with its span. */
  lemma {:induction false} SkippedAre(nodes: seq<Node>) returns (from: seq<nat>)
    ensures SkippedFrom(nodes, CfgBuilder.Skipped(nodes), from)
  {
    hide HasError, SkippedFrom, Broken, CfgBuilder.Skipped;
    if nodes == [] {
      from := [];
      NothingSkipped();
    } else {
      var n := |nodes| - 1;
      var before := CfgBuilder.Skipped(nodes[..n]);
      from := SkippedAre(nodes[..n]);
      ErrorsAreAnywhere(nodes[n]);
      OneMoreSkipped(nodes[..n], nodes[n], before, from);
      assert nodes == nodes[..n] + [nodes[n]];
      SkippedLast(nodes);
      if HasError(nodes[n]) {
        from := from + [n];
      }
    }
  }

  lemma NothingSkipped()
    ensures SkippedFrom([], CfgBuilder.Skipped([]), [])
  {
  }

  lemma SkippedLast(nodes: seq<Node>)
    requires nodes != []
    ensures var n := |nodes| - 1;
            CfgBuilder.Skipped(nodes) ==
            if HasError(nodes[n]) then CfgBuilder.Skipped(nodes[..n]) + [nodes[n].Span()] else CfgBuilder.Skipped(nodes[..n])
  {
    hide HasError;
  }

  lemma OneMoreSkipped(nodes: seq<Node>, n: Node, spans: seq<ByteSpan>, from: seq<nat>)
    requires SkippedFrom(nodes, spans, from)
    ensures Broken(n) ==> SkippedFrom(nodes + [n], spans + [n.Span()], from + [|nodes|])
    ensures !Broken(n) ==> SkippedFrom(nodes + [n], spans, from)
  {
    hide Broken;
    assert forall k :: 0 <= k < |from| ==> from[k] in from;
    var more := from + [|nodes|];
    forall i: nat
      ensures i in more <==> i in from || i == |nodes|
    {
    }
  }
}
