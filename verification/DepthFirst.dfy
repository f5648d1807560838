/**
 The depth-first numbering that drives the dominator computation: an explicit stack of
 (block, next successor) pairs, blocks listed as they are finished, the list reversed.
 */
module DepthFirst {
  import opened Graph

  /**
   `tree[x]` is the depth-first tree path from the entry to `x`. The order lists every block the
   entry reaches, once; tree ancestors come first; and an edge that does not lead forward in the
   order leads to a tree ancestor of its source, or to the source itself.
   */
  ghost predicate DepthFirstOrder(g: Blocks, rpo: seq<nat>, tree: seq<seq<nat>>) {
    && |tree| == |g|
    && |rpo| > 0 && rpo[0] == 0
    && (forall i, j :: 0 <= i < j < |rpo| ==> rpo[i] != rpo[j])
    && (forall x: nat :: x in rpo <==> Reaches(g, 0, x))
    && (forall x: nat :: x in rpo ==> x < |g| && TreePath(g, tree, x))
    && (forall i, j :: 0 <= i < j < |rpo| ==> rpo[i] < |g| && rpo[j] !in tree[rpo[i]])
    && (forall i, j :: 0 <= j <= i < |rpo| && Edge(g, rpo[i], rpo[j]) ==> rpo[j] in tree[rpo[i]])
  }

  /** The tree path of `x` is a path of the graph, and its prefixes are the tree paths of their ends. */
  ghost predicate TreePath(g: Blocks, tree: seq<seq<nat>>, x: nat)
    requires |tree| == |g| && x < |g|
  {
    && PathFromTo(g, tree[x], 0, x)
    && forall k :: 0 <= k < |tree[x]| ==> tree[x][k] < |g| && tree[tree[x][k]] == tree[x][..k + 1]
  }

  function Nodes(stack: seq<(nat, nat)>): (r: seq<nat>)
    ensures |r| == |stack| && forall k :: 0 <= k < |r| ==> r[k] == stack[k].0
  {
    seq(|stack|, k requires 0 <= k < |stack| => stack[k].0)
  }

  /** The state of the search: blocks seen so far, finished blocks, open blocks, their tree paths. */
  datatype Search = Search(seen: seq<bool>, order: seq<nat>, stack: seq<(nat, nat)>, tree: seq<seq<nat>>)

  ghost predicate InRange(g: Blocks, s: Search) {
    && |s.seen| == |s.tree| == |g| > 0
    && s.seen[0]
    && (forall k :: 0 <= k < |s.stack| ==> s.stack[k].0 < |g| && s.stack[k].1 <= |g[s.stack[k].0].successors|)
    && (forall j :: 0 <= j < |s.order| ==> s.order[j] < |g|)
    && (s.stack != [] ==> s.stack[0].0 == 0)
    && (s.stack == [] ==> s.order != [] && s.order[|s.order| - 1] == 0)
  }

  /** A seen block is finished or open, not both, and listed once. */
  ghost predicate FinishedOrOpen(seen: seq<bool>, order: seq<nat>, open: seq<nat>) {
    && (forall i, j :: 0 <= i < j < |order| ==> order[i] != order[j])
    && (forall i, j :: 0 <= i < j < |open| ==> open[i] != open[j])
    && (forall j, k :: 0 <= j < |order| && 0 <= k < |open| ==> order[j] != open[k])
    && (forall x: nat :: x < |seen| ==> (seen[x] <==> x in order || x in open))
  }

  /** The open blocks form the tree path of the topmost. */
  ghost predicate OpenPath(open: seq<nat>, tree: seq<seq<nat>>) {
    forall k :: 0 <= k < |open| ==> open[k] < |tree| && tree[open[k]] == open[..k + 1]
  }

  ghost predicate TreePaths(g: Blocks, seen: seq<bool>, tree: seq<seq<nat>>)
    requires |seen| == |tree| == |g|
  {
    forall x: nat {:trigger TreePath(g, tree, x)} :: x < |g| && seen[x] ==> TreePath(g, tree, x) && OnSeen(seen, tree[x])
  }

  ghost predicate OnSeen(seen: seq<bool>, p: seq<nat>) {
    forall k :: 0 <= k < |p| ==> p[k] < |seen| && seen[p[k]]
  }

  /** Successors already tried are seen. */
  ghost predicate TriedAreSeen(g: Blocks, s: Search)
    requires InRange(g, s)
  {
    forall k, m :: 0 <= k < |s.stack| && 0 <= m < s.stack[k].1 && g[s.stack[k].0].successors[m] < |g| ==>
      s.seen[g[s.stack[k].0].successors[m]]
  }

  ghost predicate ListedBefore(order: seq<nat>, v: nat, j: nat) {
    exists m :: 0 <= m < j && m < |order| && order[m] == v
  }

  /** A successor of a finished block was finished before it or is a tree ancestor; ancestors finish later. */
  ghost predicate FinishedInOrder(g: Blocks, s: Search)
    requires InRange(g, s)
  {
    && (forall j: nat, v: nat :: j < |s.order| && Edge(g, s.order[j], v) ==>
          s.seen[v] && (ListedBefore(s.order, v, j) || v in s.tree[s.order[j]]))
    && (forall j: nat, v: nat {:trigger ListedBefore(s.order, v, j)} ::
          j < |s.order| && ListedBefore(s.order, v, j) ==> v !in s.tree[s.order[j]])
  }

  ghost predicate Searching(g: Blocks, s: Search) {
    && InRange(g, s)
    && FinishedOrOpen(s.seen, s.order, Nodes(s.stack))
    && OpenPath(Nodes(s.stack), s.tree)
    && TreePaths(g, s.seen, s.tree)
    && TriedAreSeen(g, s)
    && FinishedInOrder(g, s)
  }

  lemma Advance(g: Blocks, s: Search, s': Search)
    requires Searching(g, s) && s.stack != []
    requires var (node, k) := s.stack[|s.stack| - 1];
             && k < |g[node].successors|
             && (g[node].successors[k] < |g| ==> s.seen[g[node].successors[k]])
             && s' == s.(stack := s.stack[|s.stack| - 1 := (node, k + 1)])
    ensures Searching(g, s')
  {
    assert Nodes(s'.stack) == Nodes(s.stack);
    OrderFrame(g, s, s');
  }

  lemma NewTreePath(g: Blocks, seen: seq<bool>, tree: seq<seq<nat>>, node: nat, next: nat)
    requires |seen| == |tree| == |g| && TreePaths(g, seen, tree)
    requires node < |g| && seen[node] && next < |g| && !seen[next] && Edge(g, node, next)
    ensures TreePaths(g, seen[next := true], tree[next := tree[node] + [next]])
  {
    var tree' := tree[next := tree[node] + [next]];
    assert TreePath(g, tree, node);
    PathExtend(g, tree[node], 0, node, next);
    forall x: nat | x < |g| && seen[next := true][x]
      ensures TreePath(g, tree', x) && OnSeen(seen[next := true], tree'[x])
    {
      assert x != next ==> TreePath(g, tree, x);
      var p := if x == next then tree[node] else tree[x];
      forall k | 0 <= k < |tree'[x]|
        ensures tree'[x][k] < |g| && tree'[tree'[x][k]] == tree'[x][..k + 1]
      {
        if k < |p| {
          assert p[k] != next;
          assert tree'[x][k] == p[k] && tree[p[k]] == p[..k + 1] == tree'[x][..k + 1];
        }
      }
    }
  }

  lemma OpenOne(seen: seq<bool>, order: seq<nat>, open: seq<nat>, next: nat)
    requires FinishedOrOpen(seen, order, open) && next < |seen| && !seen[next]
    requires forall j :: 0 <= j < |order| ==> order[j] < |seen|
    requires forall k :: 0 <= k < |open| ==> open[k] < |seen|
    ensures FinishedOrOpen(seen[next := true], order, open + [next])
  {
    assert forall x: nat :: x in open + [next] <==> x in open || x == next;
    forall j | 0 <= j < |order|
      ensures order[j] != next
    {
      assert order[j] in order;
    }
    forall k | 0 <= k < |open|
      ensures open[k] != next
    {
      assert open[k] in open;
    }
  }

  lemma CloseOne(seen: seq<bool>, order: seq<nat>, open: seq<nat>, node: nat)
    requires FinishedOrOpen(seen, order, open + [node])
    ensures FinishedOrOpen(seen, order + [node], open)
  {
    var open' := open + [node];
    assert forall x: nat :: x in open' <==> x in open || x == node;
    assert forall x: nat :: x in order + [node] <==> x in order || x == node;
    forall k | 0 <= k < |open|
      ensures open[k] != node
    {
      assert open'[k] != open'[|open|];
    }
    forall i, j | 0 <= i < j < |open|
      ensures open[i] != open[j]
    {
      assert open'[i] != open'[j];
    }
    forall j, k | 0 <= j < |order| && 0 <= k < |open|
      ensures order[j] != open[k]
    {
      assert open'[k] == open[k];
    }
    forall j | 0 <= j < |order|
      ensures order[j] != node
    {
      assert open'[|open|] == node;
    }
  }

  lemma ExtendOpenPath(open: seq<nat>, tree: seq<seq<nat>>, next: nat)
    requires OpenPath(open, tree) && next < |tree| && next !in open
    ensures OpenPath(open + [next], tree[next := open + [next]])
  {
    forall k | 0 <= k < |open|
      ensures tree[open[k]] == (open + [next])[..k + 1]
    {
      assert open[..k + 1] == (open + [next])[..k + 1];
    }
  }

  lemma ShortenOpenPath(open: seq<nat>, tree: seq<seq<nat>>, k: nat)
    requires OpenPath(open, tree) && k <= |open|
    ensures OpenPath(open[..k], tree)
  {
    forall m | 0 <= m < k
      ensures tree[open[m]] == open[..k][..m + 1]
    {
      assert open[..k][..m + 1] == open[..m + 1];
    }
  }

  /** Finished blocks keep their standing while others are discovered. */
  lemma OrderFrame(g: Blocks, s: Search, s': Search)
    requires InRange(g, s) && InRange(g, s') && FinishedInOrder(g, s) && s'.order == s.order
    requires forall x: nat :: x < |g| && s.seen[x] ==> s'.seen[x]
    requires forall j :: 0 <= j < |s.order| ==> s'.tree[s.order[j]] == s.tree[s.order[j]]
    ensures FinishedInOrder(g, s')
  {
    forall j: nat, v: nat | j < |s.order| && Edge(g, s'.order[j], v)
      ensures s'.seen[v] && (ListedBefore(s'.order, v, j) || v in s'.tree[s'.order[j]])
    {
      assert Edge(g, s.order[j], v);
    }
  }

  /** Discovering `next` from the topmost open block. */
  ghost predicate Discovers(g: Blocks, s: Search, next: nat, s': Search)
    requires InRange(g, s) && s.stack != []
  {
    var (node, k) := s.stack[|s.stack| - 1];
    && k < |g[node].successors|
    && g[node].successors[k] == next < |g|
    && s' == Search(s.seen[next := true], s.order, s.stack[|s.stack| - 1 := (node, k + 1)] + [(next, 0)],
                    s.tree[next := s.tree[node] + [next]])
  }

  lemma DiscoveryInRange(g: Blocks, s: Search, next: nat, s': Search)
    requires InRange(g, s) && s.stack != [] && Discovers(g, s, next, s')
    ensures InRange(g, s')
    ensures Nodes(s'.stack) == Nodes(s.stack) + [next]
    ensures TriedAreSeen(g, s) ==> TriedAreSeen(g, s')
  {
  }

  lemma TopmostPath(open: seq<nat>, tree: seq<seq<nat>>)
    requires OpenPath(open, tree) && open != []
    ensures tree[open[|open| - 1]] == open
  {
    assert open[..|open|] == open;
  }

  lemma DiscoveryKeepsOrder(g: Blocks, s: Search, next: nat, s': Search)
    requires InRange(g, s) && s.stack != [] && Discovers(g, s, next, s')
    requires FinishedInOrder(g, s) && FinishedOrOpen(s.seen, s.order, Nodes(s.stack)) && !s.seen[next]
    ensures InRange(g, s') && FinishedInOrder(g, s')
  {
    DiscoveryInRange(g, s, next, s');
    forall j | 0 <= j < |s.order|
      ensures s.order[j] != next
    {
      assert s.order[j] in s.order;
    }
    OrderFrame(g, s, s');
  }

  lemma DiscoveryKeepsPaths(g: Blocks, s: Search, next: nat, s': Search)
    requires InRange(g, s) && s.stack != [] && Discovers(g, s, next, s') && !s.seen[next]
    requires FinishedOrOpen(s.seen, s.order, Nodes(s.stack))
    requires OpenPath(Nodes(s.stack), s.tree) && TreePaths(g, s.seen, s.tree)
    ensures InRange(g, s') && FinishedOrOpen(s'.seen, s'.order, Nodes(s'.stack))
    ensures OpenPath(Nodes(s'.stack), s'.tree) && TreePaths(g, s'.seen, s'.tree)
  {
    var open := Nodes(s.stack);
    var node := open[|open| - 1];
    DiscoveryInRange(g, s, next, s');
    OpenOne(s.seen, s.order, open, next);
    assert node in open && s.seen[node] && next !in open;
    TopmostPath(open, s.tree);
    ExtendOpenPath(open, s.tree, next);
    NewTreePath(g, s.seen, s.tree, node, next);
  }

  lemma Push(g: Blocks, s: Search, next: nat, s': Search)
    requires Searching(g, s) && s.stack != [] && next < |g| && !s.seen[next]
    requires Discovers(g, s, next, s')
    ensures Searching(g, s')
  {
    DiscoveryInRange(g, s, next, s');
    DiscoveryKeepsOrder(g, s, next, s');
    DiscoveryKeepsPaths(g, s, next, s');
  }

  /** Finishing the topmost open block. */
  ghost predicate Finishes(g: Blocks, s: Search, s': Search)
    requires InRange(g, s) && s.stack != []
  {
    var (node, k) := s.stack[|s.stack| - 1];
    && k == |g[node].successors|
    && s' == s.(order := s.order + [node], stack := s.stack[..|s.stack| - 1])
  }

  lemma FinishInRange(g: Blocks, s: Search, s': Search)
    requires InRange(g, s) && s.stack != [] && Finishes(g, s, s')
    ensures InRange(g, s')
    ensures Nodes(s.stack) == Nodes(s'.stack) + [s.stack[|s.stack| - 1].0]
    ensures TriedAreSeen(g, s) ==> TriedAreSeen(g, s')
    ensures TriedAreSeen(g, s) ==> forall v: nat :: Edge(g, s.stack[|s.stack| - 1].0, v) ==> s.seen[v]
  {
  }

  lemma Finish(g: Blocks, s: Search, s': Search)
    requires Searching(g, s) && s.stack != []
    requires Finishes(g, s, s')
    ensures Searching(g, s')
  {
    var open, open' := Nodes(s.stack), Nodes(s'.stack);
    var node := s.stack[|s.stack| - 1].0;
    FinishInRange(g, s, s');
    assert s.tree[node] == open by { TopmostPath(open, s.tree); }
    assert FinishedOrOpen(s'.seen, s'.order, open') by {
      CloseOne(s.seen, s.order, open', node);
    }
    assert OpenPath(open', s'.tree) by {
      assert open' == open[..|open| - 1];
      ShortenOpenPath(open, s.tree, |open| - 1);
    }
    FinishKeepsOrder(g, s, s', node);
  }

  lemma FinishKeepsOrder(g: Blocks, s: Search, s': Search, node: nat)
    requires InRange(g, s) && InRange(g, s') && FinishedInOrder(g, s) && s'.seen == s.seen && s'.tree == s.tree
    requires node < |g| && s'.order == s.order + [node]
    requires forall v: nat :: Edge(g, node, v) ==> s.seen[v]
    requires forall v: nat :: v < |g| && s.seen[v] ==> v in s.order || v in s.tree[node]
    requires forall m :: 0 <= m < |s.order| ==> s.order[m] !in s.tree[node]
    ensures FinishedInOrder(g, s')
  {
    forall j: nat, v: nat | j < |s'.order|
      ensures ListedBefore(s'.order, v, j) <==> if j < |s.order| then ListedBefore(s.order, v, j) else v in s.order
    {
      if ListedBefore(s'.order, v, j) {
        var m :| 0 <= m < j && m < |s'.order| && s'.order[m] == v;
        assert s.order[m] == v;
      }
      if j < |s.order| && ListedBefore(s.order, v, j) {
        var m :| 0 <= m < j && m < |s.order| && s.order[m] == v;
        assert s'.order[m] == v;
      }
      if j == |s.order| && v in s.order {
        var m :| 0 <= m < |s.order| && s.order[m] == v;
        assert s'.order[m] == v;
      }
    }
    forall j: nat, v: nat | j < |s'.order| && Edge(g, s'.order[j], v)
      ensures s'.seen[v] && (ListedBefore(s'.order, v, j) || v in s'.tree[s'.order[j]])
    {
      if j < |s.order| {
        assert Edge(g, s.order[j], v);
      }
    }
  }

  lemma ReversedMembers(order: seq<nat>, rpo: seq<nat>)
    requires rpo == seq(|order|, i requires 0 <= i < |order| => order[|order| - 1 - i])
    ensures forall x: nat :: x in rpo <==> x in order
  {
    forall x: nat
      ensures x in rpo <==> x in order
    {
      if x in rpo {
        var k :| 0 <= k < |rpo| && rpo[k] == x;
        assert x == order[|order| - 1 - k];
      }
      if x in order {
        var j :| 0 <= j < |order| && order[j] == x;
        assert rpo[|order| - 1 - j] == x;
      }
    }
  }

  lemma EdgesInReversedOrder(g: Blocks, s: Search, rpo: seq<nat>)
    requires InRange(g, s) && FinishedInOrder(g, s)
    requires forall i, j :: 0 <= i < j < |s.order| ==> s.order[i] != s.order[j]
    requires rpo == seq(|s.order|, i requires 0 <= i < |s.order| => s.order[|s.order| - 1 - i])
    ensures forall i, j :: 0 <= j <= i < |rpo| && Edge(g, rpo[i], rpo[j]) ==> rpo[j] in s.tree[rpo[i]]
    ensures forall i, j :: 0 <= i < j < |rpo| ==> rpo[j] !in s.tree[rpo[i]]
  {
    var n := |s.order|;
    forall i: nat, j: nat | j <= i < n && Edge(g, rpo[i], rpo[j])
      ensures rpo[j] in s.tree[rpo[i]]
    {
      assert Edge(g, s.order[n - 1 - i], rpo[j]);
      if ListedBefore(s.order, rpo[j], n - 1 - i) {
        assert false;
      }
    }
    forall i: nat, j: nat | i < j < n
      ensures rpo[j] !in s.tree[rpo[i]]
    {
      assert s.order[n - 1 - j] == rpo[j] && rpo[i] == s.order[n - 1 - i];
      assert ListedBefore(s.order, rpo[j], n - 1 - i);
    }
  }

  lemma SearchDone(g: Blocks, s: Search, rpo: seq<nat>)
    requires Searching(g, s) && s.stack == []
    requires rpo == seq(|s.order|, i requires 0 <= i < |s.order| => s.order[|s.order| - 1 - i])
    ensures DepthFirstOrder(g, rpo, s.tree)
  {
    ReversedMembers(s.order, rpo);
    SeenIsReachable(g, s);
    EdgesInReversedOrder(g, s, rpo);
    forall x: nat | x in rpo
      ensures x < |g| && TreePath(g, s.tree, x)
    {
      assert x < |g| && s.seen[x];
      assert TreePath(g, s.tree, x);
    }
  }

  lemma SeenIsReachable(g: Blocks, s: Search)
    requires Searching(g, s) && s.stack == []
    ensures forall x: nat :: Reaches(g, 0, x) <==> x < |g| && s.seen[x]
  {
    var seenSet := set x: nat | x < |g| && s.seen[x];
    forall u: nat, v: nat | u in seenSet && Edge(g, u, v)
      ensures v in seenSet
    {
      var j: nat :| j < |s.order| && s.order[j] == u;
      assert Edge(g, s.order[j], v);
    }
    forall x: nat
      ensures Reaches(g, 0, x) <==> x < |g| && s.seen[x]
    {
      if x < |g| && s.seen[x] {
        assert TreePath(g, s.tree, x);
      }
      if Reaches(g, 0, x) {
        var p :| PathFromTo(g, p, 0, x);
        ClosedTrapsPath(g, seenSet, p, |p| - 1);
      }
    }
  }

  lemma SearchStarts(g: Blocks, s: Search)
    requires g != []
    requires s == Search(seq(|g|, i => i == 0), [], [(0, 0)], seq(|g|, i => [0]))
    ensures Searching(g, s)
  {
    assert Nodes(s.stack) == [0];
    assert TreePath(g, s.tree, 0);
  }

  /** Successors of the topmost open block that are still to be tried. */
  ghost function Untried(g: Blocks, stack: seq<(nat, nat)>): int {
    if stack == [] || stack[|stack| - 1].0 >= |g| then 0
    else |g[stack[|stack| - 1].0].successors| - stack[|stack| - 1].1
  }

  method ComputeReversePostorder(g: Blocks) returns (rpo: seq<nat>, ghost tree: seq<seq<nat>>)
    ensures g == [] ==> rpo == []
    ensures g != [] ==> DepthFirstOrder(g, rpo, tree)
  {
    hide FinishedInOrder, TreePaths, OpenPath, FinishedOrOpen, TriedAreSeen;
    tree := seq(|g|, i => [0]);
    if |g| == 0 {
      return [], tree;
    }
    var seen := seq(|g|, i => i == 0);
    var order: seq<nat> := [];
    var stack: seq<(nat, nat)> := [(0, 0)];
    SearchStarts(g, Search(seen, order, stack, tree));
    while stack != []
      invariant Searching(g, Search(seen, order, stack, tree))
      decreases Unseen(seen), |stack|, Untried(g, stack)
    {
      ghost var s := Search(seen, order, stack, tree);
      var top := |stack| - 1;
      var (node, succIndex) := stack[top];
      var successors := g[node].successors;
      if succIndex < |successors| {
        var next := successors[succIndex];
        stack := stack[top := (node, succIndex + 1)];
        if next < |g| && !seen[next] {
          SeeingShrinks(seen, next);
          seen := seen[next := true];
          tree := tree[next := tree[node] + [next]];
          stack := stack + [(next, 0)];
          Push(g, s, next, Search(seen, order, stack, tree));
        } else {
          Advance(g, s, Search(seen, order, stack, tree));
        }
      } else {
        order := order + [node];
        stack := stack[..top];
        Finish(g, s, Search(seen, order, stack, tree));
      }
    }
    rpo := seq(|order|, i requires 0 <= i < |order| => order[|order| - 1 - i]);
    SearchDone(g, Search(seen, order, stack, tree), rpo);
  }
}
