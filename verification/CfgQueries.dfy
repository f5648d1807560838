/** The graph queries behind the public control-flow summary, each against its all-paths meaning. */
module CfgQueries {
  import opened Graph
  import opened CfgStorage

  // ------------------------------------------------------------ worklist search

  /** May a search step enter `v`? Searches that avoid barriers do not follow them. */
  predicate Enters(g: Blocks, avoidBarriers: bool, v: nat)
    requires v < |g|
  {
    !(avoidBarriers && g[v].containsBarrier)
  }

  /** A path none of whose blocks after the first has a barrier, if barriers are avoided. */
  ghost predicate SearchPath(g: Blocks, avoidBarriers: bool, p: seq<nat>, a: nat, b: nat) {
    && PathFromTo(g, p, a, b)
    && (avoidBarriers ==> forall k :: 1 <= k < |p| ==> p[k] < |g| && !g[p[k]].containsBarrier)
  }

  ghost predicate SearchReaches(g: Blocks, avoidBarriers: bool, a: nat, b: nat) {
    exists p :: SearchPath(g, avoidBarriers, p, a, b)
  }

  /** Every successor of `u` is seen, or is not entered. */
  ghost predicate Expanded(g: Blocks, avoidBarriers: bool, to: nat, seen: seq<bool>, u: nat)
    requires |seen| == |g|
  {
    forall v: nat :: Edge(g, u, v) ==> v != to && (seen[v] || !Enters(g, avoidBarriers, v))
  }

  /** Every seen block waits on the worklist or has been expanded. */
  ghost predicate Partitioned(g: Blocks, avoidBarriers: bool, to: nat, seen: seq<bool>, stack: seq<nat>, done: set<nat>)
    requires |seen| == |g|
  {
    && (forall x: nat :: x < |g| && seen[x] ==> x in stack || x in done)
    && (forall u: nat :: u in done ==> u < |g| && Expanded(g, avoidBarriers, to, seen, u))
  }

  ghost predicate Tried(g: Blocks, avoidBarriers: bool, to: nat, seen: seq<bool>, succs: seq<nat>)
    requires |seen| == |g|
  {
    forall v: nat :: v in succs && v < |g| ==> v != to && (seen[v] || !Enters(g, avoidBarriers, v))
  }

  ghost predicate Searched(g: Blocks, avoidBarriers: bool, from: nat, to: nat, seen: seq<bool>, stack: seq<nat>) {
    && |seen| == |g|
    && from < |g| && seen[from]
    && to < |g| && !seen[to]
    && (forall k :: 0 <= k < |stack| ==> stack[k] < |g| && seen[stack[k]])
    && (forall x: nat :: x < |g| && seen[x] ==> SearchReaches(g, avoidBarriers, from, x))
  }

  lemma SearchStep(g: Blocks, avoidBarriers: bool, from: nat, u: nat, v: nat)
    requires SearchReaches(g, avoidBarriers, from, u) && Edge(g, u, v) && Enters(g, avoidBarriers, v)
    ensures SearchReaches(g, avoidBarriers, from, v)
  {
    var p :| SearchPath(g, avoidBarriers, p, from, u);
    PathExtend(g, p, from, u, v);
    assert SearchPath(g, avoidBarriers, p + [v], from, v);
  }

  /** Once every seen block is expanded, no search path leaves the seen blocks. */
  lemma {:induction false} ExpandedTraps(g: Blocks, avoidBarriers: bool, from: nat, to: nat, seen: seq<bool>,
                                         p: seq<nat>, k: nat)
    requires |seen| == |g| && from < |g| && seen[from]
    requires forall u: nat :: u < |g| && seen[u] ==> Expanded(g, avoidBarriers, to, seen, u)
    requires IsPath(g, p) && p[0] == from && k < |p|
    requires avoidBarriers ==> forall m :: 1 <= m < |p| ==> p[m] < |g| && !g[p[m]].containsBarrier
    ensures p[k] < |g| && seen[p[k]]
  {
    if k == 0 {
    } else {
      ExpandedTraps(g, avoidBarriers, from, to, seen, p, k - 1);
      assert Edge(g, p[k - 1], p[k]);
    }
  }

  /**
   The depth-first worklist loop shared by the queries: is `to` reached from another block `from`,
   where barrier blocks are passed by when they are to be avoided? The sink itself is always
   noticed, barrier or not.
   */
  method Search(g: Blocks, avoidBarriers: bool, from: nat, to: nat) returns (found: bool)
    requires from < |g| && to < |g| && from != to
    requires Enters(g, avoidBarriers, to)
    ensures found <==> SearchReaches(g, avoidBarriers, from, to)
  {
    hide SearchReaches, Partitioned, Unseen, Tried;
    var seen := seq(|g|, i => false)[from := true];
    var stack: seq<nat> := [from];
    ghost var done: set<nat> := {};
    SearchStart(g, avoidBarriers, to, from, seen);
    while stack != []
      invariant Searched(g, avoidBarriers, from, to, seen, stack)
      invariant Partitioned(g, avoidBarriers, to, seen, stack, done)
      decreases Unseen(seen), |stack|
    {
      var cur := stack[|stack| - 1];
      assert stack == stack[..|stack| - 1] + [cur];
      stack := stack[..|stack| - 1];
      assert (stack + [cur])[..|stack|] == stack;
      Pop(g, avoidBarriers, to, seen, stack + [cur], done);
      ghost var seen0, stack0 := seen, stack;
      var succs := g[cur].successors;
      var k := 0;
      NothingTried(g, avoidBarriers, to, seen, succs[..0]);
      while k < |succs|
        invariant 0 <= k <= |succs|
        invariant Searched(g, avoidBarriers, from, to, seen, stack)
        invariant seen[cur] && Partitioned(g, avoidBarriers, to, seen, [cur] + stack, done)
        invariant Tried(g, avoidBarriers, to, seen, succs[..k])
        invariant Unseen(seen) < Unseen(seen0) || (seen == seen0 && stack == stack0)
      {
        var succ := succs[k];
        assert succs[..k + 1] == succs[..k] + [succ];
        k := k + 1;
        TryOne(g, avoidBarriers, to, seen, succs[..k - 1], succ);
        if succ >= |g| || seen[succ] {
          continue;
        }
        assert Edge(g, cur, succ);
        if succ == to {
          SearchStep(g, avoidBarriers, from, cur, succ);
          return true;
        }
        if avoidBarriers && g[succ].containsBarrier {
          continue;
        }
        SearchStep(g, avoidBarriers, from, cur, succ);
        Discover(g, avoidBarriers, to, seen, [cur] + stack, done, succ);
        assert [cur] + (stack + [succ]) == ([cur] + stack) + [succ];
        seen := seen[succ := true];
        stack := stack + [succ];
      }
      assert succs[..k] == succs;
      Expand(g, avoidBarriers, to, seen, cur, stack, done);
      done := done + {cur};
    }
    NothingLeft(g, avoidBarriers, from, to, seen, done);
    return false;
  }

  lemma NothingTried(g: Blocks, avoidBarriers: bool, to: nat, seen: seq<bool>, succs: seq<nat>)
    requires |seen| == |g| && succs == []
    ensures Tried(g, avoidBarriers, to, seen, succs)
  {
  }

  lemma TryOne(g: Blocks, avoidBarriers: bool, to: nat, seen: seq<bool>, succs: seq<nat>, succ: nat)
    requires |seen| == |g| && Tried(g, avoidBarriers, to, seen, succs)
    ensures succ >= |g| || (succ != to && (seen[succ] || !Enters(g, avoidBarriers, succ))) ==>
              Tried(g, avoidBarriers, to, seen, succs + [succ])
    ensures succ < |g| && succ != to ==> Tried(g, avoidBarriers, to, seen[succ := true], succs + [succ])
  {
  }

  lemma SearchStart(g: Blocks, avoidBarriers: bool, to: nat, from: nat, seen: seq<bool>)
    requires from < |g| && seen == seq(|g|, i => false)[from := true]
    ensures SearchReaches(g, avoidBarriers, from, from)
    ensures Partitioned(g, avoidBarriers, to, seen, [from], {})
  {
    assert SearchPath(g, avoidBarriers, [from], from, from);
  }

  lemma Pop(g: Blocks, avoidBarriers: bool, to: nat, seen: seq<bool>, stack: seq<nat>, done: set<nat>)
    requires |seen| == |g| && stack != [] && Partitioned(g, avoidBarriers, to, seen, stack, done)
    ensures Partitioned(g, avoidBarriers, to, seen, [stack[|stack| - 1]] + stack[..|stack| - 1], done)
  {
  }

  lemma Discover(g: Blocks, avoidBarriers: bool, to: nat, seen: seq<bool>, stack: seq<nat>, done: set<nat>, succ: nat)
    requires |seen| == |g| && succ < |g| && !seen[succ] && Partitioned(g, avoidBarriers, to, seen, stack, done)
    ensures Partitioned(g, avoidBarriers, to, seen[succ := true], stack + [succ], done)
    ensures Unseen(seen[succ := true]) < Unseen(seen)
  {
    SeeingShrinks(seen, succ);
  }

  lemma Expand(g: Blocks, avoidBarriers: bool, to: nat, seen: seq<bool>, cur: nat, stack: seq<nat>, done: set<nat>)
    requires |seen| == |g| && cur < |g| && Partitioned(g, avoidBarriers, to, seen, [cur] + stack, done)
    requires Tried(g, avoidBarriers, to, seen, g[cur].successors)
    ensures Partitioned(g, avoidBarriers, to, seen, stack, done + {cur})
  {
  }

  lemma NothingLeft(g: Blocks, avoidBarriers: bool, from: nat, to: nat, seen: seq<bool>, done: set<nat>)
    requires Searched(g, avoidBarriers, from, to, seen, []) && Partitioned(g, avoidBarriers, to, seen, [], done)
    ensures !SearchReaches(g, avoidBarriers, from, to)
  {
    if SearchReaches(g, avoidBarriers, from, to) {
      var p :| SearchPath(g, avoidBarriers, p, from, to);
      ExpandedTraps(g, avoidBarriers, from, to, seen, p, |p| - 1);
      assert false;
    }
  }

  // -------------------------------------------------------------------- queries

  /** Is there any path from `from` to `to`? A block out of range is on no path. */
  method Reachable(fn: CfgFunction, from: nat, to: nat) returns (r: bool)
    ensures r <==> Reaches(fn.blocks, from, to)
  {
    if from >= |fn.blocks| || to >= |fn.blocks| {
      OutOfRangeUnreachable(fn.blocks, from, to);
      return false;
    }
    if from == to {
      assert PathFromTo(fn.blocks, [from], from, to);
      return true;
    }
    r := Search(fn.blocks, false, from, to);
    AnyPathIsSearchPath(fn.blocks, from, to);
  }

  lemma OutOfRangeUnreachable(g: Blocks, from: nat, to: nat)
    requires from >= |g| || to >= |g|
    ensures !Reaches(g, from, to)
  {
    if Reaches(g, from, to) {
      var p :| PathFromTo(g, p, from, to);
      PathInRange(g, p);
    }
  }

  lemma AnyPathIsSearchPath(g: Blocks, from: nat, to: nat)
    ensures Reaches(g, from, to) <==> SearchReaches(g, false, from, to)
  {
    if Reaches(g, from, to) {
      var p :| PathFromTo(g, p, from, to);
      assert SearchPath(g, false, p, from, to);
    }
  }

  /** Some path leads from `a` to `b`, and each of them meets a barrier block after its first block. */
  ghost predicate BarrierOnEveryPath(g: Blocks, a: nat, b: nat) {
    && Reaches(g, a, b)
    && forall p :: PathFromTo(g, p, a, b) ==> exists k :: 1 <= k < |p| && p[k] < |g| && g[p[k]].containsBarrier
  }

  method BarrierSeparates(fn: CfgFunction, from: nat, to: nat) returns (r: bool)
    ensures r <==> from != to && BarrierOnEveryPath(fn.blocks, from, to)
  {
    if from >= |fn.blocks| || to >= |fn.blocks| {
      OutOfRangeUnreachable(fn.blocks, from, to);
      return false;
    }
    if from == to {
      return false;
    }
    var reachable := Search(fn.blocks, false, from, to);
    AnyPathIsSearchPath(fn.blocks, from, to);
    if !reachable {
      return false;
    }
    if fn.blocks[to].containsBarrier {
      assert forall p :: PathFromTo(fn.blocks, p, from, to) ==> p[|p| - 1] == to;
      return true;
    }
    var found := Search(fn.blocks, true, from, to);
    BarrierFreePaths(fn.blocks, from, to);
    return !found;
  }

  /** The same with barriers in the first block counted too. */
  ghost predicate BarrierAnywhereOnPaths(g: Blocks, a: nat, b: nat) {
    Reaches(g, a, b) && forall p :: PathFromTo(g, p, a, b) ==> MeetsBarrier(g, p)
  }

  ghost predicate MeetsBarrier(g: Blocks, p: seq<nat>) {
    exists k :: 0 <= k < |p| && p[k] < |g| && g[p[k]].containsBarrier
  }

  /**
   The two agree on a first block without a barrier; one with a barrier would separate it from all it
   reaches. They differ exactly when the first block has the only barrier on some path.
   */
  lemma FirstBlockDecides(g: Blocks, a: nat, b: nat)
    requires a < |g|
    ensures !g[a].containsBarrier ==> (BarrierAnywhereOnPaths(g, a, b) <==> BarrierOnEveryPath(g, a, b))
    ensures g[a].containsBarrier ==> (BarrierAnywhereOnPaths(g, a, b) <==> Reaches(g, a, b))
    ensures BarrierAnywhereOnPaths(g, a, b) != BarrierOnEveryPath(g, a, b) <==>
              g[a].containsBarrier && SearchReaches(g, true, a, b)
  {
    if Reaches(g, a, b) {
      BarrierFreePaths(g, a, b);
    }
    forall p | PathFromTo(g, p, a, b)
      ensures g[a].containsBarrier ==> MeetsBarrier(g, p)
      ensures !g[a].containsBarrier ==>
                (MeetsBarrier(g, p) <==> exists k :: 1 <= k < |p| && p[k] < |g| && g[p[k]].containsBarrier)
    {
      assert p[0] == a;
    }
  }

  /** A concrete graph on which they differ. */
  lemma FirstBarrierDoesNotCount()
    ensures var first := BasicBlock(ByteSpan(0, 1), [1], [], true, false, false, false);
            var g := [first, BasicBlock(ByteSpan(1, 2), [], [], false, false, true, false)];
            BarrierAnywhereOnPaths(g, 0, 1) && !BarrierOnEveryPath(g, 0, 1)
  {
    var first := BasicBlock(ByteSpan(0, 1), [1], [], true, false, false, false);
    var g := [first, BasicBlock(ByteSpan(1, 2), [], [], false, false, true, false)];
    FirstBlockDecides(g, 0, 1);
    assert Edge(g, 0, 1);
    assert PathFromTo(g, [0, 1], 0, 1);
  }

  lemma BarrierFreePaths(g: Blocks, from: nat, to: nat)
    requires Reaches(g, from, to)
    ensures BarrierOnEveryPath(g, from, to) <==> !SearchReaches(g, true, from, to)
  {
    if SearchReaches(g, true, from, to) {
      var p :| SearchPath(g, true, p, from, to);
      assert PathFromTo(g, p, from, to);
    } else {
      forall p | PathFromTo(g, p, from, to)
        ensures exists k :: 1 <= k < |p| && p[k] < |g| && g[p[k]].containsBarrier
      {
        PathInRange(g, p);
        assert !SearchPath(g, true, p, from, to);
      }
    }
  }

  /** The blocks passed so far lie strictly below `cur`, and whether `a` dominates is still open at `cur`. */
  ghost predicate ChainOfDominators(g: Blocks, a: nat, b: nat, cur: nat, passed: set<nat>) {
    && Reaches(g, 0, cur)
    && Dominates(g, cur, b)
    && (Dominates(g, a, b) <==> Dominates(g, a, cur))
    && (forall x: nat :: x in passed ==> x < |g| && x != cur && Dominates(g, cur, x))
  }

  /** Dominance for every reachable block; for an unreachable one, only the block itself and the entry. */
  ghost predicate DominanceAnswer(g: Blocks, a: nat, b: nat) {
    if Reaches(g, 0, b) then Dominates(g, a, b) else a == b || a == 0
  }

  /** That is dominance exactly for the reachable blocks, and for the block itself and the entry. */
  lemma AnswerIsDominance(g: Blocks, a: nat, b: nat)
    ensures DominanceAnswer(g, a, b) ==> Dominates(g, a, b)
    ensures (DominanceAnswer(g, a, b) <==> Dominates(g, a, b)) <==> Reaches(g, 0, b) || a == b || a == 0
  {
  }

  /**
   Does `a` appear on the parent chain of `b`? With the parents the dominator computation leaves,
   that is dominance for every reachable `b`; an unreachable block hangs below the entry, so its
   answer misses all dominators but itself and the entry. A function whose table was never
   computed answers for the entry only.
   */
  method DominatesQuery(fn: CfgFunction, a: nat, b: nat) returns (r: bool)
    requires |fn.idom| == |fn.blocks| ==> ImmediateDominators(fn.blocks, fn.idom)
    ensures a >= |fn.blocks| || b >= |fn.blocks| ==> !r
    ensures a < |fn.blocks| && b < |fn.blocks| && |fn.idom| != |fn.blocks| ==> r == (a == 0)
    ensures a < |fn.blocks| && b < |fn.blocks| && |fn.idom| == |fn.blocks| ==>
              && r == DominanceAnswer(fn.blocks, a, b)
              && (!Reaches(fn.blocks, 0, b) ==> Dominates(fn.blocks, a, b))
  {
    if a >= |fn.blocks| || b >= |fn.blocks| {
      return false;
    }
    if |fn.idom| != |fn.blocks| {
      return a == 0;
    }
    ghost var g := fn.blocks;
    var cur: nat := b;
    var guard := 0;
    ghost var passed: set<nat> := {};
    while guard < |fn.blocks| + 1
      invariant guard <= |fn.blocks| + 1 && cur < |g| && a < |g|
      invariant Reaches(g, 0, b) ==> ChainOfDominators(g, a, b, cur, passed) && |passed| == guard
      invariant !Reaches(g, 0, b) ==> (guard == 0 && cur == b) || (guard == 1 && cur == 0 && a != b)
    {
      if cur == a {
        return true;
      }
      var parent := fn.idom[cur];
      if parent == cur {
        EntryChainEnds(g, fn.idom, cur);
        return a == cur;
      }
      if Reaches(g, 0, b) {
        NextOnChain(g, fn.idom, a, b, cur, passed);
      }
      passed := passed + {cur};
      cur := parent;
      guard := guard + 1;
    }
    if Reaches(g, 0, b) {
      PassedFits(g, passed);
    }
    assert false;
  }

  lemma EntryChainEnds(g: Blocks, idom: seq<nat>, cur: nat)
    requires ImmediateDominators(g, idom) && cur < |g| && idom[cur] == cur
    ensures cur == 0
    ensures forall a: nat :: Dominates(g, a, 0) <==> a == 0
  {
    forall a: nat
      ensures Dominates(g, a, 0) <==> a == 0
    {
      assert PathFromTo(g, [0], 0, 0);
      if a == 0 {
        forall p | PathFromTo(g, p, 0, 0)
          ensures a in p
        {
          assert p[0] == 0;
        }
      }
    }
  }

  lemma NextOnChain(g: Blocks, idom: seq<nat>, a: nat, b: nat, cur: nat, passed: set<nat>)
    requires ImmediateDominators(g, idom) && cur < |g| && a != cur && idom[cur] != cur
    requires ChainOfDominators(g, a, b, cur, passed)
    ensures idom[cur] < |g| && ChainOfDominators(g, a, b, idom[cur], passed + {cur}) && cur !in passed
  {
    var parent := idom[cur];
    assert cur != 0 && ImmediatelyDominates(g, parent, cur);
    DominatorReachable(g, parent, cur);
    DominatesTrans(g, parent, cur, b);
    if Dominates(g, a, parent) {
      DominatesTrans(g, a, parent, cur);
    }
    forall x: nat | x in passed + {cur}
      ensures x != parent && Dominates(g, parent, x)
    {
      if x in passed {
        DominatesTrans(g, parent, cur, x);
        if x == parent {
          DominanceAntisymmetric(g, cur, parent);
        }
      }
    }
  }

  /** The parent walk from `b` after `i` steps. */
  ghost function Climb(idom: seq<nat>, b: nat, i: nat): nat {
    if i == 0 then b
    else
      var cur := Climb(idom, b, i - 1);
      if cur < |idom| then idom[cur] else cur
  }

  /** Each block on the parent walk from a reachable block dominates those before it, and before the entry none comes twice. */
  lemma {:induction false} ClimbNeverRepeats(g: Blocks, idom: seq<nat>, b: nat, i: nat, j: nat)
    requires ImmediateDominators(g, idom) && Reaches(g, 0, b) && b < |g| && i <= j
    ensures Climb(idom, b, j) < |g| && Reaches(g, 0, Climb(idom, b, j))
    ensures Dominates(g, Climb(idom, b, j), Climb(idom, b, i))
    ensures i < j && Climb(idom, b, i) != 0 ==> Climb(idom, b, j) != Climb(idom, b, i)
  {
    hide Dominates, Reaches;
    if i == j {
      ClimbIsReached(g, idom, b, j);
      DominatesItself(g, Climb(idom, b, j));
    } else {
      var x, y := Climb(idom, b, j - 1), Climb(idom, b, j);
      ClimbNeverRepeats(g, idom, b, i, j - 1);
      ClimbIsReached(g, idom, b, j);
      if x == 0 {
        assert y == 0;
      } else {
        ParentDominates(g, idom, x);
        DominatesTrans(g, y, x, Climb(idom, b, i));
        if y == Climb(idom, b, i) {
          DominanceAntisymmetric(g, x, y);
        }
      }
    }
  }

  lemma {:induction false} ClimbIsReached(g: Blocks, idom: seq<nat>, b: nat, j: nat)
    requires ImmediateDominators(g, idom) && Reaches(g, 0, b) && b < |g|
    ensures Climb(idom, b, j) < |g| && Reaches(g, 0, Climb(idom, b, j))
  {
    hide Reaches, Dominates;
    if j == 0 {
    } else {
      ClimbIsReached(g, idom, b, j - 1);
      ParentDominates(g, idom, Climb(idom, b, j - 1));
    }
  }

  lemma ParentDominates(g: Blocks, idom: seq<nat>, x: nat)
    requires ImmediateDominators(g, idom) && x < |g| && Reaches(g, 0, x)
    ensures idom[x] < |g| && Reaches(g, 0, idom[x]) && (x != 0 ==> Dominates(g, idom[x], x) && idom[x] != x)
  {
    if x != 0 {
      DominatorReachable(g, idom[x], x);
    }
  }

  lemma DominatesItself(g: Blocks, x: nat)
    ensures Dominates(g, x, x)
  {
  }

  lemma PassedFits(g: Blocks, passed: set<nat>)
    requires forall x: nat :: x in passed ==> x < |g|
    ensures |passed| <= |g|
  {
    assert passed <= Below(|g|);
    SubsetCount(passed, Below(|g|));
  }

  ghost function Below(n: nat): (s: set<nat>)
    ensures |s| == n && forall x: nat :: x in s <==> x < n
  {
    if n == 0 then {} else Below(n - 1) + {n - 1}
  }

  lemma {:induction false} SubsetCount<T>(a: set<T>, b: set<T>)
    requires a <= b
    ensures |a| <= |b|
  {
    if a == {} {
    } else {
      var x :| x in a;
      SubsetCount(a - {x}, b - {x});
    }
  }
}
