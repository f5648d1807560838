/**
 Basic blocks, the graph their successor lists span, and the path notions every
 control-flow query is specified by.
 */
module Graph {

  /** Half-open byte range of a source buffer. */
  datatype ByteSpan = ByteSpan(lo: nat, hi: nat)

  /** What an execution does when it passes a statement: run it, decide a branch, synchronise, return. */
  datatype Step = Ran(at: ByteSpan) | Tested(at: ByteSpan) | Synced(at: ByteSpan) | Returned(at: ByteSpan)

  /**
   A basic block. `steps` lists what falls into the block, in order: the linter keeps only a span
   for that, and no operation reads it; it is here to say what a path through the graph executes.
   */
  datatype BasicBlock = BasicBlock(
    span: ByteSpan,
    successors: seq<nat>,
    steps: seq<Step>,
    containsBarrier: bool,
    containsDiscard: bool,
    isExit: bool,
    taintedByError: bool)

  type Blocks = seq<BasicBlock>

  /** An edge of the graph; successor entries that are out of range are no edges. */
  predicate Edge(g: Blocks, u: nat, v: nat) {
    u < |g| && v < |g| && v in g[u].successors
  }

  ghost predicate IsPath(g: Blocks, p: seq<nat>) {
    && |p| > 0
    && p[0] < |g|
    && forall i :: 0 <= i < |p| - 1 ==> Edge(g, p[i], p[i + 1])
  }

  ghost predicate PathFromTo(g: Blocks, p: seq<nat>, a: nat, b: nat) {
    IsPath(g, p) && p[0] == a && p[|p| - 1] == b
  }

  ghost predicate Reaches(g: Blocks, a: nat, b: nat) {
    exists p :: PathFromTo(g, p, a, b)
  }

  /** Every path from the entry block to `b` passes through `a`. */
  ghost predicate Dominates(g: Blocks, a: nat, b: nat) {
    forall p :: PathFromTo(g, p, 0, b) ==> a in p
  }

  /** `i` is the closest strict dominator of `b`. */
  ghost predicate ImmediatelyDominates(g: Blocks, i: nat, b: nat) {
    && i != b
    && Dominates(g, i, b)
    && forall a :: a != b && Dominates(g, a, b) ==> Dominates(g, a, i)
  }

  /** A finished parent table holds the immediate dominator of every reachable block. */
  ghost predicate ImmediateDominators(g: Blocks, idom: seq<nat>) {
    && |idom| == |g|
    && (|g| > 0 ==> idom[0] == 0)
    && (forall b: nat :: b < |g| && !Reaches(g, 0, b) ==> idom[b] == 0)
    && (forall b: nat :: 0 < b < |g| && Reaches(g, 0, b) ==>
          idom[b] < |g| && ImmediatelyDominates(g, idom[b], b))
  }

  lemma PathExtend(g: Blocks, p: seq<nat>, a: nat, u: nat, v: nat)
    requires PathFromTo(g, p, a, u) && Edge(g, u, v)
    ensures PathFromTo(g, p + [v], a, v)
  {
  }

  lemma PathSplit(g: Blocks, p: seq<nat>, k: nat)
    requires IsPath(g, p) && k < |p|
    ensures IsPath(g, p[..k + 1]) && IsPath(g, p[k..])
  {
    if k > 0 {
      assert Edge(g, p[k - 1], p[k]);
    }
  }

  lemma PathJoin(g: Blocks, p: seq<nat>, q: seq<nat>, a: nat, b: nat, c: nat)
    requires PathFromTo(g, p, a, b) && PathFromTo(g, q, b, c)
    ensures PathFromTo(g, p + q[1..], a, c)
  {
    var r := p + q[1..];
    forall i | 0 <= i < |r| - 1
      ensures Edge(g, r[i], r[i + 1])
    {
      if i >= |p| - 1 {
        assert Edge(g, q[i - |p| + 1], q[i - |p| + 2]);
      }
    }
  }

  lemma PathInRange(g: Blocks, p: seq<nat>)
    requires IsPath(g, p)
    ensures forall i :: 0 <= i < |p| ==> p[i] < |g|
  {
    forall i | 0 <= i < |p|
      ensures p[i] < |g|
    {
      if i > 0 {
        assert Edge(g, p[i - 1], p[i]);
      }
    }
  }

  /** A set of blocks closed under edges traps every path that starts in it. */
  lemma {:induction false} ClosedTrapsPath(g: Blocks, s: set<nat>, p: seq<nat>, k: nat)
    requires IsPath(g, p) && k < |p| && p[0] in s
    requires forall u, v :: u in s && Edge(g, u, v) ==> v in s
    ensures p[k] in s
  {
    if k == 0 {
    } else {
      ClosedTrapsPath(g, s, p, k - 1);
      assert Edge(g, p[k - 1], p[k]);
    }
  }

  lemma DominatesPred(g: Blocks, a: nat, p: nat, b: nat)
    requires Dominates(g, a, b) && a != b && Edge(g, p, b)
    ensures Dominates(g, a, p)
  {
    forall q | PathFromTo(g, q, 0, p)
      ensures a in q
    {
      PathExtend(g, q, 0, p, b);
      assert a in q + [b];
    }
  }

  lemma DominatesTrans(g: Blocks, a: nat, b: nat, c: nat)
    requires Dominates(g, a, b) && Dominates(g, b, c)
    ensures Dominates(g, a, c)
  {
    forall p | PathFromTo(g, p, 0, c)
      ensures a in p
    {
      var k :| 0 <= k < |p| && p[k] == b;
      PathSplit(g, p, k);
      assert a in p[..k + 1];
    }
  }

  /** Two different blocks that dominate each other are reached by no path. */
  lemma {:induction false} MutualDominatorsAreUnreachable(g: Blocks, a: nat, b: nat, p: seq<nat>)
    requires a != b && Dominates(g, a, b) && Dominates(g, b, a)
    requires PathFromTo(g, p, 0, a)
    ensures false
    decreases |p|
  {
    var k :| 0 <= k < |p| && p[k] == b;
    PathSplit(g, p, k);
    MutualDominatorsAreUnreachable(g, b, a, p[..k + 1]);
  }

  lemma DominanceAntisymmetric(g: Blocks, a: nat, b: nat)
    requires Reaches(g, 0, a) && Dominates(g, a, b) && Dominates(g, b, a)
    ensures a == b
  {
    if a != b {
      var p :| PathFromTo(g, p, 0, a);
      MutualDominatorsAreUnreachable(g, a, b, p);
    }
  }

  /** A dominator of a reachable block is reachable itself. */
  lemma DominatorReachable(g: Blocks, a: nat, b: nat)
    requires Dominates(g, a, b) && Reaches(g, 0, b)
    ensures Reaches(g, 0, a) && a < |g|
  {
    var p :| PathFromTo(g, p, 0, b);
    var k :| 0 <= k < |p| && p[k] == a;
    PathSplit(g, p, k);
    PathInRange(g, p);
    assert PathFromTo(g, p[..k + 1], 0, a);
  }

  // ------------------------------------------------------------- progress of a search

  ghost function Unseen(seen: seq<bool>): set<nat> {
    set x: nat | x < |seen| && !seen[x]
  }

  lemma SeeingShrinks(seen: seq<bool>, next: nat)
    requires next < |seen| && !seen[next]
    ensures Unseen(seen[next := true]) < Unseen(seen)
  {
    assert next in Unseen(seen) && next !in Unseen(seen[next := true]);
  }
}
