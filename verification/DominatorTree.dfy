/**
 The theory behind the iterative dominator computation: parent chains in a
 partially filled `idom` table, the invariants one re-evaluation of a block
 keeps, and what the table means once nothing changes any more. Nothing here
 assumes the graph to be reducible.
 */
module DominatorTree {
  import opened Graph

  /** The table's mark for "no parent yet": the largest 32-bit value. */
  const UNDEFINED: nat := 0xFFFF_FFFF

  /** `num` numbers the blocks along `rpo`, and each but the entry has a predecessor before it. */
  ghost predicate Numbering(g: Blocks, rpo: seq<nat>, num: seq<nat>) {
    && |num| == |g| <= UNDEFINED
    && |rpo| > 0 && rpo[0] == 0
    && (forall k :: 0 <= k < |rpo| ==> rpo[k] < |g| && num[rpo[k]] == k)
    && (forall x: nat :: x in rpo ==> x < |g| && num[x] < |rpo| && rpo[num[x]] == x)
    && (forall b: nat {:trigger HasForwardPred(g, rpo, num, b)} ::
          b in rpo && b != 0 ==> HasForwardPred(g, rpo, num, b))
  }

  /** The order lists exactly the blocks the entry reaches. */
  ghost predicate ListsReachable(g: Blocks, rpo: seq<nat>) {
    forall x: nat :: x in rpo <==> Reaches(g, 0, x)
  }

  ghost predicate Pred(g: Blocks, rpo: seq<nat>, p: nat, b: nat) {
    p in rpo && Edge(g, p, b)
  }

  ghost predicate ForwardPred(g: Blocks, rpo: seq<nat>, num: seq<nat>, p: nat, b: nat)
    requires |num| == |g|
  {
    Pred(g, rpo, p, b) && num[p] < num[b]
  }

  ghost predicate HasForwardPred(g: Blocks, rpo: seq<nat>, num: seq<nat>, b: nat)
    requires |num| == |g|
  {
    exists p: nat :: ForwardPred(g, rpo, num, p, b)
  }

  /** `a` lies on the parent chain of `d` (a block lies on its own chain). */
  ghost predicate OnChain(idom: seq<nat>, num: seq<nat>, a: nat, d: nat)
    requires |idom| == |num|
    decreases if d < |num| then num[d] else 0
  {
    || a == d
    || (d < |idom| && idom[d] < |idom| && num[idom[d]] < num[d] && OnChain(idom, num, a, idom[d]))
  }

  /** A partially filled parent table: parents are filled in, and come earlier in the order. */
  ghost predicate Tree(g: Blocks, rpo: seq<nat>, num: seq<nat>, idom: seq<nat>) {
    && Numbering(g, rpo, num)
    && |idom| == |g|
    && idom[0] == 0
    && forall x :: 0 <= x < |g| && idom[x] != UNDEFINED ==>
         && x in rpo
         && idom[x] < |g|
         && idom[idom[x]] != UNDEFINED
         && (x != 0 ==> num[idom[x]] < num[x])
  }

  ghost predicate Filled(idom: seq<nat>, x: nat) {
    x < |idom| && idom[x] != UNDEFINED
  }

  // ---------------------------------------------------------------- chains

  lemma {:induction false} ChainOrder(idom: seq<nat>, num: seq<nat>, a: nat, d: nat)
    requires |idom| == |num| && d < |num| && OnChain(idom, num, a, d)
    ensures a < |num| && num[a] <= num[d] && (a != d ==> num[a] < num[d])
    decreases num[d]
  {
    if a == d {
    } else {
      ChainOrder(idom, num, a, idom[d]);
    }
  }

  lemma {:induction false} ChainTrans(idom: seq<nat>, num: seq<nat>, a: nat, b: nat, d: nat)
    requires |idom| == |num| && d < |num|
    requires OnChain(idom, num, a, b) && OnChain(idom, num, b, d)
    ensures OnChain(idom, num, a, d)
    decreases num[d]
  {
    if b == d {
    } else {
      ChainTrans(idom, num, a, b, idom[d]);
    }
  }

  /** Two blocks on one chain are on each other's chain, the later above the earlier. */
  lemma {:induction false} ChainTotal(idom: seq<nat>, num: seq<nat>, a: nat, b: nat, d: nat)
    requires |idom| == |num| && d < |num|
    requires OnChain(idom, num, a, d) && OnChain(idom, num, b, d) && a < |num| && b < |num| && num[a] <= num[b]
    ensures OnChain(idom, num, a, b)
    decreases num[d]
  {
    if b == d {
    } else {
      if a == d {
        ChainOrder(idom, num, b, d);
        assert false;
      } else {
        ChainTotal(idom, num, a, b, idom[d]);
      }
    }
  }

  lemma {:induction false} ChainFilled(g: Blocks, rpo: seq<nat>, num: seq<nat>, idom: seq<nat>, a: nat, d: nat)
    requires Tree(g, rpo, num, idom) && Filled(idom, d) && OnChain(idom, num, a, d)
    ensures Filled(idom, a) && a in rpo
    decreases num[d]
  {
    if a == d {
    } else {
      ChainFilled(g, rpo, num, idom, a, idom[d]);
    }
  }

  lemma {:induction false} RootOnChain(g: Blocks, rpo: seq<nat>, num: seq<nat>, idom: seq<nat>, d: nat)
    requires Tree(g, rpo, num, idom) && Filled(idom, d)
    ensures OnChain(idom, num, 0, d)
    decreases num[d]
  {
    if d == 0 {
    } else {
      RootOnChain(g, rpo, num, idom, idom[d]);
    }
  }

  /** Giving `w` another parent leaves every chain alone that does not climb past `w`. */
  lemma {:induction false} ChainFrame(idom: seq<nat>, num: seq<nat>, w: nat, v: nat, a: nat, d: nat)
    requires |idom| == |num| && w < |num| && d < |num|
    requires (a < |num| && num[a] >= num[w]) || !OnChain(idom, num, w, d)
    ensures OnChain(idom, num, a, d) == OnChain(idom[w := v], num, a, d)
    decreases num[d]
  {
    if a == d {
    } else {
      if d == w {
        if OnChain(idom, num, a, d) {
          ChainOrder(idom, num, a, idom[d]);
          assert false;
        }
        if OnChain(idom[w := v], num, a, d) {
          ChainOrder(idom[w := v], num, a, v);
          assert false;
        }
      } else if idom[d] < |idom| && num[idom[d]] < num[d] {
        ChainFrame(idom, num, w, v, a, idom[d]);
      }
    }
  }

  /** Chains of blocks before `w` in the order never pass `w`. */
  lemma ChainBefore(idom: seq<nat>, num: seq<nat>, w: nat, v: nat, a: nat, d: nat)
    requires |idom| == |num| && w < |num| && d < |num| && num[d] < num[w]
    ensures OnChain(idom, num, a, d) == OnChain(idom[w := v], num, a, d)
  {
    if OnChain(idom, num, w, d) {
      ChainOrder(idom, num, w, d);
      assert false;
    }
    ChainFrame(idom, num, w, v, a, d);
  }

  // ------------------------------------------------------------ invariants

  /** `x` lies above every predecessor of `d` that has a parent already. */
  ghost predicate CommonAncestor(g: Blocks, rpo: seq<nat>, num: seq<nat>, idom: seq<nat>, x: nat, d: nat)
    requires |idom| == |num|
  {
    forall p: nat {:trigger Pred(g, rpo, p, d)} :: Pred(g, rpo, p, d) && Filled(idom, p) ==> OnChain(idom, num, x, p)
  }

  /** `v` is the lowest common ancestor of the predecessors of `w` that have a parent already. */
  ghost predicate Meet(g: Blocks, rpo: seq<nat>, num: seq<nat>, idom: seq<nat>, w: nat, v: nat)
    requires |idom| == |num|
  {
    && Filled(idom, v)
    && CommonAncestor(g, rpo, num, idom, v, w)
    && forall x: nat {:trigger CommonAncestor(g, rpo, num, idom, x, w)} :: CommonAncestor(g, rpo, num, idom, x, w) ==> OnChain(idom, num, x, v)
  }

  /** The first `i` blocks of the order have parents, and parents appear along forward edges. */
  ghost predicate FilledFirst(g: Blocks, rpo: seq<nat>, num: seq<nat>, idom: seq<nat>, i: nat)
    requires |num| == |g|
  {
    && i <= |rpo|
    && (forall k :: 0 <= k < i ==> Filled(idom, rpo[k]))
    && (forall d: nat, p: nat {:trigger ForwardPred(g, rpo, num, p, d)} :: Filled(idom, d) && ForwardPred(g, rpo, num, p, d) ==> Filled(idom, p))
  }

  /**
   A block above `d` is above every forward predecessor of `d` as well. This holds for blocks
   visited in this round, and for the part of a chain this round has not touched yet.
   */
  ghost predicate ForwardPredsBelow(g: Blocks, rpo: seq<nat>, num: seq<nat>, idom: seq<nat>, i: nat)
    requires |num| == |g| == |idom|
  {
    forall d: nat, p: nat, x: nat {:trigger ForwardPred(g, rpo, num, p, d), OnChain(idom, num, x, d)} ::
      && Filled(idom, d)
      && ForwardPred(g, rpo, num, p, d)
      && OnChain(idom, num, x, d)
      && x != d
      && (num[d] < i || (x < |num| && num[x] >= i))
      ==> OnChain(idom, num, x, p)
  }

  /** The chain of a forward predecessor of `d` runs into the chain of `d`'s parent. */
  ghost predicate ForwardPredsMerge(g: Blocks, rpo: seq<nat>, num: seq<nat>, idom: seq<nat>)
    requires |num| == |g| == |idom|
  {
    forall d: nat, p: nat, x: nat {:trigger ForwardPred(g, rpo, num, p, d), OnChain(idom, num, x, p)} ::
      && Filled(idom, d)
      && ForwardPred(g, rpo, num, p, d)
      && OnChain(idom, num, x, p)
      && x < |num|
      && idom[d] < |num|
      && num[x] <= num[idom[d]]
      ==> OnChain(idom, num, x, idom[d])
  }

  /** No common ancestor of the predecessors of `d` comes later than the parent of `d`. */
  ghost predicate ParentsLate(g: Blocks, rpo: seq<nat>, num: seq<nat>, idom: seq<nat>)
    requires |num| == |g| == |idom|
  {
    forall d: nat, x: nat {:trigger CommonAncestor(g, rpo, num, idom, x, d)} ::
      && Filled(idom, d)
      && d != 0
      && x < |num|
      && idom[d] < |num|
      && CommonAncestor(g, rpo, num, idom, x, d)
      ==> num[x] <= num[idom[d]]
  }

  /** True dominators are never lost from a chain. */
  ghost predicate DominatorsKept(g: Blocks, num: seq<nat>, idom: seq<nat>)
    requires |num| == |idom|
  {
    forall d: nat, a: nat {:trigger Dominates(g, a, d)} :: Filled(idom, d) && Dominates(g, a, d) ==> OnChain(idom, num, a, d)
  }

  /** What holds in a round just before the block at position `i` of the order is visited. */
  ghost predicate RoundInvariant(g: Blocks, rpo: seq<nat>, num: seq<nat>, idom: seq<nat>, i: nat) {
    && Tree(g, rpo, num, idom)
    && FilledFirst(g, rpo, num, idom, i)
    && ForwardPredsBelow(g, rpo, num, idom, i)
    && ForwardPredsMerge(g, rpo, num, idom)
    && ParentsLate(g, rpo, num, idom)
    && DominatorsKept(g, num, idom)
  }

  /** A finished round is the start of the next one. */
  lemma NextRound(g: Blocks, rpo: seq<nat>, num: seq<nat>, idom: seq<nat>)
    requires RoundInvariant(g, rpo, num, idom, |rpo|)
    ensures RoundInvariant(g, rpo, num, idom, 1)
  {
  }

  /** The table before the first round: only the entry has a parent. */
  lemma FirstRound(g: Blocks, rpo: seq<nat>, num: seq<nat>, idom: seq<nat>)
    requires Numbering(g, rpo, num)
    requires |idom| == |g| && forall x :: 0 <= x < |g| ==> idom[x] == if x == 0 then 0 else UNDEFINED
    ensures RoundInvariant(g, rpo, num, idom, 1)
  {
    assert num[rpo[0]] == 0;
    forall a: nat | Dominates(g, a, 0)
      ensures a == 0
    {
      assert PathFromTo(g, [0], 0, 0);
    }
  }

  // ------------------------------------------------------- one visit of a block

  /** The block visited next, with the parent its predecessors now give it. */
  ghost predicate Visit(g: Blocks, rpo: seq<nat>, num: seq<nat>, idom: seq<nat>, i: nat, w: nat, v: nat) {
    && RoundInvariant(g, rpo, num, idom, i)
    && 0 < i < |rpo|
    && w == rpo[i]
    && Meet(g, rpo, num, idom, w, v)
  }

  lemma MeetIsEarlier(g: Blocks, rpo: seq<nat>, num: seq<nat>, idom: seq<nat>, i: nat, w: nat, v: nat)
    requires Visit(g, rpo, num, idom, i, w, v)
    ensures w != 0 && w in rpo && num[w] == i && v < |g| && num[v] < num[w]
  {
    assert w in rpo && num[w] == i && num[rpo[0]] == 0;
    assert HasForwardPred(g, rpo, num, w);
    var p: nat :| ForwardPred(g, rpo, num, p, w);
    assert Filled(idom, p);
    ChainOrder(idom, num, v, p);
  }

  /** A block that has a parent only ever moves up its own chain. */
  lemma MeetMovesUp(g: Blocks, rpo: seq<nat>, num: seq<nat>, idom: seq<nat>, i: nat, w: nat, v: nat)
    requires Visit(g, rpo, num, idom, i, w, v) && Filled(idom, w)
    ensures OnChain(idom, num, v, idom[w])
    ensures v != idom[w] ==> num[v] < num[idom[w]]
  {
    MeetIsEarlier(g, rpo, num, idom, i, w, v);
    assert HasForwardPred(g, rpo, num, w);
    var p: nat :| ForwardPred(g, rpo, num, p, w);
    assert OnChain(idom, num, v, p);
    ChainOrder(idom, num, v, idom[w]);
  }

  lemma UnfilledOnNoChain(g: Blocks, rpo: seq<nat>, num: seq<nat>, idom: seq<nat>, w: nat, d: nat)
    requires Tree(g, rpo, num, idom) && !Filled(idom, w) && Filled(idom, d)
    ensures !OnChain(idom, num, w, d)
  {
    if OnChain(idom, num, w, d) {
      ChainFilled(g, rpo, num, idom, w, d);
      assert false;
    }
  }

  /** Chains of blocks that had a parent before the visit only shrink. */
  lemma ChainsShrink(g: Blocks, rpo: seq<nat>, num: seq<nat>, idom: seq<nat>, i: nat, w: nat, v: nat, x: nat, d: nat)
    requires Visit(g, rpo, num, idom, i, w, v) && Filled(idom, d)
    requires OnChain(idom[w := v], num, x, d)
    ensures OnChain(idom, num, x, d)
  {
    var idom' := idom[w := v];
    MeetIsEarlier(g, rpo, num, idom, i, w, v);
    if !OnChain(idom, num, w, d) {
      ChainFrame(idom, num, w, v, x, d);
    } else {
      if !Filled(idom, w) {
        UnfilledOnNoChain(g, rpo, num, idom, w, d);
        assert false;
      }
      ChainOrder(idom', num, x, d);
      if num[x] >= num[w] {
        ChainFrame(idom, num, w, v, x, d);
      } else {
        ChainFrame(idom, num, w, v, w, d);
        ChainTotal(idom', num, x, w, d);
        ChainBefore(idom, num, w, v, x, v);
        MeetMovesUp(g, rpo, num, idom, i, w, v);
        ChainTrans(idom, num, x, v, idom[w]);
        ChainTrans(idom, num, x, w, d);
      }
    }
  }

  lemma VisitKeepsTree(g: Blocks, rpo: seq<nat>, num: seq<nat>, idom: seq<nat>, i: nat, w: nat, v: nat)
    requires Visit(g, rpo, num, idom, i, w, v)
    ensures Tree(g, rpo, num, idom[w := v])
    ensures FilledFirst(g, rpo, num, idom[w := v], i + 1)
  {
    var idom' := idom[w := v];
    MeetIsEarlier(g, rpo, num, idom, i, w, v);
    forall d: nat, p: nat | Filled(idom', d) && ForwardPred(g, rpo, num, p, d)
      ensures Filled(idom', p)
    {
    }
  }

  lemma VisitKeepsForwardPredsBelow(g: Blocks, rpo: seq<nat>, num: seq<nat>, idom: seq<nat>, i: nat, w: nat, v: nat)
    requires Visit(g, rpo, num, idom, i, w, v)
    ensures ForwardPredsBelow(g, rpo, num, idom[w := v], i + 1)
  {
    var idom' := idom[w := v];
    MeetIsEarlier(g, rpo, num, idom, i, w, v);
    VisitKeepsTree(g, rpo, num, idom, i, w, v);
    hide ParentsLate, DominatorsKept, ForwardPredsMerge, ListsReachable, HasForwardPred;
    forall d: nat, p: nat, x: nat |
      && Filled(idom', d) && ForwardPred(g, rpo, num, p, d) && OnChain(idom', num, x, d) && x != d
      && (num[d] < i + 1 || (x < |num| && num[x] >= i + 1))
      ensures OnChain(idom', num, x, p)
    {
      if d == w {
        ChainBefore(idom, num, w, v, x, v);
        assert Filled(idom, p);
        ChainTrans(idom, num, x, v, p);
        ChainBefore(idom, num, w, v, x, p);
      } else if num[d] < i + 1 {
        assert num[d] < i;
        ChainBefore(idom, num, w, v, x, d);
        ChainBefore(idom, num, w, v, x, p);
      } else {
        ChainFrame(idom, num, w, v, x, d);
        ChainFrame(idom, num, w, v, x, p);
      }
    }
  }

  lemma VisitKeepsForwardPredsMerge(g: Blocks, rpo: seq<nat>, num: seq<nat>, idom: seq<nat>, i: nat, w: nat, v: nat)
    requires Visit(g, rpo, num, idom, i, w, v)
    ensures ForwardPredsMerge(g, rpo, num, idom[w := v])
  {
    var idom' := idom[w := v];
    MeetIsEarlier(g, rpo, num, idom, i, w, v);
    VisitKeepsTree(g, rpo, num, idom, i, w, v);
    forall d: nat, p: nat, x: nat {:trigger ForwardPred(g, rpo, num, p, d), OnChain(idom', num, x, p)} |
      && Filled(idom', d) && ForwardPred(g, rpo, num, p, d) && OnChain(idom', num, x, p)
      && x < |num| && idom'[d] < |num| && num[x] <= num[idom'[d]]
      ensures OnChain(idom', num, x, idom'[d])
    {
      if d == w {
        ChainBefore(idom, num, w, v, x, p);
        assert Filled(idom, p);
        ChainTotal(idom, num, x, v, p);
        ChainBefore(idom, num, w, v, x, v);
      } else {
        MergeElsewhere(g, rpo, num, idom, i, w, v, d, p, x);
      }
    }
  }

  lemma MergeElsewhere(g: Blocks, rpo: seq<nat>, num: seq<nat>, idom: seq<nat>, i: nat, w: nat, v: nat,
                       d: nat, p: nat, x: nat)
    requires Visit(g, rpo, num, idom, i, w, v)
    requires Filled(idom, d) && d != w && ForwardPred(g, rpo, num, p, d) && OnChain(idom[w := v], num, x, p)
    requires x < |num| && idom[d] < |num| && num[x] <= num[idom[d]]
    ensures OnChain(idom[w := v], num, x, idom[d])
  {
    var idom' := idom[w := v];
    var y := idom[d];
    MeetIsEarlier(g, rpo, num, idom, i, w, v);
    assert Filled(idom, p);
    ChainsShrink(g, rpo, num, idom, i, w, v, x, p);
    assert OnChain(idom, num, x, y);
    if !OnChain(idom, num, w, y) || num[x] >= num[w] {
      ChainFrame(idom, num, w, v, x, y);
    } else {
      assert d != 0 by { ChainOrder(idom, num, w, y); }
      assert OnChain(idom, num, w, d);
      assert OnChain(idom, num, w, p);
      ChainFrame(idom, num, w, v, w, p);
      ChainFrame(idom, num, w, v, w, y);
      ChainTotal(idom', num, x, w, p);
      ChainTrans(idom', num, x, w, y);
    }
  }

  lemma VisitKeepsParentsLate(g: Blocks, rpo: seq<nat>, num: seq<nat>, idom: seq<nat>, i: nat, w: nat, v: nat)
    requires Visit(g, rpo, num, idom, i, w, v)
    ensures ParentsLate(g, rpo, num, idom[w := v])
  {
    var idom' := idom[w := v];
    MeetIsEarlier(g, rpo, num, idom, i, w, v);
    forall d: nat, x: nat |
      && Filled(idom', d) && d != 0 && x < |num| && idom'[d] < |num|
      && CommonAncestor(g, rpo, num, idom', x, d)
      ensures num[x] <= num[idom'[d]]
    {
      forall p: nat | Pred(g, rpo, p, d) && Filled(idom, p)
        ensures OnChain(idom, num, x, p)
      {
        assert Filled(idom', p);
        ChainsShrink(g, rpo, num, idom, i, w, v, x, p);
      }
      assert CommonAncestor(g, rpo, num, idom, x, d);
      if d == w {
        ChainOrder(idom, num, x, v);
      }
    }
  }

  /** A dominator of `d` that comes before `w` dominates `w` too, when `w` lies above `d`. */
  lemma {:induction false} DominatesAncestor(g: Blocks, rpo: seq<nat>, num: seq<nat>, idom: seq<nat>, i: nat,
                                             a: nat, w: nat, d: nat)
    requires RoundInvariant(g, rpo, num, idom, i) && 0 < i < |rpo| && w == rpo[i]
    requires Filled(idom, d) && OnChain(idom, num, w, d)
    requires Dominates(g, a, d) && a < |num| && num[a] < num[w]
    ensures Dominates(g, a, w)
    decreases num[d]
  {
    if w == d {
    } else {
      ChainOrder(idom, num, w, d);
      ChainFilled(g, rpo, num, idom, w, d);
      assert d != 0 by { assert num[rpo[0]] == 0; }
      assert HasForwardPred(g, rpo, num, d);
      var p: nat :| ForwardPred(g, rpo, num, p, d);
      DominatesPred(g, a, p, d);
      DominatesAncestor(g, rpo, num, idom, i, a, w, p);
    }
  }

  lemma VisitKeepsDominators(g: Blocks, rpo: seq<nat>, num: seq<nat>, idom: seq<nat>, i: nat, w: nat, v: nat)
    requires Visit(g, rpo, num, idom, i, w, v)
    ensures DominatorsKept(g, num, idom[w := v])
  {
    var idom' := idom[w := v];
    MeetIsEarlier(g, rpo, num, idom, i, w, v);
    VisitKeepsTree(g, rpo, num, idom, i, w, v);
    forall a: nat | Dominates(g, a, w) && a != w
      ensures OnChain(idom', num, a, w)
    {
      forall p: nat | Pred(g, rpo, p, w) && Filled(idom, p)
        ensures OnChain(idom, num, a, p)
      {
        DominatesPred(g, a, p, w);
      }
      assert CommonAncestor(g, rpo, num, idom, a, w);
      ChainBefore(idom, num, w, v, a, v);
    }
    forall d: nat, a: nat | Filled(idom', d) && Dominates(g, a, d)
      ensures OnChain(idom', num, a, d)
    {
      if d != w {
        assert OnChain(idom, num, a, d);
        ChainOrder(idom, num, a, d);
        if !OnChain(idom, num, w, d) || num[a] >= num[w] {
          ChainFrame(idom, num, w, v, a, d);
        } else {
          DominatesAncestor(g, rpo, num, idom, i, a, w, d);
          ChainFrame(idom, num, w, v, w, d);
          ChainTrans(idom', num, a, w, d);
        }
      }
    }
  }

  /** Visiting a block keeps every invariant of the round. */
  lemma VisitKeepsInvariant(g: Blocks, rpo: seq<nat>, num: seq<nat>, idom: seq<nat>, i: nat, w: nat, v: nat)
    requires Visit(g, rpo, num, idom, i, w, v)
    ensures RoundInvariant(g, rpo, num, idom[w := v], i + 1)
  {
    VisitKeepsTree(g, rpo, num, idom, i, w, v);
    VisitKeepsForwardPredsBelow(g, rpo, num, idom, i, w, v);
    VisitKeepsForwardPredsMerge(g, rpo, num, idom, i, w, v);
    VisitKeepsParentsLate(g, rpo, num, idom, i, w, v);
    VisitKeepsDominators(g, rpo, num, idom, i, w, v);
  }

  // ------------------------------------------------------------ the fixpoint

  /** No predecessor disagrees with any parent: what a round that changes nothing has checked. */
  ghost predicate Stable(g: Blocks, rpo: seq<nat>, num: seq<nat>, idom: seq<nat>, i: nat)
    requires |num| == |g| == |idom|
  {
    forall b: nat, p: nat {:trigger Pred(g, rpo, p, b)} ::
      b < |g| && b in rpo && 0 < num[b] < i && Pred(g, rpo, p, b) && Filled(idom, p) ==> OnChain(idom, num, idom[b], p)
  }

  /** Blocks on a chain of a stable table are dominators. */
  lemma {:induction false} ChainDominates(g: Blocks, rpo: seq<nat>, num: seq<nat>, idom: seq<nat>,
                                          a: nat, b: nat, path: seq<nat>)
    requires Tree(g, rpo, num, idom) && ListsReachable(g, rpo) && FilledFirst(g, rpo, num, idom, |rpo|)
    requires Stable(g, rpo, num, idom, |rpo|)
    requires b in rpo && OnChain(idom, num, a, b) && PathFromTo(g, path, 0, b)
    ensures a in path
    decreases |path|
  {
    assert num[rpo[0]] == 0;
    if a == b {
    } else {
      assert num[b] != 0;
      var k := |path| - 2;
      PathSplit(g, path, k);
      var p := path[k];
      assert Edge(g, path[k], path[k + 1]);
      assert PathFromTo(g, path[..k + 1], 0, p);
      assert p in rpo && Filled(idom, rpo[num[p]]);
      assert Pred(g, rpo, p, b);
      ChainTrans(idom, num, a, idom[b], p);
      ChainDominates(g, rpo, num, idom, a, p, path[..k + 1]);
    }
  }

  lemma StableTableIsExact(g: Blocks, rpo: seq<nat>, num: seq<nat>, idom: seq<nat>, b: nat)
    requires RoundInvariant(g, rpo, num, idom, |rpo|) && ListsReachable(g, rpo)
    requires Stable(g, rpo, num, idom, |rpo|)
    requires 0 < b < |g| && Reaches(g, 0, b)
    ensures idom[b] < |g| && ImmediatelyDominates(g, idom[b], b)
  {
    var i := idom[b];
    assert rpo[num[b]] == b;
    assert Filled(idom, b);
    forall path | PathFromTo(g, path, 0, b)
      ensures i in path
    {
      ChainDominates(g, rpo, num, idom, i, b, path);
    }
    forall a: nat, path | a != b && Dominates(g, a, b) && PathFromTo(g, path, 0, i)
      ensures a in path
    {
      assert OnChain(idom, num, a, b);
      ChainDominates(g, rpo, num, idom, a, i, path);
    }
  }

  /** Edges that do not lead forward in the order lead to a dominator of their source. */
  ghost predicate RetreatsToDominators(g: Blocks, rpo: seq<nat>, num: seq<nat>)
    requires |num| == |g|
  {
    forall b: nat, p: nat {:trigger Pred(g, rpo, p, b)} ::
      b < |g| && b in rpo && Pred(g, rpo, p, b) && num[b] <= num[p] ==> Dominates(g, b, p)
  }

  /** On a reducible graph a single round already satisfies every predecessor. */
  lemma RoundIsExact(g: Blocks, rpo: seq<nat>, num: seq<nat>, idom: seq<nat>)
    requires RoundInvariant(g, rpo, num, idom, |rpo|) && RetreatsToDominators(g, rpo, num)
    ensures Stable(g, rpo, num, idom, |rpo|)
  {
    assert num[rpo[0]] == 0;
    forall b: nat, p: nat | b < |g| && b in rpo && 0 < num[b] < |rpo| && Pred(g, rpo, p, b) && Filled(idom, p)
      ensures OnChain(idom, num, idom[b], p)
    {
      assert Filled(idom, rpo[num[b]]);
      assert OnChain(idom, num, idom[b], b);
      if num[p] < num[b] {
        assert ForwardPred(g, rpo, num, p, b);
      } else {
        assert OnChain(idom, num, b, p);
        ChainTrans(idom, num, idom[b], b, p);
      }
    }
  }

  /** Visiting a block of a stable table finds the parent it already has. */
  lemma StableVisit(g: Blocks, rpo: seq<nat>, num: seq<nat>, idom: seq<nat>, i: nat, w: nat, v: nat)
    requires Visit(g, rpo, num, idom, i, w, v) && Filled(idom, w) && Stable(g, rpo, num, idom, |rpo|)
    ensures idom[w] == v
  {
    MeetIsEarlier(g, rpo, num, idom, i, w, v);
    MeetMovesUp(g, rpo, num, idom, i, w, v);
    assert CommonAncestor(g, rpo, num, idom, idom[w], w);
    ChainOrder(idom, num, idom[w], v);
  }

  // ------------------------------------------------------------- termination

  ghost function WorkAt(num: seq<nat>, idom: seq<nat>, top: nat, x: nat): nat {
    if x < |idom| && idom[x] < |num| then num[idom[x]] else top
  }

  /** Sums the positions of all parents; a missing parent counts more than any parent. */
  ghost function Work(num: seq<nat>, idom: seq<nat>, top: nat, n: nat): nat {
    if n == 0 then 0 else WorkAt(num, idom, top, n - 1) + Work(num, idom, top, n - 1)
  }

  lemma {:induction false} WorkDrops(num: seq<nat>, idom: seq<nat>, top: nat, w: nat, v: nat, n: nat)
    requires w < |idom| && WorkAt(num, idom[w := v], top, w) < WorkAt(num, idom, top, w)
    ensures Work(num, idom[w := v], top, n) <= Work(num, idom, top, n)
    ensures w < n ==> Work(num, idom[w := v], top, n) < Work(num, idom, top, n)
  {
    if n == 0 {
    } else {
      WorkDrops(num, idom, top, w, v, n - 1);
    }
  }

  /** Every visit that changes a parent brings the table closer to its fixpoint. */
  lemma VisitMakesProgress(g: Blocks, rpo: seq<nat>, num: seq<nat>, idom: seq<nat>, i: nat, w: nat, v: nat)
    requires Visit(g, rpo, num, idom, i, w, v) && idom[w] != v
    ensures Work(num, idom[w := v], |rpo|, |g|) < Work(num, idom, |rpo|, |g|)
  {
    MeetIsEarlier(g, rpo, num, idom, i, w, v);
    if Filled(idom, w) {
      MeetMovesUp(g, rpo, num, idom, i, w, v);
    }
    WorkDrops(num, idom, |rpo|, w, v, |g|);
  }
}
