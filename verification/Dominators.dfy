/** Dominator computation: predecessor lists, chain intersection, rounds in reverse postorder. */
module Dominators {
  import opened Graph
  import opened DepthFirst
  import opened DominatorTree
  import opened CfgStorage

  /** Postorder numbers run against the positions in the reverse postorder. */
  ghost predicate PostorderNumbers(rpo: seq<nat>, num: seq<nat>, post: seq<nat>) {
    && |post| == |num|
    && forall x: nat :: x in rpo && x < |num| ==> post[x] == |rpo| - 1 - num[x]
  }

  /** Climbing from `b0` and `c0` to `b` and `c` has passed no common ancestor. */
  ghost predicate Climbed(idom: seq<nat>, num: seq<nat>, b0: nat, c0: nat, b: nat, c: nat)
    requires |idom| == |num|
  {
    && Filled(idom, b) && Filled(idom, c)
    && OnChain(idom, num, b, b0) && OnChain(idom, num, c, c0)
    && forall x: nat :: OnChain(idom, num, x, b0) && OnChain(idom, num, x, c0) ==>
         OnChain(idom, num, x, b) && OnChain(idom, num, x, c)
  }

  /** Climbing one step from the later of two blocks passes no common ancestor. */
  lemma Climb(g: Blocks, rpo: seq<nat>, num: seq<nat>, idom: seq<nat>, b0: nat, c0: nat, b: nat, c: nat)
    requires Tree(g, rpo, num, idom) && Filled(idom, b0) && Filled(idom, c0)
    requires Climbed(idom, num, b0, c0, b, c) && num[c] < num[b]
    ensures idom[b] != UNDEFINED && idom[b] != b && Filled(idom, idom[b]) && num[idom[b]] < num[b]
    ensures Climbed(idom, num, b0, c0, idom[b], c)
  {
    assert b != 0;
    ChainTrans(idom, num, idom[b], b, b0);
    forall x: nat | OnChain(idom, num, x, b0) && OnChain(idom, num, x, c0)
      ensures OnChain(idom, num, x, idom[b])
    {
      ChainOrder(idom, num, x, c);
    }
  }

  lemma ClimbedIsFilled(idom: seq<nat>, num: seq<nat>, b0: nat, c0: nat, r: nat)
    requires |idom| == |num| && Climbed(idom, num, b0, c0, r, r)
    ensures Filled(idom, r)
  {
  }

  lemma ClimbSides(idom: seq<nat>, num: seq<nat>, b0: nat, c0: nat, b: nat, c: nat)
    requires |idom| == |num|
    ensures Climbed(idom, num, b0, c0, b, c) == Climbed(idom, num, c0, b0, c, b)
    ensures Filled(idom, b0) && Filled(idom, c0) ==> Climbed(idom, num, b0, c0, b0, c0)
  {
  }

  /** The numbers tell which of two blocks comes later, and tell different blocks apart. */
  lemma CompareNumbers(g: Blocks, rpo: seq<nat>, num: seq<nat>, idom: seq<nat>, post: seq<nat>, b: nat, c: nat)
    requires Tree(g, rpo, num, idom) && PostorderNumbers(rpo, num, post) && Filled(idom, b) && Filled(idom, c)
    ensures b < |idom| == |num| == |post| && c < |idom|
    ensures post[b] < post[c] <==> num[c] < num[b]
    ensures post[c] < post[b] <==> num[b] < num[c]
    ensures post[b] == post[c] <==> b == c
  {
  }

  /**
   The lowest common ancestor of two blocks. Its bail-outs for a missing parent, for a climb past
   the entry and for equal numbers of different blocks are never taken.
   */
  method Intersect(block1: nat, block2: nat, idom: seq<nat>, post: seq<nat>,
                   ghost g: Blocks, ghost rpo: seq<nat>, ghost num: seq<nat>)
    returns (r: nat)
    requires Tree(g, rpo, num, idom) && PostorderNumbers(rpo, num, post)
    requires Filled(idom, block1) && Filled(idom, block2)
    ensures Climbed(idom, num, block1, block2, r, r)
  {
    hide Climbed, Tree, PostorderNumbers, Filled, OnChain;
    var b1: nat, b2: nat := block1, block2;
    CompareNumbers(g, rpo, num, idom, post, b1, b2);
    ClimbSides(idom, num, b1, b2, b1, b2);
    while b1 != b2
      invariant Filled(idom, b1) && Filled(idom, b2) && b1 < |num| == |post| == |idom| && b2 < |num|
      invariant Climbed(idom, num, block1, block2, b1, b2)
      decreases num[b1] + num[b2]
    {
      CompareNumbers(g, rpo, num, idom, post, b1, b2);
      ghost var s1, s2 := b1, b2;
      while post[b1] < post[b2]
        invariant Filled(idom, b1) && b1 < |num| && (b1 == s1 || num[b1] < num[s1])
        invariant Climbed(idom, num, block1, block2, b1, b2)
        decreases num[b1]
      {
        CompareNumbers(g, rpo, num, idom, post, b1, b2);
        Climb(g, rpo, num, idom, block1, block2, b1, b2);
        if idom[b1] == UNDEFINED { assert false; }
        var next := idom[b1];
        if next == b1 { assert false; }
        b1 := next;
        CompareNumbers(g, rpo, num, idom, post, b1, b2);
      }
      ClimbSides(idom, num, block1, block2, b1, b2);
      while post[b2] < post[b1]
        invariant Filled(idom, b2) && b2 < |num| && (b2 == s2 || num[b2] < num[s2])
        invariant Climbed(idom, num, block2, block1, b2, b1)
        decreases num[b2]
      {
        CompareNumbers(g, rpo, num, idom, post, b1, b2);
        Climb(g, rpo, num, idom, block2, block1, b2, b1);
        if idom[b2] == UNDEFINED { assert false; }
        var next := idom[b2];
        if next == b2 { assert false; }
        b2 := next;
        CompareNumbers(g, rpo, num, idom, post, b1, b2);
      }
      CompareNumbers(g, rpo, num, idom, post, b1, b2);
      ClimbSides(idom, num, block2, block1, b2, b1);
      if post[b1] == post[b2] && b1 != b2 { assert false; }
    }
    r := b1;
  }

  method ComputePredecessors(g: Blocks) returns (preds: seq<seq<nat>>)
    ensures |preds| == |g|
    ensures forall v: nat, u: nat :: v < |g| ==> (u in preds[v] <==> Edge(g, u, v))
  {
    preds := seq(|g|, i => []);
    var b := 0;
    while b < |g|
      invariant 0 <= b <= |g| && |preds| == |g|
      invariant forall v: nat, u: nat :: v < |g| ==> (u in preds[v] <==> u < b && Edge(g, u, v))
    {
      var succs := g[b].successors;
      var k := 0;
      while k < |succs|
        invariant 0 <= k <= |succs| && |preds| == |g|
        invariant forall v: nat, u: nat :: v < |g| ==>
                    (u in preds[v] <==> (u < b && Edge(g, u, v)) || (u == b && v in succs[..k]))
      {
        if succs[k] < |g| {
          preds := preds[succs[k] := preds[succs[k]] + [b]];
        }
        k := k + 1;
      }
      assert succs[..k] == succs;
      b := b + 1;
    }
  }

  /** A depth-first order numbers the blocks as the rounds need it: tree parents come first. */
  lemma OrderNumbers(g: Blocks, rpo: seq<nat>, tree: seq<seq<nat>>, num: seq<nat>)
    requires |g| <= UNDEFINED && DepthFirstOrder(g, rpo, tree)
    requires |num| == |g| && forall k :: 0 <= k < |rpo| ==> rpo[k] < |g| && num[rpo[k]] == k
    ensures Numbering(g, rpo, num) && ListsReachable(g, rpo)
  {
    forall b: nat | b in rpo && b != 0
      ensures HasForwardPred(g, rpo, num, b)
    {
      var t := tree[b];
      assert TreePath(g, tree, b);
      var p := t[|t| - 2];
      assert Edge(g, t[|t| - 2], t[|t| - 1]);
      assert tree[p] == t[..|t| - 1];
      PathSplit(g, t, |t| - 2);
      assert PathFromTo(g, tree[p], 0, p);
      assert p in rpo;
      var i :| 0 <= i < |rpo| && rpo[i] == b;
      var j :| 0 <= j < |rpo| && rpo[j] == p;
      assert p in t && |tree[p]| != |t|;
      assert j < i;
      assert ForwardPred(g, rpo, num, p, b);
    }
  }

  /** The meet over the predecessors looked at so far; `UNDEFINED` while none of them has a parent. */
  ghost predicate MeetOf(num: seq<nat>, idom: seq<nat>, preds: seq<nat>, m: nat)
    requires |num| == |idom|
  {
    if m == UNDEFINED then forall p :: p in preds ==> !Filled(idom, p)
    else
      && Filled(idom, m)
      && (forall p :: p in preds && Filled(idom, p) ==> OnChain(idom, num, m, p))
      && forall x: nat {:trigger OnChain(idom, num, x, m)} :: AboveAll(num, idom, preds, x) ==> OnChain(idom, num, x, m)
  }

  ghost predicate AboveAll(num: seq<nat>, idom: seq<nat>, preds: seq<nat>, x: nat)
    requires |num| == |idom|
  {
    forall p :: p in preds && Filled(idom, p) ==> OnChain(idom, num, x, p)
  }

  lemma NoMeetYet(num: seq<nat>, idom: seq<nat>)
    requires |num| == |idom|
    ensures MeetOf(num, idom, [], UNDEFINED)
  {
  }

  lemma MeetIsFilled(num: seq<nat>, idom: seq<nat>, preds: seq<nat>, m: nat)
    requires |num| == |idom| && MeetOf(num, idom, preds, m)
    ensures m != UNDEFINED ==> Filled(idom, m)
  {
  }

  lemma PredecessorBound(g: Blocks, rpo: seq<nat>, num: seq<nat>, idom: seq<nat>, i: nat, p: nat)
    requires RoundInvariant(g, rpo, num, idom, i) && i < |rpo| && Edge(g, p, rpo[i])
    ensures p < |g| == |idom| <= UNDEFINED && (Filled(idom, p) <==> idom[p] != UNDEFINED)
    ensures Tree(g, rpo, num, idom)
    ensures forall r: nat :: Filled(idom, r) ==> r != UNDEFINED
  {
  }

  /** How one more predecessor changes the meet. */
  lemma MeetOneMore(g: Blocks, rpo: seq<nat>, num: seq<nat>, idom: seq<nat>, preds: seq<nat>, m: nat, p: nat, m': nat)
    requires Tree(g, rpo, num, idom) && MeetOf(num, idom, preds, m) && p < |g|
    requires if !Filled(idom, p) then m' == m
             else if m == UNDEFINED then m' == p
             else Climbed(idom, num, p, m, m', m')
    ensures MeetOf(num, idom, preds + [p], m')
  {
    if Filled(idom, p) {
      if m != UNDEFINED {
        forall q | q in preds && Filled(idom, q)
          ensures OnChain(idom, num, m', q)
        {
          ChainTrans(idom, num, m', m, q);
        }
      }
      forall x: nat | AboveAll(num, idom, preds + [p], x)
        ensures OnChain(idom, num, x, m')
      {
        assert p in preds + [p];
        forall q | q in preds && Filled(idom, q)
          ensures OnChain(idom, num, x, q)
        {
          assert q in preds + [p];
        }
        assert AboveAll(num, idom, preds, x);
      }
    } else {
      forall x: nat | AboveAll(num, idom, preds + [p], x)
        ensures AboveAll(num, idom, preds, x)
      {
        forall q | q in preds && Filled(idom, q)
          ensures OnChain(idom, num, x, q)
        {
          assert q in preds + [p];
        }
      }
    }
  }

  /** The meet over all predecessors of the block at position `i` is the parent it should now have. */
  lemma MeetIsVisit(g: Blocks, rpo: seq<nat>, num: seq<nat>, idom: seq<nat>, i: nat, preds: seq<nat>, m: nat)
    requires RoundInvariant(g, rpo, num, idom, i) && 0 < i < |rpo|
    requires forall u: nat :: u in preds <==> Edge(g, u, rpo[i])
    requires MeetOf(num, idom, preds, m)
    ensures m != UNDEFINED && Visit(g, rpo, num, idom, i, rpo[i], m)
  {
    var w := rpo[i];
    assert w in rpo && w != 0 by { assert num[rpo[0]] == 0; }
    assert HasForwardPred(g, rpo, num, w);
    var p: nat :| ForwardPred(g, rpo, num, p, w);
    assert Filled(idom, rpo[num[p]]);
    assert p in preds;
    forall x: nat | CommonAncestor(g, rpo, num, idom, x, w)
      ensures OnChain(idom, num, x, m)
    {
      forall q | q in preds && Filled(idom, q)
        ensures OnChain(idom, num, x, q)
      {
        assert Pred(g, rpo, q, w);
      }
      assert AboveAll(num, idom, preds, x);
    }
  }

  /** A finished round has left every parent in agreement with all predecessors. */
  ghost predicate Settled(g: Blocks, rpo: seq<nat>, num: seq<nat>, idom: seq<nat>) {
    RoundInvariant(g, rpo, num, idom, |rpo|) && Stable(g, rpo, num, idom, |rpo|)
  }

  /** A visit that changes nothing has found the parent in agreement with every predecessor. */
  lemma UnchangedIsStable(g: Blocks, rpo: seq<nat>, num: seq<nat>, idom: seq<nat>, i: nat, w: nat)
    requires w < |idom| && Visit(g, rpo, num, idom, i, w, idom[w])
    requires Stable(g, rpo, num, idom, i)
    ensures Stable(g, rpo, num, idom, i + 1)
  {
    forall b: nat, p: nat | b < |g| && b in rpo && 0 < num[b] < i + 1 && Pred(g, rpo, p, b) && Filled(idom, p)
      ensures OnChain(idom, num, idom[b], p)
    {
      if num[b] == i {
        assert b == w;
      }
    }
  }

  lemma DoneIsExact(g: Blocks, rpo: seq<nat>, num: seq<nat>, idom: seq<nat>, idom': seq<nat>)
    requires Settled(g, rpo, num, idom) && ListsReachable(g, rpo)
    requires |idom'| == |idom| && forall k :: 0 <= k < |idom| ==> idom'[k] == if idom[k] == UNDEFINED then 0 else idom[k]
    ensures ImmediateDominators(g, idom')
  {
    forall b: nat | 0 < b < |g| && Reaches(g, 0, b)
      ensures idom'[b] < |g| && ImmediatelyDominates(g, idom'[b], b)
    {
      StableTableIsExact(g, rpo, num, idom, b);
    }
    forall b: nat | b < |g| && !Reaches(g, 0, b)
      ensures idom'[b] == 0
    {
      assert b !in rpo;
    }
  }

  lemma OrderIsListed(g: Blocks, rpo: seq<nat>, tree: seq<seq<nat>>)
    requires DepthFirstOrder(g, rpo, tree)
    ensures forall k :: 0 <= k < |rpo| ==> rpo[k] < |g|
    ensures forall j, k :: 0 <= j < k < |rpo| ==> rpo[j] != rpo[k]
  {
    forall k | 0 <= k < |rpo|
      ensures rpo[k] < |g|
    {
      assert rpo[k] in rpo;
    }
  }

  /** Numbers the listed blocks from the end of the order; blocks not listed keep number 0. */
  method NumberPostorder(g: Blocks, rpo: seq<nat>, ghost tree: seq<seq<nat>>)
    returns (post: seq<nat>, ghost num: seq<nat>)
    requires |g| <= UNDEFINED && DepthFirstOrder(g, rpo, tree)
    ensures Numbering(g, rpo, num) && ListsReachable(g, rpo) && PostorderNumbers(rpo, num, post)
    ensures |post| == |g| && forall k :: 0 <= k < |rpo| ==> rpo[k] < |g| && post[rpo[k]] == |rpo| - 1 - k
    ensures forall b: nat :: b < |g| && b !in rpo ==> post[b] == 0
  {
    OrderIsListed(g, rpo, tree);
    hide DepthFirstOrder;
    post := seq(|g|, i => 0);
    num := seq(|g|, i => 0);
    var i := 0;
    while i < |rpo|
      invariant 0 <= i <= |rpo| && |post| == |num| == |g|
      invariant forall k :: 0 <= k < i ==> num[rpo[k]] == k && post[rpo[k]] == |rpo| - 1 - k
      invariant forall b: nat :: b < |g| && b !in rpo ==> post[b] == 0
    {
      post := post[rpo[i] := |rpo| - 1 - i];
      num := num[rpo[i] := i];
      i := i + 1;
    }
    OrderNumbers(g, rpo, tree, num);
  }

  /** What the round needs to know about positions, without the invariants themselves. */
  lemma RoundBounds(g: Blocks, rpo: seq<nat>, num: seq<nat>, idom: seq<nat>, i: nat)
    requires RoundInvariant(g, rpo, num, idom, i)
    ensures |num| == |idom| == |g| && |rpo| > 0
    ensures forall k :: 0 <= k < |rpo| ==> rpo[k] < |g|
  {
  }

  /** The parent the predecessors of the block at position `i` agree on at the moment. */
  method MeetOfPredecessors(idom: seq<nat>, post: seq<nat>, preds: seq<nat>, i: nat,
                            ghost g: Blocks, ghost rpo: seq<nat>, ghost num: seq<nat>)
    returns (newIdom: nat)
    requires RoundInvariant(g, rpo, num, idom, i) && 0 < i < |rpo| && PostorderNumbers(rpo, num, post)
    requires forall u: nat :: u in preds <==> Edge(g, u, rpo[i])
    ensures newIdom != UNDEFINED && Visit(g, rpo, num, idom, i, rpo[i], newIdom)
  {
    hide *;
    RoundBounds(g, rpo, num, idom, i);
    newIdom := UNDEFINED;
    NoMeetYet(num, idom);
    assert preds[..0] == [];
    var k := 0;
    while k < |preds|
      invariant 0 <= k <= |preds|
      invariant MeetOf(num, idom, preds[..k], newIdom)
    {
      var p := preds[k];
      assert p in preds;
      PredecessorBound(g, rpo, num, idom, i, p);
      ghost var m := newIdom;
      MeetIsFilled(num, idom, preds[..k], newIdom);
      if idom[p] != UNDEFINED {
        if newIdom == UNDEFINED {
          newIdom := p;
        } else {
          var intersected := Intersect(p, newIdom, idom, post, g, rpo, num);
          ClimbedIsFilled(idom, num, p, newIdom, intersected);
          if intersected != UNDEFINED {
            newIdom := intersected;
          }
        }
      }
      MeetOneMore(g, rpo, num, idom, preds[..k], m, p, newIdom);
      assert preds[..k] + [p] == preds[..k + 1];
      k := k + 1;
    }
    assert preds[..k] == preds;
    MeetIsVisit(g, rpo, num, idom, i, preds, newIdom);
  }

  /** One pass over the order; `changed` tells whether any parent moved. */
  method Round(fn: CfgFunction, rpo: seq<nat>, post: seq<nat>, preds: seq<seq<nat>>, ghost num: seq<nat>)
    returns (changed: bool)
    requires RoundInvariant(fn.blocks, rpo, num, fn.idom, 1) && PostorderNumbers(rpo, num, post)
    requires |preds| == |fn.blocks|
    requires forall v: nat, u: nat :: v < |fn.blocks| ==> (u in preds[v] <==> Edge(fn.blocks, u, v))
    modifies fn`idom
    ensures RoundInvariant(fn.blocks, rpo, num, fn.idom, |rpo|)
    ensures |fn.idom| == |num| == |fn.blocks|
    ensures changed ==> Work(num, fn.idom, |rpo|, |fn.blocks|) < Work(num, old(fn.idom), |rpo|, |fn.blocks|)
    ensures !changed ==> fn.idom == old(fn.idom) && Settled(fn.blocks, rpo, num, fn.idom)
    ensures Settled(fn.blocks, rpo, num, old(fn.idom)) ==> !changed
  {
    hide *;
    ghost var settled := Settled(fn.blocks, rpo, num, fn.idom);
    ghost var g := fn.blocks;
    RoundBounds(g, rpo, num, fn.idom, 1);
    StableAtStart(g, rpo, num, fn.idom);
    changed := false;
    var i := 1;
    while i < |rpo|
      invariant 1 <= i <= |rpo| && |fn.idom| == |g|
      invariant RoundInvariant(g, rpo, num, fn.idom, i)
      invariant changed ==> Work(num, fn.idom, |rpo|, |g|) < Work(num, old(fn.idom), |rpo|, |g|)
      invariant !changed ==> fn.idom == old(fn.idom) && Stable(g, rpo, num, fn.idom, i)
      invariant settled ==> !changed
    {
      var b := rpo[i];
      ghost var was := fn.idom;
      var newIdom := MeetOfPredecessors(fn.idom, post, preds[b], i, g, rpo, num);
      VisitKeepsInvariant(g, rpo, num, was, i, b, newIdom);
      if settled {
        SettledVisit(g, rpo, num, was, i, b, newIdom);
      }
      if fn.idom[b] != newIdom {
        VisitMakesProgress(g, rpo, num, was, i, b, newIdom);
        fn.idom := fn.idom[b := newIdom];
        changed := true;
      } else {
        assert was[b := newIdom] == was;
        if !changed {
          UnchangedIsStable(g, rpo, num, was, i, b);
        }
      }
      i := i + 1;
    }
    if !changed {
      RoundSettles(g, rpo, num, fn.idom);
    }
  }

  lemma RoundSettles(g: Blocks, rpo: seq<nat>, num: seq<nat>, idom: seq<nat>)
    requires RoundInvariant(g, rpo, num, idom, |rpo|) && Stable(g, rpo, num, idom, |rpo|)
    ensures Settled(g, rpo, num, idom)
  {
  }

  lemma SettledVisit(g: Blocks, rpo: seq<nat>, num: seq<nat>, idom: seq<nat>, i: nat, w: nat, v: nat)
    requires Settled(g, rpo, num, idom)
    requires Visit(g, rpo, num, idom, i, w, v)
    ensures w < |idom| && idom[w] == v
  {
    assert Filled(idom, rpo[i]);
    StableVisit(g, rpo, num, idom, i, w, v);
  }

  lemma StableAtStart(g: Blocks, rpo: seq<nat>, num: seq<nat>, idom: seq<nat>)
    requires |num| == |g| == |idom|
    ensures Stable(g, rpo, num, idom, 1)
  {
  }

  /** Whatever depth-first order is taken, only edges to dominators of their source lead backward in it. */
  ghost predicate Reducible(g: Blocks) {
    forall rpo, tree :: DepthFirstOrder(g, rpo, tree) ==>
      forall i, j :: 0 <= j <= i < |rpo| && Edge(g, rpo[i], rpo[j]) ==> Dominates(g, rpo[j], rpo[i])
  }

  lemma ReducibleRetreats(g: Blocks, rpo: seq<nat>, tree: seq<seq<nat>>, num: seq<nat>)
    requires Reducible(g) && DepthFirstOrder(g, rpo, tree) && Numbering(g, rpo, num)
    ensures RetreatsToDominators(g, rpo, num)
  {
    forall b: nat, p: nat | b < |g| && b in rpo && Pred(g, rpo, p, b) && num[b] <= num[p]
      ensures Dominates(g, b, p)
    {
      assert Edge(g, rpo[num[p]], rpo[num[b]]);
    }
  }

  /** Repeats rounds until one changes nothing. */
  method RunRounds(fn: CfgFunction, rpo: seq<nat>, post: seq<nat>, preds: seq<seq<nat>>, ghost num: seq<nat>)
    returns (ghost rounds: nat)
    requires RoundInvariant(fn.blocks, rpo, num, fn.idom, 1) && PostorderNumbers(rpo, num, post)
    requires |num| == |preds| == |fn.blocks|
    requires forall v: nat, u: nat :: v < |fn.blocks| ==> (u in preds[v] <==> Edge(fn.blocks, u, v))
    modifies fn`idom
    ensures Settled(fn.blocks, rpo, num, fn.idom)
    ensures RetreatsToDominators(fn.blocks, rpo, num) ==> rounds <= 2
  {
    hide *;
    ghost var g := fn.blocks;
    ghost var reducible := RetreatsToDominators(g, rpo, num);
    rounds := 0;
    var changed := true;
    while changed
      invariant RoundInvariant(g, rpo, num, fn.idom, 1)
      invariant !changed ==> Settled(g, rpo, num, fn.idom)
      invariant reducible ==> rounds == 0 || (rounds == 1 && Settled(g, rpo, num, fn.idom)) || (rounds == 2 && !changed)
      decreases Work(num, fn.idom, |rpo|, |g|), if changed then 1 else 0
    {
      changed := Round(fn, rpo, post, preds, num);
      rounds := rounds + 1;
      if reducible {
        RoundIsExact(g, rpo, num, fn.idom);
        RoundSettles(g, rpo, num, fn.idom);
      }
      NextRound(g, rpo, num, fn.idom);
    }
  }

  /** Blocks no round reached fall back to the entry as parent. */
  method FillUndefined(fn: CfgFunction)
    modifies fn`idom
    ensures |fn.idom| == old(|fn.idom|)
    ensures forall k :: 0 <= k < |fn.idom| ==> fn.idom[k] == if old(fn.idom[k]) == UNDEFINED then 0 else old(fn.idom[k])
  {
    var k := 0;
    while k < |fn.idom|
      invariant 0 <= k <= |fn.idom| == old(|fn.idom|)
      invariant forall m :: 0 <= m < k ==> fn.idom[m] == if old(fn.idom[m]) == UNDEFINED then 0 else old(fn.idom[m])
      invariant forall m :: k <= m < |fn.idom| ==> fn.idom[m] == old(fn.idom[m])
    {
      if fn.idom[k] == UNDEFINED {
        fn.idom := fn.idom[k := 0];
      }
      k := k + 1;
    }
  }

  /**
   Fills `fn.idom`. On every graph, reducible or not, the rounds come to an end, and every
   reachable block then has its immediate dominator as parent. A reducible graph takes two rounds
   at most, the second of which changes nothing.
   */
  method ComputeDominators(fn: CfgFunction) returns (ghost rounds: nat)
    requires |fn.blocks| <= UNDEFINED
    modifies fn`idom
    ensures !fn.errorSkipped ==> ImmediateDominators(fn.blocks, fn.idom)
    ensures !fn.errorSkipped && Reducible(fn.blocks) ==> rounds <= 2
    ensures fn.errorSkipped ==>
              fn.idom == if old(|fn.idom|) == |fn.blocks| then old(fn.idom) else seq(|fn.blocks|, i => 0)
  {
    rounds := 0;
    if fn.errorSkipped {
      if |fn.idom| != |fn.blocks| {
        fn.idom := seq(|fn.blocks|, i => 0);
      }
      return;
    }
    hide *;
    ghost var g := fn.blocks;
    var blockCount := |fn.blocks|;
    if blockCount == 0 {
      fn.idom := [];
      return;
    }

    fn.idom := seq(blockCount, i => UNDEFINED);
    fn.idom := fn.idom[0 := 0];

    var rpo, tree := ComputeReversePostorder(fn.blocks);
    var post, num := NumberPostorder(fn.blocks, rpo, tree);
    var preds := ComputePredecessors(fn.blocks);
    FirstRound(g, rpo, num, fn.idom);
    if Reducible(g) {
      ReducibleRetreats(g, rpo, tree, num);
    }
    rounds := RunRounds(fn, rpo, post, preds, num);
    ghost var table := fn.idom;
    FillUndefined(fn);
    DoneIsExact(g, rpo, num, table, fn.idom);
  }
}
