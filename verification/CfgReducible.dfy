/**
 Built graphs are reducible: every edge either leads up in a ranking of the blocks, or back to
 the head of an interval of blocks that is entered at its head only.
 */
module CfgReducible {
  import opened Options
  import opened Graph
  import opened DepthFirst
  import opened Dominators
  import opened Statements
  import opened CfgShape

  /** Blocks `(h, e)` are entered from `[h, e)` only, and `s` is one of these. */
  ghost predicate Heads(g: Blocks, h: nat, s: nat, e: nat) {
    && h <= s < e <= |g|
    && forall u: nat, v: nat :: Edge(g, u, v) && h < v < e ==> h <= u < e
  }

  ghost predicate HasHead(g: Blocks, h: nat, s: nat) {
    exists e: nat :: Heads(g, h, s, e)
  }

  ghost predicate Ranked(g: Blocks, rank: seq<nat>) {
    && |rank| == |g|
    && forall u: nat, v: nat :: Edge(g, u, v) ==> rank[u] < rank[v] || HasHead(g, v, u)
  }

  // -------------------------------------------------------- ranked means reducible

  lemma {:induction false} HeadDominates(g: Blocks, h: nat, s: nat, e: nat, p: seq<nat>)
    requires Heads(g, h, s, e) && PathFromTo(g, p, 0, s)
    ensures h in p
    decreases |p|
  {
    if s == h {
    } else {
      var k := |p| - 2;
      assert Edge(g, p[k], p[k + 1]);
      PathSplit(g, p, k);
      HeadDominates(g, h, p[k], e, p[..k + 1]);
    }
  }

  lemma TreePathDistinct(g: Blocks, tree: seq<seq<nat>>, x: nat, j: nat)
    requires |tree| == |g| && x < |g| && TreePath(g, tree, x) && j < |tree[x]|
    ensures tree[x][j] !in tree[x][..j]
  {
    var t := tree[x];
    forall i | 0 <= i < j
      ensures t[i] != t[j]
    {
      assert |tree[t[i]]| == |t[..i + 1]| && |tree[t[j]]| == |t[..j + 1]|;
    }
  }

  /** Ranks go up along tree paths: no tree edge leads to a block that dominates its source. */
  lemma {:induction false} TreePathRanks(g: Blocks, rank: seq<nat>, tree: seq<seq<nat>>, x: nat, i: nat, j: nat)
    requires Ranked(g, rank) && |tree| == |g| && x < |g| && TreePath(g, tree, x)
    requires i <= j < |tree[x]|
    ensures tree[x][i] < |g| && tree[x][j] < |g| && rank[tree[x][i]] <= rank[tree[x][j]]
  {
    var t := tree[x];
    if i >= j {
    } else {
      TreePathRanks(g, rank, tree, x, i, j - 1);
      var u, v := t[j - 1], t[j];
      assert Edge(g, t[j - 1], t[j]);
      if rank[u] >= rank[v] {
        var e: nat :| Heads(g, v, u, e);
        PathSplit(g, t, j - 1);
        TreePathDistinct(g, tree, x, j);
        HeadDominates(g, v, u, e, t[..j]);
        assert false;
      }
    }
  }

  lemma BackEdgeDominates(g: Blocks, rank: seq<nat>, tree: seq<seq<nat>>, u: nat, v: nat)
    requires Ranked(g, rank) && |tree| == |g| && u < |g| && TreePath(g, tree, u)
    requires Edge(g, u, v) && v in tree[u]
    ensures Dominates(g, v, u)
  {
    var m :| 0 <= m < |tree[u]| && tree[u][m] == v;
    TreePathRanks(g, rank, tree, u, m, |tree[u]| - 1);
    var e: nat :| Heads(g, v, u, e);
    forall p | PathFromTo(g, p, 0, u)
      ensures v in p
    {
      HeadDominates(g, v, u, e, p);
    }
  }

  lemma RankedIsReducible(g: Blocks, rank: seq<nat>)
    requires Ranked(g, rank)
    ensures Reducible(g)
  {
    forall rpo, tree | DepthFirstOrder(g, rpo, tree)
      ensures forall i, j :: 0 <= j <= i < |rpo| && Edge(g, rpo[i], rpo[j]) ==> Dominates(g, rpo[j], rpo[i])
    {
      forall i, j | 0 <= j <= i < |rpo| && Edge(g, rpo[i], rpo[j])
        ensures Dominates(g, rpo[j], rpo[i])
      {
        assert rpo[i] in rpo;
        BackEdgeDominates(g, rank, tree, rpo[i], rpo[j]);
      }
    }
  }

  // ------------------------------------------------------------- ranking a walk

  /** All successors are blocks of the graph. */
  ghost predicate Closed(g: Blocks) {
    forall x, k :: 0 <= x < |g| && 0 <= k < |g[x].successors| ==> g[x].successors[k] < |g|
  }

  /** Edges into the blocks of `g` are the edges of `g`. */
  ghost predicate OldTargets(g: Blocks, g': Blocks) {
    && |g| <= |g'|
    && forall u: nat, v: nat :: v < |g| ==> (Edge(g', u, v) <==> Edge(g, u, v))
  }

  lemma HeadsKept(g: Blocks, g': Blocks, h: nat, s: nat)
    requires HasHead(g, h, s) && OldTargets(g, g')
    ensures HasHead(g', h, s)
  {
    var e: nat :| Heads(g, h, s, e);
    assert Heads(g', h, s, e);
  }

  /** `rank'` ranks `g'`, continues `rank`, and puts every new block above `cur`. */
  ghost predicate Extends(g: Blocks, rank: seq<nat>, cur: nat, g': Blocks, rank': seq<nat>) {
    && |rank| == |g| && |rank'| == |g'| && cur < |g| <= |g'|
    && Closed(g') && OldTargets(g, g') && Ranked(g', rank')
    && rank <= rank'
    && forall x :: |g| <= x < |g'| ==> rank[cur] < rank'[x]
  }

  lemma ExtendsTrans(g: Blocks, rank: seq<nat>, cur: nat, g1: Blocks, rank1: seq<nat>, mid: nat, g2: Blocks, rank2: seq<nat>)
    requires Extends(g, rank, cur, g1, rank1) && Extends(g1, rank1, mid, g2, rank2) && rank1[mid] >= rank1[cur]
    ensures Extends(g, rank, cur, g2, rank2)
  {
  }

  /** `g'` is `g` with one more block, entered from blocks ranked below it. */
  ghost predicate Grown(g: Blocks, rank: seq<nat>, g': Blocks, r: nat)
    requires |rank| == |g|
  {
    && |g'| == |g| + 1 && g'[|g|].successors == []
    && forall x :: 0 <= x < |g| ==>
         && g[x].successors <= g'[x].successors
         && forall k :: |g[x].successors| <= k < |g'[x].successors| ==> g'[x].successors[k] == |g| && rank[x] < r
  }

  lemma GrownOldTargets(g: Blocks, rank: seq<nat>, g': Blocks, r: nat)
    requires |rank| == |g| && Grown(g, rank, g', r)
    ensures OldTargets(g, g')
    ensures forall u: nat :: Edge(g', u, |g|) && !(u < |g| && |g| in g[u].successors) ==> u < |g| && rank[u] < r
  {
    forall u: nat, v: nat | v < |g|
      ensures Edge(g', u, v) <==> Edge(g, u, v)
    {
      if Edge(g', u, v) {
        var k :| 0 <= k < |g'[u].successors| && g'[u].successors[k] == v;
        assert g[u].successors[k] == v;
      }
    }
  }

  lemma GrowRanked(g: Blocks, rank: seq<nat>, cur: nat, g': Blocks, r: nat)
    requires Ranked(g, rank) && Closed(g) && cur < |g| && rank[cur] < r && Grown(g, rank, g', r)
    ensures Extends(g, rank, cur, g', rank + [r])
  {
    GrownOldTargets(g, rank, g', r);
    forall u: nat, v: nat | Edge(g', u, v)
      ensures (rank + [r])[u] < (rank + [r])[v] || HasHead(g', v, u)
    {
      if v < |g| {
        assert Edge(g, u, v);
        if rank[u] >= rank[v] {
          HeadsKept(g, g', v, u);
        }
      }
    }
  }

  /** Only the successors matter for a ranking. */
  lemma SameSuccessors(g: Blocks, rank: seq<nat>, g': Blocks)
    requires Ranked(g, rank) && Closed(g) && |g'| == |g|
    requires forall x :: 0 <= x < |g| ==> g'[x].successors == g[x].successors
    ensures Ranked(g', rank) && Closed(g') && OldTargets(g, g')
  {
    forall u: nat, v: nat | Edge(g', u, v)
      ensures rank[u] < rank[v] || HasHead(g', v, u)
    {
      assert Edge(g, u, v);
      if rank[u] >= rank[v] {
        HeadsKept(g, g', v, u);
      }
    }
  }

  /** One more edge into the first block made since `g`: upward, or back to the head of an interval. */
  lemma LinkRanked(g: Blocks, rank: seq<nat>, g1: Blocks, rank1: seq<nat>, from: nat)
    requires Ranked(g, rank) && Ranked(g1, rank1) && Closed(g1) && rank <= rank1 && OldTargets(g, g1)
    requires from < |g1| && |g| < |g1|
    requires rank1[from] < rank1[|g|] || Heads(Link(g1, from, |g|), |g|, from, |g1|)
    ensures Ranked(Link(g1, from, |g|), rank1) && Closed(Link(g1, from, |g|)) && OldTargets(g, Link(g1, from, |g|))
  {
    var g' := Link(g1, from, |g|);
    forall u: nat, v: nat
      ensures Edge(g', u, v) <==> Edge(g1, u, v) || (u == from && v == |g|)
    {
    }
    forall u: nat, v: nat | Edge(g', u, v)
      ensures rank1[u] < rank1[v] || HasHead(g', v, u)
    {
      if Edge(g1, u, v) && rank1[u] >= rank1[v] {
        if v < |g| {
          assert Edge(g, u, v);
          HeadsKept(g, g', v, u);
        } else {
          var e: nat :| Heads(g1, v, u, e);
          assert Heads(g', v, u, e);
        }
      }
    }
  }

  lemma RegionOldTargets(g: Blocks, cur: nat, g': Blocks, end: nat)
    requires Region(g, cur, g', end) && Closed(g)
    ensures OldTargets(g, g') && Closed(g')
  {
    forall u: nat, v: nat | v < |g|
      ensures Edge(g', u, v) <==> Edge(g, u, v)
    {
      if Edge(g', u, v) {
        var k :| 0 <= k < |g'[u].successors| && g'[u].successors[k] == v;
        assert u < |g|;
        assert k < |g[u].successors| && g[u].successors[k] == v;
      }
    }
  }

  /** The blocks a loop body was made of are entered through the first block made for the loop. */
  lemma BodyIsInterval(g: Blocks, cur: nat, start: Blocks, b: nat, g1: Blocks, e: nat, g': Blocks, s: nat)
    requires Closed(g) && cur < |g| < |start| && b == |start| - 1 && Region(start, b, g1, e)
    requires forall x :: 0 <= x < |g| ==> start[x].successors == g[x].successors + (if x == cur then [|g|] else [])
    requires |g1| <= |g'| && |g| <= s < |g'|
    requires forall x :: 0 <= x < |g| ==> g'[x].successors == g1[x].successors
    ensures Heads(g', |g|, s, |g'|)
  {
    forall u: nat, v: nat | Edge(g', u, v) && |g| < v < |g'|
      ensures |g| <= u < |g'|
    {
      if u < |g| {
        assert false;
      }
    }
  }

  function Max(a: nat, b: nat): nat {
    if a < b then b else a
  }

  lemma {:induction false} WalkRanked(s: Stmt, g: Blocks, cur: nat, rank: seq<nat>) returns (rank': seq<nat>)
    requires cur < |g| == |rank| && Ranked(g, rank) && Closed(g)
    ensures Extends(g, rank, cur, Walk(s, g, cur).0, rank')
    decreases s, 3, 0
  {
    hide Ranked, Closed, OldTargets, Grown, Extends, Region, Link, Place, MarkDiscard, MarkExit, MarkBarrier,
         ThenStart, ElseStart, Join, LoopStart, LoopFinish, DoStart, DoFinish, SwitchStart;
    match s
    case Plain(_, _) => rank' := LeafRanked(s, g, cur, rank);
    case Return(_) => rank' := LeafRanked(s, g, cur, rank);
    case Barrier(_) => rank' := LeafRanked(s, g, cur, rank);
    case If(_, _, _, _) => rank' := IfRanked(s, g, cur, rank);
    case Loop(_, _, _) => rank' := LoopRanked(s, g, cur, rank);
    case DoWhile(_, _, _) => rank' := DoRanked(s, g, cur, rank);
    case Switch(_, _, _, _) => rank' := SwitchRanked(s, g, cur, rank);
    case Block(span, discard, stmts) =>
      MarkedRanked(g, rank, cur, discard);
      rank' := SequenceRanked(s, stmts, 0, MarkDiscard(g, cur, discard), cur, rank);
      MarkedExtends(g, rank, cur, discard, Walk(s, g, cur).0, rank');
  }

  lemma MarkedRanked(g: Blocks, rank: seq<nat>, cur: nat, discard: bool)
    requires Ranked(g, rank) && Closed(g) && cur < |g|
    ensures Ranked(MarkDiscard(g, cur, discard), rank) && Closed(MarkDiscard(g, cur, discard))
  {
    SameSuccessors(g, rank, MarkDiscard(g, cur, discard));
  }

  lemma MarkedExtends(g: Blocks, rank: seq<nat>, cur: nat, discard: bool, g': Blocks, rank': seq<nat>)
    requires Ranked(g, rank) && Closed(g) && cur < |g| && Extends(MarkDiscard(g, cur, discard), rank, cur, g', rank')
    ensures Extends(g, rank, cur, g', rank')
  {
  }

  lemma LeafRanked(s: Stmt, g: Blocks, cur: nat, rank: seq<nat>) returns (rank': seq<nat>)
    requires cur < |g| == |rank| && Ranked(g, rank) && Closed(g) && (s.Plain? || s.Return? || s.Barrier?)
    ensures Extends(g, rank, cur, Walk(s, g, cur).0, rank')
  {
    var g' := Walk(s, g, cur).0;
    if s.Plain? {
      SameSuccessors(g, rank, g');
      rank' := rank;
    } else {
      assert Grown(g, rank, g', rank[cur] + 1);
      GrowRanked(g, rank, cur, g', rank[cur] + 1);
      rank' := rank + [rank[cur] + 1];
    }
  }

  lemma {:induction false} OptionRanked(outer: Stmt, s: Option<Stmt>, g: Blocks, cur: nat, rank: seq<nat>)
    returns (rank': seq<nat>)
    requires cur < |g| == |rank| && Ranked(g, rank) && Closed(g) && (s.Some? ==> s.value < outer)
    ensures Extends(g, rank, cur, WalkOption(outer, s, g, cur).0, rank')
    decreases outer, 0, 0
  {
    match s
    case None =>
      SameSuccessors(g, rank, g);
      rank' := rank;
    case Some(inner) =>
      rank' := WalkRanked(inner, g, cur, rank);
  }

  lemma {:induction false} SequenceRanked(outer: Stmt, stmts: seq<Stmt>, k: nat, g: Blocks, cur: nat, rank: seq<nat>)
    returns (rank': seq<nat>)
    requires cur < |g| == |rank| && Ranked(g, rank) && Closed(g) && k <= |stmts| && forall m :: 0 <= m < |stmts| ==> stmts[m] < outer
    ensures Extends(g, rank, cur, WalkFrom(outer, stmts, k, g, cur).0, rank')
    decreases outer, 1, |stmts| - k
  {
    hide Ranked, Closed, OldTargets, Walk;
    if k == |stmts| {
      SameSuccessors(g, rank, g);
      rank' := rank;
    } else {
      var rank1 := WalkRanked(stmts[k], g, cur, rank);
      WalkIsRegion(stmts[k], g, cur);
      var (g1, mid) := Walk(stmts[k], g, cur);
      rank' := SequenceRanked(outer, stmts, k + 1, g1, mid, rank1);
      ExtendsTrans(g, rank, cur, g1, rank1, mid, WalkFrom(outer, stmts, k + 1, g1, mid).0, rank');
    }
  }

  lemma JoinRanked(span: ByteSpan, g: Blocks, cur: nat, rank: seq<nat>, g1: Blocks, a: nat, b: nat, rank1: seq<nat>)
    returns (rank': seq<nat>)
    requires Extends(g, rank, cur, g1, rank1) && a < |g1| && b < |g1|
    ensures Extends(g, rank, cur, Join(span, g1, a, b), rank')
  {
    hide Ranked, Closed, OldTargets;
    var r := Max(rank1[cur], Max(rank1[a], rank1[b])) + 1;
    var g' := Join(span, g1, a, b);
    assert Grown(g1, rank1, g', r);
    GrowRanked(g1, rank1, cur, g', r);
    rank' := rank1 + [r];
    ExtendsTrans(g, rank, cur, g1, rank1, cur, g', rank');
  }

  lemma {:induction false} IfRanked(s: Stmt, g: Blocks, cur: nat, rank: seq<nat>) returns (rank': seq<nat>)
    requires cur < |g| == |rank| && Ranked(g, rank) && Closed(g) && s.If?
    ensures Extends(g, rank, cur, Walk(s, g, cur).0, rank')
    decreases s, 2, 0
  {
    hide Ranked, Closed, OldTargets;
    var If(span, discard, thn, els) := s;
    var start := ThenStart(span, discard, g, cur);
    assert Grown(g, rank, start, rank[cur] + 1);
    GrowRanked(g, rank, cur, start, rank[cur] + 1);
    var rank0 := rank + [rank[cur] + 1];
    var rank1 := OptionRanked(s, thn, start, |g|, rank0);
    var (g1, thenEnd) := WalkOption(s, thn, start, |g|);
    ExtendsTrans(g, rank, cur, start, rank0, |g|, g1, rank1);
    if els.None? {
      rank' := JoinRanked(span, g, cur, rank, g1, thenEnd, cur, rank1);
    } else {
      rank' := ElseRanked(s, g, cur, rank, g1, thenEnd, rank1);
    }
  }

  lemma {:induction false} ElseRanked(s: Stmt, g: Blocks, cur: nat, rank: seq<nat>, g1: Blocks, thenEnd: nat, rank1: seq<nat>)
    returns (rank': seq<nat>)
    requires s.If? && s.els.Some? && Extends(g, rank, cur, g1, rank1) && thenEnd < |g1|
    ensures var (g2, elseEnd) := Walk(s.els.value, ElseStart(s.els.value.span, g1, cur), |g1|);
            Extends(g, rank, cur, Join(s.span, g2, thenEnd, elseEnd), rank')
    decreases s, 1, 0
  {
    hide Ranked, Closed, OldTargets;
    var start := ElseStart(s.els.value.span, g1, cur);
    assert Grown(g1, rank1, start, rank1[cur] + 1);
    GrowRanked(g1, rank1, cur, start, rank1[cur] + 1);
    var rank2 := rank1 + [rank1[cur] + 1];
    ExtendsTrans(g, rank, cur, g1, rank1, cur, start, rank2);
    var rank3 := WalkRanked(s.els.value, start, |g1|, rank2);
    var (g2, elseEnd) := Walk(s.els.value, start, |g1|);
    ExtendsTrans(g, rank, cur, start, rank2, |g1|, g2, rank3);
    rank' := JoinRanked(s.span, g, cur, rank, g2, thenEnd, elseEnd, rank3);
  }

  lemma LoopStartRanked(span: ByteSpan, discard: bool, g: Blocks, cur: nat, rank: seq<nat>) returns (rank': seq<nat>)
    requires cur < |g| == |rank| && Ranked(g, rank) && Closed(g)
    ensures Extends(g, rank, cur, LoopStart(span, discard, g, cur), rank')
  {
    hide Ranked, OldTargets, Heads, Closed;
    var h := Link(MarkDiscard(g, cur, discard) + [Fresh(span)], cur, |g|);
    var start := LoopStart(span, discard, g, cur);
    var r := rank[cur] + 1;
    GrowRanked(g, rank, cur, h, r);
    hide Grown, Link, Place;
    GrowRanked(h, rank + [r], |g|, start, r + 1);
    ExtendsTrans(g, rank, cur, h, rank + [r], |g|, start, rank + [r] + [r + 1]);
    rank' := rank + [r] + [r + 1];
  }

  /** After an edge back to the head of the newest interval, the graph still extends the one before it. */
  lemma LinkExtends(g: Blocks, rank: seq<nat>, cur: nat, g1: Blocks, rank1: seq<nat>, from: nat)
    requires Ranked(g, rank) && Extends(g, rank, cur, g1, rank1) && from < |g1| && |g| < |g1|
    requires rank1[from] < rank1[|g|] || Heads(Link(g1, from, |g|), |g|, from, |g1|)
    ensures Extends(g, rank, cur, Link(g1, from, |g|), rank1)
  {
    LinkRanked(g, rank, g1, rank1, from);
  }

  lemma {:induction false} LoopRanked(s: Stmt, g: Blocks, cur: nat, rank: seq<nat>) returns (rank': seq<nat>)
    requires cur < |g| == |rank| && Ranked(g, rank) && Closed(g) && s.Loop?
    ensures Extends(g, rank, cur, Walk(s, g, cur).0, rank')
    decreases s, 2, 0
  {
    hide Ranked, OldTargets, Heads, Region, Closed, LoopStart, LoopFinish;
    var Loop(span, discard, body) := s;
    var start := LoopStart(span, discard, g, cur);
    var rank0 := LoopStartRanked(span, discard, g, cur, rank);
    var rank1 := OptionRanked(s, body, start, |g| + 1, rank0);
    var (g1, bodyEnd) := WalkOption(s, body, start, |g| + 1);
    ExtendsTrans(g, rank, cur, start, rank0, |g| + 1, g1, rank1);
    WalkOptionIsRegion(s, body, start, |g| + 1);
    rank' := LoopFinishRanked(span, discard, g, cur, rank, start, g1, bodyEnd, rank1);
  }

  lemma LoopStartSuccessors(span: ByteSpan, discard: bool, g: Blocks, cur: nat)
    requires cur < |g|
    ensures var start := LoopStart(span, discard, g, cur);
            forall x :: 0 <= x < |g| ==> start[x].successors == g[x].successors + (if x == cur then [|g|] else [])
  {
  }

  lemma LoopFinishRanked(span: ByteSpan, discard: bool, g: Blocks, cur: nat, rank: seq<nat>, start: Blocks, g1: Blocks,
                         bodyEnd: nat, rank1: seq<nat>) returns (rank': seq<nat>)
    requires Ranked(g, rank) && Closed(g) && Extends(g, rank, cur, g1, rank1) && bodyEnd < |g1|
    requires start == LoopStart(span, discard, g, cur) && Region(start, |g| + 1, g1, bodyEnd)
    ensures Extends(g, rank, cur, LoopFinish(span, g1, bodyEnd, |g|), rank')
  {
    hide Ranked, OldTargets, Heads, LoopStart, Closed;
    var g2 := Link(g1, bodyEnd, |g|);
    assert |g| <= bodyEnd;
    LoopStartSuccessors(span, discard, g, cur);
    BodyIsInterval(g, cur, start, |g| + 1, g1, bodyEnd, g2, bodyEnd);
    LinkExtends(g, rank, cur, g1, rank1, bodyEnd);
    var g' := LoopFinish(span, g1, bodyEnd, |g|);
    var r := Max(rank1[cur], rank1[|g|]) + 1;
    assert Grown(g2, rank1, g', r);
    GrowRanked(g2, rank1, cur, g', r);
    rank' := rank1 + [r];
    ExtendsTrans(g, rank, cur, g2, rank1, cur, g', rank');
  }

  lemma {:induction false} DoRanked(s: Stmt, g: Blocks, cur: nat, rank: seq<nat>) returns (rank': seq<nat>)
    requires cur < |g| == |rank| && Ranked(g, rank) && Closed(g) && s.DoWhile?
    ensures Extends(g, rank, cur, Walk(s, g, cur).0, rank')
    decreases s, 2, 0
  {
    hide Ranked, OldTargets, Heads;
    var DoWhile(span, discard, body) := s;
    var start := DoStart(span, discard, g, cur);
    assert Grown(g, rank, start, rank[cur] + 1);
    GrowRanked(g, rank, cur, start, rank[cur] + 1);
    var rank0 := rank + [rank[cur] + 1];
    var rank1 := OptionRanked(s, body, start, |g|, rank0);
    var (g1, bodyEnd) := WalkOption(s, body, start, |g|);
    ExtendsTrans(g, rank, cur, start, rank0, |g|, g1, rank1);
    WalkOptionIsRegion(s, body, start, |g|);
    rank' := DoFinishRanked(span, discard, g, cur, rank, start, g1, bodyEnd, rank1);
  }

  lemma DoFinishRanked(span: ByteSpan, discard: bool, g: Blocks, cur: nat, rank: seq<nat>, start: Blocks, g1: Blocks, bodyEnd: nat,
                       rank1: seq<nat>) returns (rank': seq<nat>)
    requires Ranked(g, rank) && Closed(g) && Extends(g, rank, cur, g1, rank1) && bodyEnd < |g1|
    requires start == DoStart(span, discard, g, cur) && Region(start, |g|, g1, bodyEnd)
    ensures Extends(g, rank, cur, DoFinish(span, g1, bodyEnd, |g|), rank')
  {
    hide Ranked, OldTargets, Heads, Closed, Extends;
    var cond := |g1|;
    var g2 := Link(Place(g1 + [Fresh(span)], cond, Tested(span)), bodyEnd, cond);
    ExtendsBounds(g, rank, cur, g1, rank1);
    var r := Max(rank1[cur], rank1[bodyEnd]) + 1;
    PlaceAppended(g1, span);
    GrowRanked(g1, rank1, cur, g2, r);
    var rank2 := rank1 + [r];
    ExtendsTrans(g, rank, cur, g1, rank1, cur, g2, rank2);
    var g3 := Link(g2, cond, |g|);
    DoBodyIsInterval(span, discard, g, cur, start, g1, bodyEnd);
    LinkExtends(g, rank, cur, g2, rank2, cond);
    ExtendsBounds(g, rank, cur, g3, rank2);
    var g' := DoFinish(span, g1, bodyEnd, |g|);
    GrowRanked(g3, rank2, cur, g', r + 1);
    rank' := rank2 + [r + 1];
    ExtendsTrans(g, rank, cur, g3, rank2, cur, g', rank');
  }

  lemma PlaceAppended(g: Blocks, span: ByteSpan)
    ensures Place(g + [Fresh(span)], |g|, Tested(span)) == g + [Fresh(span).(steps := [Tested(span)])]
  {
    assert Fresh(span).steps + [Tested(span)] == [Tested(span)];
  }

  lemma ExtendsBounds(g: Blocks, rank: seq<nat>, cur: nat, g': Blocks, rank': seq<nat>)
    requires Extends(g, rank, cur, g', rank')
    ensures |rank| == |g| && |rank'| == |g'| && cur < |g| <= |g'| && Closed(g') && Ranked(g', rank')
  {
  }

  lemma DoBodyIsInterval(span: ByteSpan, discard: bool, g: Blocks, cur: nat, start: Blocks, g1: Blocks, bodyEnd: nat)
    requires Closed(g) && cur < |g| && bodyEnd < |g1|
    requires start == DoStart(span, discard, g, cur) && Region(start, |g|, g1, bodyEnd)
    ensures var cond := |g1|;
            var g3 := Link(Link(Place(g1 + [Fresh(span)], cond, Tested(span)), bodyEnd, cond), cond, |g|);
            Heads(g3, |g|, cond, |g3|)
  {
    hide Heads, Closed;
    var cond := |g1|;
    var g3 := Link(Link(Place(g1 + [Fresh(span)], cond, Tested(span)), bodyEnd, cond), cond, |g|);
    BodyIsInterval(g, cur, start, |g|, g1, bodyEnd, g3, cond);
  }

  lemma {:induction false} SwitchRanked(s: Stmt, g: Blocks, cur: nat, rank: seq<nat>) returns (rank': seq<nat>)
    requires cur < |g| == |rank| && Ranked(g, rank) && Closed(g) && s.Switch?
    ensures Extends(g, rank, cur, Walk(s, g, cur).0, rank')
    decreases s, 2, 0
  {
    hide Ranked, OldTargets, Heads;
    var Switch(span, discard, empty, cases) := s;
    var start := SwitchStart(span, discard, g, cur);
    assert Grown(g, rank, start, rank[cur] + 1);
    GrowRanked(g, rank, cur, start, rank[cur] + 1);
    rank' := CasesRanked(s, cases, 0, g, rank, start, rank + [rank[cur] + 1], cur);
    if empty {
      LinkExtends(g, rank, cur, WalkCases(s, cases, 0, start, cur, |g|), rank', cur);
    }
  }

  lemma {:induction false} CasesRanked(outer: Stmt, cases: seq<Stmt>, k: nat, g0: Blocks, rank0: seq<nat>, g: Blocks,
                                       rank: seq<nat>, dispatch: nat)
    returns (rank': seq<nat>)
    requires k <= |cases| && forall m :: 0 <= m < |cases| ==> cases[m] < outer
    requires Ranked(g0, rank0) && Extends(g0, rank0, dispatch, g, rank) && |g0| < |g| && Open(g[|g0|])
    ensures Extends(g0, rank0, dispatch, WalkCases(outer, cases, k, g, dispatch, |g0|), rank')
    decreases outer, 1, |cases| - k
  {
    hide Ranked, OldTargets, Heads, Closed, Region, Extends, WalkCases, Walk;
    ExtendsBounds(g0, rank0, dispatch, g, rank);
    WalkCasesIs(outer, cases, k, g, dispatch, |g0|);
    if k == |cases| {
      rank' := rank;
    } else {
      var join := |g0|;
      var start := Link(g + [Fresh(cases[k].span)], dispatch, |g|);
      GrowRanked(g, rank, dispatch, start, rank[dispatch] + 1);
      var rank1 := rank + [rank[dispatch] + 1];
      ExtendsTrans(g0, rank0, dispatch, g, rank, dispatch, start, rank1);
      var rank2 := WalkRanked(cases[k], start, |g|, rank1);
      WalkIsRegion(cases[k], start, |g|);
      var (g1, caseEnd) := Walk(cases[k], start, |g|);
      CaseKeepsJoin(cases[k].span, g, dispatch, join, g1, caseEnd);
      ExtendsTrans(g0, rank0, dispatch, start, rank1, |g|, g1, rank2);
      var rank3 := rank2[join := Max(rank2[join], rank2[caseEnd] + 1)];
      CaseEndRanked(g0, rank0, dispatch, g1, rank2, caseEnd);
      rank' := CasesRanked(outer, cases, k + 1, g0, rank0, Link(g1, caseEnd, join), rank3, dispatch);
    }
  }

  lemma CaseKeepsJoin(span: ByteSpan, g: Blocks, dispatch: nat, join: nat, g1: Blocks, caseEnd: nat)
    requires dispatch < join < |g| && Open(g[join])
    requires Region(Link(g + [Fresh(span)], dispatch, |g|), |g|, g1, caseEnd)
    ensures |g| < |g1| && caseEnd < |g1| && caseEnd != join && Open(g1[join])
  {
  }

  lemma CaseEndRanked(g0: Blocks, rank0: seq<nat>, dispatch: nat, g1: Blocks, rank2: seq<nat>, caseEnd: nat)
    requires Ranked(g0, rank0) && Extends(g0, rank0, dispatch, g1, rank2) && |g0| < |g1| && caseEnd < |g1|
    requires Open(g1[|g0|]) && caseEnd != |g0|
    ensures Extends(g0, rank0, dispatch, Link(g1, caseEnd, |g0|), rank2[|g0| := Max(rank2[|g0|], rank2[caseEnd] + 1)])
  {
    var rank3 := rank2[|g0| := Max(rank2[|g0|], rank2[caseEnd] + 1)];
    assert Extends(g0, rank0, dispatch, g1, rank3);
    LinkExtends(g0, rank0, dispatch, g1, rank3, caseEnd);
  }
}
