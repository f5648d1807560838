/**
 The graph means what the statement means: what executions of a statement do is exactly what
 paths through its region contain.
 */
module CfgMeaning {
  import opened Options
  import opened Graph
  import opened Statements
  import opened CfgShape

  /** The steps along a path. */
  ghost function Content(g: Blocks, p: seq<nat>): seq<Step>
    requires forall i :: 0 <= i < |p| ==> p[i] < |g|
  {
    if p == [] then [] else g[p[0]].steps + Content(g, p[1..])
  }

  lemma {:induction false} ContentConcat(g: Blocks, p: seq<nat>, q: seq<nat>)
    requires forall i :: 0 <= i < |p| ==> p[i] < |g|
    requires forall i :: 0 <= i < |q| ==> q[i] < |g|
    ensures Content(g, p + q) == Content(g, p) + Content(g, q)
  {
    if p == [] {
      assert p + q == q;
    } else {
      assert (p + q)[1..] == p[1..] + q;
      ContentConcat(g, p[1..], q);
    }
  }

  lemma {:induction false} ContentFrame(g: Blocks, g': Blocks, p: seq<nat>)
    requires forall i :: 0 <= i < |p| ==> p[i] < |g| && p[i] < |g'| && g[p[i]].steps == g'[p[i]].steps
    ensures Content(g, p) == Content(g', p)
  {
    if p == [] {
    } else {
      ContentFrame(g, g', p[1..]);
    }
  }

  /** The content up to the last block, and that of the last block. */
  lemma ContentLast(g: Blocks, p: seq<nat>)
    requires p != [] && forall i :: 0 <= i < |p| ==> p[i] < |g|
    ensures Content(g, p) == Content(g, p[..|p| - 1]) + g[p[|p| - 1]].steps
  {
    hide Content;
    var front, last := p[..|p| - 1], [p[|p| - 1]];
    ContentConcat(g, front, last);
    ContentSingle(g, p[|p| - 1]);
    assert front + last == p;
  }

  lemma ContentSingle(g: Blocks, x: nat)
    requires x < |g|
    ensures Content(g, [x]) == g[x].steps
  {
  }

  /**
   `p` runs through the region from `cur`: to the end of it, or to a block that returns; its
   content is what `cur` held before, then `t`.
   */
  ghost predicate Executes(g: Blocks, cur: nat, g': Blocks, end: nat, p: seq<nat>, t: seq<Step>, r: bool) {
    && cur < |g| <= |g'|
    && p != [] && IsPath(g', p) && p[0] == cur
    && (forall i :: 0 <= i < |p| ==> p[i] < |g'| && (i > 0 ==> |g| <= p[i]))
    && (if r then p[|p| - 1] != end && g'[p[|p| - 1]].isExit else p[|p| - 1] == end)
    && Content(g', p) == g[cur].steps + t
  }

  // ----------------------------------------------------- executions become paths

  /** Between two graphs, the blocks `[lo, hi)` differ at most in where `e` leads to. */
  ghost predicate Embedded(g: Blocks, g': Blocks, lo: nat, hi: nat, e: nat) {
    && lo <= e < hi <= |g| && hi <= |g'|
    && forall x :: lo <= x < hi ==>
         && g'[x].steps == g[x].steps
         && g'[x].isExit == g[x].isExit
         && (x != e ==> g'[x].successors == g[x].successors)
  }

  lemma PathFrame(g: Blocks, g': Blocks, p: seq<nat>)
    requires IsPath(g, p) && |g| <= |g'|
    requires forall i :: 0 <= i < |p| - 1 ==> p[i] < |g| && g[p[i]].successors <= g'[p[i]].successors
    ensures IsPath(g', p)
  {
    forall i | 0 <= i < |p| - 1
      ensures Edge(g', p[i], p[i + 1])
    {
      assert Edge(g, p[i], p[i + 1]);
    }
  }

  /** An open block is only ever the last of a path. */
  lemma OpenIsLast(g: Blocks, p: seq<nat>, e: nat, i: nat)
    requires IsPath(g, p) && i < |p| - 1 && e < |g| && g[e].successors == []
    ensures p[i] != e
  {
    assert Edge(g, p[i], p[i + 1]);
  }

  /** An execution of a statement whose first block is new carries over into the whole graph. */
  lemma EmbedExecution(g: Blocks, b: nat, g1: Blocks, e: nat, g': Blocks, p: seq<nat>, t: seq<Step>, r: bool)
    requires b == |g| - 1 && Open(g[b]) && g[b].steps == [] && Region(g, b, g1, e)
    requires Executes(g, b, g1, e, p, t, r) && Embedded(g1, g', b, |g1|, e)
    ensures IsPath(g', p) && p[0] == b && Content(g', p) == t
    ensures forall i :: 0 <= i < |p| ==> b <= p[i] < |g1|
    ensures r ==> p[|p| - 1] != e && g'[p[|p| - 1]].isExit
    ensures !r ==> p[|p| - 1] == e
  {
    forall i | 0 <= i < |p| - 1
      ensures p[i] != e
    {
      OpenIsLast(g1, p, e, i);
    }
    PathFrame(g1, g', p);
    ContentFrame(g1, g', p);
  }

  /** Walking on changes only the block that was left open. */
  lemma RegionAgrees(g: Blocks, cur: nat, g': Blocks, end: nat, p: seq<nat>)
    requires Region(g, cur, g', end) && forall i :: 0 <= i < |p| ==> p[i] < |g|
    ensures |g| <= |g'|
    ensures forall i :: 0 <= i < |p| && p[i] != cur ==> g'[p[i]] == g[p[i]]
  {
  }

  lemma OpenPathPrefix(g: Blocks, p: seq<nat>, e: nat)
    requires IsPath(g, p) && e < |g| && g[e].successors == []
    ensures forall i :: 0 <= i < |p| - 1 ==> p[i] != e
  {
    forall i | 0 <= i < |p| - 1
      ensures p[i] != e
    {
      OpenIsLast(g, p, e, i);
    }
  }

  /** The content of two paths joined at `mid`, where the second graph has more to say about `mid`. */
  lemma JoinedContent(g1: Blocks, g2: Blocks, mid: nat, p: seq<nat>, q: seq<nat>)
    requires p != [] && q != [] && p[|p| - 1] == q[0] == mid < |g1| <= |g2|
    requires forall i :: 0 <= i < |p| ==> p[i] < |g1|
    requires forall i :: 0 <= i < |q| ==> q[i] < |g2|
    requires forall i :: 0 <= i < |p| - 1 ==> g2[p[i]].steps == g1[p[i]].steps
    ensures forall i :: 0 <= i < |p + q[1..]| ==> (p + q[1..])[i] < |g2|
    ensures Content(g2, p + q[1..]) == Content(g1, p[..|p| - 1]) + Content(g2, q)
    ensures Content(g1, p) == Content(g1, p[..|p| - 1]) + g1[mid].steps
  {
    hide Content;
    var k := |p| - 1;
    assert p + q[1..] == p[..k] + q;
    ContentConcat(g2, p[..k], q);
    ContentLast(g1, p);
    ContentFrame(g1, g2, p[..k]);
  }

  lemma RegionEnd(g: Blocks, cur: nat, g': Blocks, end: nat)
    requires Region(g, cur, g', end)
    ensures cur < |g| <= |g'| && end < |g'|
  {
  }

  /** One statement after the other. */
  lemma SequenceExecution(g: Blocks, cur: nat, g1: Blocks, mid: nat, g2: Blocks, end: nat,
                          p: seq<nat>, t: seq<Step>, q: seq<nat>, u: seq<Step>, r: bool)
    requires Region(g, cur, g1, mid) && Region(g1, mid, g2, end) && Open(g1[mid])
    requires Executes(g, cur, g1, mid, p, t, false) && Executes(g1, mid, g2, end, q, u, r)
    ensures q != [] && Executes(g, cur, g2, end, p + q[1..], t + u, r)
  {
    hide Content, Region;
    RegionEnd(g, cur, g1, mid);
    OpenPathPrefix(g1, p, mid);
    RegionAgrees(g1, mid, g2, end, p);
    PathFrame(g1, g2, p);
    PathJoin(g2, p, q, cur, mid, q[|q| - 1]);
    JoinedContent(g1, g2, mid, p, q);
    var front := Content(g1, p[..|p| - 1]);
    calc {
      Content(g2, p + q[1..]);
      front + (g1[mid].steps + u);
      (front + g1[mid].steps) + u;
      g[cur].steps + (t + u);
    }
  }

  /** A return is not affected by what is walked afterwards. */
  lemma ReturnExecution(g: Blocks, cur: nat, g1: Blocks, mid: nat, g2: Blocks, end: nat, p: seq<nat>, t: seq<Step>)
    requires Region(g, cur, g1, mid) && Region(g1, mid, g2, end) && Open(g1[mid])
    requires Executes(g, cur, g1, mid, p, t, true)
    ensures Executes(g, cur, g2, end, p, t, true)
  {
    hide Region;
    RegionEnd(g, cur, g1, mid);
    OpenPathPrefix(g1, p, mid);
    RegionAgrees(g1, mid, g2, end, p);
    PathFrame(g1, g2, p);
    ContentFrame(g1, g2, p);
    EndsElsewhere(g1, mid, g2, end);
  }

  lemma EndsElsewhere(g: Blocks, cur: nat, g': Blocks, end: nat)
    requires Region(g, cur, g', end)
    ensures end == cur || |g| <= end
  {
  }

  /** Where a branch ends up: the blocks of the branch are embedded in the finished `if`. */
  ghost predicate Branches(span: ByteSpan, g: Blocks, cur: nat, g': Blocks, join: nat) {
    && cur < |g| <= join < |g'|
    && g'[cur].steps == g[cur].steps + [Tested(span)]
    && g'[cur].isExit == g[cur].isExit
    && g'[join].steps == [] && Open(g'[join])
  }

  lemma IfFacts(span: ByteSpan, discard: bool, g: Blocks, cur: nat, g1: Blocks, thenEnd: nat)
    requires cur < |g| && Open(g[cur]) && Region(ThenStart(span, discard, g, cur), |g|, g1, thenEnd)
    ensures var g' := Join(span, g1, thenEnd, cur);
            && Branches(span, g, cur, g', |g1|)
            && g'[cur].successors == [|g|, |g1|]
            && thenEnd < |g'| && g'[thenEnd].successors == [|g1|]
            && Edge(g', cur, |g|) && Edge(g', cur, |g1|) && Edge(g', thenEnd, |g1|)
            && Embedded(g1, g', |g|, |g1|, thenEnd)
  {
  }

  lemma IfElseFacts(span: ByteSpan, discard: bool, g: Blocks, cur: nat, g1: Blocks, thenEnd: nat,
                    elseSpan: ByteSpan, g2: Blocks, elseEnd: nat)
    requires cur < |g| && Open(g[cur]) && Region(ThenStart(span, discard, g, cur), |g|, g1, thenEnd)
    requires Region(ElseStart(elseSpan, g1, cur), |g1|, g2, elseEnd)
    ensures var g' := Join(span, g2, thenEnd, elseEnd);
            && Branches(span, g, cur, g', |g2|)
            && g'[cur].successors == [|g|, |g1|]
            && thenEnd < |g'| && elseEnd < |g'|
            && g'[thenEnd].successors == [|g2|] && g'[elseEnd].successors == [|g2|]
            && Edge(g', cur, |g|) && Edge(g', cur, |g1|) && Edge(g', thenEnd, |g2|) && Edge(g', elseEnd, |g2|)
            && Embedded(g1, g', |g|, |g1|, thenEnd)
            && Embedded(g2, g', |g1|, |g2|, elseEnd)
  {
  }

  lemma LoopFacts(span: ByteSpan, discard: bool, g: Blocks, cur: nat, g1: Blocks, bodyEnd: nat)
    requires cur < |g| && Open(g[cur]) && Region(LoopStart(span, discard, g, cur), |g| + 1, g1, bodyEnd)
    ensures var g', header, exitBlock := LoopFinish(span, g1, bodyEnd, |g|), |g|, |g1|;
            && g'[cur].steps == g[cur].steps && g'[cur].successors == [header] && g'[cur].isExit == g[cur].isExit
            && g'[header].steps == [Tested(span)] && g'[header].successors == [|g| + 1, exitBlock] && !g'[header].isExit
            && bodyEnd < |g'| && g'[bodyEnd].successors == [header]
            && Edge(g', header, |g| + 1) && Edge(g', header, exitBlock) && Edge(g', bodyEnd, header)
            && g'[exitBlock].steps == [] && Open(g'[exitBlock])
            && Embedded(g1, g', |g| + 1, |g1|, bodyEnd)
  {
  }

  lemma DoFacts(span: ByteSpan, discard: bool, g: Blocks, cur: nat, g1: Blocks, bodyEnd: nat)
    requires cur < |g| && Open(g[cur]) && Region(DoStart(span, discard, g, cur), |g|, g1, bodyEnd)
    ensures var g', cond, exitBlock := DoFinish(span, g1, bodyEnd, |g|), |g1|, |g1| + 1;
            && g'[cur].steps == g[cur].steps && g'[cur].successors == [|g|] && g'[cur].isExit == g[cur].isExit
            && g'[cond].steps == [Tested(span)] && g'[cond].successors == [|g|, exitBlock] && !g'[cond].isExit
            && bodyEnd < |g'| && g'[bodyEnd].successors == [cond]
            && Edge(g', bodyEnd, cond) && Edge(g', cond, |g|) && Edge(g', cond, exitBlock)
            && g'[exitBlock].steps == [] && Open(g'[exitBlock])
            && Embedded(g1, g', |g|, |g1|, bodyEnd)
  {
    hide ThenStart, ElseStart, Join, LoopStart, LoopFinish, DoStart, DoFinish;
    DoStartAt(span, discard, g, cur);
    DoFinishAt(span, g1, bodyEnd, |g|);
  }

  lemma StartsOpen(span: ByteSpan, discard: bool, g: Blocks, cur: nat)
    requires cur < |g|
    ensures var b := ThenStart(span, discard, g, cur)[|g|]; Open(b) && b.steps == []
    ensures var b := ElseStart(span, g, cur)[|g|]; Open(b) && b.steps == []
    ensures var b := LoopStart(span, discard, g, cur)[|g| + 1]; Open(b) && b.steps == []
    ensures var b := DoStart(span, discard, g, cur)[|g|]; Open(b) && b.steps == []
  {
  }

  lemma ContentCons(g: Blocks, x: nat, p: seq<nat>)
    requires x < |g| && forall i :: 0 <= i < |p| ==> p[i] < |g|
    ensures Content(g, [x] + p) == g[x].steps + Content(g, p)
  {
  }

  /** The test, a branch, and unless the branch returned, the join. */
  lemma BranchExecution(span: ByteSpan, g: Blocks, cur: nat, g': Blocks, join: nat, b: nat, e: nat,
                        p: seq<nat>, t: seq<Step>, r: bool)
    requires Branches(span, g, cur, g', join) && Edge(g', cur, b)
    requires IsPath(g', p) && p[0] == b && (forall i :: 0 <= i < |p| ==> |g| <= p[i] < |g'| && p[i] != join)
    requires Content(g', p) == t
    requires if r then g'[p[|p| - 1]].isExit else p[|p| - 1] == e && Edge(g', e, join)
    ensures Executes(g, cur, g', join, if r then [cur] + p else [cur] + p + [join], [Tested(span)] + t, r)
  {
    hide Content, Edge;
    var q := [cur] + p;
    ContentCons(g', cur, p);
    assert Content(g', q) == g[cur].steps + ([Tested(span)] + t);
    if !r {
      PathExtend(g', q, cur, e, join);
      ContentSnoc(g', q, join);
    }
  }

  lemma ContentSnoc(g: Blocks, p: seq<nat>, x: nat)
    requires x < |g| && g[x].steps == [] && forall i :: 0 <= i < |p| ==> p[i] < |g|
    ensures Content(g, p + [x]) == Content(g, p)
  {
    ContentConcat(g, p, [x]);
    ContentSingle(g, x);
  }

  /** A path straight from the condition to the join. */
  lemma FallThroughExecution(span: ByteSpan, g: Blocks, cur: nat, g': Blocks, join: nat)
    requires Branches(span, g, cur, g', join) && Edge(g', cur, join)
    ensures Executes(g, cur, g', join, [cur, join], [Tested(span)], false)
  {
    ContentCons(g', cur, [join]);
    ContentSingle(g', join);
  }

  /** Every execution of a statement is the content of a path through its region. */
  lemma {:induction false} ExecutionHasPath(s: Stmt, g: Blocks, cur: nat, t: seq<Step>, r: bool) returns (p: seq<nat>)
    requires cur < |g| && Open(g[cur]) && Runs(s, t, r)
    ensures var (g', end) := Walk(s, g, cur); Executes(g, cur, g', end, p, t, r)
    decreases s, 3, 0
  {
    hide Region, Executes, Link, Place, MarkDiscard, MarkExit, MarkBarrier, ThenStart, ElseStart, Join, LoopStart,
         LoopFinish, DoStart, DoFinish, SwitchStart, Open;
    match s
    case Plain(_, _) => p := LeafHasPath(s, g, cur, t, r);
    case Return(_) => p := LeafHasPath(s, g, cur, t, r);
    case Barrier(_) => p := LeafHasPath(s, g, cur, t, r);
    case If(span, discard, thn, els) => p := IfHasPath(s, g, cur, t, r);
    case Loop(span, discard, body) => p := LoopHasPath(s, g, cur, t, r);
    case DoWhile(span, discard, body) => p := DoHasPath(s, g, cur, t, r);
    case Switch(_, _, _, _) => p := SwitchHasPath(s, g, cur, t, r);
    case Block(span, discard, stmts) =>
      MarkedOpen(g, cur, discard);
      p := SequenceHasPath(s, stmts, 0, MarkDiscard(g, cur, discard), cur, t, r);
      MarkedExecutes(g, cur, discard, p, t, r, Walk(s, g, cur));
  }

  lemma MarkedOpen(g: Blocks, cur: nat, discard: bool)
    requires cur < |g| && Open(g[cur])
    ensures Open(MarkDiscard(g, cur, discard)[cur])
  {
  }

  lemma MarkedExecutes(g: Blocks, cur: nat, discard: bool, p: seq<nat>, t: seq<Step>, r: bool, w: (Blocks, nat))
    requires cur < |g| && Executes(MarkDiscard(g, cur, discard), cur, w.0, w.1, p, t, r)
    ensures Executes(g, cur, w.0, w.1, p, t, r)
  {
  }

  lemma LeafHasPath(s: Stmt, g: Blocks, cur: nat, t: seq<Step>, r: bool) returns (p: seq<nat>)
    requires cur < |g| && Open(g[cur]) && Runs(s, t, r) && (s.Plain? || s.Return? || s.Barrier?)
    ensures var (g', end) := Walk(s, g, cur); Executes(g, cur, g', end, p, t, r)
  {
    var (g', end) := Walk(s, g, cur);
    ContentSingle(g', cur);
    if s.Barrier? {
      p := [cur, end];
      ContentCons(g', cur, [end]);
      ContentSingle(g', end);
    } else {
      p := [cur];
    }
  }

  lemma {:induction false} OptionHasPath(outer: Stmt, s: Option<Stmt>, g: Blocks, cur: nat, t: seq<Step>, r: bool)
    returns (p: seq<nat>)
    requires cur < |g| && Open(g[cur]) && (s.Some? ==> s.value < outer) && RunsOption(outer, s, t, r)
    ensures var (g', end) := WalkOption(outer, s, g, cur); Executes(g, cur, g', end, p, t, r)
    decreases outer, 0, 0
  {
    match s
    case None =>
      p := [cur];
      ContentSingle(g, cur);
    case Some(inner) =>
      p := ExecutionHasPath(inner, g, cur, t, r);
  }

  lemma BranchHasPath(span: ByteSpan, g: Blocks, cur: nat, g': Blocks, join: nat, start: Blocks, b: nat,
                      g1: Blocks, e: nat, q: seq<nat>, t: seq<Step>, r: bool) returns (p: seq<nat>)
    requires Branches(span, g, cur, g', join) && Edge(g', cur, b) && Edge(g', e, join)
    requires |g| <= b == |start| - 1 && Open(start[b]) && start[b].steps == []
    requires Region(start, b, g1, e) && (join < b || |g1| <= join) && Embedded(g1, g', b, |g1|, e)
    requires Executes(start, b, g1, e, q, t, r)
    ensures Executes(g, cur, g', join, p, [Tested(span)] + t, r)
  {
    EmbedExecution(start, b, g1, e, g', q, t, r);
    BranchExecution(span, g, cur, g', join, b, e, q, t, r);
    p := if r then [cur] + q else [cur] + q + [join];
  }

  lemma {:induction false} IfHasPath(s: Stmt, g: Blocks, cur: nat, t: seq<Step>, r: bool) returns (p: seq<nat>)
    requires cur < |g| && Open(g[cur]) && Runs(s, t, r) && s.If?
    ensures var (g', end) := Walk(s, g, cur); Executes(g, cur, g', end, p, t, r)
    decreases s, 2, 0
  {
    hide Region, Executes, Link, Place, MarkDiscard, ThenStart, ElseStart, Join, Branches, Embedded, IsPath, Open;
    var If(span, discard, thn, els) := s;
    var start := ThenStart(span, discard, g, cur);
    StartsOpen(span, discard, g, cur);
    WalkOptionIsRegion(s, thn, start, |g|);
    var (g1, thenEnd) := WalkOption(s, thn, start, |g|);
    var (g', join) := Walk(s, g, cur);
    assert t == [Tested(span)] + t[1..];
    if els.None? {
      IfFacts(span, discard, g, cur, g1, thenEnd);
      if RunsOption(s, thn, t[1..], r) {
        var q := OptionHasPath(s, thn, start, |g|, t[1..], r);
        p := BranchHasPath(span, g, cur, g', join, start, |g|, g1, thenEnd, q, t[1..], r);
      } else {
        assert t[1..] == [] && !r;
        assert t == [Tested(span)];
        FallThroughExecution(span, g, cur, g', join);
        p := [cur, join];
      }
    } else {
      p := IfElseHasPath(s, g, cur, t, r, start, g1, thenEnd);
    }
  }

  lemma {:induction false} IfElseHasPath(s: Stmt, g: Blocks, cur: nat, t: seq<Step>, r: bool,
                                         start: Blocks, g1: Blocks, thenEnd: nat) returns (p: seq<nat>)
    requires cur < |g| && Open(g[cur]) && Runs(s, t, r) && s.If? && s.els.Some?
    requires start == ThenStart(s.span, s.discard, g, cur) && Open(start[|g|]) && start[|g|].steps == []
    requires (g1, thenEnd) == WalkOption(s, s.thn, start, |g|) && Region(start, |g|, g1, thenEnd)
    ensures var (g', end) := Walk(s, g, cur); Executes(g, cur, g', end, p, t, r)
    decreases s, 1, 0
  {
    hide Region, Executes, Link, Place, MarkDiscard, ThenStart, ElseStart, Join, Branches, Embedded, IsPath, Open;
    var If(span, discard, thn, els) := s;
    var start2 := ElseStart(els.value.span, g1, cur);
    StartsOpen(els.value.span, discard, g1, cur);
    WalkIsRegion(els.value, start2, |g1|);
    var (g2, elseEnd) := Walk(els.value, start2, |g1|);
    var (g', join) := Walk(s, g, cur);
    IfElseFacts(span, discard, g, cur, g1, thenEnd, els.value.span, g2, elseEnd);
    assert t == [Tested(span)] + t[1..];
    if RunsOption(s, thn, t[1..], r) {
      var q := OptionHasPath(s, thn, start, |g|, t[1..], r);
      p := BranchHasPath(span, g, cur, g', join, start, |g|, g1, thenEnd, q, t[1..], r);
    } else {
      var q := ExecutionHasPath(els.value, start2, |g1|, t[1..], r);
      p := BranchHasPath(span, g, cur, g', join, start2, |g1|, g2, elseEnd, q, t[1..], r);
    }
  }

  lemma {:induction false} SequenceHasPath(outer: Stmt, stmts: seq<Stmt>, k: nat, g: Blocks, cur: nat, t: seq<Step>, r: bool)
    returns (p: seq<nat>)
    requires cur < |g| && Open(g[cur]) && k <= |stmts| && forall m :: 0 <= m < |stmts| ==> stmts[m] < outer
    requires RunsFrom(outer, stmts, k, t, r)
    ensures var (g', end) := WalkFrom(outer, stmts, k, g, cur); Executes(g, cur, g', end, p, t, r)
    decreases outer, 2, |stmts| - k
  {
    hide Region, Executes;
    if k == |stmts| {
      p := EmptyHasPath(g, cur);
    } else {
      WalkIsRegion(stmts[k], g, cur);
      var (g1, mid) := Walk(stmts[k], g, cur);
      RegionEndsOpen(g, cur, g1, mid);
      WalkFromIsRegion(outer, stmts, k + 1, g1, mid);
      var (g2, end) := WalkFrom(outer, stmts, k + 1, g1, mid);
      if r && Runs(stmts[k], t, true) {
        p := ExecutionHasPath(stmts[k], g, cur, t, true);
        ReturnExecution(g, cur, g1, mid, g2, end, p, t);
      } else {
        var m :| 0 <= m <= |t| && Runs(stmts[k], t[..m], false) && RunsFrom(outer, stmts, k + 1, t[m..], r);
        var q := ExecutionHasPath(stmts[k], g, cur, t[..m], false);
        var q2 := SequenceHasPath(outer, stmts, k + 1, g1, mid, t[m..], r);
        SequenceExecution(g, cur, g1, mid, g2, end, q, t[..m], q2, t[m..], r);
        assert t[..m] + t[m..] == t;
        p := q + q2[1..];
      }
    }
  }

  lemma EmptyHasPath(g: Blocks, cur: nat) returns (p: seq<nat>)
    requires cur < |g|
    ensures Executes(g, cur, g, cur, p, [], false)
  {
    p := [cur];
    ContentSingle(g, cur);
  }

  lemma RegionEndsOpen(g: Blocks, cur: nat, g': Blocks, end: nat)
    requires Region(g, cur, g', end) && Open(g[cur])
    ensures Open(g'[end])
  {
  }

  // ------------------------------------------------------------------- switches

  /** The region of one case within the finished graph: entered from the selector, left for the join alone. */
  ghost predicate CaseIn(outer: Stmt, c: Stmt, cur: nat, g': Blocks, join: nat, start: Blocks, g1: Blocks, e: nat) {
    && c < outer && |start| > join + 1
    && var b := |start| - 1;
       && Open(start[b]) && start[b].steps == []
       && (g1, e) == WalkOption(outer, Some(c), start, b) && Region(start, b, g1, e)
       && Embedded(g1, g', b, |g1|, e)
       && Edge(g', cur, b) && Edge(g', e, join) && g'[e].successors == [join]
  }

  /** Adding cases leaves the blocks there are alone, save for the new edges of the selector. */
  ghost predicate CasesKeep(g: Blocks, dispatch: nat, g': Blocks, more: nat) {
    && dispatch < |g| <= |g'|
    && (forall x :: 0 <= x < |g| && x != dispatch ==> g'[x] == g[x])
    && g'[dispatch].steps == g[dispatch].steps && g'[dispatch].isExit == g[dispatch].isExit
    && g[dispatch].successors <= g'[dispatch].successors
    && |g'[dispatch].successors| == |g[dispatch].successors| + more
  }

  /** The blocks before a case is walked. */
  function CaseStart(span: ByteSpan, g: Blocks, dispatch: nat): (r: Blocks)
    ensures |r| == |g| + 1
  {
    Link(g + [Fresh(span)], dispatch, |g|)
  }

  lemma OneCaseKeeps(span: ByteSpan, g: Blocks, dispatch: nat, join: nat, g1: Blocks, e: nat)
    requires dispatch < |g| && join < |g| && dispatch != join && Region(CaseStart(span, g, dispatch), |g|, g1, e)
    ensures var g2 := Link(g1, e, join);
            && CasesKeep(g, dispatch, g2, 1) && g2[dispatch].successors == g[dispatch].successors + [|g|]
            && Open(CaseStart(span, g, dispatch)[|g|]) && CaseStart(span, g, dispatch)[|g|].steps == []
            && |g1| == |g2| && |g| <= e < |g1| && g2[e].successors == [join]
            && (forall x :: |g| <= x < |g1| ==> g2[x].steps == g1[x].steps && g2[x].isExit == g1[x].isExit)
            && (forall x :: |g| <= x < |g1| && x != e ==> g2[x].successors == g1[x].successors)
  {
  }

  lemma KeepTwice(g: Blocks, dispatch: nat, g1: Blocks, g2: Blocks, m: nat, n: nat)
    requires CasesKeep(g, dispatch, g1, m) && CasesKeep(g1, dispatch, g2, n)
    ensures CasesKeep(g, dispatch, g2, m + n)
  {
  }

  lemma {:induction false} CasesKeepBlocks(outer: Stmt, cases: seq<Stmt>, k: nat, g: Blocks, dispatch: nat, join: nat)
    requires dispatch < |g| && join < |g| && dispatch != join
    requires k <= |cases| && forall m :: 0 <= m < |cases| ==> cases[m] < outer
    ensures CasesKeep(g, dispatch, WalkCases(outer, cases, k, g, dispatch, join), |cases| - k)
    decreases |cases| - k
  {
    hide Walk, Region, Link, CasesKeep, WalkCases;
    WalkCasesIs(outer, cases, k, g, dispatch, join);
    if k == |cases| {
      KeepNone(g, dispatch);
    } else {
      var start := CaseStart(cases[k].span, g, dispatch);
      WalkIsRegion(cases[k], start, |g|);
      var (g1, e) := Walk(cases[k], start, |g|);
      OneCaseKeeps(cases[k].span, g, dispatch, join, g1, e);
      CasesKeepBlocks(outer, cases, k + 1, Link(g1, e, join), dispatch, join);
      KeepTwice(g, dispatch, Link(g1, e, join), WalkCases(outer, cases, k + 1, Link(g1, e, join), dispatch, join), 1, |cases| - k - 1);
    }
  }

  lemma KeepNone(g: Blocks, dispatch: nat)
    requires dispatch < |g|
    ensures CasesKeep(g, dispatch, g, 0)
  {
  }

  /** A case that was just walked stays as it is while further cases, and perhaps an edge past them, are added. */
  lemma FirstCaseIn(outer: Stmt, c: Stmt, g: Blocks, dispatch: nat, join: nat, g': Blocks, more: nat)
    requires dispatch < join < |g| && c < outer
    requires var (g1, e) := Walk(c, CaseStart(c.span, g, dispatch), |g|); CasesKeep(Link(g1, e, join), dispatch, g', more)
    ensures var start := CaseStart(c.span, g, dispatch);
            var (g1, e) := Walk(c, start, |g|);
            CaseIn(outer, c, dispatch, g', join, start, g1, e)
    ensures |g[dispatch].successors| < |g'[dispatch].successors| && g'[dispatch].successors[|g[dispatch].successors|] == |g|
  {
    hide Walk, Region, Link, Open, CaseStart, Embedded, CasesKeep, Edge;
    var start := CaseStart(c.span, g, dispatch);
    WalkIsRegion(c, start, |g|);
    var (g1, e) := Walk(c, start, |g|);
    assert (g1, e) == WalkOption(outer, Some(c), start, |g|);
    OneCaseKeeps(c.span, g, dispatch, join, g1, e);
    KeepsCase(g1, Link(g1, e, join), dispatch, join, g', |g|, e, |g[dispatch].successors|, more);
  }

  lemma KeepsCase(g1: Blocks, g2: Blocks, dispatch: nat, join: nat, g': Blocks, lo: nat, e: nat, n: nat, more: nat)
    requires dispatch < lo <= e < |g1| == |g2| && join < |g2| && CasesKeep(g2, dispatch, g', more) && g2[e].successors == [join]
    requires forall x :: lo <= x < |g1| ==> g2[x].steps == g1[x].steps && g2[x].isExit == g1[x].isExit
    requires forall x :: lo <= x < |g1| && x != e ==> g2[x].successors == g1[x].successors
    requires n < |g2[dispatch].successors| && g2[dispatch].successors[n] == lo
    ensures Embedded(g1, g', lo, |g1|, e) && Edge(g', e, join) && g'[e].successors == [join]
    ensures n < |g'[dispatch].successors| && g'[dispatch].successors[n] == lo && Edge(g', dispatch, lo)
  {
    assert g'[e].successors[0] == join;
  }

  /** The region of case `m`, and the edge of the selector that leads to it. */
  lemma {:induction false} CaseIsIn(outer: Stmt, cases: seq<Stmt>, k: nat, g: Blocks, dispatch: nat, join: nat,
                                    g': Blocks, extra: nat, m: nat) returns (start: Blocks, g1: Blocks, e: nat)
    requires dispatch < join < |g| && k <= m < |cases| && forall m :: 0 <= m < |cases| ==> cases[m] < outer
    requires CasesKeep(WalkCases(outer, cases, k, g, dispatch, join), dispatch, g', extra)
    ensures CaseIn(outer, cases[m], dispatch, g', join, start, g1, e)
    ensures var i := |g[dispatch].successors| + m - k;
            dispatch < |g'| && i < |g'[dispatch].successors| && g'[dispatch].successors[i] == |start| - 1
    decreases |cases| - k
  {
    hide Walk, Region, Link, CaseIn, CasesKeep, WalkCases, Open;
    WalkCasesIs(outer, cases, k, g, dispatch, join);
    start := CaseStart(cases[k].span, g, dispatch);
    WalkIsRegion(cases[k], start, |g|);
    var w := Walk(cases[k], start, |g|);
    g1, e := w.0, w.1;
    OneCaseKeeps(cases[k].span, g, dispatch, join, g1, e);
    if m == k {
      CasesKeepBlocks(outer, cases, k + 1, Link(g1, e, join), dispatch, join);
      KeepTwice(Link(g1, e, join), dispatch, WalkCases(outer, cases, k, g, dispatch, join), g', |cases| - k - 1, extra);
      FirstCaseIn(outer, cases[k], g, dispatch, join, g', |cases| - k - 1 + extra);
    } else {
      start, g1, e := CaseIsIn(outer, cases, k + 1, Link(g1, e, join), dispatch, join, g', extra, m);
    }
  }

  lemma SelectorIs(span: ByteSpan, discard: bool, g: Blocks, cur: nat)
    requires cur < |g| && Open(g[cur])
    ensures var g0 := SwitchStart(span, discard, g, cur);
            && |g0| == |g| + 1 && Open(g0[|g|]) && g0[|g|].steps == [] && g0[cur].successors == []
            && g0[cur].steps == g[cur].steps + [Tested(span)] && g0[cur].isExit == g[cur].isExit
  {
  }

  /** The finished switch adds an edge past the cases, or nothing. */
  lemma PassingKeeps(g: Blocks, cur: nat, join: nat, empty: bool)
    requires cur < |g|
    ensures CasesKeep(g, cur, if empty then Link(g, cur, join) else g, if empty then 1 else 0)
  {
  }

  /** The selector tests and leads to the cases in order, then to the join if the switch has no children. */
  lemma SwitchFacts(s: Stmt, g: Blocks, cur: nat)
    requires cur < |g| && Open(g[cur]) && s.Switch?
    ensures var (g', join) := Walk(s, g, cur);
            && join == |g| && Branches(s.span, g, cur, g', join)
            && |g'[cur].successors| == |s.cases| + (if s.empty then 1 else 0)
            && (s.empty ==> g'[cur].successors[|s.cases|] == join && Edge(g', cur, join))
  {
    var start := SwitchStart(s.span, s.discard, g, cur);
    SelectorIs(s.span, s.discard, g, cur);
    CasesKeepBlocks(s, s.cases, 0, start, cur, |g|);
    WalkListIs(s, g, cur);
    hide Walk, WalkCases, SwitchStart;
    var w := WalkCases(s, s.cases, 0, start, cur, |g|);
    PassingKeeps(w, cur, |g|, s.empty);
    KeepTwice(start, cur, w, if s.empty then Link(w, cur, |g|) else w, |s.cases|, if s.empty then 1 else 0);
  }

  lemma CaseFacts(s: Stmt, g: Blocks, cur: nat, k: nat) returns (start: Blocks, g1: Blocks, e: nat)
    requires cur < |g| && Open(g[cur]) && s.Switch? && k < |s.cases|
    ensures var (g', join) := Walk(s, g, cur);
            && CaseIn(s, s.cases[k], cur, g', join, start, g1, e)
            && k < |g'[cur].successors| && g'[cur].successors[k] == |start| - 1
  {
    var g0 := SwitchStart(s.span, s.discard, g, cur);
    SelectorIs(s.span, s.discard, g, cur);
    WalkListIs(s, g, cur);
    hide Walk, WalkCases, SwitchStart, CaseIn, CasesKeep, Link, Open;
    var w := WalkCases(s, s.cases, 0, g0, cur, |g|);
    PassingKeeps(w, cur, |g|, s.empty);
    var g' := if s.empty then Link(w, cur, |g|) else w;
    start, g1, e := CaseIsIn(s, s.cases, 0, g0, cur, |g|, g', if s.empty then 1 else 0, k);
  }

  lemma {:induction false} SwitchHasPath(s: Stmt, g: Blocks, cur: nat, t: seq<Step>, r: bool) returns (p: seq<nat>)
    requires cur < |g| && Open(g[cur]) && Runs(s, t, r) && s.Switch?
    ensures var (g', end) := Walk(s, g, cur); Executes(g, cur, g', end, p, t, r)
    decreases s, 2, 0
  {
    hide Region, Executes, Branches, Embedded, IsPath, Open, Walk;
    var (g', join) := Walk(s, g, cur);
    SwitchFacts(s, g, cur);
    assert t == [Tested(s.span)] + t[1..];
    if s.empty && t == [Tested(s.span)] && !r {
      FallThroughExecution(s.span, g, cur, g', join);
      p := [cur, join];
    } else {
      var k :| 0 <= k < |s.cases| && Runs(s.cases[k], t[1..], r);
      var start, g1, e := CaseFacts(s, g, cur, k);
      var q := ExecutionHasPath(s.cases[k], start, |start| - 1, t[1..], r);
      p := BranchHasPath(s.span, g, cur, g', join, start, |start| - 1, g1, e, q, t[1..], r);
    }
  }

  // ---------------------------------------------------------------------- loops

  /** `p` runs from `from` through blocks from `lo` on, to `end` or to a return, and contains `t`. */
  ghost predicate Passes(g: Blocks, lo: nat, from: nat, end: nat, p: seq<nat>, t: seq<Step>, r: bool) {
    && p != [] && IsPath(g, p) && p[0] == from
    && (forall i :: 0 <= i < |p| ==> lo <= p[i] < |g|)
    && (if r then p[|p| - 1] != end && g[p[|p| - 1]].isExit else p[|p| - 1] == end)
    && Content(g, p) == t
  }

  lemma PassFrom(g: Blocks, lo: nat, x: nat, from: nat, end: nat, p: seq<nat>, t: seq<Step>, r: bool)
    requires Passes(g, lo, from, end, p, t, r) && lo <= x && Edge(g, x, from)
    ensures Passes(g, lo, x, end, [x] + p, g[x].steps + t, r)
  {
  }

  lemma PassOn(g: Blocks, lo: nat, from: nat, mid: nat, next: nat, end: nat,
               p: seq<nat>, t: seq<Step>, q: seq<nat>, u: seq<Step>, r: bool)
    requires Passes(g, lo, from, mid, p, t, false) && Edge(g, mid, next) && Passes(g, lo, next, end, q, u, r)
    ensures Passes(g, lo, from, end, p + q, t + u, r)
  {
    PathExtend(g, p, from, mid, next);
    PathJoin(g, p + [next], q, from, next, q[|q| - 1]);
    assert p + q == (p + [next]) + q[1..];
    ContentConcat(g, p, q);
  }

  lemma PassSingle(g: Blocks, lo: nat, x: nat)
    requires lo <= x < |g|
    ensures Passes(g, lo, x, x, [x], g[x].steps, false)
  {
  }

  lemma EnterPass(g: Blocks, cur: nat, g': Blocks, from: nat, end: nat, p: seq<nat>, t: seq<Step>, r: bool)
    requires cur < |g| <= |g'| && g'[cur].steps == g[cur].steps && Edge(g', cur, from)
    requires Passes(g', |g|, from, end, p, t, r)
    ensures Executes(g, cur, g', end, [cur] + p, t, r)
  {
  }

  lemma EmbedPass(g: Blocks, b: nat, g1: Blocks, e: nat, g': Blocks, lo: nat, end: nat,
                  p: seq<nat>, t: seq<Step>, r: bool)
    requires lo <= b == |g| - 1 && Open(g[b]) && g[b].steps == [] && Region(g, b, g1, e)
    requires Executes(g, b, g1, e, p, t, r) && Embedded(g1, g', b, |g1|, e) && (end < b || |g1| <= end)
    ensures Passes(g', lo, b, if r then end else e, p, t, r)
  {
    EmbedExecution(g, b, g1, e, g', p, t, r);
  }

  /** The finished loop around its body region. */
  ghost predicate LoopAround(s: Stmt, start: Blocks, g1: Blocks, bodyEnd: nat, g': Blocks, lo: nat, header: nat, exitBlock: nat) {
    && s.Loop? && |start| > 0 && lo <= header
    && var b := |start| - 1;
       && lo <= b && Open(start[b]) && start[b].steps == []
       && (g1, bodyEnd) == WalkOption(s, s.body, start, b) && Region(start, b, g1, bodyEnd)
       && Embedded(g1, g', b, |g1|, bodyEnd) && |g1| <= exitBlock < |g'|
       && Edge(g', header, b) && Edge(g', header, exitBlock) && Edge(g', bodyEnd, header)
       && g'[header].steps == [Tested(s.span)] && g'[exitBlock].steps == []
  }

  lemma {:induction false} LoopHasPath(s: Stmt, g: Blocks, cur: nat, t: seq<Step>, r: bool) returns (p: seq<nat>)
    requires cur < |g| && Open(g[cur]) && Runs(s, t, r) && s.Loop?
    ensures var (g', end) := Walk(s, g, cur); Executes(g, cur, g', end, p, t, r)
    decreases s, 2, 0
  {
    hide Region, Executes, Passes, Link, Place, MarkDiscard, LoopStart, LoopFinish, Open, Embedded, IsPath, LoopAround;
    var Loop(span, discard, body) := s;
    var start := LoopStart(span, discard, g, cur);
    WalkOptionIsRegion(s, body, start, |g| + 1);
    var (g1, bodyEnd) := WalkOption(s, body, start, |g| + 1);
    var (g', exitBlock) := Walk(s, g, cur);
    LoopIsAround(s, g, cur);
    var n: nat :| RunsLoop(s, span, body, n, t, r);
    var q := IterationsHavePath(s, start, g1, bodyEnd, g', |g|, |g|, exitBlock, n, t, r);
    LoopFacts(span, discard, g, cur, g1, bodyEnd);
    EnterPass(g, cur, g', |g|, exitBlock, q, t, r);
    p := [cur] + q;
  }

  lemma LoopIsAround(s: Stmt, g: Blocks, cur: nat)
    requires cur < |g| && Open(g[cur]) && s.Loop?
    ensures var start := LoopStart(s.span, s.discard, g, cur);
            var (g1, bodyEnd) := WalkOption(s, s.body, start, |g| + 1);
            var (g', exitBlock) := Walk(s, g, cur);
            LoopAround(s, start, g1, bodyEnd, g', |g|, |g|, exitBlock)
  {
    hide Region, Link, Place, MarkDiscard, LoopStart, LoopFinish, Open, Embedded, Walk, WalkOption, Edge;
    WalkLoopIs(s, g, cur);
    var start := LoopStart(s.span, s.discard, g, cur);
    StartsOpen(s.span, s.discard, g, cur);
    WalkOptionIsRegion(s, s.body, start, |g| + 1);
    var (g1, bodyEnd) := WalkOption(s, s.body, start, |g| + 1);
    LoopFacts(s.span, s.discard, g, cur, g1, bodyEnd);
  }

  /** The last test fails. */
  lemma LoopExits(s: Stmt, start: Blocks, g1: Blocks, bodyEnd: nat, g': Blocks, lo: nat, header: nat, exitBlock: nat)
    requires LoopAround(s, start, g1, bodyEnd, g', lo, header, exitBlock)
    ensures Passes(g', lo, header, exitBlock, [header] + [exitBlock], [Tested(s.span)], false)
  {
    hide Passes, Embedded, Region, WalkOption;
    PassSingle(g', lo, exitBlock);
    PassFrom(g', lo, header, exitBlock, exitBlock, [exitBlock], [], false);
    assert [Tested(s.span)] + [] == [Tested(s.span)];
  }

  /** The test succeeds and the body returns. */
  lemma LoopBodyReturns(s: Stmt, start: Blocks, g1: Blocks, bodyEnd: nat, g': Blocks, lo: nat, header: nat, exitBlock: nat,
                        q: seq<nat>, u: seq<Step>)
    requires LoopAround(s, start, g1, bodyEnd, g', lo, header, exitBlock)
    requires Executes(start, |start| - 1, g1, bodyEnd, q, u, true)
    ensures Passes(g', lo, header, exitBlock, [header] + q, [Tested(s.span)] + u, true)
  {
    hide Passes, Executes, Embedded, Region, WalkOption;
    EmbedPass(start, |start| - 1, g1, bodyEnd, g', lo, exitBlock, q, u, true);
    PassFrom(g', lo, header, |start| - 1, exitBlock, q, u, true);
  }

  /** The test succeeds, the body runs to its end, and the loop goes on. */
  lemma LoopBodyThen(s: Stmt, start: Blocks, g1: Blocks, bodyEnd: nat, g': Blocks, lo: nat, header: nat, exitBlock: nat,
                     q: seq<nat>, u: seq<Step>, rest: seq<nat>, u': seq<Step>, r: bool)
    requires LoopAround(s, start, g1, bodyEnd, g', lo, header, exitBlock)
    requires Executes(start, |start| - 1, g1, bodyEnd, q, u, false) && Passes(g', lo, header, exitBlock, rest, u', r)
    ensures Passes(g', lo, header, exitBlock, [header] + (q + rest), [Tested(s.span)] + (u + u'), r)
  {
    hide Passes, Executes, Embedded, Region, WalkOption;
    EmbedPass(start, |start| - 1, g1, bodyEnd, g', lo, exitBlock, q, u, false);
    PassOn(g', lo, |start| - 1, bodyEnd, header, exitBlock, q, u, rest, u', r);
    PassFrom(g', lo, header, |start| - 1, exitBlock, q + rest, u + u', r);
  }

  /** How a run of a loop begins. */
  lemma LoopRunOf(s: Stmt, n: nat, t: seq<Step>, r: bool) returns (m: nat)
    requires s.Loop? && RunsLoop(s, s.span, s.body, n, t, r)
    ensures t != [] && t == [Tested(s.span)] + t[1..]
    ensures n == 0 ==> (t == [Tested(s.span)] && !r) || (r && RunsOption(s, s.body, t[1..], true))
    ensures n > 0 ==> 1 <= m <= |t| && t[1..] == t[1..m] + t[m..] && RunsOption(s, s.body, t[1..m], false)
                      && RunsLoop(s, s.span, s.body, n - 1, t[m..], r)
  {
    hide RunsOption;
    m := 1;
    if n > 0 {
      m :| 1 <= m <= |t| && RunsOption(s, s.body, t[1..m], false) && RunsLoop(s, s.span, s.body, n - 1, t[m..], r);
    }
  }

  lemma {:induction false} IterationsHavePath(s: Stmt, start: Blocks, g1: Blocks, bodyEnd: nat, g': Blocks, lo: nat,
                                              header: nat, exitBlock: nat, n: nat, t: seq<Step>, r: bool)
    returns (p: seq<nat>)
    requires LoopAround(s, start, g1, bodyEnd, g', lo, header, exitBlock) && RunsLoop(s, s.span, s.body, n, t, r)
    ensures Passes(g', lo, header, exitBlock, p, t, r)
    decreases s, 1, n
  {
    hide Region, Executes, Passes, Open, Embedded, IsPath, Edge, Runs, RunsOption, RunsLoop;
    var b := |start| - 1;
    var m := LoopRunOf(s, n, t, r);
    if n == 0 && t == [Tested(s.span)] && !r {
      LoopExits(s, start, g1, bodyEnd, g', lo, header, exitBlock);
      p := [header] + [exitBlock];
    } else if n == 0 {
      var q := OptionHasPath(s, s.body, start, b, t[1..], true);
      LoopBodyReturns(s, start, g1, bodyEnd, g', lo, header, exitBlock, q, t[1..]);
      p := [header] + q;
    } else {
      var q := OptionHasPath(s, s.body, start, b, t[1..m], false);
      var rest := IterationsHavePath(s, start, g1, bodyEnd, g', lo, header, exitBlock, n - 1, t[m..], r);
      LoopBodyThen(s, start, g1, bodyEnd, g', lo, header, exitBlock, q, t[1..m], rest, t[m..], r);
      p := [header] + (q + rest);
    }
  }

  /** The finished do-while around its body region. */
  ghost predicate DoAround(s: Stmt, start: Blocks, g1: Blocks, bodyEnd: nat, g': Blocks, lo: nat, cond: nat, exitBlock: nat) {
    && s.DoWhile? && |start| > 0
    && var b := |start| - 1;
       && lo <= b && Open(start[b]) && start[b].steps == []
       && (g1, bodyEnd) == WalkOption(s, s.body, start, b) && Region(start, b, g1, bodyEnd)
       && Embedded(g1, g', b, |g1|, bodyEnd) && |g1| <= cond < |g'| && |g1| <= exitBlock < |g'|
       && Edge(g', bodyEnd, cond) && Edge(g', cond, b) && Edge(g', cond, exitBlock)
       && g'[cond].steps == [Tested(s.span)] && g'[exitBlock].steps == []
  }

  lemma DoAroundIs(s: Stmt, start: Blocks, g1: Blocks, bodyEnd: nat, g': Blocks, lo: nat, cond: nat, exitBlock: nat)
    requires s.DoWhile? && |start| > lo
    requires var b := |start| - 1;
             && Open(start[b]) && start[b].steps == []
             && (g1, bodyEnd) == WalkOption(s, s.body, start, b) && Region(start, b, g1, bodyEnd)
             && Embedded(g1, g', b, |g1|, bodyEnd) && |g1| <= cond < |g'| && |g1| <= exitBlock < |g'|
             && Edge(g', bodyEnd, cond) && Edge(g', cond, b) && Edge(g', cond, exitBlock)
             && g'[cond].steps == [Tested(s.span)] && g'[exitBlock].steps == []
    ensures DoAround(s, start, g1, bodyEnd, g', lo, cond, exitBlock)
  {
  }

  lemma DoIsAround(s: Stmt, g: Blocks, cur: nat)
    requires cur < |g| && Open(g[cur]) && s.DoWhile?
    ensures var start := DoStart(s.span, s.discard, g, cur);
            var (g1, bodyEnd) := WalkOption(s, s.body, start, |g|);
            var (g', exitBlock) := Walk(s, g, cur);
            DoAround(s, start, g1, bodyEnd, g', |g|, |g1|, exitBlock)
  {
    hide *;
    WalkLoopIs(s, g, cur);
    var start := DoStart(s.span, s.discard, g, cur);
    StartsOpen(s.span, s.discard, g, cur);
    WalkOptionIsRegion(s, s.body, start, |g|);
    var (g1, bodyEnd) := WalkOption(s, s.body, start, |g|);
    DoFacts(s.span, s.discard, g, cur, g1, bodyEnd);
    DoAroundIs(s, start, g1, bodyEnd, DoFinish(s.span, g1, bodyEnd, |g|), |g|, |g1|, |g1| + 1);
  }

  lemma {:induction false} DoHasPath(s: Stmt, g: Blocks, cur: nat, t: seq<Step>, r: bool) returns (p: seq<nat>)
    requires cur < |g| && Open(g[cur]) && Runs(s, t, r) && s.DoWhile?
    ensures var (g', end) := Walk(s, g, cur); Executes(g, cur, g', end, p, t, r)
    decreases s, 2, 0
  {
    hide Region, Executes, Passes, Link, Place, MarkDiscard, DoStart, DoFinish, Open, Embedded, IsPath, DoAround;
    var DoWhile(span, discard, body) := s;
    var start := DoStart(span, discard, g, cur);
    WalkOptionIsRegion(s, body, start, |g|);
    var (g1, bodyEnd) := WalkOption(s, body, start, |g|);
    var (g', exitBlock) := Walk(s, g, cur);
    DoIsAround(s, g, cur);
    var n: nat :| RunsDo(s, span, body, n, t, r);
    var q := RepeatsHavePath(s, start, g1, bodyEnd, g', |g|, |g1|, exitBlock, n, t, r);
    DoFacts(span, discard, g, cur, g1, bodyEnd);
    EnterPass(g, cur, g', |g|, exitBlock, q, t, r);
    p := [cur] + q;
  }

  /** One run of the body to its end, the test, and whatever follows from `next`. */
  lemma BodyThenTest(s: Stmt, start: Blocks, g1: Blocks, bodyEnd: nat, g': Blocks, lo: nat, cond: nat, exitBlock: nat,
                     q: seq<nat>, m: nat, t: seq<Step>, next: nat, rest: seq<nat>, r: bool)
    requires DoAround(s, start, g1, bodyEnd, g', lo, cond, exitBlock)
    requires m < |t| && t[m] == Tested(s.span) && Executes(start, |start| - 1, g1, bodyEnd, q, t[..m], false)
    requires Edge(g', cond, next) && Passes(g', lo, next, exitBlock, rest, t[m + 1..], r)
    ensures Passes(g', lo, |start| - 1, exitBlock, q + ([cond] + rest), t, r)
  {
    hide Region, Executes, Passes, Open, Embedded, IsPath, WalkOption;
    var test := [Tested(s.span)];
    EmbedPass(start, |start| - 1, g1, bodyEnd, g', lo, exitBlock, q, t[..m], false);
    PassFrom(g', lo, cond, next, exitBlock, rest, t[m + 1..], r);
    PassOn(g', lo, |start| - 1, bodyEnd, cond, exitBlock, q, t[..m], [cond] + rest, test + t[m + 1..], r);
    assert t[..m] + (test + t[m + 1..]) == t;
  }

  lemma ExitPass(s: Stmt, start: Blocks, g1: Blocks, bodyEnd: nat, g': Blocks, lo: nat, cond: nat, exitBlock: nat)
    requires DoAround(s, start, g1, bodyEnd, g', lo, cond, exitBlock)
    ensures Passes(g', lo, exitBlock, exitBlock, [exitBlock], [], false)
  {
  }

  lemma {:induction false} RepeatsHavePath(s: Stmt, start: Blocks, g1: Blocks, bodyEnd: nat, g': Blocks, lo: nat,
                                           cond: nat, exitBlock: nat, n: nat, t: seq<Step>, r: bool)
    returns (p: seq<nat>)
    requires DoAround(s, start, g1, bodyEnd, g', lo, cond, exitBlock) && RunsDo(s, s.span, s.body, n, t, r)
    ensures Passes(g', lo, |start| - 1, exitBlock, p, t, r)
    decreases s, 1, n
  {
    hide Region, Executes, Passes, Open, Embedded, IsPath, Edge, Runs, RunsOption;
    var b := |start| - 1;
    if n == 0 && r && RunsOption(s, s.body, t, true) {
      p := OptionHasPath(s, s.body, start, b, t, true);
      EmbedPass(start, b, g1, bodyEnd, g', lo, exitBlock, p, t, true);
    } else if n == 0 {
      var m := |t| - 1;
      var q := OptionHasPath(s, s.body, start, b, t[..m], false);
      ExitPass(s, start, g1, bodyEnd, g', lo, cond, exitBlock);
      assert t[m + 1..] == [];
      BodyThenTest(s, start, g1, bodyEnd, g', lo, cond, exitBlock, q, m, t, exitBlock, [exitBlock], false);
      p := q + ([cond] + [exitBlock]);
    } else {
      var m :| 0 <= m < |t| && t[m] == Tested(s.span) && RunsOption(s, s.body, t[..m], false)
               && RunsDo(s, s.span, s.body, n - 1, t[m + 1..], r);
      var q := OptionHasPath(s, s.body, start, b, t[..m], false);
      var rest := RepeatsHavePath(s, start, g1, bodyEnd, g', lo, cond, exitBlock, n - 1, t[m + 1..], r);
      BodyThenTest(s, start, g1, bodyEnd, g', lo, cond, exitBlock, q, m, t, b, rest, r);
      p := q + ([cond] + rest);
    }
  }
}
