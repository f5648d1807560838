/**
 The converse: a path through a region, to its end or to a block that returns, contains what
 some execution of the statement does. The graph allows nothing the statement does not.
 */
module CfgExact {
  import opened Options
  import opened Graph
  import opened Statements
  import opened CfgShape
  import opened CfgMeaning

  /** `p` runs from `cur` to the end of a region or to a block that returns. */
  ghost predicate Complete(g: Blocks, cur: nat, end: nat, p: seq<nat>) {
    && IsPath(g, p) && p[0] == cur
    && (p[|p| - 1] == end || (p[|p| - 1] < |g| && g[p[|p| - 1]].isExit))
  }

  /** The position of the first `e` in `p`, or the length of `p`. */
  ghost function First(p: seq<nat>, e: nat): (k: nat)
    ensures k <= |p|
    ensures k < |p| ==> p[k] == e
    ensures forall i :: 0 <= i < k ==> p[i] != e
  {
    if p == [] || p[0] == e then 0 else 1 + First(p[1..], e)
  }

  /** A path that goes on from `x` goes on to one of the successors of `x`. */
  lemma NextIsSuccessor(g: Blocks, p: seq<nat>, i: nat)
    requires IsPath(g, p) && i < |p| - 1
    ensures p[i] < |g| && p[i + 1] < |g| && p[i + 1] in g[p[i]].successors
  {
  }

  /** Before it meets `mid`, a path from `cur` stays among the blocks of the first region. */
  lemma {:induction false} StaysInRegion(g: Blocks, cur: nat, g1: Blocks, mid: nat, g2: Blocks, end: nat, p: seq<nat>, i: nat)
    requires Region(g, cur, g1, mid) && Open(g[cur]) && Region(g1, mid, g2, end)
    requires IsPath(g2, p) && p[0] == cur && i < |p| && i <= First(p, mid)
    ensures p[i] < |g1| && (p[i] == cur || |g| <= p[i])
    ensures forall j :: 0 <= j < i ==> Edge(g1, p[j], p[j + 1])
  {
    if i == 0 {
    } else {
      StaysInRegion(g, cur, g1, mid, g2, end, p, i - 1);
      NextIsSuccessor(g2, p, i - 1);
      assert g2[p[i - 1]] == g1[p[i - 1]];
      var m :| 0 <= m < |g1[p[i - 1]].successors| && g1[p[i - 1]].successors[m] == p[i];
    }
  }

  lemma {:induction false} StaysEmbedded(g: Blocks, b: nat, g1: Blocks, e: nat, g': Blocks, p: seq<nat>, i: nat)
    requires b == |g| - 1 && Open(g[b]) && Region(g, b, g1, e) && Embedded(g1, g', b, |g1|, e)
    requires IsPath(g', p) && p[0] == b && i < |p| && i <= First(p, e)
    ensures b <= p[i] < |g1|
    ensures forall j :: 0 <= j < i ==> Edge(g1, p[j], p[j + 1])
  {
    if i == 0 {
    } else {
      StaysEmbedded(g, b, g1, e, g', p, i - 1);
      NextIsSuccessor(g', p, i - 1);
      var m :| 0 <= m < |g1[p[i - 1]].successors| && g1[p[i - 1]].successors[m] == p[i];
    }
  }

  /** What a path in the finished graph does in an embedded region, up to the end of the region if it gets there. */
  lemma EmbeddedPath(g: Blocks, b: nat, g1: Blocks, e: nat, g': Blocks, final: nat, p: seq<nat>) returns (q: seq<nat>)
    requires b == |g| - 1 && Open(g[b]) && Region(g, b, g1, e) && Embedded(g1, g', b, |g1|, e) && (final < b || |g1| <= final)
    requires Complete(g', b, final, p)
    ensures var k := First(p, e); q == if k < |p| then p[..k + 1] else p
    ensures Complete(g1, b, e, q) && q[|q| - 1] == (if First(p, e) < |p| then e else p[|p| - 1])
    ensures forall i :: 0 <= i < |q| ==> b <= q[i] < |g1|
    ensures Content(g1, q) == Content(g', q)
    ensures First(p, e) == |p| ==> g'[p[|p| - 1]].isExit
  {
    var k := First(p, e);
    q := if k < |p| then p[..k + 1] else p;
    var last := |q| - 1;
    StaysEmbedded(g, b, g1, e, g', p, last);
    forall i | 0 <= i < |q|
      ensures b <= q[i] < |g1|
    {
      StaysEmbedded(g, b, g1, e, g', p, i);
    }
    ContentFrame(g1, g', q);
  }

  // ----------------------------------------------------- paths become executions

  /** Every path through the region of a statement is an execution of it. */
  lemma {:induction false} PathIsExecution(s: Stmt, g: Blocks, cur: nat, p: seq<nat>) returns (t: seq<Step>, r: bool)
    requires cur < |g| && Open(g[cur])
    requires var (g', end) := Walk(s, g, cur); Complete(g', cur, end, p)
    ensures var (g', end) := Walk(s, g, cur); Executes(g, cur, g', end, p, t, r)
    ensures Runs(s, t, r)
    decreases s, 3, 0
  {
    hide Region, Executes, Complete, Link, Place, MarkDiscard, MarkExit, MarkBarrier, ThenStart, ElseStart, Join, LoopStart,
         LoopFinish, DoStart, DoFinish, SwitchStart, Open;
    match s
    case Plain(_, _) => t, r := LeafPath(s, g, cur, p);
    case Return(_) => t, r := LeafPath(s, g, cur, p);
    case Barrier(_) => t, r := LeafPath(s, g, cur, p);
    case If(_, _, _, _) => t, r := IfPath(s, g, cur, p);
    case Loop(_, _, _) => t, r := LoopPath(s, g, cur, p);
    case DoWhile(_, _, _) => t, r := DoPath(s, g, cur, p);
    case Switch(_, _, _, _) => t, r := SwitchPath(s, g, cur, p);
    case Block(span, discard, stmts) =>
      MarkedOpen(g, cur, discard);
      t, r := SequencePath(s, stmts, 0, MarkDiscard(g, cur, discard), cur, p);
      MarkedExecutes(g, cur, discard, p, t, r, Walk(s, g, cur));
  }

  lemma LeafPath(s: Stmt, g: Blocks, cur: nat, p: seq<nat>) returns (t: seq<Step>, r: bool)
    requires cur < |g| && Open(g[cur]) && (s.Plain? || s.Return? || s.Barrier?)
    requires var (g', end) := Walk(s, g, cur); Complete(g', cur, end, p)
    ensures var (g', end) := Walk(s, g, cur); Executes(g, cur, g', end, p, t, r)
    ensures Runs(s, t, r)
  {
    var (g', end) := Walk(s, g, cur);
    ContentSingle(g', cur);
    r := s.Return?;
    if s.Barrier? {
      t := [Synced(s.span)];
      NextIsSuccessor(g', p, 0);
      if |p| > 2 {
        NextIsSuccessor(g', p, 1);
      }
      assert p == [cur, end];
      ContentCons(g', cur, [end]);
      ContentSingle(g', end);
    } else {
      t := [if s.Plain? then Ran(s.span) else Returned(s.span)];
      if |p| > 1 {
        NextIsSuccessor(g', p, 0);
      }
      assert p == [cur];
    }
  }

  lemma {:induction false} OptionPath(outer: Stmt, s: Option<Stmt>, g: Blocks, cur: nat, p: seq<nat>)
    returns (t: seq<Step>, r: bool)
    requires cur < |g| && Open(g[cur]) && (s.Some? ==> s.value < outer)
    requires var (g', end) := WalkOption(outer, s, g, cur); Complete(g', cur, end, p)
    ensures var (g', end) := WalkOption(outer, s, g, cur); Executes(g, cur, g', end, p, t, r)
    ensures RunsOption(outer, s, t, r)
    decreases outer, 0, 0
  {
    match s
    case None =>
      t, r := [], false;
      if |p| > 1 {
        NextIsSuccessor(g, p, 0);
      }
      assert p == [cur];
      ContentSingle(g, cur);
    case Some(inner) =>
      t, r := PathIsExecution(inner, g, cur, p);
  }

  lemma {:induction false} SequencePath(outer: Stmt, stmts: seq<Stmt>, k: nat, g: Blocks, cur: nat, p: seq<nat>)
    returns (t: seq<Step>, r: bool)
    requires cur < |g| && Open(g[cur]) && k <= |stmts|
    requires forall m :: 0 <= m < |stmts| ==> stmts[m] < outer
    requires var (g', end) := WalkFrom(outer, stmts, k, g, cur); Complete(g', cur, end, p)
    ensures var (g', end) := WalkFrom(outer, stmts, k, g, cur); Executes(g, cur, g', end, p, t, r)
    ensures RunsFrom(outer, stmts, k, t, r)
    decreases outer, 2, |stmts| - k
  {
    hide Region, Executes, Open, Complete, Runs, RunsFrom, Walk, WalkFrom, First;
    WalkFromIs(outer, stmts, k, g, cur);
    if k == |stmts| {
      t, r := NoStatementPath(g, cur, p);
      RunsNothing(outer, stmts);
    } else {
      WalkIsRegion(stmts[k], g, cur);
      var (g1, mid) := Walk(stmts[k], g, cur);
      RegionEndsOpen(g, cur, g1, mid);
      WalkFromIsRegion(outer, stmts, k + 1, g1, mid);
      var (g2, end) := WalkFrom(outer, stmts, k + 1, g1, mid);
      SplitPath(g, cur, g1, mid, g2, end, p);
      var at := First(p, mid);
      if at == |p| {
        t, r := PathIsExecution(stmts[k], g, cur, p);
        NotToEnd(g, cur, g1, mid, p, t, r);
        ReturnExecution(g, cur, g1, mid, g2, end, p, t);
        RunsReturn(outer, stmts, k, t);
      } else {
        var t1, r1 := PathIsExecution(stmts[k], g, cur, p[..at + 1]);
        ToEnd(g, cur, g1, mid, p[..at + 1], t1, r1);
        var t2, r2 := SequencePath(outer, stmts, k + 1, g1, mid, p[at..]);
        SequenceExecution(g, cur, g1, mid, g2, end, p[..at + 1], t1, p[at..], t2, r2);
        assert p[..at + 1] + p[at..][1..] == p;
        t, r := t1 + t2, r2;
        RunsNext(outer, stmts, k, t1, t2, r2);
      }
    }
  }

  lemma RunsNothing(outer: Stmt, stmts: seq<Stmt>)
    requires forall m :: 0 <= m < |stmts| ==> stmts[m] < outer
    ensures RunsFrom(outer, stmts, |stmts|, [], false)
  {
  }

  lemma RunsReturn(outer: Stmt, stmts: seq<Stmt>, k: nat, t: seq<Step>)
    requires k < |stmts| && (forall m :: 0 <= m < |stmts| ==> stmts[m] < outer) && Runs(stmts[k], t, true)
    ensures RunsFrom(outer, stmts, k, t, true)
  {
  }

  lemma RunsNext(outer: Stmt, stmts: seq<Stmt>, k: nat, t1: seq<Step>, t2: seq<Step>, r: bool)
    requires k < |stmts| && (forall m :: 0 <= m < |stmts| ==> stmts[m] < outer)
    requires Runs(stmts[k], t1, false) && RunsFrom(outer, stmts, k + 1, t2, r)
    ensures RunsFrom(outer, stmts, k, t1 + t2, r)
  {
    hide Runs;
    var t := t1 + t2;
    assert t[..|t1|] == t1 && t[|t1|..] == t2;
  }

  lemma NoStatementPath(g: Blocks, cur: nat, p: seq<nat>) returns (t: seq<Step>, r: bool)
    requires cur < |g| && Open(g[cur]) && Complete(g, cur, cur, p)
    ensures Executes(g, cur, g, cur, p, t, r) && t == [] && !r
  {
    t, r := [], false;
    if |p| > 1 {
      NextIsSuccessor(g, p, 0);
    }
    assert p == [cur];
    ContentSingle(g, cur);
  }

  lemma ToEnd(g: Blocks, cur: nat, g': Blocks, end: nat, p: seq<nat>, t: seq<Step>, r: bool)
    requires Executes(g, cur, g', end, p, t, r) && p[|p| - 1] == end
    ensures !r
  {
  }

  lemma NotToEnd(g: Blocks, cur: nat, g': Blocks, end: nat, p: seq<nat>, t: seq<Step>, r: bool)
    requires Executes(g, cur, g', end, p, t, r) && p[|p| - 1] != end
    ensures r
  {
  }

  /** A path through two regions runs out in the first, or leaves it at its end for the second. */
  lemma SplitPath(g: Blocks, cur: nat, g1: Blocks, mid: nat, g2: Blocks, end: nat, p: seq<nat>)
    requires Region(g, cur, g1, mid) && Open(g[cur]) && Region(g1, mid, g2, end) && Complete(g2, cur, end, p)
    ensures p != []
    ensures var k := First(p, mid);
            if k == |p| then p[|p| - 1] != mid && Complete(g1, cur, mid, p)
            else Complete(g1, cur, mid, p[..k + 1]) && p[..k + 1][k] == mid && Complete(g2, mid, end, p[k..])
  {
    var k := First(p, mid);
    var last := if k == |p| then k - 1 else k;
    StaysInRegion(g, cur, g1, mid, g2, end, p, last);
    if k < |p| {
      PathSplit(g2, p, k);
    }
  }

  // ------------------------------------------------------------------- branches

  /** A path that enters the region of a branch or body runs an execution of it, up to the first return or the end. */
  lemma {:induction false} BodyPath(outer: Stmt, body: Option<Stmt>, start: Blocks, g1: Blocks, e: nat, g': Blocks,
                                    final: nat, p: seq<nat>) returns (t: seq<Step>)
    requires start != [] && (body.Some? ==> body.value < outer)
    requires var b := |start| - 1;
             && Open(start[b]) && start[b].steps == []
             && (g1, e) == WalkOption(outer, body, start, b) && Region(start, b, g1, e)
             && Embedded(g1, g', b, |g1|, e) && (final < b || |g1| <= final) && Complete(g', b, final, p)
    ensures forall i :: 0 <= i < |p| && i <= First(p, e) ==> |start| - 1 <= p[i] < |g1|
    ensures First(p, e) == |p| ==>
              RunsOption(outer, body, t, true) && Passes(g', |start| - 1, |start| - 1, final, p, t, true)
    ensures First(p, e) < |p| ==>
              RunsOption(outer, body, t, false) && Passes(g', |start| - 1, |start| - 1, e, p[..First(p, e) + 1], t, false)
    ensures !g'[e].isExit
    decreases outer, 0, 1
  {
    hide Executes, IsPath;
    var b := |start| - 1;
    RegionEndsOpen(start, b, g1, e);
    var q := EmbeddedPath(start, b, g1, e, g', final, p);
    var t', r := OptionPath(outer, body, start, b, q);
    if First(p, e) < |p| {
      ToEnd(start, b, g1, e, q, t', r);
    } else {
      NotToEnd(start, b, g1, e, q, t', r);
    }
    EmbedPass(start, b, g1, e, g', b, final, q, t', r);
    t := t';
  }

  /** A path that takes a branch: it returns from there, or goes on to the join and stops. */
  lemma {:induction false} BranchPath(s: Stmt, branch: Option<Stmt>, g: Blocks, cur: nat, g': Blocks, join: nat,
                                      start: Blocks, g1: Blocks, e: nat, p: seq<nat>)
    returns (t: seq<Step>, r: bool)
    requires (s.If? || s.Switch?) && Branches(s.span, g, cur, g', join) && Open(g[cur])
    requires |start| > |g| && (branch.Some? ==> branch.value < s)
    requires var b := |start| - 1;
             && Open(start[b]) && start[b].steps == [] && Edge(g', cur, b) && Edge(g', e, join)
             && (g1, e) == WalkOption(s, branch, start, b) && Region(start, b, g1, e)
             && Embedded(g1, g', b, |g1|, e) && (join < b || |g1| <= join) && g'[e].successors == [join]
             && Complete(g', cur, join, p) && |p| > 1 && p[1] == b
    ensures Executes(g, cur, g', join, p, [Tested(s.span)] + t, r) && RunsOption(s, branch, t, r)
    decreases s, 1, 1
  {
    hide Executes, Runs, RunsOption, Region, WalkOption, IsPath, Passes, Branches;
    var b := |start| - 1;
    AfterFirst(g', cur, join, p);
    t := BodyPath(s, branch, start, g1, e, g', join, p[1..]);
    r := First(p[1..], e) == |p[1..]|;
    assert p[0] == cur;
    BranchToJoin(s.span, g, cur, g', join, b, e, p, t);
  }

  lemma AfterFirst(g: Blocks, cur: nat, end: nat, p: seq<nat>)
    requires Complete(g, cur, end, p) && |p| > 1
    ensures Complete(g, p[1], end, p[1..])
  {
  }

  lemma PassBounds(g: Blocks, lo: nat, from: nat, end: nat, p: seq<nat>, t: seq<Step>, r: bool)
    requires Passes(g, lo, from, end, p, t, r)
    ensures p != [] && IsPath(g, p) && p[0] == from && (forall i :: 0 <= i < |p| ==> lo <= p[i] < |g|)
    ensures Content(g, p) == t
    ensures if r then g[p[|p| - 1]].isExit else p[|p| - 1] == end
  {
  }

  lemma EndsAtJoin(g: Blocks, cur: nat, join: nat, e: nat, p: seq<nat>, i: nat)
    requires Complete(g, cur, join, p) && i < |p| && p[i] == e && e != join && e < |g| && join < |g|
    requires !g[e].isExit && g[e].successors == [join] && g[join].successors == []
    ensures |p| == i + 2 && p[i + 1] == join
  {
    NextIsSuccessor(g, p, i);
    if i + 1 < |p| - 1 {
      NextIsSuccessor(g, p, i + 1);
    }
  }

  lemma BranchToJoin(span: ByteSpan, g: Blocks, cur: nat, g': Blocks, join: nat, b: nat, e: nat, p: seq<nat>, t: seq<Step>)
    requires Branches(span, g, cur, g', join) && |g| <= b && |p| > 1 && p[0] == cur && Complete(g', cur, join, p)
    requires Edge(g', cur, b) && Edge(g', e, join) && g'[e].successors == [join] && !g'[e].isExit && e != join
    requires var q := p[1..];
             var k := First(q, e);
             && (forall i :: 0 <= i < |q| && i <= k ==> b <= q[i] < |g'| && q[i] != join)
             && (if k == |q| then Passes(g', b, b, join, q, t, true) else Passes(g', b, b, e, q[..k + 1], t, false))
    ensures Executes(g, cur, g', join, p, [Tested(span)] + t, First(p[1..], e) == |p| - 1)
  {
    hide Complete, IsPath, Executes;
    var q := p[1..];
    var k := First(q, e);
    if k == |q| {
      PassBounds(g', b, b, join, q, t, true);
      BranchExecution(span, g, cur, g', join, b, e, q, t, true);
      assert p == [cur] + q;
    } else {
      assert q[k] == e == p[k + 1];
      EndsAtJoin(g', cur, join, e, p, k + 1);
      PassBounds(g', b, b, e, q[..k + 1], t, false);
      BranchExecution(span, g, cur, g', join, b, e, q[..k + 1], t, false);
      assert p == [cur] + q[..k + 1] + [join];
    }
  }

  /** The second block of a path from a condition. */
  lemma LeavesCondition(span: ByteSpan, g: Blocks, cur: nat, g': Blocks, join: nat, p: seq<nat>)
    requires Branches(span, g, cur, g', join) && Open(g[cur]) && Complete(g', cur, join, p)
    ensures |p| > 1 && p[1] in g'[cur].successors
    ensures p[1] == join ==> p == [cur, join]
  {
    NextIsSuccessor(g', p, 0);
    if p[1] == join && |p| > 2 {
      NextIsSuccessor(g', p, 1);
    }
  }

  lemma {:induction false} IfPath(s: Stmt, g: Blocks, cur: nat, p: seq<nat>) returns (t: seq<Step>, r: bool)
    requires cur < |g| && Open(g[cur]) && s.If?
    requires var (g', end) := Walk(s, g, cur); Complete(g', cur, end, p)
    ensures var (g', end) := Walk(s, g, cur); Executes(g, cur, g', end, p, t, r)
    ensures Runs(s, t, r)
    decreases s, 2, 1
  {
    hide Region, Executes, Complete, Link, Place, MarkDiscard, ThenStart, ElseStart, Join, Branches, Embedded, IsPath, Open;
    var If(span, discard, thn, els) := s;
    var start := ThenStart(span, discard, g, cur);
    StartsOpen(span, discard, g, cur);
    WalkOptionIsRegion(s, thn, start, |g|);
    var (g1, thenEnd) := WalkOption(s, thn, start, |g|);
    var (g', join) := Walk(s, g, cur);
    if els.None? {
      IfFacts(span, discard, g, cur, g1, thenEnd);
      LeavesCondition(span, g, cur, g', join, p);
      if p[1] == join {
        FallThroughExecution(span, g, cur, g', join);
        t, r := [Tested(span)], false;
        assert RunsOption(s, els, t[1..], r);
      } else {
        var u, r' := BranchPath(s, thn, g, cur, g', join, start, g1, thenEnd, p);
        t, r := [Tested(span)] + u, r';
        assert t[1..] == u;
      }
    } else {
      t, r := IfElsePath(s, g, cur, p, start, g1, thenEnd);
    }
  }

  lemma {:induction false} IfElsePath(s: Stmt, g: Blocks, cur: nat, p: seq<nat>, start: Blocks, g1: Blocks, thenEnd: nat)
    returns (t: seq<Step>, r: bool)
    requires cur < |g| && Open(g[cur]) && s.If? && s.els.Some?
    requires start == ThenStart(s.span, s.discard, g, cur) && Open(start[|g|]) && start[|g|].steps == []
    requires (g1, thenEnd) == WalkOption(s, s.thn, start, |g|) && Region(start, |g|, g1, thenEnd)
    requires var (g', end) := Walk(s, g, cur); Complete(g', cur, end, p)
    ensures var (g', end) := Walk(s, g, cur); Executes(g, cur, g', end, p, t, r)
    ensures Runs(s, t, r)
    decreases s, 2, 0
  {
    hide Region, Executes, Complete, Link, Place, MarkDiscard, ThenStart, ElseStart, Join, Branches, Embedded, IsPath, Open;
    var If(span, discard, thn, els) := s;
    var start2 := ElseStart(els.value.span, g1, cur);
    StartsOpen(els.value.span, discard, g1, cur);
    WalkIsRegion(els.value, start2, |g1|);
    var (g2, elseEnd) := Walk(els.value, start2, |g1|);
    assert (g2, elseEnd) == WalkOption(s, els, start2, |g1|);
    var (g', join) := Walk(s, g, cur);
    IfElseFacts(span, discard, g, cur, g1, thenEnd, els.value.span, g2, elseEnd);
    LeavesCondition(span, g, cur, g', join, p);
    var u, r';
    if p[1] == |g| {
      u, r' := BranchPath(s, thn, g, cur, g', join, start, g1, thenEnd, p);
    } else {
      u, r' := BranchPath(s, els, g, cur, g', join, start2, g2, elseEnd, p);
    }
    t, r := [Tested(span)] + u, r';
    assert t[1..] == u;
  }

  /** A path from the selector takes one case, or passes a switch without children by. */
  lemma {:induction false} SwitchPath(s: Stmt, g: Blocks, cur: nat, p: seq<nat>) returns (t: seq<Step>, r: bool)
    requires cur < |g| && Open(g[cur]) && s.Switch?
    requires var (g', end) := Walk(s, g, cur); Complete(g', cur, end, p)
    ensures var (g', end) := Walk(s, g, cur); Executes(g, cur, g', end, p, t, r)
    ensures Runs(s, t, r)
    decreases s, 2, 1
  {
    hide Region, Executes, Complete, Branches, Embedded, IsPath, Open, Walk, WalkOption;
    var (g', join) := Walk(s, g, cur);
    SwitchFacts(s, g, cur);
    LeavesCondition(s.span, g, cur, g', join, p);
    var i :| 0 <= i < |g'[cur].successors| && g'[cur].successors[i] == p[1];
    if i < |s.cases| {
      var start, g1, e := CaseFacts(s, g, cur, i);
      var u, r' := BranchPath(s, Some(s.cases[i]), g, cur, g', join, start, g1, e, p);
      t, r := [Tested(s.span)] + u, r';
      assert t[1..] == u;
    } else {
      FallThroughExecution(s.span, g, cur, g', join);
      t, r := [Tested(s.span)], false;
    }
  }

  // ---------------------------------------------------------------------- loops

  /** A complete path that stands on a block that neither ends nor returns goes on to a successor. */
  lemma GoesOn(g: Blocks, cur: nat, end: nat, p: seq<nat>, i: nat)
    requires Complete(g, cur, end, p) && i < |p| && p[i] < |g| && p[i] != end && !g[p[i]].isExit
    ensures i + 1 < |p| && p[i + 1] in g[p[i]].successors && Complete(g, p[i + 1], end, p[i + 1..])
  {
  }

  lemma StopsOnOpen(g: Blocks, end: nat, p: seq<nat>)
    requires Complete(g, end, end, p) && end < |g| && g[end].successors == []
    ensures p == [end]
  {
    if |p| > 1 {
      NextIsSuccessor(g, p, 0);
    }
  }

  /** The finished loop, with all the ways out of its header and out of its body. */
  ghost predicate LoopWays(s: Stmt, start: Blocks, g1: Blocks, bodyEnd: nat, g': Blocks, lo: nat, header: nat, exitBlock: nat) {
    && LoopAround(s, start, g1, bodyEnd, g', lo, header, exitBlock)
    && header != exitBlock && !g'[header].isExit && g'[header].successors == [|start| - 1, exitBlock]
    && g'[bodyEnd].successors == [header]
    && g'[exitBlock].successors == []
  }

  lemma LoopHasWays(s: Stmt, g: Blocks, cur: nat)
    requires cur < |g| && Open(g[cur]) && s.Loop?
    ensures var start := LoopStart(s.span, s.discard, g, cur);
            var (g1, bodyEnd) := WalkOption(s, s.body, start, |g| + 1);
            var (g', exitBlock) := Walk(s, g, cur);
            && LoopWays(s, start, g1, bodyEnd, g', |g|, |g|, exitBlock)
            && g'[cur].steps == g[cur].steps && g'[cur].successors == [|g|] && !g'[cur].isExit && exitBlock != cur
  {
    hide LoopAround, Embedded, Link, Place, MarkDiscard, LoopStart, LoopFinish, Region;
    var start := LoopStart(s.span, s.discard, g, cur);
    WalkOptionIsRegion(s, s.body, start, |g| + 1);
    var (g1, bodyEnd) := WalkOption(s, s.body, start, |g| + 1);
    LoopFacts(s.span, s.discard, g, cur, g1, bodyEnd);
    LoopIsAround(s, g, cur);
  }

  lemma {:induction false} LoopPath(s: Stmt, g: Blocks, cur: nat, p: seq<nat>) returns (t: seq<Step>, r: bool)
    requires cur < |g| && Open(g[cur]) && s.Loop?
    requires var (g', end) := Walk(s, g, cur); Complete(g', cur, end, p)
    ensures var (g', end) := Walk(s, g, cur); Executes(g, cur, g', end, p, t, r)
    ensures Runs(s, t, r)
    decreases s, 2, 0
  {
    hide Executes, Complete, Passes, LoopStart, LoopFinish, IsPath, LoopWays, Link, MarkDiscard, Place;
    var start := LoopStart(s.span, s.discard, g, cur);
    var (g1, bodyEnd) := WalkOption(s, s.body, start, |g| + 1);
    var (g', exitBlock) := Walk(s, g, cur);
    LoopHasWays(s, g, cur);
    StartOfPath(g', cur, exitBlock, p);
    GoesOn(g', cur, exitBlock, p, 0);
    var n, u, r' := IterationsPath(s, start, g1, bodyEnd, g', |g|, |g|, exitBlock, p[1..]);
    EnterPass(g, cur, g', |g|, exitBlock, p[1..], u, r');
    assert p == [cur] + p[1..];
    t, r := u, r';
  }

  lemma StartOfPath(g: Blocks, cur: nat, end: nat, p: seq<nat>)
    requires Complete(g, cur, end, p)
    ensures p != [] && p[0] == cur && cur < |g|
  {
  }

  /** The last test fails. */
  lemma LoopStops(s: Stmt, start: Blocks, g1: Blocks, bodyEnd: nat, g': Blocks, lo: nat, header: nat, exitBlock: nat, p: seq<nat>)
    requires LoopWays(s, start, g1, bodyEnd, g', lo, header, exitBlock)
    requires |p| > 1 && p[0] == header && p[1] == exitBlock && Complete(g', exitBlock, exitBlock, p[1..])
    ensures Passes(g', lo, header, exitBlock, p, [Tested(s.span)], false)
  {
    hide Passes, Complete, Embedded, Region;
    StopsOnOpen(g', exitBlock, p[1..]);
    PassSingle(g', lo, exitBlock);
    PassFrom(g', lo, header, exitBlock, exitBlock, [exitBlock], [], false);
    assert p == [header] + [exitBlock];
    assert [Tested(s.span)] + [] == [Tested(s.span)];
  }

  /** The body returns. */
  lemma LoopReturns(s: Stmt, start: Blocks, g1: Blocks, bodyEnd: nat, g': Blocks, lo: nat, header: nat, exitBlock: nat,
                    p: seq<nat>, u: seq<Step>)
    requires LoopWays(s, start, g1, bodyEnd, g', lo, header, exitBlock)
    requires |p| > 1 && p[0] == header && RunsOption(s, s.body, u, true)
    requires Passes(g', |start| - 1, |start| - 1, exitBlock, p[1..], u, true)
    ensures Passes(g', lo, header, exitBlock, p, [Tested(s.span)] + u, true)
    ensures RunsLoop(s, s.span, s.body, 0, [Tested(s.span)] + u, true)
  {
  }

  /** The body runs to its end, and the loop goes on from its header. */
  lemma LoopContinues(s: Stmt, start: Blocks, g1: Blocks, bodyEnd: nat, g': Blocks, lo: nat, header: nat, exitBlock: nat,
                      p: seq<nat>, k: nat, u: seq<Step>, n: nat, u': seq<Step>, r: bool)
    requires LoopWays(s, start, g1, bodyEnd, g', lo, header, exitBlock)
    requires 1 <= k < |p| - 1 && p[0] == header && RunsOption(s, s.body, u, false) && RunsLoop(s, s.span, s.body, n, u', r)
    requires Passes(g', |start| - 1, |start| - 1, bodyEnd, p[1..k + 1], u, false)
    requires Passes(g', lo, header, exitBlock, p[k + 1..], u', r)
    ensures Passes(g', lo, header, exitBlock, p, [Tested(s.span)] + (u + u'), r)
    ensures RunsLoop(s, s.span, s.body, n + 1, [Tested(s.span)] + (u + u'), r)
  {
    hide Passes, Embedded, Region, RunsOption;
    var b := |start| - 1;
    LowerPass(g', b, lo, b, bodyEnd, p[1..k + 1], u, false);
    PassOn(g', lo, b, bodyEnd, header, exitBlock, p[1..k + 1], u, p[k + 1..], u', r);
    assert p[1..k + 1] + p[k + 1..] == p[1..];
    PassFrom(g', lo, header, b, exitBlock, p[1..], u + u', r);
    assert p == [header] + p[1..];
    IterationAgain(s, n + 1, [Tested(s.span)] + (u + u'), r, u, u');
  }

  lemma {:induction false} IterationsPath(s: Stmt, start: Blocks, g1: Blocks, bodyEnd: nat, g': Blocks, lo: nat,
                                          header: nat, exitBlock: nat, p: seq<nat>)
    returns (n: nat, t: seq<Step>, r: bool)
    requires LoopWays(s, start, g1, bodyEnd, g', lo, header, exitBlock) && Complete(g', header, exitBlock, p)
    ensures Passes(g', lo, header, exitBlock, p, t, r) && RunsLoop(s, s.span, s.body, n, t, r)
    decreases s, 1, |p|
  {
    hide Region, Executes, Passes, Open, Embedded, IsPath, Complete, Runs, RunsOption;
    StartOfPath(g', header, exitBlock, p);
    GoesOn(g', header, exitBlock, p, 0);
    if p[1] == exitBlock {
      LoopStops(s, start, g1, bodyEnd, g', lo, header, exitBlock, p);
      n, t, r := 0, [Tested(s.span)], false;
    } else {
      var q := p[1..];
      var u := BodyPath(s, s.body, start, g1, bodyEnd, g', exitBlock, q);
      var k := First(q, bodyEnd);
      if k == |q| {
        LoopReturns(s, start, g1, bodyEnd, g', lo, header, exitBlock, p, u);
        n, t, r := 0, [Tested(s.span)] + u, true;
      } else {
        GoesOn(g', |start| - 1, exitBlock, q, k);
        assert q[k + 1..] == p[k + 2..] && q[..k + 1] == p[1..k + 2];
        var n', u', r' := IterationsPath(s, start, g1, bodyEnd, g', lo, header, exitBlock, p[k + 2..]);
        LoopContinues(s, start, g1, bodyEnd, g', lo, header, exitBlock, p, k + 1, u, n', u', r');
        n, t, r := n' + 1, [Tested(s.span)] + (u + u'), r';
      }
    }
  }

  lemma LowerPass(g: Blocks, lo: nat, lo': nat, from: nat, end: nat, p: seq<nat>, t: seq<Step>, r: bool)
    requires Passes(g, lo, from, end, p, t, r) && lo' <= lo
    ensures Passes(g, lo', from, end, p, t, r)
  {
  }

  lemma IterationAgain(s: Stmt, n: nat, t: seq<Step>, r: bool, u: seq<Step>, u': seq<Step>)
    requires s.Loop? && n > 0 && t == [Tested(s.span)] + (u + u')
    requires RunsOption(s, s.body, u, false) && RunsLoop(s, s.span, s.body, n - 1, u', r)
    ensures RunsLoop(s, s.span, s.body, n, t, r)
  {
    var m := |u| + 1;
    assert t[1..m] == u && t[m..] == u';
  }

  /** The finished do-while, with all the ways out of its condition and out of its body. */
  ghost predicate DoWays(s: Stmt, start: Blocks, g1: Blocks, bodyEnd: nat, g': Blocks, lo: nat, cond: nat, exitBlock: nat) {
    && DoAround(s, start, g1, bodyEnd, g', lo, cond, exitBlock)
    && cond != exitBlock && !g'[cond].isExit && g'[cond].successors == [|start| - 1, exitBlock]
    && g'[bodyEnd].successors == [cond]
    && g'[exitBlock].successors == []
  }

  lemma DoHasWays(s: Stmt, g: Blocks, cur: nat)
    requires cur < |g| && Open(g[cur]) && s.DoWhile?
    ensures var start := DoStart(s.span, s.discard, g, cur);
            var (g1, bodyEnd) := WalkOption(s, s.body, start, |g|);
            var (g', exitBlock) := Walk(s, g, cur);
            && DoWays(s, start, g1, bodyEnd, g', |g|, |g1|, exitBlock)
            && g'[cur].steps == g[cur].steps && g'[cur].successors == [|g|] && !g'[cur].isExit && exitBlock != cur
  {
    hide DoAround, Embedded, Link, Place, MarkDiscard, DoStart, DoFinish, Region;
    var start := DoStart(s.span, s.discard, g, cur);
    WalkOptionIsRegion(s, s.body, start, |g|);
    var (g1, bodyEnd) := WalkOption(s, s.body, start, |g|);
    DoFacts(s.span, s.discard, g, cur, g1, bodyEnd);
    DoIsAround(s, g, cur);
  }

  lemma {:induction false} DoPath(s: Stmt, g: Blocks, cur: nat, p: seq<nat>) returns (t: seq<Step>, r: bool)
    requires cur < |g| && Open(g[cur]) && s.DoWhile?
    requires var (g', end) := Walk(s, g, cur); Complete(g', cur, end, p)
    ensures var (g', end) := Walk(s, g, cur); Executes(g, cur, g', end, p, t, r)
    ensures Runs(s, t, r)
    decreases s, 2, 0
  {
    hide Executes, Complete, Passes, DoStart, DoFinish, IsPath, DoWays, Link, MarkDiscard, Place;
    var start := DoStart(s.span, s.discard, g, cur);
    var (g1, bodyEnd) := WalkOption(s, s.body, start, |g|);
    var (g', exitBlock) := Walk(s, g, cur);
    DoHasWays(s, g, cur);
    StartOfPath(g', cur, exitBlock, p);
    GoesOn(g', cur, exitBlock, p, 0);
    var n, u, r' := RepeatsPath(s, start, g1, bodyEnd, g', |g|, |g1|, exitBlock, p[1..]);
    EnterPass(g, cur, g', |g|, exitBlock, p[1..], u, r');
    assert p == [cur] + p[1..];
    t, r := u, r';
  }

  /** The body runs to its end, and the test fails. */
  lemma DoStops(s: Stmt, start: Blocks, g1: Blocks, bodyEnd: nat, g': Blocks, lo: nat, cond: nat, exitBlock: nat,
                p: seq<nat>, k: nat, u: seq<Step>)
    requires DoWays(s, start, g1, bodyEnd, g', lo, cond, exitBlock)
    requires k + 2 < |p| && p[k + 1] == cond && p[k + 2] == exitBlock && Complete(g', exitBlock, exitBlock, p[k + 2..])
    requires Passes(g', |start| - 1, |start| - 1, bodyEnd, p[..k + 1], u, false) && RunsOption(s, s.body, u, false)
    ensures Passes(g', lo, |start| - 1, exitBlock, p, u + [Tested(s.span)], false)
    ensures RunsDo(s, s.span, s.body, 0, u + [Tested(s.span)], false)
  {
    hide Passes, Complete, Embedded, Region, RunsOption;
    var b := |start| - 1;
    StopsOnOpen(g', exitBlock, p[k + 2..]);
    PassSingle(g', lo, exitBlock);
    PassFrom(g', lo, cond, exitBlock, exitBlock, [exitBlock], [], false);
    LowerPass(g', b, lo, b, bodyEnd, p[..k + 1], u, false);
    PassOn(g', lo, b, bodyEnd, cond, exitBlock, p[..k + 1], u, [cond] + [exitBlock], [Tested(s.span)] + [], false);
    assert p == p[..k + 1] + ([cond] + [exitBlock]);
    assert [Tested(s.span)] + [] == [Tested(s.span)];
    var t := u + [Tested(s.span)];
    assert t[..|t| - 1] == u;
  }

  /** The body runs to its end, the test succeeds, and the body is run again. */
  lemma DoContinues(s: Stmt, start: Blocks, g1: Blocks, bodyEnd: nat, g': Blocks, lo: nat, cond: nat, exitBlock: nat,
                    p: seq<nat>, k: nat, u: seq<Step>, n: nat, u': seq<Step>, r: bool)
    requires DoWays(s, start, g1, bodyEnd, g', lo, cond, exitBlock)
    requires k + 2 < |p| && p[k + 1] == cond && RunsDo(s, s.span, s.body, n, u', r)
    requires Passes(g', |start| - 1, |start| - 1, bodyEnd, p[..k + 1], u, false) && RunsOption(s, s.body, u, false)
    requires Passes(g', lo, |start| - 1, exitBlock, p[k + 2..], u', r)
    ensures Passes(g', lo, |start| - 1, exitBlock, p, u + ([Tested(s.span)] + u'), r)
    ensures RunsDo(s, s.span, s.body, n + 1, u + ([Tested(s.span)] + u'), r)
  {
    hide Passes, Embedded, Region, RunsOption;
    var b := |start| - 1;
    PassFrom(g', lo, cond, b, exitBlock, p[k + 2..], u', r);
    LowerPass(g', b, lo, b, bodyEnd, p[..k + 1], u, false);
    PassOn(g', lo, b, bodyEnd, cond, exitBlock, p[..k + 1], u, [cond] + p[k + 2..], [Tested(s.span)] + u', r);
    assert p == p[..k + 1] + ([cond] + p[k + 2..]);
    RepeatAgain(s, n + 1, u + ([Tested(s.span)] + u'), r, u, u');
  }

  lemma TestFollowsBody(s: Stmt, start: Blocks, g1: Blocks, bodyEnd: nat, g': Blocks, lo: nat, cond: nat, exitBlock: nat,
                        p: seq<nat>, k: nat)
    requires DoWays(s, start, g1, bodyEnd, g', lo, cond, exitBlock) && !g'[bodyEnd].isExit && bodyEnd != exitBlock
    requires Complete(g', |start| - 1, exitBlock, p) && k < |p| && p[k] == bodyEnd
    ensures k + 2 < |p| && p[k + 1] == cond && (p[k + 2] == |start| - 1 || p[k + 2] == exitBlock)
    ensures Complete(g', p[k + 2], exitBlock, p[k + 2..])
  {
  }

  /** The body returns. */
  lemma DoReturns(s: Stmt, start: Blocks, g1: Blocks, bodyEnd: nat, g': Blocks, lo: nat, cond: nat, exitBlock: nat,
                  p: seq<nat>, u: seq<Step>)
    requires DoWays(s, start, g1, bodyEnd, g', lo, cond, exitBlock) && RunsOption(s, s.body, u, true)
    requires Passes(g', |start| - 1, |start| - 1, exitBlock, p, u, true)
    ensures Passes(g', lo, |start| - 1, exitBlock, p, u, true) && RunsDo(s, s.span, s.body, 0, u, true)
  {
  }

  lemma {:induction false} RepeatsPath(s: Stmt, start: Blocks, g1: Blocks, bodyEnd: nat, g': Blocks, lo: nat,
                                       cond: nat, exitBlock: nat, p: seq<nat>)
    returns (n: nat, t: seq<Step>, r: bool)
    requires DoWays(s, start, g1, bodyEnd, g', lo, cond, exitBlock) && Complete(g', |start| - 1, exitBlock, p)
    ensures Passes(g', lo, |start| - 1, exitBlock, p, t, r) && RunsDo(s, s.span, s.body, n, t, r)
    decreases s, 1, |p|
  {
    hide Region, Executes, Passes, Open, Embedded, IsPath, Complete, Runs, RunsOption;
    var b := |start| - 1;
    var u := BodyPath(s, s.body, start, g1, bodyEnd, g', exitBlock, p);
    var k := First(p, bodyEnd);
    if k == |p| {
      DoReturns(s, start, g1, bodyEnd, g', lo, cond, exitBlock, p, u);
      n, t, r := 0, u, true;
    } else {
      TestFollowsBody(s, start, g1, bodyEnd, g', lo, cond, exitBlock, p, k);
      if p[k + 2] == exitBlock {
        DoStops(s, start, g1, bodyEnd, g', lo, cond, exitBlock, p, k, u);
        n, t, r := 0, u + [Tested(s.span)], false;
      } else {
        var n', u', r' := RepeatsPath(s, start, g1, bodyEnd, g', lo, cond, exitBlock, p[k + 2..]);
        DoContinues(s, start, g1, bodyEnd, g', lo, cond, exitBlock, p, k, u, n', u', r');
        n, t, r := n' + 1, u + ([Tested(s.span)] + u'), r';
      }
    }
  }

  lemma RepeatAgain(s: Stmt, n: nat, t: seq<Step>, r: bool, u: seq<Step>, u': seq<Step>)
    requires s.DoWhile? && n > 0 && t == u + ([Tested(s.span)] + u')
    requires RunsOption(s, s.body, u, false) && RunsDo(s, s.span, s.body, n - 1, u', r)
    ensures RunsDo(s, s.span, s.body, n, t, r)
  {
    var m := |u|;
    assert t[..m] == u && t[m + 1..] == u' && t[m] == Tested(s.span);
  }
}
