/**
 What the graph builder computes, as a function from statements to blocks, and the shape of the
 graphs it computes: every statement adds a region that is entered through one block only.
 */
module CfgShape {
  import opened Options
  import opened Graph
  import opened Statements

  // ------------------------------------------------------------ building blocks

  function Fresh(span: ByteSpan): BasicBlock {
    BasicBlock(span, [], [], false, false, false, false)
  }

  function Link(g: Blocks, from: nat, to: nat): (r: Blocks)
    ensures |r| == |g|
  {
    if from < |g| then g[from := g[from].(successors := g[from].successors + [to])] else g
  }

  function Place(g: Blocks, cur: nat, step: Step): (r: Blocks)
    requires cur < |g|
    ensures |r| == |g|
  {
    g[cur := g[cur].(steps := g[cur].steps + [step])]
  }

  function MarkDiscard(g: Blocks, cur: nat, discard: bool): (r: Blocks)
    requires cur < |g|
    ensures |r| == |g|
  {
    if discard then g[cur := g[cur].(containsDiscard := true)] else g
  }

  function MarkBarrier(g: Blocks, cur: nat): (r: Blocks)
    requires cur < |g|
    ensures |r| == |g|
  {
    g[cur := g[cur].(containsBarrier := true)]
  }

  function MarkExit(g: Blocks, cur: nat): (r: Blocks)
    requires cur < |g|
    ensures |r| == |g|
  {
    g[cur := g[cur].(isExit := true)]
  }

  // ---------------------------------------------------------------- the builder

  /** The condition falls into `cur`; the branch block comes next. */
  function ThenStart(span: ByteSpan, discard: bool, g: Blocks, cur: nat): (r: Blocks)
    requires cur < |g|
    ensures |r| == |g| + 1
  {
    Link(Place(MarkDiscard(g, cur, discard), cur, Tested(span)) + [Fresh(span)], cur, |g|)
  }

  function ElseStart(span: ByteSpan, g: Blocks, cur: nat): (r: Blocks)
    ensures |r| == |g| + 1
  {
    Link(g + [Fresh(span)], cur, |g|)
  }

  /** A new block that both `a` and `b` lead to. */
  function Join(span: ByteSpan, g: Blocks, a: nat, b: nat): (r: Blocks)
    ensures |r| == |g| + 1
  {
    Link(Link(g + [Fresh(span)], a, |g|), b, |g|)
  }

  /** A header holding the test, at `|g|`, then the body block. */
  function LoopStart(span: ByteSpan, discard: bool, g: Blocks, cur: nat): (r: Blocks)
    requires cur < |g|
    ensures |r| == |g| + 2
  {
    var g0 := Link(MarkDiscard(g, cur, discard) + [Fresh(span)], cur, |g|);
    Link(Place(g0, |g|, Tested(span)) + [Fresh(span)], |g|, |g| + 1)
  }

  /** The body leads back to the header, the header on to the exit block. */
  function LoopFinish(span: ByteSpan, g: Blocks, bodyEnd: nat, header: nat): (r: Blocks)
    ensures |r| == |g| + 1
  {
    Link(Link(g, bodyEnd, header) + [Fresh(span)], header, |g|)
  }

  function DoStart(span: ByteSpan, discard: bool, g: Blocks, cur: nat): (r: Blocks)
    requires cur < |g|
    ensures |r| == |g| + 1
  {
    Link(MarkDiscard(g, cur, discard) + [Fresh(span)], cur, |g|)
  }

  /** A block holding the test follows the body and leads back to it or on to the exit block. */
  function DoFinish(span: ByteSpan, g: Blocks, bodyEnd: nat, bodyBlock: nat): (r: Blocks)
    ensures |r| == |g| + 2
  {
    var g1 := Link(Place(g + [Fresh(span)], |g|, Tested(span)), bodyEnd, |g|);
    Link(Link(g1, |g|, bodyBlock) + [Fresh(span)], |g|, |g| + 1)
  }

  /** The selector falls into `cur`; the join block, at `|g|`, is made before any case. */
  function SwitchStart(span: ByteSpan, discard: bool, g: Blocks, cur: nat): (r: Blocks)
    requires cur < |g|
    ensures |r| == |g| + 1
  {
    Place(MarkDiscard(g, cur, discard), cur, Tested(span)) + [Fresh(span)]
  }

  /** Blocks after `s` was walked from block `cur`, and the block the next statement goes to. */
  function Walk(s: Stmt, g: Blocks, cur: nat): (r: (Blocks, nat))
    requires cur < |g|
    ensures |g| <= |r.0| && r.1 < |r.0|
    decreases s, 0
  {
    match s
    case Plain(span, discard) =>
      (Place(MarkDiscard(g, cur, discard), cur, Ran(span)), cur)
    case Return(span) =>
      (Place(MarkExit(g, cur), cur, Returned(span)) + [Fresh(span)], |g|)
    case Barrier(span) =>
      (Link(Place(MarkBarrier(g, cur), cur, Synced(span)) + [Fresh(span)], cur, |g|), |g|)
    case If(span, discard, thn, els) =>
      var (g1, thenEnd) := WalkOption(s, thn, ThenStart(span, discard, g, cur), |g|);
      if els.None? then (Join(span, g1, thenEnd, cur), |g1|)
      else
        var (g2, elseEnd) := Walk(els.value, ElseStart(els.value.span, g1, cur), |g1|);
        (Join(span, g2, thenEnd, elseEnd), |g2|)
    case Loop(span, discard, body) =>
      var (g1, bodyEnd) := WalkOption(s, body, LoopStart(span, discard, g, cur), |g| + 1);
      (LoopFinish(span, g1, bodyEnd, |g|), |g1|)
    case DoWhile(span, discard, body) =>
      var (g1, bodyEnd) := WalkOption(s, body, DoStart(span, discard, g, cur), |g|);
      (DoFinish(span, g1, bodyEnd, |g|), |g1| + 1)
    case Switch(span, discard, empty, cases) =>
      var g1 := WalkCases(s, cases, 0, SwitchStart(span, discard, g, cur), cur, |g|);
      (if empty then Link(g1, cur, |g|) else g1, |g|)
    case Block(span, discard, stmts) =>
      WalkFrom(s, stmts, 0, MarkDiscard(g, cur, discard), cur)
  }

  function WalkOption(outer: Stmt, s: Option<Stmt>, g: Blocks, cur: nat): (r: (Blocks, nat))
    requires cur < |g| && (s.Some? ==> s.value < outer)
    ensures |g| <= |r.0| && r.1 < |r.0|
    decreases outer, 0, 0
  {
    match s
    case None => (g, cur)
    case Some(inner) => Walk(inner, g, cur)
  }

  function WalkFrom(outer: Stmt, stmts: seq<Stmt>, k: nat, g: Blocks, cur: nat): (r: (Blocks, nat))
    requires cur < |g| && k <= |stmts| && forall m :: 0 <= m < |stmts| ==> stmts[m] < outer
    ensures |g| <= |r.0| && r.1 < |r.0|
    decreases outer, 0, |stmts| - k
  {
    if k == |stmts| then (g, cur)
    else
      var (g1, next) := Walk(stmts[k], g, cur);
      WalkFrom(outer, stmts, k + 1, g1, next)
  }

  /** One block per case, entered from `dispatch` and left to `join`. */
  function WalkCases(outer: Stmt, cases: seq<Stmt>, k: nat, g: Blocks, dispatch: nat, join: nat): (r: Blocks)
    requires dispatch < |g| && join < |g| && k <= |cases| && forall m :: 0 <= m < |cases| ==> cases[m] < outer
    ensures |g| <= |r|
    decreases outer, 0, |cases| - k
  {
    if k == |cases| then g
    else
      var caseBlock := |g|;
      var (g1, caseEnd) := Walk(cases[k], Link(g + [Fresh(cases[k].span)], dispatch, caseBlock), caseBlock);
      WalkCases(outer, cases, k + 1, Link(g1, caseEnd, join), dispatch, join)
  }

  // What each step of the builder leaves at every index, for proofs that hide how it is put together.

  lemma ThenStartAt(span: ByteSpan, discard: bool, g: Blocks, cur: nat)
    requires cur < |g|
    ensures var g' := ThenStart(span, discard, g, cur);
            && (forall x :: 0 <= x < |g| && x != cur ==> g'[x] == g[x])
            && g'[cur].successors == g[cur].successors + [|g|] && g'[cur].steps == g[cur].steps + [Tested(span)]
            && g'[cur].isExit == g[cur].isExit && g'[|g|] == Fresh(span)
  {
  }

  lemma ElseStartAt(span: ByteSpan, g: Blocks, cur: nat)
    requires cur < |g|
    ensures var g' := ElseStart(span, g, cur);
            && (forall x :: 0 <= x < |g| && x != cur ==> g'[x] == g[x])
            && g'[cur] == g[cur].(successors := g[cur].successors + [|g|]) && g'[|g|] == Fresh(span)
  {
  }

  lemma JoinAt(span: ByteSpan, g: Blocks, a: nat, b: nat)
    requires a < |g| && b < |g| && a != b
    ensures var g' := Join(span, g, a, b);
            && (forall x :: 0 <= x < |g| && x != a && x != b ==> g'[x] == g[x])
            && g'[a] == g[a].(successors := g[a].successors + [|g|])
            && g'[b] == g[b].(successors := g[b].successors + [|g|]) && g'[|g|] == Fresh(span)
  {
  }

  lemma LoopStartAt(span: ByteSpan, discard: bool, g: Blocks, cur: nat)
    requires cur < |g|
    ensures var g' := LoopStart(span, discard, g, cur);
            && (forall x :: 0 <= x < |g| && x != cur ==> g'[x] == g[x])
            && g'[cur].successors == g[cur].successors + [|g|] && g'[cur].steps == g[cur].steps
            && g'[cur].isExit == g[cur].isExit && g'[|g| + 1] == Fresh(span)
            && g'[|g|] == Fresh(span).(successors := [|g| + 1], steps := [Tested(span)])
  {
  }

  lemma LoopFinishAt(span: ByteSpan, g: Blocks, bodyEnd: nat, header: nat)
    requires bodyEnd < |g| && header < |g| && bodyEnd != header
    ensures var g' := LoopFinish(span, g, bodyEnd, header);
            && (forall x :: 0 <= x < |g| && x != bodyEnd && x != header ==> g'[x] == g[x])
            && g'[bodyEnd] == g[bodyEnd].(successors := g[bodyEnd].successors + [header])
            && g'[header] == g[header].(successors := g[header].successors + [|g|]) && g'[|g|] == Fresh(span)
  {
  }

  lemma DoStartAt(span: ByteSpan, discard: bool, g: Blocks, cur: nat)
    requires cur < |g|
    ensures var g' := DoStart(span, discard, g, cur);
            && (forall x :: 0 <= x < |g| && x != cur ==> g'[x] == g[x])
            && g'[cur].successors == g[cur].successors + [|g|] && g'[cur].steps == g[cur].steps
            && g'[cur].isExit == g[cur].isExit && g'[|g|] == Fresh(span)
  {
  }

  lemma DoFinishAt(span: ByteSpan, g: Blocks, bodyEnd: nat, bodyBlock: nat)
    requires bodyEnd < |g|
    ensures var g' := DoFinish(span, g, bodyEnd, bodyBlock);
            && (forall x :: 0 <= x < |g| && x != bodyEnd ==> g'[x] == g[x])
            && g'[bodyEnd] == g[bodyEnd].(successors := g[bodyEnd].successors + [|g|])
            && g'[|g|] == Fresh(span).(successors := [bodyBlock, |g| + 1], steps := [Tested(span)])
            && g'[|g| + 1] == Fresh(span)
  {
  }

  // The equations of `Walk`, one construct at a time, for proofs that hide its body.

  lemma WalkLeafIs(s: Stmt, g: Blocks, cur: nat)
    requires cur < |g|
    ensures s.Plain? ==> Walk(s, g, cur) == (Place(MarkDiscard(g, cur, s.discard), cur, Ran(s.span)), cur)
    ensures s.Return? ==> Walk(s, g, cur) == (Place(MarkExit(g, cur), cur, Returned(s.span)) + [Fresh(s.span)], |g|)
    ensures s.Barrier? ==>
              Walk(s, g, cur) == (Link(Place(MarkBarrier(g, cur), cur, Synced(s.span)) + [Fresh(s.span)], cur, |g|), |g|)
  {
  }

  lemma WalkIfIs(s: Stmt, g: Blocks, cur: nat)
    requires cur < |g| && s.If?
    ensures var (g1, thenEnd) := WalkOption(s, s.thn, ThenStart(s.span, s.discard, g, cur), |g|);
            Walk(s, g, cur) ==
            if s.els.None? then (Join(s.span, g1, thenEnd, cur), |g1|)
            else var (g2, elseEnd) := Walk(s.els.value, ElseStart(s.els.value.span, g1, cur), |g1|);
              (Join(s.span, g2, thenEnd, elseEnd), |g2|)
  {
  }

  lemma WalkLoopIs(s: Stmt, g: Blocks, cur: nat)
    requires cur < |g|
    ensures s.Loop? ==>
              var (g1, bodyEnd) := WalkOption(s, s.body, LoopStart(s.span, s.discard, g, cur), |g| + 1);
              Walk(s, g, cur) == (LoopFinish(s.span, g1, bodyEnd, |g|), |g1|)
    ensures s.DoWhile? ==>
              var (g1, bodyEnd) := WalkOption(s, s.body, DoStart(s.span, s.discard, g, cur), |g|);
              Walk(s, g, cur) == (DoFinish(s.span, g1, bodyEnd, |g|), |g1| + 1)
  {
  }

  lemma WalkListIs(s: Stmt, g: Blocks, cur: nat)
    requires cur < |g|
    ensures s.Switch? ==>
              var g1 := WalkCases(s, s.cases, 0, SwitchStart(s.span, s.discard, g, cur), cur, |g|);
              Walk(s, g, cur) == (if s.empty then Link(g1, cur, |g|) else g1, |g|)
    ensures s.Block? ==> Walk(s, g, cur) == WalkFrom(s, s.stmts, 0, MarkDiscard(g, cur, s.discard), cur)
  {
  }

  lemma WalkFromIs(outer: Stmt, stmts: seq<Stmt>, k: nat, g: Blocks, cur: nat)
    requires cur < |g| && k <= |stmts| && forall m :: 0 <= m < |stmts| ==> stmts[m] < outer
    ensures WalkFrom(outer, stmts, k, g, cur) ==
            if k == |stmts| then (g, cur)
            else WalkFrom(outer, stmts, k + 1, Walk(stmts[k], g, cur).0, Walk(stmts[k], g, cur).1)
  {
  }

  lemma WalkCasesIs(outer: Stmt, cases: seq<Stmt>, k: nat, g: Blocks, dispatch: nat, join: nat)
    requires dispatch < |g| && join < |g| && k <= |cases| && forall m :: 0 <= m < |cases| ==> cases[m] < outer
    ensures WalkCases(outer, cases, k, g, dispatch, join) ==
            if k == |cases| then g
            else
              var (g1, caseEnd) := Walk(cases[k], Link(g + [Fresh(cases[k].span)], dispatch, |g|), |g|);
              WalkCases(outer, cases, k + 1, Link(g1, caseEnd, join), dispatch, join)
  {
  }

  // -------------------------------------------------------------------- regions

  /**
   Walking from `cur` left all other old blocks alone, gave `cur` edges to new blocks only, closed
   the new blocks among themselves, and ended in `cur` or in a new block without successors.
   */
  ghost predicate Region(g: Blocks, cur: nat, g': Blocks, end: nat) {
    && cur < |g| <= |g'| && end < |g'|
    && (forall x :: 0 <= x < |g| && x != cur ==> g'[x] == g[x])
    && Grows(g[cur], g'[cur], |g|, |g'|)
    && (forall x, k :: |g| <= x < |g'| && 0 <= k < |g'[x].successors| ==> |g| <= g'[x].successors[k] < |g'|)
    && (if end == cur then g'[cur].successors == g[cur].successors && g'[cur].isExit == g[cur].isExit
        else |g| <= end && Open(g'[end]))
  }

  /** `b'` continues `b`: more steps, more marks, and further successors in `[lo, hi)` only. */
  ghost predicate Grows(b: BasicBlock, b': BasicBlock, lo: nat, hi: nat) {
    && b.successors <= b'.successors
    && (forall k :: |b.successors| <= k < |b'.successors| ==> lo <= b'.successors[k] < hi)
    && b.steps <= b'.steps
    && (b.isExit ==> b'.isExit)
  }

  /** A block control still falls out of: no successors yet, no return. */
  ghost predicate Open(b: BasicBlock) {
    b.successors == [] && !b.isExit
  }

  lemma RegionsCompose(g: Blocks, cur: nat, g1: Blocks, mid: nat, g2: Blocks, end: nat)
    requires Region(g, cur, g1, mid) && Region(g1, mid, g2, end)
    ensures Region(g, cur, g2, end)
  {
  }

  lemma IfRegion(span: ByteSpan, discard: bool, g: Blocks, cur: nat, g1: Blocks, thenEnd: nat)
    requires cur < |g| && Region(ThenStart(span, discard, g, cur), |g|, g1, thenEnd)
    ensures Region(g, cur, Join(span, g1, thenEnd, cur), |g1|)
  {
    hide ThenStart, ElseStart, Join, LoopStart, LoopFinish, DoStart, DoFinish;
    ThenStartAt(span, discard, g, cur);
    JoinAt(span, g1, thenEnd, cur);
  }

  lemma IfElseRegion(span: ByteSpan, discard: bool, g: Blocks, cur: nat, g1: Blocks, thenEnd: nat,
                     elseSpan: ByteSpan, g2: Blocks, elseEnd: nat)
    requires cur < |g| && Region(ThenStart(span, discard, g, cur), |g|, g1, thenEnd)
    requires Region(ElseStart(elseSpan, g1, cur), |g1|, g2, elseEnd)
    ensures Region(g, cur, Join(span, g2, thenEnd, elseEnd), |g2|)
  {
    hide ThenStart, ElseStart, Join, LoopStart, LoopFinish, DoStart, DoFinish;
    ThenStartAt(span, discard, g, cur);
    ElseStartAt(elseSpan, g1, cur);
    JoinAt(span, g2, thenEnd, elseEnd);
  }

  lemma LoopRegion(span: ByteSpan, discard: bool, g: Blocks, cur: nat, g1: Blocks, bodyEnd: nat)
    requires cur < |g| && Region(LoopStart(span, discard, g, cur), |g| + 1, g1, bodyEnd)
    ensures Region(g, cur, LoopFinish(span, g1, bodyEnd, |g|), |g1|)
  {
    hide ThenStart, ElseStart, Join, LoopStart, LoopFinish, DoStart, DoFinish;
    LoopStartAt(span, discard, g, cur);
    LoopFinishAt(span, g1, bodyEnd, |g|);
  }

  lemma DoRegion(span: ByteSpan, discard: bool, g: Blocks, cur: nat, g1: Blocks, bodyEnd: nat)
    requires cur < |g| && Region(DoStart(span, discard, g, cur), |g|, g1, bodyEnd)
    ensures Region(g, cur, DoFinish(span, g1, bodyEnd, |g|), |g1| + 1)
  {
    hide ThenStart, ElseStart, Join, LoopStart, LoopFinish, DoStart, DoFinish;
    DoStartAt(span, discard, g, cur);
    DoFinishAt(span, g1, bodyEnd, |g|);
  }

  lemma LeafRegion(s: Stmt, g: Blocks, cur: nat)
    requires cur < |g| && (s.Plain? || s.Return? || s.Barrier?)
    ensures var (g', end) := Walk(s, g, cur); Region(g, cur, g', end)
  {
  }

  /** What adding cases does: only `dispatch` changes among the first `lo` blocks, `join` stays open. */
  ghost predicate CasesAdded(lo: nat, g: Blocks, dispatch: nat, join: nat, g': Blocks) {
    && dispatch < lo <= join < |g| <= |g'|
    && (forall x :: 0 <= x < lo && x != dispatch ==> g'[x] == g[x])
    && Grows(g[dispatch], g'[dispatch], lo, |g'|)
    && Open(g'[join])
    && (forall x, m :: lo <= x < |g'| && 0 <= m < |g'[x].successors| ==> lo <= g'[x].successors[m] < |g'|)
  }

  lemma SwitchRegion(span: ByteSpan, discard: bool, empty: bool, g: Blocks, cur: nat, g1: Blocks)
    requires cur < |g| && CasesAdded(|g|, SwitchStart(span, discard, g, cur), cur, |g|, g1)
    ensures Region(g, cur, if empty then Link(g1, cur, |g|) else g1, |g|)
  {
  }

  lemma SwitchStartOpen(span: ByteSpan, discard: bool, g: Blocks, cur: nat)
    requires cur < |g|
    ensures var g' := SwitchStart(span, discard, g, cur); |g'| == |g| + 1 && Open(g'[|g|])
  {
  }

  lemma MarkedRegion(g: Blocks, cur: nat, discard: bool, g': Blocks, end: nat)
    requires cur < |g| && Region(MarkDiscard(g, cur, discard), cur, g', end)
    ensures Region(g, cur, g', end)
  {
  }

  lemma {:induction false} WalkIsRegion(s: Stmt, g: Blocks, cur: nat)
    requires cur < |g|
    ensures var (g', end) := Walk(s, g, cur); Region(g, cur, g', end)
    decreases s, 0
  {
    hide Region, Link, Place, MarkDiscard, MarkExit, MarkBarrier, ThenStart, ElseStart, Join, LoopStart, LoopFinish,
         DoStart, DoFinish, SwitchStart;
    match s
    case Plain(_, _) => LeafRegion(s, g, cur);
    case Return(_) => LeafRegion(s, g, cur);
    case Barrier(_) => LeafRegion(s, g, cur);
    case If(span, discard, thn, els) =>
      WalkOptionIsRegion(s, thn, ThenStart(span, discard, g, cur), |g|);
      var (g1, thenEnd) := WalkOption(s, thn, ThenStart(span, discard, g, cur), |g|);
      if els.None? {
        IfRegion(span, discard, g, cur, g1, thenEnd);
      } else {
        var start := ElseStart(els.value.span, g1, cur);
        WalkIsRegion(els.value, start, |g1|);
        var (g2, elseEnd) := Walk(els.value, start, |g1|);
        IfElseRegion(span, discard, g, cur, g1, thenEnd, els.value.span, g2, elseEnd);
      }
    case Loop(span, discard, body) =>
      WalkOptionIsRegion(s, body, LoopStart(span, discard, g, cur), |g| + 1);
      var (g1, bodyEnd) := WalkOption(s, body, LoopStart(span, discard, g, cur), |g| + 1);
      LoopRegion(span, discard, g, cur, g1, bodyEnd);
    case DoWhile(span, discard, body) =>
      WalkOptionIsRegion(s, body, DoStart(span, discard, g, cur), |g|);
      var (g1, bodyEnd) := WalkOption(s, body, DoStart(span, discard, g, cur), |g|);
      DoRegion(span, discard, g, cur, g1, bodyEnd);
    case Switch(span, discard, empty, cases) =>
      var start := SwitchStart(span, discard, g, cur);
      SwitchStartOpen(span, discard, g, cur);
      WalkCasesShape(s, cases, 0, |g|, start, cur, |g|);
      SwitchRegion(span, discard, empty, g, cur, WalkCases(s, cases, 0, start, cur, |g|));
    case Block(span, discard, stmts) =>
      WalkFromIsRegion(s, stmts, 0, MarkDiscard(g, cur, discard), cur);
      var (g1, end) := WalkFrom(s, stmts, 0, MarkDiscard(g, cur, discard), cur);
      MarkedRegion(g, cur, discard, g1, end);
  }

  lemma {:induction false} WalkOptionIsRegion(outer: Stmt, s: Option<Stmt>, g: Blocks, cur: nat)
    requires cur < |g| && (s.Some? ==> s.value < outer)
    ensures var (g', end) := WalkOption(outer, s, g, cur); Region(g, cur, g', end)
    decreases outer, 0, 0
  {
    if s.Some? {
      WalkIsRegion(s.value, g, cur);
    }
  }

  lemma {:induction false} WalkFromIsRegion(outer: Stmt, stmts: seq<Stmt>, k: nat, g: Blocks, cur: nat)
    requires cur < |g| && k <= |stmts| && forall m :: 0 <= m < |stmts| ==> stmts[m] < outer
    ensures var (g', end) := WalkFrom(outer, stmts, k, g, cur); Region(g, cur, g', end)
    decreases outer, 0, |stmts| - k
  {
    if k >= |stmts| {
    } else {
      WalkIsRegion(stmts[k], g, cur);
      var (g1, next) := Walk(stmts[k], g, cur);
      WalkFromIsRegion(outer, stmts, k + 1, g1, next);
      var (g2, end) := WalkFrom(outer, stmts, k + 1, g1, next);
      RegionsCompose(g, cur, g1, next, g2, end);
    }
  }

  /** One case more: its block is entered from `dispatch`, its end leads to `join`. */
  lemma CaseAdded(span: ByteSpan, lo: nat, g: Blocks, dispatch: nat, join: nat, g1: Blocks, caseEnd: nat)
    requires dispatch < lo <= join < |g| && Open(g[join]) && Region(ElseStart(span, g, dispatch), |g|, g1, caseEnd)
    requires forall x, m :: lo <= x < |g| && 0 <= m < |g[x].successors| ==> lo <= g[x].successors[m] < |g|
    ensures CasesAdded(lo, g, dispatch, join, Link(g1, caseEnd, join))
  {
  }

  /** `lo` is the number of blocks before the switch; `join` stays open while cases are added. */
  lemma {:induction false} WalkCasesShape(outer: Stmt, cases: seq<Stmt>, k: nat, lo: nat, g: Blocks, dispatch: nat, join: nat)
    requires dispatch < lo <= join < |g| && k <= |cases| && forall m :: 0 <= m < |cases| ==> cases[m] < outer
    requires Open(g[join])
    requires forall x, m :: lo <= x < |g| && 0 <= m < |g[x].successors| ==> lo <= g[x].successors[m] < |g|
    ensures CasesAdded(lo, g, dispatch, join, WalkCases(outer, cases, k, g, dispatch, join))
    decreases outer, 0, |cases| - k
  {
    hide Region, Walk, Link, WalkCases;
    WalkCasesIs(outer, cases, k, g, dispatch, join);
    if k >= |cases| {
    } else {
      var g0 := ElseStart(cases[k].span, g, dispatch);
      hide ElseStart;
      assert g0 == Link(g + [Fresh(cases[k].span)], dispatch, |g|) by { ElseStartIs(cases[k].span, g, dispatch); }
      WalkIsRegion(cases[k], g0, |g|);
      var (g1, caseEnd) := Walk(cases[k], g0, |g|);
      CaseAdded(cases[k].span, lo, g, dispatch, join, g1, caseEnd);
      WalkCasesShape(outer, cases, k + 1, lo, Link(g1, caseEnd, join), dispatch, join);
    }
  }

  lemma ElseStartIs(span: ByteSpan, g: Blocks, cur: nat)
    ensures ElseStart(span, g, cur) == Link(g + [Fresh(span)], cur, |g|)
  {
  }
}
