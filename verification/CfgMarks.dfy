/** The marks of blocks: barrier, exit and discard, each tied to the statements that fall into the block. */
module CfgMarks {
  import opened Options
  import opened Graph
  import opened Syntax
  import opened Statements
  import opened CfgShape
  import opened FunctionGraph

  /** The text that a span covers; empty for spans that do not fit the buffer. */
  function TextAt(at: ByteSpan, bytes: string): string {
    if at.hi > |bytes| || at.hi < at.lo then "" else bytes[at.lo..at.hi]
  }

  /** Statements whose text mentions a discard say so, and `allowed` is set if any does. */
  predicate Tells(s: Stmt, bytes: string, allowed: bool) {
    var mentioned := MentionsDiscard(TextAt(s.span, bytes));
    match s
    case Plain(_, discard) => discard == mentioned && (discard ==> allowed)
    case Return(_) => true
    case Barrier(_) => true
    case If(_, discard, thn, els) =>
      && discard == mentioned && (discard ==> allowed)
      && (thn.Some? ==> Tells(thn.value, bytes, allowed)) && (els.Some? ==> Tells(els.value, bytes, allowed))
    case Loop(_, discard, body) =>
      discard == mentioned && (discard ==> allowed) && (body.Some? ==> Tells(body.value, bytes, allowed))
    case DoWhile(_, discard, body) =>
      discard == mentioned && (discard ==> allowed) && (body.Some? ==> Tells(body.value, bytes, allowed))
    case Switch(_, discard, _, cases) =>
      discard == mentioned && (discard ==> allowed) && forall k :: 0 <= k < |cases| ==> Tells(cases[k], bytes, allowed)
    case Block(_, discard, stmts) =>
      discard == mentioned && (discard ==> allowed) && forall k :: 0 <= k < |stmts| ==> Tells(stmts[k], bytes, allowed)
  }

  /**
   A barrier mark where a barrier falls into the block, an exit mark where a return does, and a discard
   mark at least where a plain statement that mentions one does, and none if none is `allowed`.
   */
  predicate Fits(b: BasicBlock, bytes: string, allowed: bool) {
    && (b.containsBarrier <==> exists k :: 0 <= k < |b.steps| && b.steps[k].Synced?)
    && (b.isExit <==> exists k :: 0 <= k < |b.steps| && b.steps[k].Returned?)
    && (forall k :: 0 <= k < |b.steps| && b.steps[k].Ran? && MentionsDiscard(TextAt(b.steps[k].at, bytes)) ==> b.containsDiscard)
    && (b.containsDiscard ==> allowed)
    && !b.taintedByError
  }

  predicate AllFit(g: Blocks, bytes: string, allowed: bool) {
    forall x :: 0 <= x < |g| ==> Fits(g[x], bytes, allowed)
  }

  /** The text holds `word`. */
  ghost predicate Says(text: string, word: string) {
    exists before: string, after: string :: text == before + word + after
  }

  ghost predicate SaysDiscard(text: string) {
    Says(text, "discard") || Says(text, " clip(") || "clip(" <= text
  }

  lemma SaysIs(text: string, word: string)
    ensures Mentions(text, word) <==> Says(text, word)
  {
    if i: nat :| i <= |text| && OccursAt(text, word, i) {
      assert text == text[..i] + word + text[i + |word|..];
    }
    if before, after :| text == before + word + after {
      assert OccursAt(text, word, |before|);
    }
  }

  lemma DiscardIs(text: string)
    ensures MentionsDiscard(text) <==> SaysDiscard(text)
  {
    SaysIs(text, "discard");
    SaysIs(text, " clip(");
  }

  // ------------------------------------------------------------- the steps of the builder

  lemma FreshFits(g: Blocks, span: ByteSpan, bytes: string, allowed: bool)
    requires AllFit(g, bytes, allowed)
    ensures AllFit(g + [Fresh(span)], bytes, allowed)
  {
  }

  lemma LinkFits(g: Blocks, from: nat, to: nat, bytes: string, allowed: bool)
    requires AllFit(g, bytes, allowed)
    ensures AllFit(Link(g, from, to), bytes, allowed)
  {
  }

  lemma DiscardFits(g: Blocks, cur: nat, discard: bool, bytes: string, allowed: bool)
    requires AllFit(g, bytes, allowed) && cur < |g| && (discard ==> allowed)
    ensures AllFit(MarkDiscard(g, cur, discard), bytes, allowed)
  {
  }

  lemma OneMoreStep(b: BasicBlock, b': BasicBlock, step: Step)
    requires b'.steps == b.steps + [step]
    ensures forall k :: 0 <= k < |b.steps| ==> b'.steps[k] == b.steps[k]
    ensures b'.steps[|b.steps|] == step
  {
  }

  lemma TestFits(g: Blocks, cur: nat, span: ByteSpan, bytes: string, allowed: bool)
    requires AllFit(g, bytes, allowed) && cur < |g|
    ensures AllFit(Place(g, cur, Tested(span)), bytes, allowed)
  {
    OneMoreStep(g[cur], Place(g, cur, Tested(span))[cur], Tested(span));
  }

  lemma LeafFits(s: Stmt, g: Blocks, cur: nat, bytes: string, allowed: bool)
    requires cur < |g| && AllFit(g, bytes, allowed) && Tells(s, bytes, allowed) && (s.Plain? || s.Return? || s.Barrier?)
    ensures AllFit(Walk(s, g, cur).0, bytes, allowed)
  {
    hide MentionsDiscard, TextAt;
    WalkLeafIs(s, g, cur);
    match s
    case Plain(span, discard) =>
      OneMoreStep(g[cur], Walk(s, g, cur).0[cur], Ran(span));
    case Return(span) =>
      OneMoreStep(g[cur], Walk(s, g, cur).0[cur], Returned(span));
      FreshFits(Place(MarkExit(g, cur), cur, Returned(span)), span, bytes, allowed);
    case Barrier(span) =>
      var g1 := Place(MarkBarrier(g, cur), cur, Synced(span));
      OneMoreStep(g[cur], g1[cur], Synced(span));
      FreshFits(g1, span, bytes, allowed);
      LinkFits(g1 + [Fresh(span)], cur, |g|, bytes, allowed);
  }

  lemma StartsFit(span: ByteSpan, discard: bool, g: Blocks, cur: nat, bytes: string, allowed: bool)
    requires AllFit(g, bytes, allowed) && cur < |g| && (discard ==> allowed)
    ensures AllFit(ThenStart(span, discard, g, cur), bytes, allowed)
    ensures AllFit(LoopStart(span, discard, g, cur), bytes, allowed)
    ensures AllFit(DoStart(span, discard, g, cur), bytes, allowed)
    ensures AllFit(SwitchStart(span, discard, g, cur), bytes, allowed)
  {
    hide AllFit, MarkDiscard, Link, Place, Fresh;
    var g0 := MarkDiscard(g, cur, discard);
    DiscardFits(g, cur, discard, bytes, allowed);
    TestFits(g0, cur, span, bytes, allowed);
    FreshFits(Place(g0, cur, Tested(span)), span, bytes, allowed);
    LinkFits(Place(g0, cur, Tested(span)) + [Fresh(span)], cur, |g|, bytes, allowed);
    FreshFits(g0, span, bytes, allowed);
    LinkFits(g0 + [Fresh(span)], cur, |g|, bytes, allowed);
    var g1 := Link(g0 + [Fresh(span)], cur, |g|);
    TestFits(g1, |g|, span, bytes, allowed);
    FreshFits(Place(g1, |g|, Tested(span)), span, bytes, allowed);
    LinkFits(Place(g1, |g|, Tested(span)) + [Fresh(span)], |g|, |g| + 1, bytes, allowed);
  }

  lemma EndsFit(span: ByteSpan, g: Blocks, a: nat, b: nat, bytes: string, allowed: bool)
    requires AllFit(g, bytes, allowed)
    ensures AllFit(ElseStart(span, g, a), bytes, allowed)
    ensures AllFit(Join(span, g, a, b), bytes, allowed)
    ensures AllFit(LoopFinish(span, g, a, b), bytes, allowed)
    ensures AllFit(DoFinish(span, g, a, b), bytes, allowed)
  {
    hide AllFit, Link, Place, Fresh;
    FreshFits(g, span, bytes, allowed);
    LinkFits(g + [Fresh(span)], a, |g|, bytes, allowed);
    LinkFits(Link(g + [Fresh(span)], a, |g|), b, |g|, bytes, allowed);
    LinkFits(g, a, b, bytes, allowed);
    FreshFits(Link(g, a, b), span, bytes, allowed);
    LinkFits(Link(g, a, b) + [Fresh(span)], b, |g|, bytes, allowed);
    var g1 := Place(g + [Fresh(span)], |g|, Tested(span));
    TestFits(g + [Fresh(span)], |g|, span, bytes, allowed);
    LinkFits(g1, a, |g|, bytes, allowed);
    LinkFits(Link(g1, a, |g|), |g|, b, bytes, allowed);
    FreshFits(Link(Link(g1, a, |g|), |g|, b), span, bytes, allowed);
    LinkFits(Link(Link(g1, a, |g|), |g|, b) + [Fresh(span)], |g|, |g| + 1, bytes, allowed);
  }

  // ------------------------------------------------------------------------- the walk

  /** Walking a statement keeps every mark in its place. */
  lemma {:induction false} WalkFits(s: Stmt, g: Blocks, cur: nat, bytes: string, allowed: bool)
    requires cur < |g| && AllFit(g, bytes, allowed) && Tells(s, bytes, allowed)
    ensures AllFit(Walk(s, g, cur).0, bytes, allowed)
    decreases s, 0
  {
    hide AllFit, MarkDiscard, ThenStart, ElseStart, Join, LoopStart, LoopFinish, DoStart, DoFinish, SwitchStart, Link;
    match s
    case Plain(_, _) => LeafFits(s, g, cur, bytes, allowed);
    case Return(_) => LeafFits(s, g, cur, bytes, allowed);
    case Barrier(_) => LeafFits(s, g, cur, bytes, allowed);
    case If(span, discard, thn, els) =>
      StartsFit(span, discard, g, cur, bytes, allowed);
      WalkOptionFits(s, thn, ThenStart(span, discard, g, cur), |g|, bytes, allowed);
      var (g1, thenEnd) := WalkOption(s, thn, ThenStart(span, discard, g, cur), |g|);
      if els.None? {
        EndsFit(span, g1, thenEnd, cur, bytes, allowed);
      } else {
        EndsFit(els.value.span, g1, cur, cur, bytes, allowed);
        WalkFits(els.value, ElseStart(els.value.span, g1, cur), |g1|, bytes, allowed);
        var (g2, elseEnd) := Walk(els.value, ElseStart(els.value.span, g1, cur), |g1|);
        EndsFit(span, g2, thenEnd, elseEnd, bytes, allowed);
      }
    case Loop(span, discard, body) =>
      StartsFit(span, discard, g, cur, bytes, allowed);
      WalkOptionFits(s, body, LoopStart(span, discard, g, cur), |g| + 1, bytes, allowed);
      var (g1, bodyEnd) := WalkOption(s, body, LoopStart(span, discard, g, cur), |g| + 1);
      EndsFit(span, g1, bodyEnd, |g|, bytes, allowed);
    case DoWhile(span, discard, body) =>
      StartsFit(span, discard, g, cur, bytes, allowed);
      WalkOptionFits(s, body, DoStart(span, discard, g, cur), |g|, bytes, allowed);
      var (g1, bodyEnd) := WalkOption(s, body, DoStart(span, discard, g, cur), |g|);
      EndsFit(span, g1, bodyEnd, |g|, bytes, allowed);
    case Switch(span, discard, empty, cases) =>
      StartsFit(span, discard, g, cur, bytes, allowed);
      WalkCasesFit(s, cases, 0, SwitchStart(span, discard, g, cur), cur, |g|, bytes, allowed);
      LinkFits(WalkCases(s, cases, 0, SwitchStart(span, discard, g, cur), cur, |g|), cur, |g|, bytes, allowed);
    case Block(span, discard, stmts) =>
      DiscardFits(g, cur, discard, bytes, allowed);
      WalkFromFits(s, stmts, 0, MarkDiscard(g, cur, discard), cur, bytes, allowed);
  }

  lemma {:induction false} WalkOptionFits(outer: Stmt, s: Option<Stmt>, g: Blocks, cur: nat, bytes: string, allowed: bool)
    requires cur < |g| && (s.Some? ==> s.value < outer && Tells(s.value, bytes, allowed)) && AllFit(g, bytes, allowed)
    ensures AllFit(WalkOption(outer, s, g, cur).0, bytes, allowed)
    decreases outer, 0, 0
  {
    if s.Some? {
      WalkFits(s.value, g, cur, bytes, allowed);
    }
  }

  lemma {:induction false} WalkFromFits(outer: Stmt, stmts: seq<Stmt>, k: nat, g: Blocks, cur: nat, bytes: string, allowed: bool)
    requires cur < |g| && k <= |stmts| && AllFit(g, bytes, allowed)
    requires forall m :: 0 <= m < |stmts| ==> stmts[m] < outer && Tells(stmts[m], bytes, allowed)
    ensures AllFit(WalkFrom(outer, stmts, k, g, cur).0, bytes, allowed)
    decreases outer, 0, |stmts| - k
  {
    hide AllFit, Walk, Tells;
    if k == |stmts| {
    } else {
      WalkFits(stmts[k], g, cur, bytes, allowed);
      var (g1, next) := Walk(stmts[k], g, cur);
      WalkFromFits(outer, stmts, k + 1, g1, next, bytes, allowed);
    }
  }

  lemma {:induction false} WalkCasesFit(outer: Stmt, cases: seq<Stmt>, k: nat, g: Blocks, dispatch: nat, join: nat,
                                        bytes: string, allowed: bool)
    requires dispatch < |g| && join < |g| && k <= |cases| && AllFit(g, bytes, allowed)
    requires forall m :: 0 <= m < |cases| ==> cases[m] < outer && Tells(cases[m], bytes, allowed)
    ensures AllFit(WalkCases(outer, cases, k, g, dispatch, join), bytes, allowed)
    decreases outer, 0, |cases| - k
  {
    hide AllFit, Walk, Tells, Link, Fresh;
    if k == |cases| {
    } else {
      var span := cases[k].span;
      FreshFits(g, span, bytes, allowed);
      LinkFits(g + [Fresh(span)], dispatch, |g|, bytes, allowed);
      WalkFits(cases[k], Link(g + [Fresh(span)], dispatch, |g|), |g|, bytes, allowed);
      var (g1, caseEnd) := Walk(cases[k], Link(g + [Fresh(span)], dispatch, |g|), |g|);
      LinkFits(g1, caseEnd, join, bytes, allowed);
      WalkCasesFit(outer, cases, k + 1, Link(g1, caseEnd, join), dispatch, join, bytes, allowed);
    }
  }

  // --------------------------------------------------------------------- the function

  /** Something in `n` mentions a discard. */
  ghost predicate MentionedIn(n: Node, bytes: string) {
    MentionsDiscard(Text(n, bytes)) || exists k :: 0 <= k < |n.children| && MentionedIn(n.children[k], bytes)
  }

  lemma {:induction false} ShapeTells(n: Node, bytes: string, allowed: bool)
    requires MentionedIn(n, bytes) ==> allowed
    ensures Tells(Shape(n, bytes), bytes, allowed)
    decreases n
  {
    var s := Shape(n, bytes);
    ShapeIs(n, bytes);
    forall c | c in n.children
      ensures Tells(Shape(c, bytes), bytes, allowed)
    {
      ShapeTells(c, bytes, allowed);
    }
    assert TextAt(n.Span(), bytes) == Text(n, bytes);
    hide Shape, MentionsDiscard, DetectBarrier, Arms, LoopBody, CasesOf, Named, Text, TextAt;
    forall nodes: seq<Node>, k: nat | (forall c :: c in nodes ==> c in n.children) && k < |nodes|
      ensures ShapeAll(n, nodes, bytes)[k] == Shape(nodes[k], bytes) && nodes[k] in n.children
    {
      ShapeAllAt(n, nodes, bytes, k);
    }
  }

  /**
   Every block of a function without syntax errors: a barrier mark exactly where a barrier statement falls
   in, an exit mark exactly where a return does or where control falls out of the body, a discard mark at
   least where a plain statement says so, and no discard marks at all where nothing does.
   */
  lemma MarksFit(n: Node, bytes: string, x: nat)
    requires !HasError(n) && x < |BuiltBlocks(n, bytes)|
    ensures var b := BuiltBlocks(n, bytes)[x];
            && (b.containsBarrier <==> exists k :: 0 <= k < |b.steps| && b.steps[k].Synced?)
            && (b.isExit <==> x == WalkedBody(n, bytes).1 || exists k :: 0 <= k < |b.steps| && b.steps[k].Returned?)
            && (forall k :: 0 <= k < |b.steps| && b.steps[k].Ran? && SaysDiscard(TextAt(b.steps[k].at, bytes)) ==> b.containsDiscard)
            && (b.containsDiscard ==> exists m :: Within(n, m) && SaysDiscard(Text(m, bytes)))
            && !b.taintedByError
  {
    var allowed := MentionedIn(n, bytes);
    var entry := [Fresh(n.Span())];
    assert AllFit(entry, bytes, allowed);
    var (g, end) := WalkedBody(n, bytes);
    var body := FunctionBody(n);
    if body.Some? {
      BodyIsChild(n);
      ShapeTells(body.value, bytes, allowed);
      WalkFits(Shape(body.value, bytes), entry, 0, bytes, allowed);
    }
    assert AllFit(g, bytes, allowed);
    assert Fits(g[x], bytes, allowed);
    forall text
      ensures MentionsDiscard(text) <==> SaysDiscard(text)
    {
      DiscardIs(text);
    }
    if allowed {
      MentionedWithin(n, bytes);
    }
  }

  lemma {:induction false} MentionedWithin(n: Node, bytes: string)
    requires MentionedIn(n, bytes)
    ensures exists m :: Within(n, m) && SaysDiscard(Text(m, bytes))
    decreases n
  {
    hide SaysDiscard, MentionsDiscard;
    DiscardIs(Text(n, bytes));
    if MentionsDiscard(Text(n, bytes)) {
      assert Within(n, n);
    } else {
      var k :| 0 <= k < |n.children| && MentionedIn(n.children[k], bytes);
      MentionedWithin(n.children[k], bytes);
      var m :| Within(n.children[k], m) && SaysDiscard(Text(m, bytes));
      assert Within(n, m);
    }
  }

  lemma BodyIsChild(n: Node)
    ensures FunctionBody(n).Some? ==> FunctionBody(n).value in n.children
  {
    FirstCompoundIn(n.children);
  }

  lemma {:induction false} FirstCompoundIn(nodes: seq<Node>)
    ensures FirstCompound(nodes).Some? ==> FirstCompound(nodes).value in nodes
  {
    if nodes == [] {
    } else {
      FirstCompoundIn(nodes[1..]);
    }
  }

  /** A function with a syntax error is one block that says so, with its span, and leads nowhere. */
  lemma SkippedIsTainted(n: Node, bytes: string)
    requires HasError(n)
    ensures |BuiltBlocks(n, bytes)| == 1
    ensures var b := BuiltBlocks(n, bytes)[0];
            b.taintedByError && b.span == n.Span() && b.successors == [] && !b.containsBarrier && !b.containsDiscard && !b.isExit
  {
  }

  // --------------------------------------------------------------------------- spans

  function SpansOf(g: Blocks): (r: seq<ByteSpan>)
    ensures |r| == |g|
  {
    seq(|g|, i requires 0 <= i < |g| => g[i].span)
  }

  /** The spans of the blocks a statement makes, in the order it makes them. */
  function MadeBy(s: Stmt): seq<ByteSpan> {
    match s
    case Plain(_, _) => []
    case Return(span) => [span]
    case Barrier(span) => [span]
    case If(span, _, thn, els) =>
      [span] + (if thn.Some? then MadeBy(thn.value) else []) +
      (if els.Some? then [els.value.span] + MadeBy(els.value) else []) + [span]
    case Loop(span, _, body) => [span, span] + (if body.Some? then MadeBy(body.value) else []) + [span]
    case DoWhile(span, _, body) => [span] + (if body.Some? then MadeBy(body.value) else []) + [span, span]
    case Switch(span, _, _, cases) => [span] + MadeByAll(s, cases, 0, true)
    case Block(_, _, stmts) => MadeByAll(s, stmts, 0, false)
  }

  /** The statements from `k` on, each with a block of its own first if `own`. */
  function MadeByAll(outer: Stmt, stmts: seq<Stmt>, k: nat, own: bool): seq<ByteSpan>
    requires k <= |stmts| && forall m :: 0 <= m < |stmts| ==> stmts[m] < outer
    decreases outer, 0, |stmts| - k
  {
    if k == |stmts| then []
    else (if own then [stmts[k].span] else []) + MadeBy(stmts[k]) + MadeByAll(outer, stmts, k + 1, own)
  }

  lemma FreshSpan(g: Blocks, span: ByteSpan)
    ensures SpansOf(g + [Fresh(span)]) == SpansOf(g) + [span]
  {
  }

  lemma SameSpans(g: Blocks, from: nat, to: nat, cur: nat, discard: bool, step: Step)
    ensures SpansOf(Link(g, from, to)) == SpansOf(g)
    ensures cur < |g| ==> SpansOf(Place(g, cur, step)) == SpansOf(g) && SpansOf(MarkDiscard(g, cur, discard)) == SpansOf(g)
    ensures cur < |g| ==> SpansOf(MarkExit(g, cur)) == SpansOf(g) && SpansOf(MarkBarrier(g, cur)) == SpansOf(g)
  {
  }

  lemma StartSpans(span: ByteSpan, discard: bool, g: Blocks, cur: nat)
    requires cur < |g|
    ensures SpansOf(ThenStart(span, discard, g, cur)) == SpansOf(g) + [span]
    ensures SpansOf(DoStart(span, discard, g, cur)) == SpansOf(g) + [span]
    ensures SpansOf(SwitchStart(span, discard, g, cur)) == SpansOf(g) + [span]
    ensures SpansOf(LoopStart(span, discard, g, cur)) == SpansOf(g) + [span] + [span]
  {
    hide SpansOf, Fresh, Link, Place, MarkDiscard;
    var test := Tested(span);
    var g0 := MarkDiscard(g, cur, discard);
    SameSpans(g, cur, |g|, cur, discard, test);
    SameSpans(g0, cur, |g|, cur, discard, test);
    FreshSpan(g0, span);
    FreshSpan(Place(g0, cur, test), span);
    SameSpans(g0 + [Fresh(span)], cur, |g|, cur, discard, test);
    SameSpans(Place(g0, cur, test) + [Fresh(span)], cur, |g|, cur, discard, test);
    var g1 := Link(g0 + [Fresh(span)], cur, |g|);
    SameSpans(g1, 0, 0, |g|, discard, test);
    FreshSpan(Place(g1, |g|, test), span);
    SameSpans(Place(g1, |g|, test) + [Fresh(span)], |g|, |g| + 1, cur, discard, test);
  }

  lemma EndSpans(span: ByteSpan, g: Blocks, a: nat, b: nat)
    ensures SpansOf(ElseStart(span, g, a)) == SpansOf(g) + [span]
    ensures SpansOf(Join(span, g, a, b)) == SpansOf(g) + [span]
    ensures SpansOf(LoopFinish(span, g, a, b)) == SpansOf(g) + [span]
    ensures SpansOf(DoFinish(span, g, a, b)) == SpansOf(g) + [span] + [span]
  {
    hide SpansOf, Fresh, Link, Place;
    var test := Tested(span);
    var g0 := g + [Fresh(span)];
    FreshSpan(g, span);
    SameSpans(g0, a, |g|, |g|, false, test);
    SameSpans(Link(g0, a, |g|), b, |g|, 0, false, test);
    SameSpans(g, a, b, 0, false, test);
    FreshSpan(Link(g, a, b), span);
    SameSpans(Link(g, a, b) + [Fresh(span)], b, |g|, 0, false, test);
    var g1 := Place(g0, |g|, test);
    SameSpans(g1, a, |g|, 0, false, test);
    SameSpans(Link(g1, a, |g|), |g|, b, 0, false, test);
    var g2 := Link(Link(g1, a, |g|), |g|, b);
    FreshSpan(g2, span);
    SameSpans(g2 + [Fresh(span)], |g|, |g| + 1, 0, false, test);
  }

  lemma LeafSpans(s: Stmt, g: Blocks, cur: nat)
    requires cur < |g| && (s.Plain? || s.Return? || s.Barrier?)
    ensures SpansOf(Walk(s, g, cur).0) == SpansOf(g) + MadeBy(s)
  {
    WalkLeafIs(s, g, cur);
    assert SpansOf(g) + [] == SpansOf(g);
  }

  function MadeByOption(s: Option<Stmt>): seq<ByteSpan> {
    if s.Some? then MadeBy(s.value) else []
  }

  lemma MadeByIs(s: Stmt)
    ensures s.If? ==> MadeBy(s) == [s.span] + MadeByOption(s.thn)
                                   + (if s.els.Some? then [s.els.value.span] + MadeBy(s.els.value) else []) + [s.span]
    ensures s.Loop? ==> MadeBy(s) == [s.span, s.span] + MadeByOption(s.body) + [s.span]
    ensures s.DoWhile? ==> MadeBy(s) == [s.span] + MadeByOption(s.body) + [s.span, s.span]
    ensures s.Switch? ==> MadeBy(s) == [s.span] + MadeByAll(s, s.cases, 0, true)
    ensures s.Block? ==> MadeBy(s) == MadeByAll(s, s.stmts, 0, false)
  {
  }

  lemma RegroupBranch<T>(a: seq<T>, at: seq<T>, b: seq<T>, c: seq<T>, d: seq<T>)
    ensures ((a + at) + b) + at == a + (at + b + [] + at)
    ensures ((((a + at) + b) + c) + d) + at == a + (at + b + (c + d) + at)
  {
  }

  lemma RegroupLoop<T>(a: seq<T>, at: T, b: seq<T>)
    ensures ((a + [at] + [at]) + b) + [at] == a + ([at, at] + b + [at])
    ensures ((a + [at]) + b) + [at] + [at] == a + ([at] + b + [at, at])
  {
  }

  lemma RegroupList<T>(a: seq<T>, b: seq<T>, c: seq<T>)
    ensures (a + b) + c == a + (b + c)
  {
  }

  lemma {:induction false} IfSpans(s: Stmt, g: Blocks, cur: nat)
    requires cur < |g| && s.If?
    ensures SpansOf(Walk(s, g, cur).0) == SpansOf(g) + MadeBy(s)
    decreases s, 1
  {
    hide *;
    WalkIfIs(s, g, cur);
    MadeByIs(s);
    StartSpans(s.span, s.discard, g, cur);
    WalkOptionSpans(s, s.thn, ThenStart(s.span, s.discard, g, cur), |g|);
    var (g1, thenEnd) := WalkOption(s, s.thn, ThenStart(s.span, s.discard, g, cur), |g|);
    if s.els.None? {
      EndSpans(s.span, g1, thenEnd, cur);
      RegroupBranch(SpansOf(g), [s.span], MadeByOption(s.thn), [], []);
    } else {
      var els := s.els.value;
      EndSpans(els.span, g1, cur, cur);
      WalkSpans(els, ElseStart(els.span, g1, cur), |g1|);
      var (g2, elseEnd) := Walk(els, ElseStart(els.span, g1, cur), |g1|);
      EndSpans(s.span, g2, thenEnd, elseEnd);
      RegroupBranch(SpansOf(g), [s.span], MadeByOption(s.thn), [els.span], MadeBy(els));
    }
  }

  lemma {:induction false} LoopSpans(s: Stmt, g: Blocks, cur: nat)
    requires cur < |g| && (s.Loop? || s.DoWhile?)
    ensures SpansOf(Walk(s, g, cur).0) == SpansOf(g) + MadeBy(s)
    decreases s, 1
  {
    hide *;
    WalkLoopIs(s, g, cur);
    MadeByIs(s);
    StartSpans(s.span, s.discard, g, cur);
    RegroupLoop(SpansOf(g), s.span, MadeByOption(s.body));
    if s.Loop? {
      WalkOptionSpans(s, s.body, LoopStart(s.span, s.discard, g, cur), |g| + 1);
      var (g1, bodyEnd) := WalkOption(s, s.body, LoopStart(s.span, s.discard, g, cur), |g| + 1);
      EndSpans(s.span, g1, bodyEnd, |g|);
    } else {
      WalkOptionSpans(s, s.body, DoStart(s.span, s.discard, g, cur), |g|);
      var (g1, bodyEnd) := WalkOption(s, s.body, DoStart(s.span, s.discard, g, cur), |g|);
      EndSpans(s.span, g1, bodyEnd, |g|);
    }
  }

  lemma {:induction false} ListSpans(s: Stmt, g: Blocks, cur: nat)
    requires cur < |g| && (s.Switch? || s.Block?)
    ensures SpansOf(Walk(s, g, cur).0) == SpansOf(g) + MadeBy(s)
    decreases s, 1
  {
    hide *;
    WalkListIs(s, g, cur);
    MadeByIs(s);
    var test := Tested(s.span);
    if s.Switch? {
      var start := SwitchStart(s.span, s.discard, g, cur);
      StartSpans(s.span, s.discard, g, cur);
      WalkCasesSpans(s, s.cases, 0, start, cur, |g|);
      SameSpans(WalkCases(s, s.cases, 0, start, cur, |g|), cur, |g|, cur, s.discard, test);
      RegroupList(SpansOf(g), [s.span], MadeByAll(s, s.cases, 0, true));
    } else {
      SameSpans(g, 0, 0, cur, s.discard, test);
      WalkFromSpans(s, s.stmts, 0, MarkDiscard(g, cur, s.discard), cur);
    }
  }

  /** Every block carries the span of the statement that makes it, and blocks are made in this order. */
  lemma {:induction false} WalkSpans(s: Stmt, g: Blocks, cur: nat)
    requires cur < |g|
    ensures SpansOf(Walk(s, g, cur).0) == SpansOf(g) + MadeBy(s)
    decreases s, 2
  {
    hide SpansOf, Walk, MadeBy;
    match s
    case Plain(_, _) => LeafSpans(s, g, cur);
    case Return(_) => LeafSpans(s, g, cur);
    case Barrier(_) => LeafSpans(s, g, cur);
    case If(_, _, _, _) => IfSpans(s, g, cur);
    case Loop(_, _, _) => LoopSpans(s, g, cur);
    case DoWhile(_, _, _) => LoopSpans(s, g, cur);
    case Switch(_, _, _, _) => ListSpans(s, g, cur);
    case Block(_, _, _) => ListSpans(s, g, cur);
  }

  lemma {:induction false} WalkOptionSpans(outer: Stmt, s: Option<Stmt>, g: Blocks, cur: nat)
    requires cur < |g| && (s.Some? ==> s.value < outer)
    ensures SpansOf(WalkOption(outer, s, g, cur).0) == SpansOf(g) + MadeByOption(s)
    decreases outer, 0, 0
  {
    if s.Some? {
      WalkSpans(s.value, g, cur);
    }
  }

  lemma {:induction false} WalkFromSpans(outer: Stmt, stmts: seq<Stmt>, k: nat, g: Blocks, cur: nat)
    requires cur < |g| && k <= |stmts| && forall m :: 0 <= m < |stmts| ==> stmts[m] < outer
    ensures SpansOf(WalkFrom(outer, stmts, k, g, cur).0) == SpansOf(g) + MadeByAll(outer, stmts, k, false)
    decreases outer, 0, |stmts| - k
  {
    hide SpansOf, Walk, MadeBy;
    if k == |stmts| {
    } else {
      WalkSpans(stmts[k], g, cur);
      var (g1, next) := Walk(stmts[k], g, cur);
      WalkFromSpans(outer, stmts, k + 1, g1, next);
    }
  }

  lemma {:induction false} WalkCasesSpans(outer: Stmt, cases: seq<Stmt>, k: nat, g: Blocks, dispatch: nat, join: nat)
    requires dispatch < |g| && join < |g| && k <= |cases| && forall m :: 0 <= m < |cases| ==> cases[m] < outer
    ensures SpansOf(WalkCases(outer, cases, k, g, dispatch, join)) == SpansOf(g) + MadeByAll(outer, cases, k, true)
    decreases outer, 0, |cases| - k
  {
    hide SpansOf, Walk, MadeBy, Link, Fresh;
    if k == |cases| {
    } else {
      var span := cases[k].span;
      FreshSpan(g, span);
      SameSpans(g + [Fresh(span)], dispatch, |g|, 0, false, Tested(span));
      WalkSpans(cases[k], Link(g + [Fresh(span)], dispatch, |g|), |g|);
      var (g1, caseEnd) := Walk(cases[k], Link(g + [Fresh(span)], dispatch, |g|), |g|);
      SameSpans(g1, caseEnd, join, 0, false, Tested(span));
      WalkCasesSpans(outer, cases, k + 1, Link(g1, caseEnd, join), dispatch, join);
    }
  }

  /** The first block carries the span of the function, the others the spans of the statements that make them. */
  lemma BlocksHaveSpans(n: Node, bytes: string)
    requires !HasError(n)
    ensures SpansOf(BuiltBlocks(n, bytes)) ==
            [n.Span()] + if FunctionBody(n).Some? then MadeBy(Shape(FunctionBody(n).value, bytes)) else []
  {
    hide MadeBy, Shape, Walk;
    var (g, end) := WalkedBody(n, bytes);
    SameSpans(g, 0, 0, end, false, Tested(n.Span()));
    assert SpansOf([Fresh(n.Span())]) == [n.Span()];
    if FunctionBody(n).Some? {
      WalkSpans(Shape(FunctionBody(n).value, bytes), [Fresh(n.Span())], 0);
    }
  }
}
