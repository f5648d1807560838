/** From the syntax tree of a function to its blocks, and what these blocks promise. */
module FunctionGraph {
  import opened Options
  import opened Graph
  import opened Syntax
  import opened Statements
  import opened CfgShape
  import opened CfgMeaning
  import opened CfgExact
  import opened CfgReducible
  import opened Dominators

  // ------------------------------------------------------- reading syntax trees

  predicate IsBarrierCall(ident: string) {
    || ident == "GroupMemoryBarrier" || ident == "GroupMemoryBarrierWithGroupSync"
    || ident == "DeviceMemoryBarrier" || ident == "DeviceMemoryBarrierWithGroupSync"
    || ident == "AllMemoryBarrier" || ident == "AllMemoryBarrierWithGroupSync"
  }

  /** Is there a barrier call in `n`, nested functions aside? */
  predicate DetectBarrier(n: Node, bytes: string) {
    || (n.kind.CallExpression? && ChildByField(n, Function).Some?
        && IsBarrierCall(Text(ChildByField(n, Function).value, bytes)))
    || exists k :: 0 <= k < |n.children| && !n.children[k].kind.FunctionDefinition? && DetectBarrier(n.children[k], bytes)
  }

  /** The textual test for `discard` and `clip`. */
  predicate MentionsDiscard(text: string) {
    Mentions(text, "discard") || OccursAt(text, "clip(", 0) || Mentions(text, " clip(")
  }

  /** The two arms of an `if`: by field, or by position when neither field is there. */
  function Arms(n: Node): (r: (Option<Node>, Option<Node>))
    ensures r.0.Some? ==> r.0.value in n.children
    ensures r.1.Some? ==> r.1.value in n.children
  {
    var thn, els := ChildByField(n, Consequence), ChildByField(n, Alternative);
    if thn.None? && els.None? then
      var kids := Named(n.children);
      (if |kids| >= 2 then Some(kids[1]) else None, if |kids| >= 3 then Some(kids[2]) else None)
    else (thn, els)
  }

  /** The body of a loop: by field, or the last (for a do-while the first) named child. */
  function LoopBody(n: Node): (r: Option<Node>)
    ensures r.Some? ==> r.value in n.children
  {
    var body := ChildByField(n, Body);
    var kids := Named(n.children);
    if body.Some? || kids == [] then body
    else Some(if n.kind.DoStatement? then kids[0] else kids[|kids| - 1])
  }

  predicate IsCase(n: Node) {
    n.kind.CaseStatement? || n.kind.DefaultStatement?
  }

  function CasesOf(nodes: seq<Node>): (r: seq<Node>)
    ensures forall c :: c in r ==> c in nodes
  {
    if nodes == [] then []
    else if IsCase(nodes[0]) then [nodes[0]] + CasesOf(nodes[1..])
    else CasesOf(nodes[1..])
  }

  /** The statement the builder sees in a node. */
  function Shape(n: Node, bytes: string): (s: Stmt)
    ensures s.span == n.Span()
    decreases n, 1, 0
  {
    var span := n.Span();
    var discard := MentionsDiscard(Text(n, bytes));
    if n.kind.ReturnStatement? then Return(span)
    else if DetectBarrier(n, bytes) then Barrier(span)
    else match n.kind
      case IfStatement =>
        If(span, discard, ShapeOption(n, Arms(n).0, bytes), ShapeOption(n, Arms(n).1, bytes))
      case ForStatement => Loop(span, discard, ShapeOption(n, LoopBody(n), bytes))
      case WhileStatement => Loop(span, discard, ShapeOption(n, LoopBody(n), bytes))
      case DoStatement => DoWhile(span, discard, ShapeOption(n, LoopBody(n), bytes))
      case SwitchStatement =>
        Switch(span, discard, Named(n.children) == [], ShapeAll(n, CasesOf(Named(n.children)), bytes))
      case CompoundStatement => Block(span, discard, ShapeAll(n, Named(n.children), bytes))
      case _ => Plain(span, discard)
  }

  function ShapeOption(parent: Node, n: Option<Node>, bytes: string): (s: Option<Stmt>)
    requires n.Some? ==> n.value in parent.children
    ensures s.Some? == n.Some?
    decreases parent, 0, 0
  {
    if n.None? then None else Some(Shape(n.value, bytes))
  }

  function ShapeAll(parent: Node, nodes: seq<Node>, bytes: string): (r: seq<Stmt>)
    requires forall c :: c in nodes ==> c in parent.children
    ensures |r| == |nodes|
    decreases parent, 0, |nodes|
  {
    if nodes == [] then []
    else
      assert nodes[0] in parent.children;
      [Shape(nodes[0], bytes)] + ShapeAll(parent, nodes[1..], bytes)
  }

  /** The equations of `Shape`, for proofs that hide its body. */
  lemma ShapeIs(n: Node, bytes: string)
    ensures var s, span, d := Shape(n, bytes), n.Span(), MentionsDiscard(Text(n, bytes));
            if n.kind.ReturnStatement? then s == Return(span)
            else if DetectBarrier(n, bytes) then s == Barrier(span)
            else match n.kind
              case IfStatement => s == If(span, d, ShapeOption(n, Arms(n).0, bytes), ShapeOption(n, Arms(n).1, bytes))
              case ForStatement => s == Loop(span, d, ShapeOption(n, LoopBody(n), bytes))
              case WhileStatement => s == Loop(span, d, ShapeOption(n, LoopBody(n), bytes))
              case DoStatement => s == DoWhile(span, d, ShapeOption(n, LoopBody(n), bytes))
              case SwitchStatement =>
                s == Switch(span, d, Named(n.children) == [], ShapeAll(n, CasesOf(Named(n.children)), bytes))
              case CompoundStatement => s == Block(span, d, ShapeAll(n, Named(n.children), bytes))
              case _ => s == Plain(span, d)
  {
  }

  lemma {:induction false} ShapeAllAt(parent: Node, nodes: seq<Node>, bytes: string, k: nat)
    requires (forall c :: c in nodes ==> c in parent.children) && k < |nodes|
    ensures ShapeAll(parent, nodes, bytes)[k] == Shape(nodes[k], bytes)
  {
    hide Shape;
    if k == 0 {
    } else {
      ShapeAllAt(parent, nodes[1..], bytes, k - 1);
    }
  }

  // ---------------------------------------------------------------- the function

  /** The body of a function: by field, or the first compound statement among its children. */
  function FunctionBody(n: Node): Option<Node> {
    var body := ChildByField(n, Body);
    if body.Some? then body else FirstCompound(n.children)
  }

  function FirstCompound(nodes: seq<Node>): Option<Node> {
    if nodes == [] then None
    else if nodes[0].kind.CompoundStatement? then Some(nodes[0])
    else FirstCompound(nodes[1..])
  }

  /** The single block that stands for a function with a syntax error. */
  function SkippedBlock(span: ByteSpan): BasicBlock {
    BasicBlock(span, [], [], false, false, false, true)
  }

  /** The blocks of a function without syntax errors, the last one open to the closing brace. */
  function WalkedBody(n: Node, bytes: string): (r: (Blocks, nat))
    ensures r.1 < |r.0|
  {
    var entry := [Fresh(n.Span())];
    match FunctionBody(n)
    case None => (entry, 0)
    case Some(body) => Walk(Shape(body, bytes), entry, 0)
  }

  function BuiltBlocks(n: Node, bytes: string): Blocks {
    if HasError(n) then [SkippedBlock(n.Span())]
    else
      var (g, end) := WalkedBody(n, bytes);
      MarkExit(g, end)
  }

  // ------------------------------------------------------------------- theorems

  /** A complete path through the finished function, from the entry to a block that exits. */
  ghost predicate Trace(g: Blocks, p: seq<nat>, t: seq<Step>) {
    && p != [] && IsPath(g, p) && p[0] == 0
    && (forall i :: 0 <= i < |p| ==> p[i] < |g|)
    && g[p[|p| - 1]].isExit
    && Content(g, p) == t
  }

  /** `t` is what some execution of `s` does, up to its end or a return. */
  ghost predicate Executable(s: Stmt, t: seq<Step>) {
    exists r :: Runs(s, t, r)
  }

  /**
   The graph of a function means what its body means: the step sequences along paths from the
   entry to an exit block are exactly the step sequences of executions of the body.
   */
  lemma GraphMeansBody(n: Node, bytes: string, body: Node, t: seq<Step>)
    requires !HasError(n) && FunctionBody(n) == Some(body)
    ensures Executable(Shape(body, bytes), t) <==> exists p :: Trace(BuiltBlocks(n, bytes), p, t)
  {
    var s := Shape(body, bytes);
    var entry := [Fresh(n.Span())];
    var (g, end) := Walk(s, entry, 0);
    var g' := BuiltBlocks(n, bytes);
    assert g' == MarkExit(g, end);
    if Executable(s, t) {
      var r :| Runs(s, t, r);
      var p := ExecutionHasPath(s, entry, 0, t, r);
      ExecutionIsTrace(entry, g, end, p, t, r);
      assert Trace(g', p, t);
    }
    if p :| Trace(g', p, t) {
      TraceIsExecution(s, n.Span(), p, t);
    }
  }

  lemma TraceIsExecution(s: Stmt, span: ByteSpan, p: seq<nat>, t: seq<Step>)
    requires var (g, end) := Walk(s, [Fresh(span)], 0); Trace(MarkExit(g, end), p, t)
    ensures Executable(s, t)
  {
    hide Runs;
    var entry := [Fresh(span)];
    var (g, end) := Walk(s, entry, 0);
    TraceIsComplete(g, end, p, t);
    var u, r := PathIsExecution(s, entry, 0, p);
    assert t == entry[0].steps + u == u;
  }

  lemma ExecutionIsTrace(entry: Blocks, g: Blocks, end: nat, p: seq<nat>, t: seq<Step>, r: bool)
    requires |entry| == 1 && entry[0].steps == [] && end < |g| && Executes(entry, 0, g, end, p, t, r)
    ensures Trace(MarkExit(g, end), p, t)
  {
    PathFrame(g, MarkExit(g, end), p);
    ContentFrame(g, MarkExit(g, end), p);
  }

  lemma TraceIsComplete(g: Blocks, end: nat, p: seq<nat>, t: seq<Step>)
    requires end < |g| && Trace(MarkExit(g, end), p, t)
    ensures Complete(g, 0, end, p) && (forall i :: 0 <= i < |p| ==> p[i] < |g|) && Content(g, p) == t
  {
    PathFrame(MarkExit(g, end), g, p);
    ContentFrame(g, MarkExit(g, end), p);
  }

  /** Every function, whatever its statements, gets a reducible graph. */
  lemma BuiltBlocksReducible(n: Node, bytes: string)
    ensures Reducible(BuiltBlocks(n, bytes))
  {
    if HasError(n) {
      RankedIsReducible(BuiltBlocks(n, bytes), [0]);
    } else {
      var entry := [Fresh(n.Span())];
      var (g, end) := WalkedBody(n, bytes);
      var rank := [0];
      if FunctionBody(n).Some? {
        rank := WalkRanked(Shape(FunctionBody(n).value, bytes), entry, 0, [0]);
      }
      assert Ranked(g, rank) && Closed(g);
      SameSuccessors(g, rank, MarkExit(g, end));
      RankedIsReducible(MarkExit(g, end), rank);
    }
  }

  /** The block a statement starts from dominates every block the statement adds. */
  lemma {:induction false} RegionDominated(g: Blocks, cur: nat, g': Blocks, end: nat, x: nat, p: seq<nat>)
    requires g != [] && Closed(g) && Region(g, cur, g', end) && |g| <= x && PathFromTo(g', p, 0, x)
    ensures cur in p
    decreases |p|
  {
    var k := |p| - 2;
    assert Edge(g', p[k], p[k + 1]);
    PathSplit(g', p, k);
    if p[k] < |g| {
    } else {
      RegionDominated(g, cur, g', end, p[k], p[..k + 1]);
    }
  }

  lemma StatementIsSingleEntry(s: Stmt, g: Blocks, cur: nat)
    requires cur < |g| && Closed(g)
    ensures var (g', end) := Walk(s, g, cur);
            && (forall x: nat :: |g| <= x < |g'| ==> Dominates(g', cur, x))
            && (forall a: nat, x: nat :: x < |g| ==> (Dominates(g', a, x) <==> Dominates(g, a, x)))
  {
    var (g', end) := Walk(s, g, cur);
    WalkIsRegion(s, g, cur);
    forall x: nat, p | |g| <= x < |g'| && PathFromTo(g', p, 0, x)
      ensures cur in p
    {
      RegionDominated(g, cur, g', end, x, p);
    }
    forall x: nat, p | x < |g|
      ensures PathFromTo(g', p, 0, x) <==> PathFromTo(g, p, 0, x)
    {
      SamePathsToOld(g, cur, g', end, p, x);
    }
  }

  lemma SamePathsToOld(g: Blocks, cur: nat, g': Blocks, end: nat, p: seq<nat>, x: nat)
    requires Closed(g) && Region(g, cur, g', end) && x < |g|
    ensures PathFromTo(g', p, 0, x) <==> PathFromTo(g, p, 0, x)
  {
    RegionOldTargets(g, cur, g', end);
    if PathFromTo(g', p, 0, x) {
      OldPath(g, g', p);
    }
    if PathFromTo(g, p, 0, x) {
      PathInRange(g, p);
      forall i | 0 <= i < |p| - 1
        ensures Edge(g', p[i], p[i + 1])
      {
        assert Edge(g, p[i], p[i + 1]);
      }
    }
  }

  /** A block that a statement adds is reached only through the block the statement starts from. */
  lemma NewBlocksHangOnStart(s: Stmt, g: Blocks, cur: nat, x: nat)
    requires cur < |g| && Closed(g)
    requires var g' := Walk(s, g, cur).0; |g| <= x < |g'| && Reaches(g', 0, x)
    ensures Reaches(g, 0, cur)
  {
    var (g', end) := Walk(s, g, cur);
    WalkIsRegion(s, g, cur);
    var p :| PathFromTo(g', p, 0, x);
    RegionDominated(g, cur, g', end, x, p);
    var k :| 0 <= k < |p| && p[k] == cur;
    PathSplit(g', p, k);
    SamePathsToOld(g, cur, g', end, p[..k + 1], cur);
    assert PathFromTo(g, p[..k + 1], 0, cur);
  }

  /** A path that ends among the old blocks never left them. */
  lemma {:induction false} OldPath(g: Blocks, g': Blocks, p: seq<nat>)
    requires OldTargets(g, g') && IsPath(g', p) && p[|p| - 1] < |g|
    ensures IsPath(g, p)
    decreases |p|
  {
    if |p| <= 1 {
    } else {
      var k := |p| - 2;
      assert Edge(g', p[k], p[k + 1]);
      PathSplit(g', p, k);
      OldPath(g, g', p[..k + 1]);
      forall i | 0 <= i < |p| - 1
        ensures Edge(g, p[i], p[i + 1])
      {
        if i < k {
          assert Edge(g, p[..k + 1][i], p[..k + 1][i + 1]);
        }
      }
    }
  }

  /** The statement the builder sees in a switch; whatever a case label holds is one plain statement or barrier. */
  lemma SwitchShape(n: Node, bytes: string)
    requires n.kind.SwitchStatement? && !DetectBarrier(n, bytes)
    ensures var s := Shape(n, bytes);
            && s.Switch? && s.empty == (Named(n.children) == []) && |s.cases| == |CasesOf(Named(n.children))|
            && forall c :: c in s.cases ==> c.Plain? || c.Barrier?
  {
    var cases := CasesOf(Named(n.children));
    ShapeIs(n, bytes);
    hide Shape, DetectBarrier, CasesOf, Named;
    forall k: nat | k < |cases|
      ensures var c := ShapeAll(n, cases, bytes)[k]; c.Plain? || c.Barrier?
    {
      ShapeAllAt(n, cases, bytes, k);
      CasesAreCases(Named(n.children), cases[k]);
      CaseShape(cases[k], bytes);
    }
  }

  lemma CaseShape(n: Node, bytes: string)
    requires IsCase(n)
    ensures Shape(n, bytes).Plain? || Shape(n, bytes).Barrier?
  {
    ShapeIs(n, bytes);
  }

  lemma {:induction false} CasesAreCases(nodes: seq<Node>, c: Node)
    requires c in CasesOf(nodes)
    ensures IsCase(c)
  {
    if !IsCase(nodes[0]) || c != nodes[0] {
      CasesAreCases(nodes[1..], c);
    }
  }

  /** The body of a switch holds something, but no case label stands directly in it: braces hide them. */
  predicate HidesItsCases(n: Node) {
    Named(n.children) != [] && CasesOf(Named(n.children)) == []
  }

  /**
   What follows a switch hangs on its join block. The entry reaches the join exactly when it
   reaches the switch, unless the switch hides its cases: then no edge leads to the join at all.
   */
  lemma JoinIsReached(n: Node, bytes: string, g: Blocks, cur: nat)
    requires n.kind.SwitchStatement? && !DetectBarrier(n, bytes) && cur < |g| && Closed(g)
    ensures var (g', join) := Walk(Shape(n, bytes), g, cur);
            && join == |g|
            && (Reaches(g', 0, join) <==> Reaches(g, 0, cur) && !HidesItsCases(n))
  {
    hide Shape;
    var s := Shape(n, bytes);
    SwitchShape(n, bytes);
    var (g', join) := Walk(s, g, cur);
    SwitchJoinReached(s, g, cur);
    if Reaches(g', 0, join) {
      NewBlocksHangOnStart(s, g, cur, join);
    }
    if Reaches(g, 0, cur) && !HidesItsCases(n) {
      WalkIsRegion(s, g, cur);
      var p :| PathFromTo(g, p, 0, cur);
      SamePathsToOld(g, cur, g', join, p, cur);
      var q :| PathFromTo(g', q, cur, join);
      PathJoin(g', p, q, 0, cur, join);
    }
  }

  /**
   The graph has an execution in which no case of a switch is taken exactly when the switch has no
   named child at all, whether or not there is a default; one that hides its cases has no execution.
   */
  lemma NoCaseTaken(n: Node, bytes: string)
    requires n.kind.SwitchStatement? && !DetectBarrier(n, bytes)
    ensures Runs(Shape(n, bytes), [Tested(n.Span())], false) <==> Named(n.children) == []
    ensures HidesItsCases(n) <==> forall t, r :: !Runs(Shape(n, bytes), t, r)
  {
    var s := Shape(n, bytes);
    SwitchShape(n, bytes);
    assert [Tested(n.Span())][1..] == [];
    if s.empty {
      assert Runs(s, [Tested(n.Span())], false);
    } else if s.cases != [] {
      var c := s.cases[0];
      var t := [Tested(n.Span())] + [if c.Plain? then Ran(c.span) else Synced(c.span)];
      assert t[1..] == [if c.Plain? then Ran(c.span) else Synced(c.span)];
      assert Runs(c, t[1..], false);
      assert Runs(s, t, false);
    }
  }

  /** So every block of whatever is walked after such a switch is unreachable. */
  lemma NothingFollowsHiddenCases(n: Node, bytes: string, next: Stmt, g: Blocks, cur: nat, x: nat)
    requires n.kind.SwitchStatement? && !DetectBarrier(n, bytes) && cur < |g| && Closed(g)
    requires HidesItsCases(n)
    requires var (g', join) := Walk(Shape(n, bytes), g, cur); join == x || |g'| <= x < |Walk(next, g', join).0|
    ensures var (g', join) := Walk(Shape(n, bytes), g, cur); !Reaches(Walk(next, g', join).0, 0, x)
  {
    hide Shape, Walk, HidesItsCases;
    var (g', join) := Walk(Shape(n, bytes), g, cur);
    var (g2, end) := Walk(next, g', join);
    JoinIsReached(n, bytes, g, cur);
    WalkIsRegion(Shape(n, bytes), g, cur);
    WalkIsRegion(next, g', join);
    if p :| PathFromTo(g2, p, 0, x) {
      if x == join {
        SamePathsToOld(g', join, g2, end, p, x);
      } else {
        NewBlocksHangOnStart(next, g', join, x);
      }
      assert false;
    }
  }

  /** Within the switch: the join is reached from the selector, or no edge leads to it. */
  lemma SwitchJoinReached(s: Stmt, g: Blocks, cur: nat)
    requires cur < |g| && Closed(g) && s.Switch?
    requires forall c :: c in s.cases ==> c.Plain? || c.Barrier?
    ensures var (g', join) := Walk(s, g, cur);
            && join == |g|
            && (if s.empty || s.cases != [] then Reaches(g', cur, join) else !Reaches(g', 0, join))
  {
    var Switch(span, discard, empty, cases) := s;
    var start := SwitchStart(span, discard, g, cur);
    var g1 := WalkCases(s, cases, 0, start, cur, |g|);
    var (g', join) := Walk(s, g, cur);
    if empty {
      assert Edge(g', cur, join);
      assert PathFromTo(g', [cur, join], cur, join);
    } else if cases == [] {
      NoWayIn(g', 0, join);
    } else {
      FirstCaseReachesJoin(s, cases, start, cur, join);
    }
  }

  lemma NoWayIn(g: Blocks, a: nat, b: nat)
    requires a != b && forall u: nat :: !Edge(g, u, b)
    ensures !Reaches(g, a, b)
  {
    forall p | IsPath(g, p) && p[0] == a
      ensures p[|p| - 1] != b
    {
      if |p| > 1 {
        assert Edge(g, p[|p| - 2], p[|p| - 1]);
      }
    }
  }

  lemma {:induction false} CasesKeepEdges(outer: Stmt, cases: seq<Stmt>, k: nat, g: Blocks, dispatch: nat, join: nat, u: nat, v: nat)
    requires dispatch < |g| && join < |g| && k <= |cases| && forall m :: 0 <= m < |cases| ==> cases[m] < outer
    requires Edge(g, u, v)
    ensures Edge(WalkCases(outer, cases, k, g, dispatch, join), u, v)
    decreases |cases| - k
  {
    if k >= |cases| {
    } else {
      var g0 := Link(g + [Fresh(cases[k].span)], dispatch, |g|);
      WalkIsRegion(cases[k], g0, |g|);
      var (g1, caseEnd) := Walk(cases[k], g0, |g|);
      assert Edge(g0, u, v) && Edge(g1, u, v);
      CasesKeepEdges(outer, cases, k + 1, Link(g1, caseEnd, join), dispatch, join, u, v);
    }
  }

  lemma FirstCaseReachesJoin(outer: Stmt, cases: seq<Stmt>, g: Blocks, dispatch: nat, join: nat)
    requires dispatch < |g| && join < |g| && cases != [] && forall m :: 0 <= m < |cases| ==> cases[m] < outer
    requires cases[0].Plain? || cases[0].Barrier?
    ensures Reaches(WalkCases(outer, cases, 0, g, dispatch, join), dispatch, join)
  {
    var caseBlock := |g|;
    var g0 := Link(g + [Fresh(cases[0].span)], dispatch, caseBlock);
    var (g1, caseEnd) := Walk(cases[0], g0, caseBlock);
    var g2 := Link(g1, caseEnd, join);
    var g' := WalkCases(outer, cases, 0, g, dispatch, join);
    assert g' == WalkCases(outer, cases, 1, g2, dispatch, join);
    assert Edge(g2, dispatch, caseBlock) && Edge(g2, caseEnd, join);
    CasesKeepEdges(outer, cases, 1, g2, dispatch, join, dispatch, caseBlock);
    CasesKeepEdges(outer, cases, 1, g2, dispatch, join, caseEnd, join);
    if cases[0].Barrier? {
      assert Edge(g2, caseBlock, caseEnd);
      CasesKeepEdges(outer, cases, 1, g2, dispatch, join, caseBlock, caseEnd);
      assert PathFromTo(g', [dispatch, caseBlock, caseEnd, join], dispatch, join);
    } else {
      assert PathFromTo(g', [dispatch, caseBlock, join], dispatch, join);
    }
  }
}
