/** What the uniformity tables say, told on the syntax and the text alone. */
module UniformityMeaning {
  import opened Options
  import opened Graph
  import opened Syntax
  import opened Uniformity
  import opened UniformityTable

  // ------------------------------------------------------------ what diverges by itself

  const SYSTEM_VALUES: set<string> := {
    "SV_DispatchThreadID", "SV_GroupThreadID", "SV_GroupIndex", "SV_VertexID", "SV_InstanceID", "SV_PrimitiveID", "SV_SampleIndex"
  }

  const LANE_INTRINSICS: set<string> := {
    "WaveGetLaneIndex", "WaveReadLaneFirst", "WaveActiveAllEqual", "WaveActiveAnyTrue", "WaveActiveBallot"
  }

  const WAVE_INTRINSICS: set<string> := {"WaveGetLaneCount", "WaveIsFirstLane"}

  /** A parameter whose text mentions a system value that differs between lanes. */
  ghost predicate LaneParameter(bytes: string, p: Node) {
    (p.kind.ParameterDeclaration? || p.kind.Parameter?) && exists v :: v in SYSTEM_VALUES && Mentions(Text(p, bytes), v)
  }

  /** An identifier that is no semantic. */
  predicate PlainIdentifier(bytes: string, n: Node) {
    n.kind.Identifier? && !IsSemantic(Text(n, bytes))
  }

  predicate IsSemantic(text: string) {
    text == "" || text == "POSITION" || "SV_" <= text || "TEXCOORD" <= text
  }

  /** Somewhere in the source such an identifier with this name stands in such a parameter. */
  ghost predicate Tainted(root: Node, bytes: string, name: string) {
    exists p, n :: Within(root, p) && LaneParameter(bytes, p) && Within(p, n) && PlainIdentifier(bytes, n) && Text(n, bytes) == name
  }

  ghost predicate CallsOne(n: Node, bytes: string, names: set<string>) {
    n.kind.CallExpression? && exists c :: Fills(n, Function, c) && Text(c, bytes) in names
  }

  ghost predicate IsLiteral(n: Node) {
    n.kind in {NumberLiteral, StringLiteral, TrueLiteral, FalseLiteral}
  }

  /** The expression may differ between lanes. A call that is not known hangs on its arguments, all else on its named children. */
  ghost predicate Diverges(root: Node, bytes: string, n: Node)
    decreases n
  {
    if IsLiteral(n) then false
    else if n.kind.Identifier? then
      var name := Text(n, bytes);
      name in SYSTEM_VALUES || name in LANE_INTRINSICS || Tainted(root, bytes, name)
    else if CallsOne(n, bytes, SYSTEM_VALUES + LANE_INTRINSICS) then true
    else if CallsOne(n, bytes, WAVE_INTRINSICS) then false
    else if n.kind.CallExpression? then
      exists args, c :: args in n.children && Fills(n, Arguments, args) && c in args.children && c.named && Diverges(root, bytes, c)
    else exists c :: c in n.children && c.named && Diverges(root, bytes, c)
  }

  /** Something is known of the expression: it rests on a literal, an identifier or a known call. */
  ghost predicate Known(bytes: string, n: Node)
    decreases n
  {
    || IsLiteral(n) || n.kind.Identifier?
    || CallsOne(n, bytes, SYSTEM_VALUES + LANE_INTRINSICS + WAVE_INTRINSICS)
    || (if n.kind.CallExpression? then
          exists args, c :: args in n.children && Fills(n, Arguments, args) && c in args.children && c.named && Known(bytes, c)
        else exists c :: c in n.children && c.named && Known(bytes, c))
  }

  ghost function Told(root: Node, bytes: string, n: Node): Uniformity {
    if Diverges(root, bytes, n) then Divergent else if Known(bytes, n) then Uniform else Unknown
  }

  /** The condition of a branch: by field, else the first named child. */
  ghost predicate Condition(n: Node, c: Node) {
    if HasField(n, Syntax.Condition) then Fills(n, Syntax.Condition, c)
    else Named(n.children) != [] && c == Named(n.children)[0]
  }

  // ------------------------------------------------------------- the classes say that

  lemma {:induction false} WithinIs(n: Node, m: Node)
    ensures Within(n, m) <==> m in Visit(n)
    decreases n
  {
    VisitHas(n, m);
    hide Visit;
    forall k | 0 <= k < |n.children|
      ensures Within(n.children[k], m) <==> m in Visit(n.children[k])
    {
      WithinIs(n.children[k], m);
    }
    if c :| c in n.children && m in Visit(c) {
      var k :| 0 <= k < |n.children| && n.children[k] == c;
      assert Within(n.children[k], m);
    }
  }

  lemma NamesAre(text: string)
    ensures DivergentSystemValue(text) <==> text in SYSTEM_VALUES
    ensures DivergentWaveIntrinsic(text) <==> text in LANE_INTRINSICS
    ensures UniformWaveIntrinsic(text) <==> text in WAVE_INTRINSICS
  {
  }

  lemma ParameterIs(bytes: string, p: Node)
    ensures DivergentParameter(bytes, p) <==> LaneParameter(bytes, p)
  {
    hide Mentions, Text;
    var text := Text(p, bytes);
    forall v
      ensures v in SYSTEM_VALUES <==> exists k :: 0 <= k < |DIVERGENT_SYSTEM_VALUES| && DIVERGENT_SYSTEM_VALUES[k] == v
    {
      NamesAre(v);
    }
  }

  lemma SeededIs(root: Node, bytes: string, name: string)
    ensures name in SeedsOf(bytes, root).idents <==> Tainted(root, bytes, name)
  {
    hide Visit, Within, DivergentParameter, LaneParameter, Text;
    forall p, n
      ensures Within(root, p) && Within(p, n) <==> p in Visit(root) && n in Visit(p)
    {
      WithinIs(root, p);
      WithinIs(p, n);
    }
    forall p
      ensures DivergentParameter(bytes, p) <==> LaneParameter(bytes, p)
    {
      ParameterIs(bytes, p);
    }
    forall n
      ensures TaintingIdentifier(bytes, n) <==> PlainIdentifier(bytes, n)
    {
    }
  }

  lemma CalleeIs(n: Node, bytes: string, names: set<string>)
    requires n.kind.CallExpression? && "" !in names
    ensures CallsOne(n, bytes, names) <==> Callee(bytes, n) in names
  {
    FieldIs(n, Function);
  }

  lemma KnownCallIs(n: Node, bytes: string)
    requires n.kind.CallExpression?
    ensures var callee := Callee(bytes, n);
            && (CallsOne(n, bytes, SYSTEM_VALUES + LANE_INTRINSICS) <==> DivergentWaveIntrinsic(callee) || DivergentSystemValue(callee))
            && (CallsOne(n, bytes, WAVE_INTRINSICS) <==> UniformWaveIntrinsic(callee))
            && (CallsOne(n, bytes, SYSTEM_VALUES + LANE_INTRINSICS + WAVE_INTRINSICS) <==> KnownCall(bytes, n))
  {
    hide Callee, CallsOne, DivergentWaveIntrinsic, DivergentSystemValue, UniformWaveIntrinsic;
    NamesAre(Callee(bytes, n));
    CalleeIs(n, bytes, SYSTEM_VALUES + LANE_INTRINSICS);
    CalleeIs(n, bytes, WAVE_INTRINSICS);
    CalleeIs(n, bytes, SYSTEM_VALUES + LANE_INTRINSICS + WAVE_INTRINSICS);
  }

  lemma OperandsAre(n: Node, c: Node)
    ensures c in Operands(n) <==>
            if n.kind.CallExpression? then exists args :: args in n.children && Fills(n, Arguments, args) && c in args.children && c.named
            else c in n.children && c.named
  {
    FieldIs(n, Arguments);
  }

  ghost predicate AnyDiverges(root: Node, bytes: string, nodes: seq<Node>) {
    exists c :: c in nodes && Diverges(root, bytes, c)
  }

  ghost predicate AnyKnown(bytes: string, nodes: seq<Node>) {
    exists c :: c in nodes && Known(bytes, c)
  }

  lemma OneMoreTold(root: Node, bytes: string, nodes: seq<Node>, c: Node)
    ensures AnyDiverges(root, bytes, nodes + [c]) <==> AnyDiverges(root, bytes, nodes) || Diverges(root, bytes, c)
    ensures AnyKnown(bytes, nodes + [c]) <==> AnyKnown(bytes, nodes) || Known(bytes, c)
  {
    hide Diverges, Known;
    if Diverges(root, bytes, c) || Known(bytes, c) {
      assert c in nodes + [c];
    }
    assert forall d :: d in nodes ==> d in nodes + [c];
  }

  lemma {:induction false} JoinTells(root: Node, bytes: string, n: Node, operands: seq<Node>)
    requires forall i :: 0 <= i < |operands| ==> operands[i] < n
    requires forall c :: c in operands ==> Class(SeedsOf(bytes, root), c) == Told(root, bytes, c)
    ensures JoinOf(SeedsOf(bytes, root), n, operands) ==
            if AnyDiverges(root, bytes, operands) then Divergent
            else if AnyKnown(bytes, operands) then Uniform
            else Unknown
    decreases |operands|
  {
    var seeds := SeedsOf(bytes, root);
    hide Class, Diverges, Known, SeedsOf;
    if operands == [] {
      JoinOfNothing(seeds, n);
    } else {
      var k := |operands| - 1;
      var c := operands[k];
      assert operands == operands[..k] + [c];
      JoinTells(root, bytes, n, operands[..k]);
      OneMoreTold(root, bytes, operands[..k], c);
      OneMoreOperand(seeds, n, operands[..k], c);
      assert c in operands;
      hide AnyDiverges, AnyKnown, JoinOf;
    }
  }

  /** What an expression that no known name decides hangs on. */
  lemma OperandsTell(root: Node, bytes: string, n: Node)
    requires !Atomic(bytes, n)
    ensures Diverges(root, bytes, n) <==> AnyDiverges(root, bytes, Operands(n))
    ensures Known(bytes, n) <==> AnyKnown(bytes, Operands(n))
  {
    forall c
      ensures c in Operands(n) <==>
              if n.kind.CallExpression? then exists args :: args in n.children && Fills(n, Arguments, args) && c in args.children && c.named
              else c in n.children && c.named
    {
      OperandsAre(n, c);
    }
    if n.kind.CallExpression? {
      KnownCallIs(n, bytes);
    }
    hide Operands, CallsOne, Fills, Callee, KnownCall, DivergentWaveIntrinsic, DivergentSystemValue, UniformWaveIntrinsic;
  }

  lemma AtomTells(root: Node, bytes: string, n: Node)
    requires Atomic(bytes, n)
    ensures AtomClass(SeedsOf(bytes, root), n) == Told(root, bytes, n)
  {
    hide Tainted, CallsOne, Callee, DivergentWaveIntrinsic, DivergentSystemValue, UniformWaveIntrinsic, Fills, SeededBy;
    if n.kind.Identifier? {
      NamesAre(Text(n, bytes));
      SeededIs(root, bytes, Text(n, bytes));
    } else if n.kind.CallExpression? {
      KnownCallIs(n, bytes);
    }
  }

  /** The class of an expression is Divergent when it may differ between lanes, else Uniform when anything is known of it. */
  lemma {:induction false} ClassTells(root: Node, bytes: string, n: Node)
    ensures Class(SeedsOf(bytes, root), n) == Told(root, bytes, n)
    decreases n
  {
    var seeds := SeedsOf(bytes, root);
    if Atomic(bytes, n) {
      AtomTells(root, bytes, n);
    } else {
      OperandsTell(root, bytes, n);
      forall c | c in Operands(n)
        ensures Class(seeds, c) == Told(root, bytes, c)
      {
        ClassTells(root, bytes, c);
      }
      JoinTells(root, bytes, n, Operands(n));
      hide Diverges, Known, AnyDiverges, AnyKnown, SeededBy, Operands;
    }
  }

  lemma ConditionIs(n: Node)
    ensures forall c :: Condition(n, c) <==> ConditionOf(n) == Some(c)
  {
    hide Fills, HasField, ChildByField;
    FieldIs(n, Syntax.Condition);
  }

  lemma ExpressionsAreNodes(seeds: Seeds, root: Node, at: ByteSpan)
    requires at in ExpressionTable(seeds, root)
    ensures exists n :: Within(root, n) && n.named && n.Span() == at
  {
    hide Within, AllWrites;
    var writes := AllWrites(seeds.bytes, root);
    WrittenKeys(map[], Entries(seeds, writes), at);
    var k :| 0 <= k < |writes| && Entries(seeds, writes)[k].span == at;
    AllWritesAre(seeds.bytes, root, writes[k]);
    WithinIs(root, writes[k]);
  }

  lemma BranchesAreNodes(seeds: Seeds, root: Node, at: ByteSpan)
    requires at in BranchTable(seeds, root)
    ensures exists n :: Within(root, n) && (n.kind.IfStatement? || n.kind.SwitchStatement?) && n.Span() == at
  {
    hide Within, BranchEntries, BranchClass, Visit;
    var entries := BranchEntries(seeds, Visit(root));
    WrittenKeys(map[], entries, at);
    var k :| 0 <= k < |entries| && entries[k].span == at;
    var e := entries[k];
    BranchEntriesAre(seeds, Visit(root), e);
    var n :| n in Visit(root) && IsBranch(n) && e == Entry(n.Span(), BranchClass(seeds, n));
    WithinIs(root, n);
  }

  lemma ExpressionsTell(root: Node, bytes: string, n: Node)
    requires WellSpanned(root) && Within(root, n) && n.named
    ensures var table := ExpressionTable(SeedsOf(bytes, root), root); n.Span() in table && table[n.Span()] == Told(root, bytes, n)
  {
    hide WellSpanned, ExpressionTable, BranchTable, Visit, Told, Class, SeedsOf, Within, TellsBranches;
    WellSpannedTablesAreExact(SeedsOf(bytes, root), root);
    WithinIs(root, n);
    ClassTells(root, bytes, n);
  }

  lemma BranchesTell(root: Node, bytes: string, n: Node, c: Option<Node>)
    requires WellSpanned(root) && Within(root, n) && (n.kind.IfStatement? || n.kind.SwitchStatement?)
    requires c == ConditionOf(n)
    ensures var table := BranchTable(SeedsOf(bytes, root), root);
            n.Span() in table && table[n.Span()] == if c.Some? && c.value.named then Told(root, bytes, c.value) else Unknown
  {
    hide WellSpanned, ExpressionTable, BranchTable, Visit, Told, Class, SeedsOf, Within, TellsClasses, ConditionOf;
    WellSpannedTablesAreExact(SeedsOf(bytes, root), root);
    WithinIs(root, n);
    if c.Some? {
      ClassTells(root, bytes, c.value);
    }
  }

  /**
   The tables of a well-spanned tree. Each named node is listed, as Divergent when it may differ between
   lanes, else as Uniform when anything is known of it, else as Unknown; each branch likewise by its
   condition; and nothing else is listed.
   */
  lemma TablesTell(root: Node, bytes: string, expressions: Table, branches: Table)
    requires WellSpanned(root)
    requires expressions == ExpressionTable(SeedsOf(bytes, root), root) && branches == BranchTable(SeedsOf(bytes, root), root)
    ensures forall n :: Within(root, n) && n.named ==> n.Span() in expressions && expressions[n.Span()] == Told(root, bytes, n)
    ensures forall n, c :: Within(root, n) && (n.kind.IfStatement? || n.kind.SwitchStatement?) && Condition(n, c) ==>
              n.Span() in branches && branches[n.Span()] == if c.named then Told(root, bytes, c) else Unknown
    ensures forall n :: Within(root, n) && (n.kind.IfStatement? || n.kind.SwitchStatement?) && (forall c :: !Condition(n, c)) ==>
              n.Span() in branches && branches[n.Span()] == Unknown
    ensures forall at :: at in expressions ==> exists n :: Within(root, n) && n.named && n.Span() == at
    ensures forall at :: at in branches ==>
              exists n :: Within(root, n) && (n.kind.IfStatement? || n.kind.SwitchStatement?) && n.Span() == at
  {
    forall at | at in expressions
      ensures exists n :: Within(root, n) && n.named && n.Span() == at
    {
      ExpressionsAreNodes(SeedsOf(bytes, root), root, at);
    }
    forall at | at in branches
      ensures exists n :: Within(root, n) && (n.kind.IfStatement? || n.kind.SwitchStatement?) && n.Span() == at
    {
      BranchesAreNodes(SeedsOf(bytes, root), root, at);
    }
    hide WellSpanned, ExpressionTable, BranchTable, Told, SeedsOf, Within, Condition;
    forall n | Within(root, n) && n.named
      ensures n.Span() in expressions && expressions[n.Span()] == Told(root, bytes, n)
    {
      ExpressionsTell(root, bytes, n);
    }
    forall n | Within(root, n) && (n.kind.IfStatement? || n.kind.SwitchStatement?)
      ensures forall c :: Condition(n, c) ==>
                n.Span() in branches && branches[n.Span()] == if c.named then Told(root, bytes, c) else Unknown
      ensures (forall c :: !Condition(n, c)) ==> n.Span() in branches && branches[n.Span()] == Unknown
    {
      ConditionIs(n);
      BranchesTell(root, bytes, n, ConditionOf(n));
    }
  }
}
