/**
 Which expressions may differ between lanes: a join over operands, written into a table by span
 while the whole tree is walked again and again.
 */
module Uniformity {
  import opened Options
  import opened Syntax
  import opened Graph

  // ------------------------------------------------------------------- the lattice

  datatype Uniformity = Unknown | Uniform | LoopInvariant | Divergent

  function Rank(u: Uniformity): nat {
    match u case Unknown => 0 case Uniform => 1 case LoopInvariant => 2 case Divergent => 3
  }

  predicate Below(a: Uniformity, b: Uniformity) {
    Rank(a) <= Rank(b)
  }

  /** The least upper bound of the chain Unknown, Uniform, LoopInvariant, Divergent. */
  function Join(lhs: Uniformity, rhs: Uniformity): (r: Uniformity)
    ensures forall v :: Below(r, v) <==> Below(lhs, v) && Below(rhs, v)
  {
    if lhs == Divergent || rhs == Divergent then Divergent
    else if lhs == Unknown then rhs
    else if rhs == Unknown then lhs
    else if lhs == LoopInvariant || rhs == LoopInvariant then LoopInvariant
    else Uniform
  }

  // -------------------------------------------------------------- classes of expressions

  /** What the classification of a source depends on: its text and the names known to diverge. */
  datatype Seeds = Seeds(bytes: string, idents: set<string>, resources: set<string>)

  const DIVERGENT_SYSTEM_VALUES: seq<string> := [
    "SV_DispatchThreadID", "SV_GroupThreadID", "SV_GroupIndex", "SV_VertexID", "SV_InstanceID", "SV_PrimitiveID",
    "SV_SampleIndex"]

  predicate DivergentSystemValue(s: string) {
    s in DIVERGENT_SYSTEM_VALUES
  }

  predicate DivergentWaveIntrinsic(s: string) {
    s in ["WaveGetLaneIndex", "WaveReadLaneFirst", "WaveActiveAllEqual", "WaveActiveAnyTrue", "WaveActiveBallot"]
  }

  predicate UniformWaveIntrinsic(s: string) {
    s in ["WaveGetLaneCount", "WaveIsFirstLane"]
  }

  predicate Literal(n: Node) {
    n.kind.NumberLiteral? || n.kind.StringLiteral? || n.kind.TrueLiteral? || n.kind.FalseLiteral?
  }

  function Callee(bytes: string, n: Node): string {
    var f := ChildByField(n, Function);
    if f.Some? then Text(f.value, bytes) else ""
  }

  /** A call whose callee alone decides its class. */
  predicate KnownCall(bytes: string, n: Node) {
    && n.kind.CallExpression?
    && var callee := Callee(bytes, n);
       DivergentWaveIntrinsic(callee) || DivergentSystemValue(callee) || UniformWaveIntrinsic(callee)
  }

  /** Nodes classified without looking at other expressions. */
  predicate Atomic(bytes: string, n: Node) {
    Literal(n) || n.kind.Identifier? || KnownCall(bytes, n)
  }

  predicate DivergentName(seeds: Seeds, name: string) {
    name in seeds.idents || name in seeds.resources || DivergentSystemValue(name) || DivergentWaveIntrinsic(name)
  }

  function AtomClass(seeds: Seeds, n: Node): Uniformity
    requires Atomic(seeds.bytes, n)
  {
    if Literal(n) then Uniform
    else if n.kind.Identifier? then if DivergentName(seeds, Text(n, seeds.bytes)) then Divergent else Uniform
    else
      var callee := Callee(seeds.bytes, n);
      if DivergentWaveIntrinsic(callee) || DivergentSystemValue(callee) then Divergent else Uniform
  }

  /** The expressions whose classes are joined: the arguments of a call, else the named children. */
  function Operands(n: Node): (r: seq<Node>)
    ensures forall i :: 0 <= i < |r| ==> r[i].named && r[i] < n
  {
    if n.kind.CallExpression? then
      match ChildByField(n, Arguments)
      case None => []
      case Some(args) => Named(args.children)
    else Named(n.children)
  }

  /** The class of a named node. */
  function Class(seeds: Seeds, n: Node): Uniformity
    decreases n, |Operands(n)| + 1
  {
    if Atomic(seeds.bytes, n) then AtomClass(seeds, n) else JoinOf(seeds, n, Operands(n))
  }

  function JoinOf(seeds: Seeds, ghost parent: Node, operands: seq<Node>): Uniformity
    requires forall i :: 0 <= i < |operands| ==> operands[i] < parent
    decreases parent, |operands|
  {
    if operands == [] then Unknown
    else Join(JoinOf(seeds, parent, operands[..|operands| - 1]), Class(seeds, operands[|operands| - 1]))
  }

  /** The atomic expression `atom` reaches `n` through operands, under no call that decides for itself. */
  ghost predicate Contributes(bytes: string, atom: Node, n: Node)
    decreases n
  {
    if Atomic(bytes, n) then atom == n
    else exists c :: c in Operands(n) && Contributes(bytes, atom, c)
  }

  lemma {:induction false} ContributorsAreAtomic(bytes: string, atom: Node, n: Node)
    requires Contributes(bytes, atom, n)
    ensures Atomic(bytes, atom)
    decreases n
  {
    if !Atomic(bytes, n) {
      var c :| c in Operands(n) && Contributes(bytes, atom, c);
      ContributorsAreAtomic(bytes, atom, c);
    }
  }

  /** `v` bounds every atomic expression that contributes to `n`. */
  ghost predicate Bounds(seeds: Seeds, v: Uniformity, n: Node) {
    forall atom :: Contributes(seeds.bytes, atom, n) ==>
      (ContributorsAreAtomic(seeds.bytes, atom, n); Below(AtomClass(seeds, atom), v))
  }

  /** The class is the least upper bound of the contributing atomic expressions. */
  lemma {:induction false} ClassIsLeastBound(seeds: Seeds, n: Node, v: Uniformity)
    ensures Below(Class(seeds, n), v) <==> Bounds(seeds, v, n)
    decreases n
  {
    if Atomic(seeds.bytes, n) {
      assert Contributes(seeds.bytes, n, n);
    } else {
      forall c | c in Operands(n)
        ensures Below(Class(seeds, c), v) <==> Bounds(seeds, v, c)
      {
        ClassIsLeastBound(seeds, c, v);
      }
      JoinBound(seeds, n, Operands(n), v);
      BoundsSplit(seeds, v, n);
    }
  }

  lemma BoundsSplit(seeds: Seeds, v: Uniformity, n: Node)
    requires !Atomic(seeds.bytes, n)
    ensures Bounds(seeds, v, n) <==> forall c :: c in Operands(n) ==> Bounds(seeds, v, c)
  {
    if Bounds(seeds, v, n) {
      forall c, atom | c in Operands(n) && Contributes(seeds.bytes, atom, c)
        ensures (ContributorsAreAtomic(seeds.bytes, atom, c); Below(AtomClass(seeds, atom), v))
      {
        assert Contributes(seeds.bytes, atom, n);
        ContributorsAreAtomic(seeds.bytes, atom, c);
      }
    }
  }

  ghost predicate AllBelow(seeds: Seeds, operands: seq<Node>, v: Uniformity) {
    forall c :: c in operands ==> Below(Class(seeds, c), v)
  }

  lemma AllBelowPush(seeds: Seeds, operands: seq<Node>, c: Node, v: Uniformity)
    ensures AllBelow(seeds, operands + [c], v) <==> AllBelow(seeds, operands, v) && Below(Class(seeds, c), v)
  {
  }

  lemma {:induction false} JoinBound(seeds: Seeds, parent: Node, operands: seq<Node>, v: Uniformity)
    requires forall i :: 0 <= i < |operands| ==> operands[i] < parent
    ensures Below(JoinOf(seeds, parent, operands), v) <==> AllBelow(seeds, operands, v)
    decreases |operands|
  {
    if operands == [] {
      JoinOfNothing(seeds, parent);
    } else {
      hide Class, Join, JoinOf, Below, AllBelow;
      var n := |operands| - 1;
      var first, last := operands[..n], operands[n];
      assert operands == first + [last];
      JoinBound(seeds, parent, first, v);
      OneMoreOperand(seeds, parent, first, last);
      JoinBelow(JoinOf(seeds, parent, first), Class(seeds, last), v);
      AllBelowPush(seeds, first, last, v);
    }
  }

  lemma JoinBelow(a: Uniformity, b: Uniformity, v: Uniformity)
    ensures Below(Join(a, b), v) <==> Below(a, v) && Below(b, v)
  {
  }

  /** More divergent names only raise classes. */
  lemma {:induction false} ClassIsMonotone(a: Seeds, b: Seeds, n: Node)
    requires a.bytes == b.bytes && a.idents <= b.idents && a.resources <= b.resources
    ensures Below(Class(a, n), Class(b, n))
    decreases n, 1
  {
    if !Atomic(a.bytes, n) {
      JoinIsMonotone(a, b, n, Operands(n));
    }
  }

  lemma {:induction false} JoinIsMonotone(a: Seeds, b: Seeds, parent: Node, operands: seq<Node>)
    requires a.bytes == b.bytes && a.idents <= b.idents && a.resources <= b.resources
    requires forall i :: 0 <= i < |operands| ==> operands[i] < parent
    ensures Below(JoinOf(a, parent, operands), JoinOf(b, parent, operands))
    decreases parent, 0, |operands|
  {
    hide AtomClass, Atomic, Operands, Join, Below;
    if operands == [] {
      JoinBothRise(Unknown, Unknown, Unknown, Unknown);
    } else {
      var n := |operands| - 1;
      JoinIsMonotone(a, b, parent, operands[..n]);
      ClassIsMonotone(a, b, operands[n]);
      JoinBothRise(JoinOf(a, parent, operands[..n]), Class(a, operands[n]), JoinOf(b, parent, operands[..n]), Class(b, operands[n]));
    }
  }

  lemma JoinBothRise(a1: Uniformity, a2: Uniformity, b1: Uniformity, b2: Uniformity)
    ensures Below(Unknown, Unknown)
    ensures Below(a1, b1) && Below(a2, b2) ==> Below(Join(a1, a2), Join(b1, b2))
  {
  }

  // ------------------------------------------------------------------- writing the table

  /** One write: the class of the expression at a span. */
  datatype Entry = Entry(span: ByteSpan, value: Uniformity)

  type Table = map<ByteSpan, Uniformity>

  /** The table after some writes; a later write to a span replaces an earlier one. */
  function Written(table: Table, entries: seq<Entry>): Table {
    if entries == [] then table
    else
      var e := entries[|entries| - 1];
      Written(table, entries[..|entries| - 1])[e.span := e.value]
  }

  lemma {:induction false} WrittenInTurn(table: Table, a: seq<Entry>, b: seq<Entry>)
    ensures Written(table, a + b) == Written(Written(table, a), b)
  {
    if b == [] {
      assert a + b == a;
    } else {
      var n := |b| - 1;
      WrittenInTurn(table, a, b[..n]);
      assert (a + b)[..|a + b| - 1] == a + b[..n];
    }
  }

  /** The nodes a classification writes, in order. */
  function Writes(bytes: string, n: Node): seq<Node>
    decreases n, |Operands(n)| + 1
  {
    if Atomic(bytes, n) then [n] else WritesOf(bytes, n, Operands(n)) + [n]
  }

  function WritesOf(bytes: string, ghost parent: Node, operands: seq<Node>): seq<Node>
    requires forall i :: 0 <= i < |operands| ==> operands[i] < parent
    decreases parent, |operands|
  {
    if operands == [] then []
    else WritesOf(bytes, parent, operands[..|operands| - 1]) + Writes(bytes, operands[|operands| - 1])
  }

  /** The writes that give each node its class. */
  function Entries(seeds: Seeds, nodes: seq<Node>): (r: seq<Entry>)
    ensures |r| == |nodes|
  {
    seq(|nodes|, i requires 0 <= i < |nodes| => Entry(nodes[i].Span(), Class(seeds, nodes[i])))
  }

  lemma EntriesInTurn(seeds: Seeds, a: seq<Node>, b: seq<Node>, table: Table)
    ensures Written(table, Entries(seeds, a + b)) == Written(Written(table, Entries(seeds, a)), Entries(seeds, b))
  {
    assert Entries(seeds, a + b) == Entries(seeds, a) + Entries(seeds, b);
    WrittenInTurn(table, Entries(seeds, a), Entries(seeds, b));
  }

  lemma OneMoreEntry(seeds: Seeds, a: seq<Node>, n: Node, table: Table)
    ensures Written(table, Entries(seeds, a + [n])) == Written(table, Entries(seeds, a))[n.Span() := Class(seeds, n)]
  {
    EntriesInTurn(seeds, a, [n], table);
    var one := Entries(seeds, [n]);
    assert one == [Entry(n.Span(), Class(seeds, n))] && one[..0] == [];
  }

  // --------------------------------------------------------------- walking with a stack

  /** The nodes in the order an explicit stack visits them: last child first. */
  function Visit(n: Node): seq<Node> {
    [n] + VisitAll(n.children)
  }

  function VisitAll(stack: seq<Node>): seq<Node> {
    if stack == [] then []
    else Visit(stack[|stack| - 1]) + VisitAll(stack[..|stack| - 1])
  }

  lemma {:induction false} PushAll(stack: seq<Node>, nodes: seq<Node>)
    ensures VisitAll(stack + nodes) == VisitAll(nodes) + VisitAll(stack)
  {
    hide Visit;
    if nodes == [] {
      assert stack + nodes == stack;
    } else {
      var n := |nodes| - 1;
      PushAll(stack, nodes[..n]);
      var all := stack + nodes;
      assert all[..|all| - 1] == stack + nodes[..n] && all[|all| - 1] == nodes[n];
      Regroup(Visit(nodes[n]), VisitAll(nodes[..n]), VisitAll(stack));
    }
  }

  lemma Regroup<T>(a: seq<T>, b: seq<T>, c: seq<T>)
    ensures a + (b + c) == (a + b) + c
  {
  }

  /** Popping a node and pushing its children leaves exactly the rest of the walk to do. */
  lemma PopAndPush(stack: seq<Node>)
    requires stack != []
    ensures var n := stack[|stack| - 1];
            VisitAll(stack) == [n] + VisitAll(stack[..|stack| - 1] + n.children)
  {
    PushAll(stack[..|stack| - 1], stack[|stack| - 1].children);
  }

  lemma VisitOne(n: Node)
    ensures VisitAll([n]) == Visit(n)
  {
  }

  // ------------------------------------------------------------------- the analyzer

  lemma JoinOfNothing(seeds: Seeds, parent: Node)
    ensures JoinOf(seeds, parent, []) == Unknown
  {
  }

  lemma OneMoreOperand(seeds: Seeds, parent: Node, done: seq<Node>, c: Node)
    requires c < parent && forall i :: 0 <= i < |done| ==> done[i] < parent
    ensures JoinOf(seeds, parent, done + [c]) == Join(JoinOf(seeds, parent, done), Class(seeds, c))
    ensures WritesOf(seeds.bytes, parent, done + [c]) == WritesOf(seeds.bytes, parent, done) + Writes(seeds.bytes, c)
  {
  }

  lemma NoOperands(seeds: Seeds, parent: Node, table: Table)
    ensures JoinOf(seeds, parent, []) == Unknown
    ensures Written(table, Entries(seeds, WritesOf(seeds.bytes, parent, []))) == table
  {
    JoinOfNothing(seeds, parent);
    WrittenNothing(table);
    assert Entries(seeds, WritesOf(seeds.bytes, parent, [])) == [];
  }

  lemma NothingNamed(nodes: seq<Node>)
    requires nodes == []
    ensures Named(nodes) == []
  {
  }

  lemma NextOperand(seeds: Seeds, parent: Node, done: seq<Node>, c: Node, table: Table)
    requires c < parent && forall i :: 0 <= i < |done| ==> done[i] < parent
    ensures JoinOf(seeds, parent, done + [c]) == Join(JoinOf(seeds, parent, done), Class(seeds, c))
    ensures Written(table, Entries(seeds, WritesOf(seeds.bytes, parent, done + [c]))) ==
            Written(Written(table, Entries(seeds, WritesOf(seeds.bytes, parent, done))), Entries(seeds, Writes(seeds.bytes, c)))
  {
    hide *;
    OneMoreOperand(seeds, parent, done, c);
    EntriesInTurn(seeds, WritesOf(seeds.bytes, parent, done), Writes(seeds.bytes, c), table);
  }

  /** The class of a node handed to the classifier: nothing is known of unnamed nodes. */
  function ClassOf(seeds: Seeds, n: Node): Uniformity {
    if n.named then Class(seeds, n) else Unknown
  }

  function WritesFor(bytes: string, n: Node): seq<Node> {
    if n.named then Writes(bytes, n) else []
  }

  /** All writes of a walk that classifies each visited node. */
  function WalkWrites(bytes: string, visited: seq<Node>): seq<Node> {
    if visited == [] then []
    else WalkWrites(bytes, visited[..|visited| - 1]) + WritesFor(bytes, visited[|visited| - 1])
  }

  predicate IsBranch(n: Node) {
    n.kind.IfStatement? || n.kind.SwitchStatement?
  }

  /** The condition of a branch: the field, or the first named child. */
  function ConditionOf(n: Node): (r: Option<Node>)
    ensures r.Some? ==> r.value in n.children
  {
    var cond := ChildByField(n, Condition);
    if cond.Some? then cond
    else if Named(n.children) == [] then None
    else Some(Named(n.children)[0])
  }

  function BranchClass(seeds: Seeds, n: Node): Uniformity {
    match ConditionOf(n)
    case None => Unknown
    case Some(cond) => ClassOf(seeds, cond)
  }

  /** The writes of the branch scan to the expression table. */
  function ConditionWrites(bytes: string, visited: seq<Node>): seq<Node> {
    if visited == [] then []
    else ConditionWrites(bytes, visited[..|visited| - 1]) + BranchWrites(bytes, visited[|visited| - 1])
  }

  function BranchWrites(bytes: string, n: Node): seq<Node> {
    if IsBranch(n) && ConditionOf(n).Some? then WritesFor(bytes, ConditionOf(n).value) else []
  }

  /** The writes of the branch scan to the branch table. */
  function BranchEntries(seeds: Seeds, visited: seq<Node>): seq<Entry> {
    if visited == [] then []
    else BranchEntries(seeds, visited[..|visited| - 1]) + BranchEntry(seeds, visited[|visited| - 1])
  }

  function BranchEntry(seeds: Seeds, n: Node): seq<Entry> {
    if IsBranch(n) then [Entry(n.Span(), BranchClass(seeds, n))] else []
  }

  /** A parameter whose text mentions a divergent system value. */
  predicate DivergentParameter(bytes: string, n: Node) {
    && (n.kind.ParameterDeclaration? || n.kind.Parameter?)
    && exists k :: 0 <= k < |DIVERGENT_SYSTEM_VALUES| && Mentions(Text(n, bytes), DIVERGENT_SYSTEM_VALUES[k])
  }

  /** An identifier that names the parameter rather than a semantic. */
  predicate TaintingIdentifier(bytes: string, n: Node) {
    && n.kind.Identifier?
    && var text := Text(n, bytes);
       text != "" && !("SV_" <= text) && !("TEXCOORD" <= text) && text != "POSITION"
  }

  function IdentsIn(bytes: string, visited: seq<Node>): set<string> {
    set n | n in visited && TaintingIdentifier(bytes, n) :: Text(n, bytes)
  }

  /** The names the divergent parameters among the visited nodes taint. */
  function SeededBy(bytes: string, visited: seq<Node>): set<string> {
    set p, n | p in visited && DivergentParameter(bytes, p) && n in Visit(p) && TaintingIdentifier(bytes, n) :: Text(n, bytes)
  }

  class Analyzer {
    const bytes: string
    var divergentIdents: set<string>
    var divergentResources: set<string>
    var exprUniformity: Table
    var branchUniformity: Table

    constructor (bytes: string)
      ensures this.bytes == bytes
      ensures divergentIdents == {} && divergentResources == {} && exprUniformity == map[] && branchUniformity == map[]
    {
      this.bytes := bytes;
      divergentIdents, divergentResources := {}, {};
      exprUniformity, branchUniformity := map[], map[];
    }

    function Known(): Seeds
      reads `divergentIdents, `divergentResources
    {
      Seeds(bytes, divergentIdents, divergentResources)
    }

    method SeedDivergentParameters(root: Node)
      modifies `divergentIdents
      ensures divergentIdents == old(divergentIdents) + SeededBy(bytes, Visit(root))
    {
      var stack := [root];
      ghost var visited: seq<Node> := [];
      VisitOne(root);
      while stack != []
        invariant visited + VisitAll(stack) == Visit(root)
        invariant divergentIdents == old(divergentIdents) + SeededBy(bytes, visited)
        decreases |VisitAll(stack)|
      {
        PopAndPush(stack);
        var node := stack[|stack| - 1];
        stack := stack[..|stack| - 1];
        if DivergentParameter(bytes, node) {
          ExtractParamIdents(node);
        }
        SeededOneMore(bytes, visited, node);
        Regroup(visited, [node], VisitAll(stack + node.children));
        visited := visited + [node];
        stack := stack + node.children;
      }
      assert visited == Visit(root);
    }

    method ExtractParamIdents(param: Node)
      modifies `divergentIdents
      ensures divergentIdents == old(divergentIdents) + IdentsIn(bytes, Visit(param))
    {
      var stack := [param];
      ghost var visited: seq<Node> := [];
      VisitOne(param);
      while stack != []
        invariant visited + VisitAll(stack) == Visit(param)
        invariant divergentIdents == old(divergentIdents) + IdentsIn(bytes, visited)
        decreases |VisitAll(stack)|
      {
        PopAndPush(stack);
        var node := stack[|stack| - 1];
        stack := stack[..|stack| - 1];
        if TaintingIdentifier(bytes, node) {
          divergentIdents := divergentIdents + {Text(node, bytes)};
        }
        IdentsOneMore(bytes, visited, node);
        Regroup(visited, [node], VisitAll(stack + node.children));
        visited := visited + [node];
        stack := stack + node.children;
      }
      assert visited == Visit(param);
    }

    method Classify(node: Node) returns (u: Uniformity)
      modifies `exprUniformity
      ensures u == ClassOf(Known(), node)
      ensures exprUniformity == Written(old(exprUniformity), Entries(Known(), WritesFor(bytes, node)))
      decreases node, 2
    {
      if !node.named {
        return Unknown;
      }
      ghost var before := Operands(node);
      if Literal(node) {
        u := Uniform;
      } else if node.kind.Identifier? {
        var text := Text(node, bytes);
        u := Uniform;
        if text in divergentIdents {
          u := Divergent;
        } else if text in divergentResources {
          u := Divergent;
        } else if DivergentSystemValue(text) || DivergentWaveIntrinsic(text) {
          u := Divergent;
        }
      } else if node.kind.CallExpression? {
        var callee := Callee(bytes, node);
        if DivergentWaveIntrinsic(callee) || DivergentSystemValue(callee) {
          u := Divergent;
        } else if UniformWaveIntrinsic(callee) {
          u := Uniform;
        } else {
          var args := ChildByField(node, Arguments);
          u := Unknown;
          if args.Some? {
            u := ClassifyEach(node, args.value.children);
          }
        }
      } else {
        u := ClassifyEach(node, node.children);
      }
      ghost var done := if Atomic(bytes, node) then [] else WritesOf(bytes, node, before);
      OneMoreEntry(Known(), done, node, old(exprUniformity));
      exprUniformity := exprUniformity[node.Span() := u];
    }

    /** Classifies the named nodes of a list, in order, and joins what comes out. */
    method ClassifyEach(ghost parent: Node, nodes: seq<Node>) returns (u: Uniformity)
      requires forall i :: 0 <= i < |nodes| ==> nodes[i] < parent
      requires forall i :: 0 <= i < |Named(nodes)| ==> Named(nodes)[i] < parent
      modifies `exprUniformity
      ensures u == JoinOf(Known(), parent, Named(nodes))
      ensures exprUniformity == Written(old(exprUniformity), Entries(Known(), WritesOf(bytes, parent, Named(nodes))))
      decreases parent, 1
    {
      u := Unknown;
      ghost var done: seq<Node> := [];
      ghost var seeds, table := Known(), exprUniformity;
      NoOperands(seeds, parent, table);
      hide Class, JoinOf, Writes, WritesOf, Entries, Written, Join, Named;
      NothingNamed(nodes[..0]);
      for i := 0 to |nodes|
        invariant Known() == seeds && done == Named(nodes[..i])
        invariant forall k :: 0 <= k < |done| ==> done[k] < parent
        invariant u == JoinOf(seeds, parent, done)
        invariant exprUniformity == Written(table, Entries(seeds, WritesOf(bytes, parent, done)))
      {
        NamedNext(nodes, i);
        if nodes[i].named {
          var v := Classify(nodes[i]);
          u := Join(u, v);
          NextOperand(seeds, parent, done, nodes[i], table);
          done := done + [nodes[i]];
        }
      }
      assert nodes[..|nodes|] == nodes;
    }

    /** The first walk: every named node is classified, whatever was classified before. */
    method ClassifyAll(root: Node)
      modifies `exprUniformity
      ensures exprUniformity == Written(old(exprUniformity), Entries(Known(), WalkWrites(bytes, Visit(root))))
    {
      var stack := [root];
      ghost var visited: seq<Node> := [];
      VisitOne(root);
      while stack != []
        invariant visited + VisitAll(stack) == Visit(root)
        invariant exprUniformity == Written(old(exprUniformity), Entries(Known(), WalkWrites(bytes, visited)))
        decreases |VisitAll(stack)|
      {
        PopAndPush(stack);
        var node := stack[|stack| - 1];
        stack := stack[..|stack| - 1];
        if node.named {
          var _ := Classify(node);
        }
        EntriesInTurn(Known(), WalkWrites(bytes, visited), WritesFor(bytes, node), old(exprUniformity));
        assert (visited + [node])[..|visited|] == visited;
        Regroup(visited, [node], VisitAll(stack + node.children));
        visited := visited + [node];
        stack := stack + node.children;
      }
      assert visited == Visit(root);
    }

    method ScanBranch(node: Node)
      modifies `exprUniformity, `branchUniformity
      ensures exprUniformity == Written(old(exprUniformity), Entries(Known(), BranchWrites(bytes, node)))
      ensures branchUniformity == Written(old(branchUniformity), BranchEntry(Known(), node))
    {
      if IsBranch(node) {
        var cond := ConditionOf(node);
        var u := Unknown;
        if cond.Some? {
          u := Classify(cond.value);
        }
        OneMoreWrite(old(branchUniformity), [], Entry(node.Span(), u));
        branchUniformity := branchUniformity[node.Span() := u];
      }
    }

    /** The second walk: the class of each branch's condition, under the span of the whole branch. */
    method ScanBranches(root: Node)
      modifies `exprUniformity, `branchUniformity
      ensures exprUniformity == Written(old(exprUniformity), Entries(Known(), ConditionWrites(bytes, Visit(root))))
      ensures branchUniformity == Written(old(branchUniformity), BranchEntries(Known(), Visit(root)))
    {
      hide Written, Entries, BranchWrites, BranchEntry, Visit;
      WrittenNothing(old(exprUniformity));
      WrittenNothing(old(branchUniformity));
      assert Entries(Known(), []) == [];
      var stack := [root];
      ghost var visited: seq<Node> := [];
      VisitOne(root);
      while stack != []
        invariant visited + VisitAll(stack) == Visit(root)
        invariant exprUniformity == Written(old(exprUniformity), Entries(Known(), ConditionWrites(bytes, visited)))
        invariant branchUniformity == Written(old(branchUniformity), BranchEntries(Known(), visited))
        decreases |VisitAll(stack)|
      {
        PopAndPush(stack);
        var node := stack[|stack| - 1];
        stack := stack[..|stack| - 1];
        ScanBranch(node);
        EntriesInTurn(Known(), ConditionWrites(bytes, visited), BranchWrites(bytes, node), old(exprUniformity));
        WrittenInTurn(old(branchUniformity), BranchEntries(Known(), visited), BranchEntry(Known(), node));
        assert (visited + [node])[..|visited|] == visited;
        Regroup(visited, [node], VisitAll(stack + node.children));
        visited := visited + [node];
        stack := stack + node.children;
      }
      assert visited == Visit(root);
    }
  }

  lemma WrittenNothing(table: Table)
    ensures Written(table, []) == table
  {
  }

  lemma OneMoreWrite(table: Table, entries: seq<Entry>, e: Entry)
    ensures Written(table, entries + [e]) == Written(table, entries)[e.span := e.value]
  {
  }

  lemma IdentsOneMore(bytes: string, visited: seq<Node>, n: Node)
    ensures IdentsIn(bytes, visited + [n]) ==
            IdentsIn(bytes, visited) + if TaintingIdentifier(bytes, n) then {Text(n, bytes)} else {}
  {
  }

  lemma SeededOneMore(bytes: string, visited: seq<Node>, p: Node)
    ensures SeededBy(bytes, visited + [p]) ==
            SeededBy(bytes, visited) + if DivergentParameter(bytes, p) then IdentsIn(bytes, Visit(p)) else {}
  {
  }

  /** The seeds of a source: the identifiers of its divergent parameters. No resource is known to diverge. */
  function SeedsOf(bytes: string, root: Node): Seeds {
    Seeds(bytes, SeededBy(bytes, Visit(root)), {})
  }

  /** Every write to the expression table, in order. */
  function AllWrites(bytes: string, root: Node): seq<Node> {
    WalkWrites(bytes, Visit(root)) + ConditionWrites(bytes, Visit(root))
  }

  function ExpressionTable(seeds: Seeds, root: Node): Table {
    Written(map[], Entries(seeds, AllWrites(seeds.bytes, root)))
  }

  function BranchTable(seeds: Seeds, root: Node): Table {
    Written(map[], BranchEntries(seeds, Visit(root)))
  }

  method AnalyseUniformity(root: Option<Node>, bytes: string) returns (expressions: Table, branches: Table)
    ensures root.None? ==> expressions == map[] && branches == map[]
    ensures root.Some? ==>
              && expressions == ExpressionTable(SeedsOf(bytes, root.value), root.value)
              && branches == BranchTable(SeedsOf(bytes, root.value), root.value)
  {
    hide Written, Entries, BranchEntries, WalkWrites, ConditionWrites, SeededBy, Visit;
    var a := new Analyzer(bytes);
    if root.Some? {
      a.SeedDivergentParameters(root.value);
      assert a.divergentIdents == SeededBy(bytes, Visit(root.value));
      assert a.Known() == SeedsOf(bytes, root.value);
      a.ClassifyAll(root.value);
      a.ScanBranches(root.value);
      EntriesInTurn(a.Known(), WalkWrites(bytes, Visit(root.value)), ConditionWrites(bytes, Visit(root.value)), map[]);
    }
    return a.exprUniformity, a.branchUniformity;
  }
}
