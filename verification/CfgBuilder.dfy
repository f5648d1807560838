/** The builder itself: it walks syntax trees and writes blocks into the storage. */
module CfgBuilder {
  import opened Options
  import opened Graph
  import opened Syntax
  import opened Statements
  import opened CfgShape
  import opened CfgStorage
  import opened FunctionGraph

  // What shapes are made of, for proofs that hide how.

  lemma ShapeOptionIs(parent: Node, n: Option<Node>, bytes: string)
    requires n.Some? ==> n.value in parent.children
    ensures ShapeOption(parent, n, bytes) == if n.None? then None else Some(Shape(n.value, bytes))
  {
  }

  lemma CasesOfIs(nodes: seq<Node>)
    ensures CasesOf(nodes) ==
            if nodes == [] then []
            else if IsCase(nodes[0]) then [nodes[0]] + CasesOf(nodes[1..]) else CasesOf(nodes[1..])
  {
  }

  /** Writes the blocks of the newest function of the storage. */
  class FunctionBuilder {
    const storage: CfgStorage
    const fn: CfgFunction
    const bytes: string

    ghost predicate Ready()
      reads this, storage`functions, storage`blockToFunction, storage`blockToLocal, storage`spanToBlock, storage.functions`blocks
    {
      && storage.Valid()
      && |storage.functions| > 1
      && storage.functions[|storage.functions| - 1] == fn
    }

    constructor (storage: CfgStorage, fn: CfgFunction, bytes: string)
      requires storage.Valid() && |storage.functions| > 1 && storage.functions[|storage.functions| - 1] == fn
      ensures Ready() && this.storage == storage && this.fn == fn && this.bytes == bytes
    {
      this.storage := storage;
      this.fn := fn;
      this.bytes := bytes;
    }

    method NewBlock(anchor: Node) returns (local: nat)
      requires Ready()
      modifies storage`blockToFunction, storage`blockToLocal, storage`spanToBlock, fn`blocks
      ensures Ready()
      ensures local == old(|fn.blocks|) && fn.blocks == old(fn.blocks) + [Fresh(anchor.Span())]
      ensures storage.spanToBlock == old(storage.spanToBlock) + [(anchor.Span(), old(|storage.blockToFunction|) + 1)]
    {
      local := storage.AppendBlock(fn, Fresh(anchor.Span()));
    }

    method AddEdge(from: nat, to: nat)
      requires Ready()
      modifies fn`blocks
      ensures Ready()
      ensures fn.blocks == Link(old(fn.blocks), from, to)
    {
      if from >= |fn.blocks| {
        return;
      }
      SetBlock(from, fn.blocks[from].(successors := fn.blocks[from].successors + [to]));
    }

    /** Changing a block in place changes no size, so no id. */
    method SetBlock(i: nat, b: BasicBlock)
      requires Ready() && i < |fn.blocks|
      modifies fn`blocks
      ensures Ready()
      ensures fn.blocks == old(fn.blocks)[i := b]
    {
      ghost var sizes := storage.Sizes();
      fn.blocks := fn.blocks[i := b];
      assert storage.Sizes() == sizes;
    }

    /** Records what falls into a block. */
    method AddStep(i: nat, step: Step)
      requires Ready() && i < |fn.blocks|
      modifies fn`blocks
      ensures Ready()
      ensures fn.blocks == Place(old(fn.blocks), i, step)
    {
      SetBlock(i, fn.blocks[i].(steps := fn.blocks[i].steps + [step]));
    }

    /** Walks one statement from block `current`; returns the block the next statement goes to. */
    method WalkStatement(stmt: Node, current: nat) returns (end: nat)
      requires Ready() && current < |fn.blocks|
      modifies storage`blockToFunction, storage`blockToLocal, storage`spanToBlock, fn`blocks
      ensures Ready()
      ensures (fn.blocks, end) == Walk(Shape(stmt, bytes), old(fn.blocks), current)
      decreases stmt, 2
    {
      hide Walk, WalkOption, WalkFrom, WalkCases, Shape, ShapeOption, ShapeAll, DetectBarrier, MentionsDiscard, Text, Ready,
           Arms, LoopBody, Named, CasesOf;
      ShapeIs(stmt, bytes);
      WalkLeafIs(Shape(stmt, bytes), fn.blocks, current);
      var span := stmt.Span();
      if stmt.kind.ReturnStatement? {
        SetBlock(current, fn.blocks[current].(isExit := true));
        AddStep(current, Returned(span));
        end := NewBlock(stmt);
        return;
      }
      if DetectBarrier(stmt, bytes) {
        SetBlock(current, fn.blocks[current].(containsBarrier := true));
        AddStep(current, Synced(span));
        end := NewBlock(stmt);
        AddEdge(current, end);
        return;
      }
      ghost var g := fn.blocks;
      var discard := MentionsDiscard(Text(stmt, bytes));
      if discard {
        SetBlock(current, fn.blocks[current].(containsDiscard := true));
      }
      if stmt.kind.IfStatement? {
        end := WalkIf(stmt, current, g);
      } else if stmt.kind.ForStatement? || stmt.kind.WhileStatement? {
        end := WalkLoop(stmt, current, g);
      } else if stmt.kind.DoStatement? {
        end := WalkDo(stmt, current, g);
      } else if stmt.kind.SwitchStatement? {
        end := WalkSwitch(stmt, current, g);
      } else if stmt.kind.CompoundStatement? {
        end := WalkCompound(stmt, current, g);
      } else {
        AddStep(current, Ran(span));
        end := current;
      }
    }

    /** A null node leaves the current block current. */
    method WalkOptional(parent: Node, stmt: Option<Node>, current: nat, ghost outer: Stmt) returns (end: nat)
      requires Ready() && current < |fn.blocks| && (stmt.Some? ==> stmt.value in parent.children)
      requires var s := ShapeOption(parent, stmt, bytes); s.Some? ==> s.value < outer
      modifies storage`blockToFunction, storage`blockToLocal, storage`spanToBlock, fn`blocks
      ensures Ready()
      ensures (fn.blocks, end) == WalkOption(outer, ShapeOption(parent, stmt, bytes), old(fn.blocks), current)
      decreases parent, 0
    {
      if stmt.None? {
        end := current;
      } else {
        end := WalkStatement(stmt.value, current);
      }
    }

    /** `g` is the graph before the statement marked its block. */
    method WalkIf(stmt: Node, current: nat, ghost g: Blocks) returns (end: nat)
      requires Ready() && stmt.kind.IfStatement? && !DetectBarrier(stmt, bytes) && current < |g|
      requires fn.blocks == MarkDiscard(g, current, MentionsDiscard(Text(stmt, bytes)))
      modifies storage`blockToFunction, storage`blockToLocal, storage`spanToBlock, fn`blocks
      ensures Ready()
      ensures (fn.blocks, end) == Walk(Shape(stmt, bytes), g, current)
      decreases stmt, 1
    {
      hide Walk, WalkOption, WalkFrom, WalkCases, Shape, ShapeOption, ShapeAll, DetectBarrier, MentionsDiscard, Text, Ready,
           Arms, LoopBody, Named, CasesOf;
      ghost var s := Shape(stmt, bytes);
      ShapeIs(stmt, bytes);
      ghost var discard := MentionsDiscard(Text(stmt, bytes));
      WalkIfIs(s, g, current);
      var (thenNode, elseNode) := Arms(stmt);
      AddStep(current, Tested(stmt.Span()));
      var thenBlock := NewBlock(stmt);
      AddEdge(current, thenBlock);
      assert fn.blocks == ThenStart(stmt.Span(), discard, g, current);
      var thenEnd := WalkOptional(stmt, thenNode, thenBlock, s);
      assert (fn.blocks, thenEnd) == WalkOption(s, s.thn, ThenStart(stmt.Span(), discard, g, current), |g|);
      var elseEnd := current;
      ShapeOptionIs(stmt, elseNode, bytes);
      if elseNode.Some? {
        var elseBlock := NewBlock(elseNode.value);
        AddEdge(current, elseBlock);
        elseEnd := WalkStatement(elseNode.value, elseBlock);
      }
      end := NewBlock(stmt);
      AddEdge(thenEnd, end);
      AddEdge(elseEnd, end);
    }

    method WalkLoop(stmt: Node, current: nat, ghost g: Blocks) returns (end: nat)
      requires Ready() && (stmt.kind.ForStatement? || stmt.kind.WhileStatement?)
      requires !DetectBarrier(stmt, bytes) && current < |g|
      requires fn.blocks == MarkDiscard(g, current, MentionsDiscard(Text(stmt, bytes)))
      modifies storage`blockToFunction, storage`blockToLocal, storage`spanToBlock, fn`blocks
      ensures Ready()
      ensures (fn.blocks, end) == Walk(Shape(stmt, bytes), g, current)
      decreases stmt, 1
    {
      hide Walk, WalkOption, WalkFrom, WalkCases, Shape, ShapeOption, ShapeAll, DetectBarrier, MentionsDiscard, Text, Ready,
           Arms, LoopBody, Named, CasesOf;
      ghost var s := Shape(stmt, bytes);
      ShapeIs(stmt, bytes);
      ghost var discard := MentionsDiscard(Text(stmt, bytes));
      WalkLoopIs(s, g, current);
      var header := NewBlock(stmt);
      AddEdge(current, header);
      AddStep(header, Tested(stmt.Span()));
      var body := NewBlock(stmt);
      AddEdge(header, body);
      assert fn.blocks == LoopStart(stmt.Span(), discard, g, current);
      var bodyEnd := WalkOptional(stmt, LoopBody(stmt), body, s);
      assert (fn.blocks, bodyEnd) == WalkOption(s, s.body, LoopStart(stmt.Span(), discard, g, current), |g| + 1);
      AddEdge(bodyEnd, header);
      end := NewBlock(stmt);
      AddEdge(header, end);
    }

    method WalkDo(stmt: Node, current: nat, ghost g: Blocks) returns (end: nat)
      requires Ready() && stmt.kind.DoStatement? && !DetectBarrier(stmt, bytes) && current < |g|
      requires fn.blocks == MarkDiscard(g, current, MentionsDiscard(Text(stmt, bytes)))
      modifies storage`blockToFunction, storage`blockToLocal, storage`spanToBlock, fn`blocks
      ensures Ready()
      ensures (fn.blocks, end) == Walk(Shape(stmt, bytes), g, current)
      decreases stmt, 1
    {
      hide Walk, WalkOption, WalkFrom, WalkCases, Shape, ShapeOption, ShapeAll, DetectBarrier, MentionsDiscard, Text, Ready,
           Arms, LoopBody, Named, CasesOf;
      ghost var s := Shape(stmt, bytes);
      ShapeIs(stmt, bytes);
      ghost var discard := MentionsDiscard(Text(stmt, bytes));
      WalkLoopIs(s, g, current);
      var body := NewBlock(stmt);
      AddEdge(current, body);
      assert fn.blocks == DoStart(stmt.Span(), discard, g, current);
      var bodyEnd := WalkOptional(stmt, LoopBody(stmt), body, s);
      assert (fn.blocks, bodyEnd) == WalkOption(s, s.body, DoStart(stmt.Span(), discard, g, current), |g|);
      end := FinishDo(stmt, body, bodyEnd);
    }

    /** The condition behind the body of a do-while, the edge back, and the exit. */
    method FinishDo(stmt: Node, body: nat, bodyEnd: nat) returns (end: nat)
      requires Ready()
      modifies storage`blockToFunction, storage`blockToLocal, storage`spanToBlock, fn`blocks
      ensures Ready()
      ensures fn.blocks == DoFinish(stmt.Span(), old(fn.blocks), bodyEnd, body) && end == old(|fn.blocks|) + 1
    {
      hide Ready;
      var cond := NewBlock(stmt);
      AddStep(cond, Tested(stmt.Span()));
      AddEdge(bodyEnd, cond);
      AddEdge(cond, body);
      end := NewBlock(stmt);
      AddEdge(cond, end);
    }

    /** Only case labels directly below the switch are looked at. */
    method WalkSwitch(stmt: Node, current: nat, ghost g: Blocks) returns (end: nat)
      requires Ready() && stmt.kind.SwitchStatement? && !DetectBarrier(stmt, bytes) && current < |g|
      requires fn.blocks == MarkDiscard(g, current, MentionsDiscard(Text(stmt, bytes)))
      modifies storage`blockToFunction, storage`blockToLocal, storage`spanToBlock, fn`blocks
      ensures Ready()
      ensures (fn.blocks, end) == Walk(Shape(stmt, bytes), g, current)
      decreases stmt, 1, 1
    {
      hide Walk, WalkOption, WalkFrom, WalkCases, Shape, ShapeOption, ShapeAll, DetectBarrier, MentionsDiscard, Text, Ready,
           Arms, LoopBody, Named, CasesOf;
      ghost var s := Shape(stmt, bytes);
      ShapeIs(stmt, bytes);
      WalkListIs(s, g, current);
      var kids := Named(stmt.children);
      AddStep(current, Tested(stmt.Span()));
      var join := NewBlock(stmt);
      WalkCaseBlocks(stmt, kids, current, join, s);
      if kids == [] {
        AddEdge(current, join);
      }
      end := join;
    }

    /** One block per case label among `kids`. */
    method WalkCaseBlocks(stmt: Node, kids: seq<Node>, current: nat, join: nat, ghost s: Stmt)
      requires Ready() && current < |fn.blocks| && join < |fn.blocks|
      requires forall c :: c in kids ==> c in stmt.children
      requires s.Switch? && s.cases == ShapeAll(stmt, CasesOf(kids), bytes)
      modifies storage`blockToFunction, storage`blockToLocal, storage`spanToBlock, fn`blocks
      ensures Ready()
      ensures fn.blocks == WalkCases(s, s.cases, 0, old(fn.blocks), current, join)
      decreases stmt, 1, 0
    {
      hide Walk, WalkOption, WalkCases, Shape, ShapeOption, ShapeAll, Ready, CasesOf, Link, Fresh, IsCase;
      ghost var start := fn.blocks;
      ghost var cases := CasesOf(kids);
      ghost var j: nat := 0;
      var k := 0;
      assert kids[0..] == kids && cases[0..] == cases;
      while k < |kids|
        invariant Ready() && 0 <= k <= |kids| && 0 <= j <= |cases| && current < |fn.blocks| && join < |fn.blocks|
        invariant CasesOf(kids[k..]) == cases[j..]
        invariant WalkCases(s, s.cases, j, fn.blocks, current, join) == WalkCases(s, s.cases, 0, start, current, join)
      {
        var child := kids[k];
        assert kids[k..][1..] == kids[k + 1..] && kids[k..][0] == child;
        CasesOfIs(kids[k..]);
        if IsCase(child) {
          assert cases[j..][0] == cases[j] && cases[j..][1..] == cases[j + 1..];
          WalkCasesIs(s, s.cases, j, fn.blocks, current, join);
          ShapeAllAt(stmt, cases, bytes, j);
          assert child in stmt.children;
          var caseBlock := NewBlock(child);
          AddEdge(current, caseBlock);
          var caseEnd := WalkStatement(child, caseBlock);
          AddEdge(caseEnd, join);
          j := j + 1;
        }
        k := k + 1;
      }
      CasesOfIs(kids[k..]);
      WalkCasesIs(s, s.cases, j, fn.blocks, current, join);
    }

    method WalkCompound(stmt: Node, current: nat, ghost g: Blocks) returns (end: nat)
      requires Ready() && stmt.kind.CompoundStatement? && !DetectBarrier(stmt, bytes) && current < |g|
      requires fn.blocks == MarkDiscard(g, current, MentionsDiscard(Text(stmt, bytes)))
      modifies storage`blockToFunction, storage`blockToLocal, storage`spanToBlock, fn`blocks
      ensures Ready()
      ensures (fn.blocks, end) == Walk(Shape(stmt, bytes), g, current)
      decreases stmt, 1
    {
      hide Walk, WalkOption, WalkFrom, WalkCases, Shape, ShapeOption, ShapeAll, DetectBarrier, MentionsDiscard, Text, Ready,
           Arms, LoopBody, Named, CasesOf;
      ghost var s := Shape(stmt, bytes);
      ShapeIs(stmt, bytes);
      WalkListIs(s, g, current);
      ghost var start := fn.blocks;
      var kids := Named(stmt.children);
      end := current;
      var k := 0;
      while k < |kids|
        invariant Ready() && 0 <= k <= |kids| && end < |fn.blocks|
        invariant WalkFrom(s, s.stmts, k, fn.blocks, end) == WalkFrom(s, s.stmts, 0, start, current)
      {
        ShapeAllAt(stmt, kids, bytes, k);
        WalkFromIs(s, s.stmts, k, fn.blocks, end);
        end := WalkStatement(kids[k], end);
        k := k + 1;
      }
      WalkFromIs(s, s.stmts, k, fn.blocks, end);
    }
  }

  // ------------------------------------------------------------------ functions

  /** Stands one tainted block in for a function with a syntax error. */
  method SkipFunction(storage: CfgStorage, fn: CfgFunction, span: ByteSpan)
    requires storage.Valid() && |storage.functions| > 1 && storage.functions[|storage.functions| - 1] == fn
    requires fn.blocks == []
    modifies storage`blockToFunction, storage`blockToLocal, storage`spanToBlock, fn`blocks, fn`idom, fn`errorSkipped
    ensures storage.Valid()
    ensures fn.blocks == [SkippedBlock(span)] && fn.idom == [0] && fn.errorSkipped
  {
    hide CfgStorage.Valid;
    fn.errorSkipped := true;
    var local := storage.AppendBlock(fn, SkippedBlock(span));
    fn.idom := [0];
  }

  lemma BuiltBlocksIs(n: Node, bytes: string)
    ensures HasError(n) ==> BuiltBlocks(n, bytes) == [SkippedBlock(n.Span())]
    ensures !HasError(n) && FunctionBody(n).None? ==> BuiltBlocks(n, bytes) == MarkExit([Fresh(n.Span())], 0)
    ensures !HasError(n) && FunctionBody(n).Some? ==>
              var w := Walk(Shape(FunctionBody(n).value, bytes), [Fresh(n.Span())], 0);
              BuiltBlocks(n, bytes) == MarkExit(w.0, w.1)
  {
  }

  predicate Declares(n: Node) {
    n.kind.FunctionDeclarator? && ChildByField(n, Declarator).Some?
  }

  predicate Names(n: Node, bytes: string) {
    n.kind.Identifier? && Text(n, bytes) != ""
  }

  /** The first declarator gives a function its name; without one, the first identifier that is not empty. */
  ghost predicate NamedBy(nodes: seq<Node>, bytes: string, name: string) {
    || (exists i :: FirstDeclarator(nodes, i) && name == Text(ChildByField(nodes[i], Declarator).value, bytes))
    || ((forall n :: n in nodes ==> !Declares(n)) && exists i :: FirstName(nodes, bytes, i) && name == Text(nodes[i], bytes))
    || ((forall n :: n in nodes ==> !Declares(n) && !Names(n, bytes)) && name == "")
  }

  ghost predicate FirstDeclarator(nodes: seq<Node>, i: int) {
    0 <= i < |nodes| && Declares(nodes[i]) && forall j :: 0 <= j < i ==> !Declares(nodes[j])
  }

  ghost predicate FirstName(nodes: seq<Node>, bytes: string, i: int) {
    0 <= i < |nodes| && Names(nodes[i], bytes) && forall j :: 0 <= j < i ==> !Names(nodes[j], bytes)
  }

  /** No list of children names two functions. */
  lemma NameIsUnique(nodes: seq<Node>, bytes: string, a: string, b: string)
    requires NamedBy(nodes, bytes, a) && NamedBy(nodes, bytes, b)
    ensures a == b
  {
  }

  method FunctionName(n: Node, bytes: string) returns (name: string)
    ensures NamedBy(n.children, bytes, name)
  {
    name := "";
    var i := 0;
    while i < |n.children|
      invariant 0 <= i <= |n.children|
      invariant forall j :: 0 <= j < i ==> !Declares(n.children[j])
      invariant name == "" ==> forall j :: 0 <= j < i ==> !Names(n.children[j], bytes)
      invariant name != "" ==> exists j :: FirstName(n.children, bytes, j) && name == Text(n.children[j], bytes)
    {
      var child := n.children[i];
      if child.kind.FunctionDeclarator? {
        var ident := ChildByField(child, Declarator);
        if ident.Some? {
          name := Text(ident.value, bytes);
          assert FirstDeclarator(n.children, i);
          break;
        }
      }
      if child.kind.Identifier? && name == "" {
        name := Text(child, bytes);
        assert name != "" ==> FirstName(n.children, bytes, i);
      }
      i := i + 1;
    }
  }

  /** Fills the newest function of the storage; a syntax error anywhere in it skips the body. */
  method BuildFunction(storage: CfgStorage, fn: CfgFunction, fnNode: Node, bytes: string)
    requires storage.Valid() && |storage.functions| > 1 && storage.functions[|storage.functions| - 1] == fn
    requires fn.blocks == [] && fn.idom == [] && !fn.errorSkipped
    modifies storage`blockToFunction, storage`blockToLocal, storage`spanToBlock, fn
    ensures storage.Valid()
    ensures fn.blocks == BuiltBlocks(fnNode, bytes) && fn.declarationSpan == fnNode.Span()
    ensures NamedBy(fnNode.children, bytes, fn.name)
    ensures fn.errorSkipped == HasError(fnNode)
    ensures fn.idom == if HasError(fnNode) then [0] else []
  {
    hide Walk, Shape, FunctionBody, HasError, Owners, Locals, BuiltBlocks, SizesOf, Fresh, SkippedBlock, CfgStorage.Valid,
         NamedBy;
    BuiltBlocksIs(fnNode, bytes);
    fn.declarationSpan := fnNode.Span();
    fn.name := FunctionName(fnNode, bytes);
    if HasError(fnNode) {
      SkipFunction(storage, fn, fn.declarationSpan);
      return;
    }
    var fb := new FunctionBuilder(storage, fn, bytes);
    var entry := fb.NewBlock(fnNode);
    assert fn.blocks == [Fresh(fnNode.Span())];
    var body := FunctionBody(fnNode);
    var end := entry;
    if body.Some? {
      end := fb.WalkStatement(body.value, entry);
    }
    fb.SetBlock(end, fn.blocks[end].(isExit := true));
  }

  /** The outermost function definitions of a tree, in order. */
  function FunctionsIn(n: Node): seq<Node> {
    if n.kind.FunctionDefinition? then [n] else FunctionsInAll(n, 0)
  }

  function FunctionsInAll(n: Node, k: nat): seq<Node>
    requires k <= |n.children|
    decreases n, 0, |n.children| - k
  {
    if k == |n.children| then [] else FunctionsIn(n.children[k]) + FunctionsInAll(n, k + 1)
  }

  /** The storage holds, in order, one finished function for each of `nodes`. */
  ghost predicate Holds(storage: CfgStorage, nodes: seq<Node>, bytes: string)
    reads storage, storage.functions
  {
    && storage.Valid()
    && |storage.functions| == |nodes| + 1
    && forall k :: 0 <= k < |nodes| ==>
         && storage.functions[k + 1].blocks == BuiltBlocks(nodes[k], bytes)
         && NamedBy(nodes[k].children, bytes, storage.functions[k + 1].name)
         && storage.functions[k + 1].errorSkipped == HasError(nodes[k])
         && (HasError(nodes[k]) ==> storage.functions[k + 1].idom == [0])
  }

  /** The spans of the functions that had to be skipped. */
  function Skipped(nodes: seq<Node>): seq<ByteSpan> {
    if nodes == [] then []
    else Skipped(nodes[..|nodes| - 1]) + (if HasError(nodes[|nodes| - 1]) then [nodes[|nodes| - 1].Span()] else [])
  }

  method AppendFunction(storage: CfgStorage, ghost nodes: seq<Node>, node: Node, bytes: string) returns (fn: CfgFunction)
    requires Holds(storage, nodes, bytes)
    modifies storage
    ensures Holds(storage, nodes + [node], bytes)
    ensures fresh(fn) && storage.functions == old(storage.functions) + [fn]
    ensures fn.errorSkipped == HasError(node) && fn.declarationSpan == node.Span()
  {
    hide BuiltBlocks, HasError, Owners, Locals, Skipped, SizesOf, NamedBy;
    fn := new CfgFunction();
    storage.AddFunction(fn);
    BuildFunction(storage, fn, node, bytes);
  }

  lemma EmptyHolds(storage: CfgStorage, bytes: string)
    requires storage.Valid() && |storage.functions| == 1
    ensures Holds(storage, [], bytes)
  {
  }

  lemma SkippedMore(nodes: seq<Node>, more: seq<Node>)
    requires |more| <= 1
    ensures Skipped([]) == []
    ensures Skipped(nodes + more) ==
            Skipped(nodes) + (if more != [] && HasError(more[0]) then [more[0].Span()] else [])
  {
    if more == [] {
      assert nodes + more == nodes;
    } else {
      assert (nodes + more)[..|nodes|] == nodes;
    }
  }

  method BuildCfg(root: Option<Node>, bytes: string) returns (storage: CfgStorage, skips: seq<ByteSpan>)
    ensures fresh(storage) && fresh(storage.functions)
    ensures var nodes := if root.None? then [] else FunctionsIn(root.value);
            Holds(storage, nodes, bytes) && skips == Skipped(nodes)
  {
    hide *;
    storage := new CfgStorage();
    skips := [];
    SkippedMore([], []);
    EmptyHolds(storage, bytes);
    if root.None? {
      return;
    }
    var nodes := FunctionsIn(root.value);
    var i := 0;
    assert nodes[..0] == [];
    while i < |nodes|
      invariant 0 <= i <= |nodes|
      invariant fresh(storage) && fresh(storage.functions)
      invariant Holds(storage, nodes[..i], bytes) && skips == Skipped(nodes[..i])
    {
      var fn := AppendFunction(storage, nodes[..i], nodes[i], bytes);
      assert nodes[..i] + [nodes[i]] == nodes[..i + 1];
      SkippedMore(nodes[..i], [nodes[i]]);
      if fn.errorSkipped {
        skips := skips + [fn.declarationSpan];
      }
      i := i + 1;
    }
    assert nodes[..i] == nodes;
  }
}
