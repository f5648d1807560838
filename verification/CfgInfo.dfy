/** The whole pipeline for one source, and the queries rules ask about block ids. */
module CfgInfo {
  import opened Options
  import opened Graph
  import opened Syntax
  import opened Statements
  import opened CfgShape
  import opened CfgStorage
  import opened CfgBuilder
  import opened CfgQueries
  import opened FunctionGraph
  import opened Dominators
  import opened DominatorTree

  /** Every function has its dominators. */
  ghost predicate Analysed(storage: CfgStorage)
    reads storage, storage.functions
  {
    forall k :: 1 <= k < |storage.functions| ==>
      ImmediateDominators(storage.functions[k].blocks, storage.functions[k].idom)
  }

  method ComputeAllDominators(storage: CfgStorage, ghost nodes: seq<Node>, bytes: string)
    requires Holds(storage, nodes, bytes)
    requires forall n :: n in nodes ==> |BuiltBlocks(n, bytes)| <= UNDEFINED
    modifies storage.functions`idom
    ensures Holds(storage, nodes, bytes) && Analysed(storage)
  {
    hide BuiltBlocks, HasError, ImmediateDominators, Owners, Locals, NamedBy, Reducible;
    ghost var fns := storage.functions;
    forall k | 1 <= k < |fns| && fns[k].errorSkipped
      ensures fns[k].idom == [0]
    {
      assert fns[k - 1 + 1].errorSkipped == HasError(nodes[k - 1]);
    }
    var i := 1;
    while i < |storage.functions|
      invariant 1 <= i <= |fns| && storage.functions == fns
      invariant forall k :: i <= k < |fns| ==> fns[k].idom == old(fns[k].idom)
      invariant forall k :: 1 <= k < i ==> ImmediateDominators(fns[k].blocks, fns[k].idom)
      invariant forall k :: 1 <= k < |fns| && fns[k].errorSkipped ==> fns[k].idom == [0]
    {
      var fn := storage.functions[i];
      assert fn.blocks == BuiltBlocks(nodes[i - 1], bytes);
      if fn.errorSkipped {
        SkippedFunction(nodes[i - 1], bytes);
      }
      ghost var rounds := ComputeDominators(fn);
      i := i + 1;
    }
  }

  lemma SkippedFunction(n: Node, bytes: string)
    requires HasError(n)
    ensures |BuiltBlocks(n, bytes)| == 1 && ImmediateDominators(BuiltBlocks(n, bytes), [0])
  {
  }

  /** From syntax tree to analysed control-flow graphs. */
  method BuildWithTree(root: Option<Node>, bytes: string) returns (storage: CfgStorage, skips: seq<ByteSpan>)
    requires root.Some? ==> forall n :: n in FunctionsIn(root.value) ==> |BuiltBlocks(n, bytes)| <= UNDEFINED
    ensures fresh(storage) && Analysed(storage)
    ensures var nodes := if root.None? then [] else FunctionsIn(root.value);
            Holds(storage, nodes, bytes) && skips == Skipped(nodes)
  {
    hide *;
    storage, skips := BuildCfg(root, bytes);
    ComputeAllDominators(storage, if root.None? then [] else FunctionsIn(root.value), bytes);
  }

  // -------------------------------------------------------------------- queries

  /** The two ids stand for blocks of one function. */
  ghost predicate SameFunction(sizes: seq<nat>, a: nat, b: nat) {
    BlockOf(sizes, a).0 == BlockOf(sizes, b).0 != 0
  }

  ghost function BlocksOf(storage: CfgStorage, raw: nat): Blocks
    requires storage.Valid()
    reads storage, storage.functions
  {
    IdsAreDense(storage.Sizes(), raw);
    storage.functions[BlockOf(storage.Sizes(), raw).0].blocks
  }

  ghost function LocalOf(storage: CfgStorage, raw: nat): nat
    reads storage, storage.functions
  {
    BlockOf(storage.Sizes(), raw).1
  }

  method ReachableFrom(storage: CfgStorage, from: nat, to: nat) returns (r: bool)
    requires storage.Valid()
    ensures r <==> SameFunction(storage.Sizes(), from, to)
                   && Reaches(BlocksOf(storage, from), LocalOf(storage, from), LocalOf(storage, to))
  {
    hide Owners, Locals;
    var fromFn, fromLocal := storage.Resolve(from);
    var toFn, toLocal := storage.Resolve(to);
    if fromFn == 0 || toFn == 0 || fromFn != toFn {
      return false;
    }
    r := Reachable(storage.functions[fromFn], fromLocal, toLocal);
  }

  method DominatesBlock(storage: CfgStorage, a: nat, b: nat) returns (r: bool)
    requires storage.Valid() && Analysed(storage)
    ensures !SameFunction(storage.Sizes(), a, b) ==> !r
    ensures SameFunction(storage.Sizes(), a, b) ==>
              r == DominanceAnswer(BlocksOf(storage, b), LocalOf(storage, a), LocalOf(storage, b))
  {
    hide Owners, Locals, Dominates, Reaches, ImmediateDominators, DominanceAnswer;
    var aFn, aLocal := storage.Resolve(a);
    var bFn, bLocal := storage.Resolve(b);
    if aFn == 0 || bFn == 0 || aFn != bFn {
      return false;
    }
    TableFits(storage.functions[aFn].blocks, storage.functions[aFn].idom);
    r := DominatesQuery(storage.functions[aFn], aLocal, bLocal);
  }

  lemma TableFits(g: Blocks, idom: seq<nat>)
    requires ImmediateDominators(g, idom)
    ensures |idom| == |g|
  {
  }

  /** A body of two returns: the first return's block dominates the last one, which no path reaches, and the answer is no. */
  lemma CodeBehindReturn(n: Node, bytes: string, body: Node, first: ByteSpan, second: ByteSpan)
    requires !HasError(n) && FunctionBody(n) == Some(body)
    requires Shape(body, bytes).Block? && Shape(body, bytes).stmts == [Return(first), Return(second)]
    ensures var g := BuiltBlocks(n, bytes);
            |g| == 3 && !Reaches(g, 0, 2) && Dominates(g, 1, 2) && !DominanceAnswer(g, 1, 2)
  {
    hide HasError, FunctionBody, Shape;
    var s := Shape(body, bytes);
    var g := BuiltBlocks(n, bytes);
    var g0 := MarkDiscard([Fresh(n.Span())], 0, s.discard);
    var g1 := Walk(Return(first), g0, 0).0;
    var g2 := Walk(Return(second), g1, 1).0;
    WalkListIs(s, [Fresh(n.Span())], 0);
    WalkFromIs(s, s.stmts, 0, g0, 0);
    WalkFromIs(s, s.stmts, 1, g1, 1);
    WalkFromIs(s, s.stmts, 2, g2, 2);
    assert g == MarkExit(g2, 2);
    NoWayIn(g, 0, 2);
    AnswerIsDominance(g, 1, 2);
  }

  method BarrierBetween(storage: CfgStorage, a: nat, b: nat) returns (r: bool)
    requires storage.Valid()
    ensures r <==> SameFunction(storage.Sizes(), a, b) && LocalOf(storage, a) != LocalOf(storage, b)
                   && BarrierOnEveryPath(BlocksOf(storage, a), LocalOf(storage, a), LocalOf(storage, b))
  {
    hide Owners, Locals;
    var aFn, aLocal := storage.Resolve(a);
    var bFn, bLocal := storage.Resolve(b);
    if aFn == 0 || bFn == 0 || aFn != bFn {
      return false;
    }
    r := BarrierSeparates(storage.functions[aFn], aLocal, bLocal);
  }
}
