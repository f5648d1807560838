/** Storage of all control-flow graphs of one source, and the numbering of their blocks. */
module CfgStorage {
  import opened Graph

  /** One function of the source: its blocks and, once computed, its dominator-tree parents. */
  class CfgFunction {
    var name: string
    var declarationSpan: ByteSpan
    var blocks: Blocks
    var idom: seq<nat>
    var errorSkipped: bool

    constructor ()
      ensures blocks == [] && idom == [] && !errorSkipped && declarationSpan == ByteSpan(0, 0) && name == ""
    {
      name := "";
      declarationSpan := ByteSpan(0, 0);
      blocks := [];
      idom := [];
      errorSkipped := false;
    }
  }

  // ------------------------------------------------------------------ numbering

  /** The functions that blocks belong to, when function `f` has `sizes[f]` blocks. */
  function Owners(sizes: seq<nat>): seq<nat> {
    if sizes == [] then []
    else Owners(sizes[..|sizes| - 1]) + seq(sizes[|sizes| - 1], i => |sizes| - 1)
  }

  /** The positions of blocks within their functions. */
  function Locals(sizes: seq<nat>): seq<nat> {
    if sizes == [] then []
    else Locals(sizes[..|sizes| - 1]) + seq(sizes[|sizes| - 1], i => i)
  }

  /** The number of blocks of the first functions. */
  function Total(sizes: seq<nat>): nat {
    if sizes == [] then 0 else Total(sizes[..|sizes| - 1]) + sizes[|sizes| - 1]
  }

  lemma {:induction false} TableLengths(sizes: seq<nat>)
    ensures |Owners(sizes)| == |Locals(sizes)| == Total(sizes)
  {
    if sizes == [] {
    } else {
      TableLengths(sizes[..|sizes| - 1]);
    }
  }

  /** Function `f` occupies the ids from the total before it on, in the order of its blocks. */
  lemma {:induction false} EntryOf(sizes: seq<nat>, f: nat, l: nat)
    requires f < |sizes| && l < sizes[f]
    ensures var k := Total(sizes[..f]) + l;
            k < |Owners(sizes)| == |Locals(sizes)| && Owners(sizes)[k] == f && Locals(sizes)[k] == l
  {
    var n := |sizes| - 1;
    TableLengths(sizes);
    TableLengths(sizes[..n]);
    if f >= n {
    } else {
      EntryOf(sizes[..n], f, l);
      assert sizes[..n][..f] == sizes[..f];
    }
  }

  /** And no other ids: an id belongs to the block at its place. */
  lemma {:induction false} OwnerOf(sizes: seq<nat>, k: nat)
    requires k < |Owners(sizes)|
    ensures |Locals(sizes)| == |Owners(sizes)|
    ensures Owners(sizes)[k] < |sizes| && Locals(sizes)[k] < sizes[Owners(sizes)[k]]
    ensures k == Total(sizes[..Owners(sizes)[k]]) + Locals(sizes)[k]
  {
    var n := |sizes| - 1;
    TableLengths(sizes);
    TableLengths(sizes[..n]);
    if k >= Total(sizes[..n]) {
    } else {
      OwnerOf(sizes[..n], k);
      assert sizes[..n][..Owners(sizes)[k]] == sizes[..Owners(sizes)[k]];
    }
  }

  /** The function and position of the block with a given id; `(0, 0)` if there is none. */
  ghost function BlockOf(sizes: seq<nat>, raw: nat): (nat, nat) {
    TableLengths(sizes);
    if raw == 0 || raw > |Owners(sizes)| then (0, 0) else (Owners(sizes)[raw - 1], Locals(sizes)[raw - 1])
  }

  /** Every id up to the total stands for a block, and no other does. */
  lemma IdsAreDense(sizes: seq<nat>, raw: nat)
    requires sizes != [] && sizes[0] == 0
    ensures var (f, l) := BlockOf(sizes, raw);
            if 0 < raw <= Total(sizes) then 0 < f < |sizes| && l < sizes[f] && raw == Total(sizes[..f]) + l + 1
            else f == 0
  {
    hide Owners, Locals, Total;
    TableLengths(sizes);
    if 0 < raw <= Total(sizes) {
      OwnerOf(sizes, raw - 1);
    }
  }

  /** Every block has an id, which stands for it. */
  lemma BlocksHaveIds(sizes: seq<nat>, f: nat, l: nat)
    requires f < |sizes| && l < sizes[f]
    ensures BlockOf(sizes, Total(sizes[..f]) + l + 1) == (f, l)
  {
    EntryOf(sizes, f, l);
  }

  /** One more block in the last function takes the next id. */
  lemma LastGrows(sizes: seq<nat>, sizes': seq<nat>)
    requires sizes != [] && sizes' == sizes[|sizes| - 1 := sizes[|sizes| - 1] + 1]
    ensures Owners(sizes') == Owners(sizes) + [|sizes| - 1]
    ensures Locals(sizes') == Locals(sizes) + [sizes[|sizes| - 1]]
  {
    assert sizes'[..|sizes| - 1] == sizes[..|sizes| - 1];
  }

  lemma NewFunctionKeepsIds(sizes: seq<nat>, sizes': seq<nat>)
    requires sizes' == sizes + [0]
    ensures Owners(sizes') == Owners(sizes) && Locals(sizes') == Locals(sizes)
  {
  }

  // -------------------------------------------------------------------- storage

  class CfgStorage {
    var functions: seq<CfgFunction>
    var blockToFunction: seq<nat>
    var blockToLocal: seq<nat>
    var spanToBlock: seq<(ByteSpan, nat)>

    ghost function Sizes(): (s: seq<nat>)
      reads this`functions, functions`blocks
      ensures |s| == |functions| && forall i :: 0 <= i < |s| ==> s[i] == |functions[i].blocks|
    {
      SizesOf(functions)
    }

    /** Ids are dense: the tables list the blocks function by function, the span table id by id. Function 0 has none. */
    ghost predicate Valid()
      reads this`functions, this`blockToFunction, this`blockToLocal, this`spanToBlock, functions`blocks
    {
      && functions != [] && functions[0].blocks == []
      && (forall i, j :: 0 <= i < j < |functions| ==> functions[i] != functions[j])
      && blockToFunction == Owners(Sizes())
      && blockToLocal == Locals(Sizes())
      && |spanToBlock| == |blockToFunction|
      && (forall k :: 0 <= k < |spanToBlock| ==> spanToBlock[k].1 == k + 1)
    }

    /** The storage of an empty source: only the sentinel function. */
    constructor ()
      ensures Valid() && |functions| == 1 && fresh(functions[0])
    {
      var sentinel := new CfgFunction();
      functions := [sentinel];
      blockToFunction := [];
      blockToLocal := [];
      spanToBlock := [];
      new;
      assert Sizes() == [0];
      assert Owners([0]) == [] && Locals([0]) == [] by {
        assert [0][..0] == [];
      }
    }

    method AllocateBlockId(functionId: nat, localIndex: nat) returns (raw: nat)
      modifies this`blockToFunction, this`blockToLocal
      ensures raw == old(|blockToFunction|) + 1
      ensures blockToFunction == old(blockToFunction) + [functionId]
      ensures blockToLocal == old(blockToLocal) + [localIndex]
    {
      raw := |blockToFunction| + 1;
      blockToFunction := blockToFunction + [functionId];
      blockToLocal := blockToLocal + [localIndex];
    }

    /** A new function without blocks yet. */
    method AddFunction(fn: CfgFunction)
      requires Valid() && fn.blocks == [] && fn !in functions
      modifies this`functions
      ensures Valid() && functions == old(functions) + [fn]
    {
      hide Owners, Locals;
      ghost var sizes := Sizes();
      functions := functions + [fn];
      assert Sizes() == sizes + [0];
      NewFunctionKeepsIds(sizes, Sizes());
    }

    /** Adds a block to the newest function, with the next id. */
    method AppendBlock(fn: CfgFunction, block: BasicBlock) returns (local: nat)
      requires Valid() && |functions| > 1 && functions[|functions| - 1] == fn
      modifies this`blockToFunction, this`blockToLocal, this`spanToBlock, fn`blocks
      ensures Valid()
      ensures local == old(|fn.blocks|) && fn.blocks == old(fn.blocks) + [block]
      ensures spanToBlock == old(spanToBlock) + [(block.span, old(|blockToFunction|) + 1)]
    {
      hide Owners, Locals;
      ghost var sizes := Sizes();
      local := |fn.blocks|;
      fn.blocks := fn.blocks + [block];
      ghost var sizes' := Sizes();
      assert sizes' == sizes[|sizes| - 1 := sizes[|sizes| - 1] + 1];
      LastGrows(sizes, sizes');
      var raw := AllocateBlockId(|functions| - 1, local);
      spanToBlock := spanToBlock + [(block.span, raw)];
      assert Sizes() == sizes';
    }

    /** The id of a block by linear search: the total before its function, plus its position, plus one. */
    method GlobalId(functionId: nat, localIndex: nat) returns (raw: nat)
      requires Valid()
      ensures raw == if functionId < |functions| && localIndex < |functions[functionId].blocks|
                     then Total(Sizes()[..functionId]) + localIndex + 1 else 0
    {
      ghost var sizes := Sizes();
      TableLengths(sizes);
      var i := 0;
      while i < |blockToFunction|
        invariant 0 <= i <= |blockToFunction|
        invariant forall k :: 0 <= k < i ==> !(blockToFunction[k] == functionId && blockToLocal[k] == localIndex)
      {
        if blockToFunction[i] == functionId && blockToLocal[i] == localIndex {
          OwnerOf(sizes, i);
          return i + 1;
        }
        i := i + 1;
      }
      if functionId < |functions| && localIndex < |functions[functionId].blocks| {
        EntryOf(sizes, functionId, localIndex);
      }
      return 0;
    }

    /** The block an id stands for; function 0 for ids that stand for none. */
    method Resolve(raw: nat) returns (functionId: nat, localIndex: nat)
      requires Valid()
      ensures (functionId, localIndex) == BlockOf(Sizes(), raw)
      ensures functionId != 0 ==> functionId < |functions| && localIndex < |functions[functionId].blocks|
    {
      ghost var sizes := Sizes();
      TableLengths(sizes);
      if raw == 0 || raw > |blockToFunction| {
        return 0, 0;
      }
      OwnerOf(sizes, raw - 1);
      return blockToFunction[raw - 1], blockToLocal[raw - 1];
    }
  }

  ghost function SizesOf(fns: seq<CfgFunction>): (s: seq<nat>)
    reads fns`blocks
    ensures |s| == |fns| && forall i :: 0 <= i < |s| ==> s[i] == |fns[i].blocks|
  {
    if fns == [] then [] else SizesOf(fns[..|fns| - 1]) + [|fns[|fns| - 1].blocks|]
  }
}
