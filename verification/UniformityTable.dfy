/** What the uniformity tables hold once the walks are over. */
module UniformityTable {
  import opened Syntax
  import opened Graph
  import opened Uniformity

  // --------------------------------------------------------------------- last writes

  /** All writes to one span write the same. */
  ghost predicate Consistent(entries: seq<Entry>) {
    forall i, j :: 0 <= i < |entries| && 0 <= j < |entries| && entries[i].span == entries[j].span ==>
      entries[i].value == entries[j].value
  }

  /** Every write can be read back. */
  ghost predicate ReadsBack(table: Table, entries: seq<Entry>) {
    forall i :: 0 <= i < |entries| ==> entries[i].span in table && table[entries[i].span] == entries[i].value
  }

  /** `i` is the last write to the span. */
  ghost predicate LastWrite(entries: seq<Entry>, span: ByteSpan, i: nat) {
    && i < |entries| && entries[i].span == span
    && forall j :: i < j < |entries| ==> entries[j].span != span
  }

  lemma {:induction false} LastWriteStands(table: Table, entries: seq<Entry>, span: ByteSpan) returns (i: nat)
    requires span in Written(table, entries)
    ensures LastWrite(entries, span, i) || (span in table && forall j :: 0 <= j < |entries| ==> entries[j].span != span)
    ensures Written(table, entries)[span] == if LastWrite(entries, span, i) then entries[i].value else table[span]
  {
    i := 0;
    if entries == [] {
    } else {
      var n := |entries| - 1;
      if entries[n].span == span {
        i := n;
      } else {
        i := LastWriteStands(table, entries[..n], span);
      }
    }
  }

  lemma {:induction false} WrittenKeys(table: Table, entries: seq<Entry>, span: ByteSpan)
    ensures span in Written(table, entries) <==> span in table || exists i :: 0 <= i < |entries| && entries[i].span == span
  {
    if entries == [] {
    } else {
      var n := |entries| - 1;
      WrittenKeys(table, entries[..n], span);
      if i :| 0 <= i < |entries| && entries[i].span == span {
        assert i < n ==> entries[..n][i].span == span;
      }
    }
  }

  lemma ReadsBackIffConsistent(table: Table, entries: seq<Entry>)
    ensures ReadsBack(Written(table, entries), entries) <==> Consistent(entries)
  {
    var t := Written(table, entries);
    forall i | 0 <= i < |entries|
      ensures entries[i].span in t
    {
      WrittenKeys(table, entries, entries[i].span);
    }
    if Consistent(entries) {
      forall i | 0 <= i < |entries|
        ensures t[entries[i].span] == entries[i].value
      {
        var last := LastWriteStands(table, entries, entries[i].span);
      }
    }
  }

  // ------------------------------------------------------------------ nodes of the tree

  lemma {:induction false} VisitAllHas(stack: seq<Node>, m: Node)
    ensures m in VisitAll(stack) <==> exists c :: c in stack && m in Visit(c)
  {
    hide Visit;
    if stack == [] {
    } else {
      var n := |stack| - 1;
      VisitAllHas(stack[..n], m);
      assert stack == stack[..n] + [stack[n]];
      assert stack[n] in stack;
    }
  }

  lemma VisitHas(n: Node, m: Node)
    ensures m in Visit(n) <==> m == n || exists c :: c in n.children && m in Visit(c)
  {
    VisitAllHas(n.children, m);
  }

  lemma {:induction false} VisitIsTransitive(n: Node, c: Node, m: Node)
    requires c in Visit(n) && m in Visit(c)
    ensures m in Visit(n)
    decreases n
  {
    VisitHas(n, c);
    VisitHas(n, m);
    if c == n {
    } else {
      var d :| d in n.children && c in Visit(d);
      VisitIsTransitive(d, c, m);
    }
  }

  lemma OperandsAreBelow(n: Node, c: Node)
    requires c in Operands(n)
    ensures c.named && c < n && c in Visit(n)
  {
    VisitHas(n, c);
    VisitHas(c, c);
    if n.kind.CallExpression? {
      var args := ChildByField(n, Arguments).value;
      VisitHas(args, c);
      VisitHas(args, args);
    }
  }

  /** A classification writes the node itself, and otherwise only named nodes below it. */
  lemma {:induction false} WritesAreBelow(bytes: string, n: Node, m: Node)
    requires n.named && m in Writes(bytes, n)
    ensures m.named && m in Visit(n)
    decreases n, 1
  {
    VisitHas(n, n);
    if !Atomic(bytes, n) && m != n {
      WritesOfBelow(bytes, n, Operands(n), m);
    }
  }

  lemma {:induction false} WritesOfBelow(bytes: string, n: Node, operands: seq<Node>, m: Node)
    requires forall i :: 0 <= i < |operands| ==> operands[i] < n && operands[i] in Operands(n)
    requires m in WritesOf(bytes, n, operands)
    ensures m.named && m in Visit(n)
    decreases n, 0, |operands|
  {
    var k := |operands| - 1;
    if m in WritesOf(bytes, n, operands[..k]) {
      WritesOfBelow(bytes, n, operands[..k], m);
    } else {
      OperandsAreBelow(n, operands[k]);
      WritesAreBelow(bytes, operands[k], m);
      VisitIsTransitive(n, operands[k], m);
    }
  }

  lemma {:induction false} WalkWritesAre(bytes: string, visited: seq<Node>, m: Node)
    ensures m in WalkWrites(bytes, visited) <==> exists n :: n in visited && m in WritesFor(bytes, n)
  {
    hide WritesFor;
    if visited == [] {
    } else {
      var k := |visited| - 1;
      WalkWritesAre(bytes, visited[..k], m);
      assert visited == visited[..k] + [visited[k]];
      assert visited[k] in visited;
    }
  }

  lemma {:induction false} ConditionWritesAre(bytes: string, visited: seq<Node>, m: Node)
    requires m in ConditionWrites(bytes, visited)
    ensures exists n :: n in visited && m in BranchWrites(bytes, n)
  {
    hide BranchWrites;
    var k := |visited| - 1;
    if m in ConditionWrites(bytes, visited[..k]) {
      ConditionWritesAre(bytes, visited[..k], m);
    } else {
      assert visited[k] in visited;
    }
  }

  /** What is written, in both walks, is exactly the named nodes of the tree. */
  lemma AllWritesAre(bytes: string, root: Node, m: Node)
    ensures m in AllWrites(bytes, root) <==> m in Visit(root) && m.named
  {
    WalkWritesAre(bytes, Visit(root), m);
    if m in WalkWrites(bytes, Visit(root)) {
      var n :| n in Visit(root) && m in WritesFor(bytes, n);
      WritesAreBelow(bytes, n, m);
      VisitIsTransitive(root, n, m);
    } else if m in ConditionWrites(bytes, Visit(root)) {
      ConditionWritesAre(bytes, Visit(root), m);
      var n :| n in Visit(root) && m in BranchWrites(bytes, n);
      var cond := ConditionOf(n).value;
      WritesAreBelow(bytes, cond, m);
      VisitHas(n, cond);
      VisitHas(cond, cond);
      VisitIsTransitive(n, cond, m);
      VisitIsTransitive(root, n, m);
    }
  }

  // ----------------------------------------------------------------- the expression table

  /** Named nodes with the same span have the same class. */
  ghost predicate SpansAgree(seeds: Seeds, root: Node) {
    forall n, m :: n in Visit(root) && m in Visit(root) && n.named && m.named && n.Span() == m.Span() ==>
      Class(seeds, n) == Class(seeds, m)
  }

  /** The table tells the class of every named node. */
  ghost predicate TellsClasses(seeds: Seeds, table: Table, root: Node) {
    forall n :: n in Visit(root) && n.named ==> n.Span() in table && table[n.Span()] == Class(seeds, n)
  }

  /**
   However often nodes are classified again, the finished table tells the class of every named node,
   as long as named nodes with one span have one class; otherwise it cannot.
   */
  lemma TableTellsClasses(seeds: Seeds, root: Node)
    ensures TellsClasses(seeds, ExpressionTable(seeds, root), root) <==> SpansAgree(seeds, root)
  {
    hide Class, AllWrites;
    var nodes := AllWrites(seeds.bytes, root);
    var entries := Entries(seeds, nodes);
    var table := ExpressionTable(seeds, root);
    ReadsBackIffConsistent(map[], entries);
    forall m
      ensures m in nodes <==> m in Visit(root) && m.named
    {
      AllWritesAre(seeds.bytes, root, m);
    }
    ReadsBackNodes(seeds, nodes, table);
    ConsistentNodes(seeds, nodes);
    hide Written, Entries, Visit;
  }

  lemma ReadsBackNodes(seeds: Seeds, nodes: seq<Node>, table: Table)
    ensures ReadsBack(table, Entries(seeds, nodes)) <==>
            forall n :: n in nodes ==> n.Span() in table && table[n.Span()] == Class(seeds, n)
  {
    hide Class;
    var entries := Entries(seeds, nodes);
    if ReadsBack(table, entries) {
      forall n | n in nodes
        ensures n.Span() in table && table[n.Span()] == Class(seeds, n)
      {
        var i :| 0 <= i < |nodes| && nodes[i] == n;
        assert entries[i] == Entry(n.Span(), Class(seeds, n));
      }
    }
  }

  lemma ConsistentNodes(seeds: Seeds, nodes: seq<Node>)
    ensures Consistent(Entries(seeds, nodes)) <==>
            forall n, m :: n in nodes && m in nodes && n.Span() == m.Span() ==> Class(seeds, n) == Class(seeds, m)
  {
    hide Class;
    var entries := Entries(seeds, nodes);
    if Consistent(entries) {
      forall n, m | n in nodes && m in nodes && n.Span() == m.Span()
        ensures Class(seeds, n) == Class(seeds, m)
      {
        var i :| 0 <= i < |nodes| && nodes[i] == n;
        var j :| 0 <= j < |nodes| && nodes[j] == m;
        assert entries[i] == Entry(n.Span(), Class(seeds, n)) && entries[j] == Entry(m.Span(), Class(seeds, m));
      }
    }
  }

  /** Naming more identifiers divergent only raises the entries of the table, and adds none. */
  lemma TableIsMonotone(a: Seeds, b: Seeds, root: Node, span: ByteSpan)
    requires a.bytes == b.bytes && a.idents <= b.idents && a.resources <= b.resources
    ensures span in ExpressionTable(a, root) <==> span in ExpressionTable(b, root)
    ensures span in ExpressionTable(a, root) ==> Below(ExpressionTable(a, root)[span], ExpressionTable(b, root)[span])
  {
    var nodes := AllWrites(a.bytes, root);
    WrittenRise(a, b, nodes, span);
  }

  lemma {:induction false} WrittenRise(a: Seeds, b: Seeds, nodes: seq<Node>, span: ByteSpan)
    requires a.bytes == b.bytes && a.idents <= b.idents && a.resources <= b.resources
    ensures var s, t := Written(map[], Entries(a, nodes)), Written(map[], Entries(b, nodes));
            (span in s <==> span in t) && (span in s ==> Below(s[span], t[span]))
  {
    hide Class, Below;
    if nodes == [] {
    } else {
      var n := |nodes| - 1;
      WrittenRise(a, b, nodes[..n], span);
      ClassIsMonotone(a, b, nodes[n]);
      assert nodes == nodes[..n] + [nodes[n]];
      OneMoreEntry(a, nodes[..n], nodes[n], map[]);
      OneMoreEntry(b, nodes[..n], nodes[n], map[]);
    }
  }

  // ------------------------------------------------------------------- the branch table

  ghost predicate BranchesAgree(seeds: Seeds, root: Node) {
    forall n, m :: n in Visit(root) && m in Visit(root) && IsBranch(n) && IsBranch(m) && n.Span() == m.Span() ==>
      BranchClass(seeds, n) == BranchClass(seeds, m)
  }

  ghost predicate TellsBranches(seeds: Seeds, table: Table, root: Node) {
    forall n :: n in Visit(root) && IsBranch(n) ==> n.Span() in table && table[n.Span()] == BranchClass(seeds, n)
  }

  lemma {:induction false} BranchEntriesAre(seeds: Seeds, visited: seq<Node>, e: Entry)
    ensures e in BranchEntries(seeds, visited) <==>
            exists n :: n in visited && IsBranch(n) && e == Entry(n.Span(), BranchClass(seeds, n))
  {
    hide BranchClass, IsBranch;
    if visited == [] {
    } else {
      var k := |visited| - 1;
      BranchEntriesAre(seeds, visited[..k], e);
      assert visited == visited[..k] + [visited[k]];
      assert visited[k] in visited;
    }
  }

  /** The branch table tells the class of every branch's condition exactly when branches with one span agree. */
  lemma TableTellsBranches(seeds: Seeds, root: Node)
    ensures TellsBranches(seeds, BranchTable(seeds, root), root) <==> BranchesAgree(seeds, root)
  {
    hide BranchClass, IsBranch, Written, Visit, BranchEntries;
    var entries := BranchEntries(seeds, Visit(root));
    var table := BranchTable(seeds, root);
    ReadsBackIffConsistent(map[], entries);
    forall e
      ensures e in entries <==> exists n :: n in Visit(root) && IsBranch(n) && e == Entry(n.Span(), BranchClass(seeds, n))
    {
      BranchEntriesAre(seeds, Visit(root), e);
    }
    if TellsBranches(seeds, table, root) {
      forall i | 0 <= i < |entries|
        ensures entries[i].span in table && table[entries[i].span] == entries[i].value
      {
        assert entries[i] in entries;
      }
      forall n, m | n in Visit(root) && m in Visit(root) && IsBranch(n) && IsBranch(m) && n.Span() == m.Span()
        ensures BranchClass(seeds, n) == BranchClass(seeds, m)
      {
      }
    }
    if BranchesAgree(seeds, root) {
      forall i, j | 0 <= i < |entries| && 0 <= j < |entries| && entries[i].span == entries[j].span
        ensures entries[i].value == entries[j].value
      {
        assert entries[i] in entries && entries[j] in entries;
      }
      forall n | n in Visit(root) && IsBranch(n)
        ensures n.Span() in table && table[n.Span()] == BranchClass(seeds, n)
      {
        var e := Entry(n.Span(), BranchClass(seeds, n));
        assert e in entries;
        var i :| 0 <= i < |entries| && entries[i] == e;
      }
    }
  }

  // ------------------------------------------------- when named nodes with one span agree

  /** Tokens, calls and branches hold some character that no single child covers. */
  predicate HoldsToken(n: Node) {
    Literal(n) || n.kind.Identifier? || n.kind.CallExpression? || IsBranch(n)
  }

  /**
   Children lie inside their parent, side by side; named nodes cover some text; unnamed nodes are
   single tokens; and the span of a literal, identifier, call or branch is wider than each child's.
   */
  predicate WellSpanned(n: Node) {
    && n.lo <= n.hi
    && (n.named ==> n.lo < n.hi)
    && (!n.named ==> n.children == [] && !IsBranch(n))
    && (forall k :: 0 <= k < |n.children| ==> n.lo <= n.children[k].lo && n.children[k].hi <= n.hi)
    && (forall j, k :: 0 <= j < k < |n.children| ==> n.children[j].hi <= n.children[k].lo)
    && (HoldsToken(n) ==> forall k :: 0 <= k < |n.children| ==> n.children[k].Span() != n.Span())
    && (forall k :: 0 <= k < |n.children| ==> WellSpanned(n.children[k]))
  }

  lemma {:induction false} SpansNest(n: Node, m: Node)
    requires WellSpanned(n) && m in Visit(n)
    ensures n.lo <= m.lo && m.hi <= n.hi && WellSpanned(m)
    decreases n
  {
    VisitHas(n, m);
    if m == n {
    } else {
      var c :| c in n.children && m in Visit(c);
      SpansNest(c, m);
    }
  }

  lemma NamedHoldText(n: Node, m: Node)
    requires WellSpanned(n) && m in Visit(n) && m.named
    ensures m.lo < m.hi
  {
    SpansNest(n, m);
  }

  /** A named node with the span of the node above it sits in a child that is its only named one. */
  lemma OnlyChild(n: Node, m: Node) returns (c: Node)
    requires WellSpanned(n) && m in Visit(n) && m != n && m.named && m.Span() == n.Span()
    ensures c < n && c.named && c.Span() == n.Span() && m in Visit(c) && WellSpanned(c)
    ensures !HoldsToken(n) && Named(n.children) == [c]
  {
    VisitHas(n, m);
    hide Visit;
    c :| c in n.children && m in Visit(c);
    var k :| 0 <= k < |n.children| && n.children[k] == c;
    SpansNest(c, m);
    VisitHas(c, m);
    assert c.Span() == n.Span();
    forall j | 0 <= j < |n.children| && j != k
      ensures !n.children[j].named
    {
      BesideIsUnnamed(n, k, j);
    }
    OneNamed(n.children, k);
  }

  /** Beside a child as wide as its parent there is no room for a named one. */
  lemma BesideIsUnnamed(n: Node, k: nat, j: nat)
    requires WellSpanned(n) && k < |n.children| && j < |n.children| && j != k
    requires n.children[k].Span() == n.Span()
    ensures !n.children[j].named
  {
  }

  lemma {:induction false} OneNamed(nodes: seq<Node>, k: nat)
    requires k < |nodes| && nodes[k].named
    requires forall j :: 0 <= j < |nodes| && j != k ==> !nodes[j].named
    ensures Named(nodes) == [nodes[k]]
  {
    if k > 0 {
      OneNamed(nodes[1..], k - 1);
    } else {
      assert Named(nodes[1..]) == [] by {
        assert forall c :: c in nodes[1..] ==> !c.named;
        if Named(nodes[1..]) != [] {
          assert Named(nodes[1..])[0] in Named(nodes[1..]);
        }
      }
    }
  }

  lemma {:induction false} SameSpanBelow(seeds: Seeds, n: Node, m: Node)
    requires WellSpanned(n) && m in Visit(n) && n.named && m.named && m.Span() == n.Span()
    ensures Class(seeds, n) == Class(seeds, m)
    decreases n
  {
    if m == n {
    } else {
      var c := OnlyChild(n, m);
      SameSpanBelow(seeds, c, m);
      assert Operands(n) == [c] && [c][..0] == [];
      assert !Atomic(seeds.bytes, n);
      assert Class(seeds, n) == JoinOf(seeds, n, [c]) == Join(JoinOf(seeds, n, []), Class(seeds, c));
    }
  }

  /** Named nodes in different children have different spans. */
  lemma BesideDiffers(n: Node, j: nat, k: nat, a: Node, b: Node)
    requires WellSpanned(n) && j < |n.children| && k < |n.children| && j != k
    requires a in Visit(n.children[j]) && b in Visit(n.children[k]) && a.named && b.named
    ensures a.Span() != b.Span()
  {
    hide Visit;
    SpansNest(n.children[j], a);
    SpansNest(n.children[k], b);
    NamedHoldText(n.children[j], a);
    NamedHoldText(n.children[k], b);
  }

  lemma ChildWellSpanned(n: Node, k: nat)
    requires WellSpanned(n) && k < |n.children|
    ensures WellSpanned(n.children[k])
  {
  }

  /** Two named nodes with one span: one is above the other. */
  lemma {:induction false} SameSpanNested(n: Node, a: Node, b: Node)
    requires WellSpanned(n) && a in Visit(n) && b in Visit(n) && a.named && b.named && a.Span() == b.Span()
    ensures a in Visit(b) || b in Visit(a)
    decreases n
  {
    VisitHas(n, a);
    VisitHas(n, b);
    hide Visit, WellSpanned;
    if a == n || b == n {
    } else {
      var c :| c in n.children && a in Visit(c);
      var d :| d in n.children && b in Visit(d);
      var j :| 0 <= j < |n.children| && n.children[j] == c;
      var k :| 0 <= k < |n.children| && n.children[k] == d;
      if j == k {
        ChildWellSpanned(n, j);
        SameSpanNested(c, a, b);
      } else {
        BesideDiffers(n, j, k, a, b);
      }
    }
  }

  /** In a well-spanned tree named nodes with one span agree, so both tables are exact. */
  lemma WellSpannedTablesAreExact(seeds: Seeds, root: Node)
    requires WellSpanned(root)
    ensures TellsClasses(seeds, ExpressionTable(seeds, root), root)
    ensures TellsBranches(seeds, BranchTable(seeds, root), root)
  {
    hide Class, Visit, ExpressionTable, BranchTable, TellsClasses, TellsBranches, BranchClass, IsBranch, HoldsToken, WellSpanned;
    forall n, m | n in Visit(root) && m in Visit(root) && n.named && m.named && n.Span() == m.Span()
      ensures Class(seeds, n) == Class(seeds, m)
    {
      SameSpanNested(root, n, m);
      SpansNest(root, n);
      SpansNest(root, m);
      if m in Visit(n) {
        SameSpanBelow(seeds, n, m);
      } else {
        SameSpanBelow(seeds, m, n);
      }
    }
    TableTellsClasses(seeds, root);
    forall n, m | n in Visit(root) && m in Visit(root) && IsBranch(n) && IsBranch(m) && n.Span() == m.Span()
      ensures n == m
    {
      SameSpanBranch(root, n, m);
    }
    TableTellsBranches(seeds, root);
  }

  lemma SameSpanBranch(root: Node, n: Node, m: Node)
    requires WellSpanned(root) && n in Visit(root) && m in Visit(root)
    requires IsBranch(n) && IsBranch(m) && n.Span() == m.Span()
    ensures n == m
  {
    SpansNest(root, n);
    SpansNest(root, m);
    SameSpanNested(root, n, m);
    if n != m {
      if m in Visit(n) {
        var c := OnlyChild(n, m);
      } else {
        var c := OnlyChild(m, n);
      }
    }
  }

  /** A node without text, as the parser inserts for a missing token, breaks it: its parent and its sibling share a span. */
  lemma MissingTokenBreaksTable()
    ensures var sibling := Node(OtherKind("type_identifier"), true, false, NoField, 0, 1, []);
            var missing := Node(Identifier, true, false, NoField, 1, 1, []);
            var root := Node(OtherKind("declaration"), true, false, NoField, 0, 1, [sibling, missing]);
            var seeds := Seeds("T", {}, {});
            !TellsClasses(seeds, ExpressionTable(seeds, root), root)
  {
    var sibling := Node(OtherKind("type_identifier"), true, false, NoField, 0, 1, []);
    var missing := Node(Identifier, true, false, NoField, 1, 1, []);
    var root := Node(OtherKind("declaration"), true, false, NoField, 0, 1, [sibling, missing]);
    var seeds := Seeds("T", {}, {});
    hide Visit, ExpressionTable, TellsClasses, Class, Named, Operands;
    VisitHas(root, root);
    VisitHas(root, sibling);
    VisitHas(sibling, sibling);
    MissingTokenClasses(seeds, root, sibling, missing);
    assert sibling.Span() == root.Span();
    TableTellsClasses(seeds, root);
  }

  lemma MissingTokenClasses(seeds: Seeds, root: Node, sibling: Node, missing: Node)
    requires root.kind.OtherKind? && root.children == [sibling, missing]
    requires sibling.kind.OtherKind? && sibling.named && sibling.children == []
    requires missing.kind.Identifier? && missing.named && missing.lo == missing.hi && seeds.idents == seeds.resources == {}
    ensures Class(seeds, sibling) == Unknown && Class(seeds, root) == Uniform
  {
    NamedPair(sibling, missing);
    assert Named([]) == [];
    var operands := [sibling, missing];
    assert Operands(root) == operands && operands[..1] == [sibling] && [sibling][..0] == [];
    assert Text(missing, seeds.bytes) == "";
    assert Class(seeds, missing) == Uniform && Class(seeds, sibling) == Unknown;
    hide Class;
    assert JoinOf(seeds, root, [sibling]) == Join(JoinOf(seeds, root, []), Class(seeds, sibling));
    assert JoinOf(seeds, root, operands) == Uniform;
    assert Class(seeds, root) == JoinOf(seeds, root, operands) by { ClassIsJoin(seeds, root); }
  }

  lemma NamedPair(a: Node, b: Node)
    requires a.named && b.named
    ensures Named([a, b]) == [a, b]
  {
    assert [a, b][1..] == [b] && [b][1..] == [];
    assert Named([b]) == [b];
  }

  lemma ClassIsJoin(seeds: Seeds, n: Node)
    requires !Atomic(seeds.bytes, n)
    ensures Class(seeds, n) == JoinOf(seeds, n, Operands(n))
  {
  }
}
