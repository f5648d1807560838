/**
 Syntax trees as the parser hands them out: every node has a kind, a byte range, the field it
 fills in its parent, and children; only named nodes stand for grammar symbols.
 */
module Syntax {
  import opened Options
  import opened Graph

  datatype Kind =
    | ReturnStatement | IfStatement | ForStatement | WhileStatement | DoStatement
    | SwitchStatement | CaseStatement | DefaultStatement | CompoundStatement
    | FunctionDefinition | FunctionDeclarator | ParameterDeclaration | Parameter
    | CallExpression | BinaryExpression | FieldExpression | ParenthesizedExpression
    | NumberLiteral | StringLiteral | TrueLiteral | FalseLiteral | Identifier
    | OtherKind(name: string)

  datatype Field =
    | NoField | Consequence | Alternative | Body | Function | Arguments | Condition
    | Declarator | Operator | Left | Right | FieldName | Argument

  datatype Node = Node(
    kind: Kind,
    named: bool,
    isError: bool,
    field: Field,
    lo: nat,
    hi: nat,
    children: seq<Node>)
  {
    function Span(): ByteSpan {
      ByteSpan(lo, hi)
    }
  }

  /** The text a node covers; empty for ranges that do not fit the buffer. */
  function Text(n: Node, bytes: string): string {
    if n.hi > |bytes| || n.hi < n.lo then "" else bytes[n.lo..n.hi]
  }

  predicate OccursAt(text: string, word: string, i: nat) {
    i + |word| <= |text| && text[i..i + |word|] == word
  }

  predicate Mentions(text: string, word: string) {
    exists i: nat :: i <= |text| && OccursAt(text, word, i)
  }

  /** The first child that fills field `f`. */
  function ChildByField(n: Node, f: Field): (r: Option<Node>)
    ensures r.Some? ==> r.value in n.children && r.value.field == f
    ensures r.None? ==> forall c :: c in n.children ==> c.field != f
  {
    FirstWithField(n.children, f)
  }

  function FirstWithField(nodes: seq<Node>, f: Field): (r: Option<Node>)
    ensures r.Some? ==> r.value in nodes && r.value.field == f
    ensures r.None? ==> forall c :: c in nodes ==> c.field != f
  {
    if nodes == [] then None
    else if nodes[0].field == f then Some(nodes[0])
    else FirstWithField(nodes[1..], f)
  }

  predicate HasField(n: Node, f: Field) {
    exists c :: c in n.children && c.field == f
  }

  /** `c` is the child that fills field `f`, the first one if there are several. */
  ghost predicate Fills(n: Node, f: Field, c: Node) {
    exists i :: FirstAt(n, f, i) && n.children[i] == c
  }

  predicate FirstAt(n: Node, f: Field, i: int) {
    0 <= i < |n.children| && n.children[i].field == f && forall j :: 0 <= j < i ==> n.children[j].field != f
  }

  lemma {:induction false} FirstWithFieldIs(nodes: seq<Node>, f: Field, i: nat)
    requires i < |nodes| && nodes[i].field == f && forall j :: 0 <= j < i ==> nodes[j].field != f
    ensures FirstWithField(nodes, f) == Some(nodes[i])
  {
    if i == 0 {
    } else {
      FirstWithFieldIs(nodes[1..], f, i - 1);
    }
  }

  lemma {:induction false} FirstPlace(nodes: seq<Node>, f: Field) returns (i: nat)
    requires exists c :: c in nodes && c.field == f
    ensures i < |nodes| && nodes[i].field == f && forall j :: 0 <= j < i ==> nodes[j].field != f
  {
    i := 0;
    if nodes[0].field != f {
      var j := FirstPlace(nodes[1..], f);
      i := j + 1;
    }
  }

  lemma FieldIs(n: Node, f: Field)
    ensures HasField(n, f) <==> ChildByField(n, f).Some?
    ensures forall c :: Fills(n, f, c) <==> ChildByField(n, f) == Some(c)
  {
    if HasField(n, f) {
      var i := FirstPlace(n.children, f);
      FirstWithFieldIs(n.children, f, i);
      assert FirstAt(n, f, i);
    }
    forall c | Fills(n, f, c)
      ensures ChildByField(n, f) == Some(c)
    {
      var i :| FirstAt(n, f, i) && n.children[i] == c;
      FirstWithFieldIs(n.children, f, i);
    }
  }

  /** The named nodes of a list, in order. */
  function Named(nodes: seq<Node>): (r: seq<Node>)
    ensures forall c :: c in r <==> c in nodes && c.named
  {
    if nodes == [] then []
    else if nodes[0].named then [nodes[0]] + Named(nodes[1..])
    else Named(nodes[1..])
  }

  /** `m` is `n` or stands below it. */
  predicate Within(n: Node, m: Node) {
    m == n || exists k :: 0 <= k < |n.children| && Within(n.children[k], m)
  }

  /** Is `n`, or any node below it, an error node? */
  predicate HasError(n: Node) {
    n.isError || exists k :: 0 <= k < |n.children| && HasError(n.children[k])
  }

  lemma {:induction false} NamedNext(nodes: seq<Node>, i: nat)
    requires i < |nodes|
    ensures Named(nodes[..i + 1]) == Named(nodes[..i]) + if nodes[i].named then [nodes[i]] else []
  {
    if i == 0 {
    } else {
      NamedNext(nodes[1..], i - 1);
      assert nodes[..i + 1][1..] == nodes[1..][..i] && nodes[..i][1..] == nodes[1..][..i - 1];
    }
  }
}
