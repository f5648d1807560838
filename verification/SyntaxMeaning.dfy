/**
 What executions of a piece of syntax do, told by kinds, fields and named children alone, and
 what the blocks built for a function have to do with it.
 */
module SyntaxMeaning {
  import opened Options
  import opened Graph
  import opened Syntax
  import opened Statements
  import opened CfgShape
  import opened CfgMeaning
  import opened FunctionGraph

  // ------------------------------------------------------------- reading the syntax

  const BARRIER_CALLS: set<string> := {
    "GroupMemoryBarrier", "GroupMemoryBarrierWithGroupSync",
    "DeviceMemoryBarrier", "DeviceMemoryBarrierWithGroupSync",
    "AllMemoryBarrier", "AllMemoryBarrierWithGroupSync"
  }

  /** `m` is `n` or below it, with no function definition on the way down. */
  predicate Inside(n: Node, m: Node) {
    m == n || exists k :: 0 <= k < |n.children| && !n.children[k].kind.FunctionDefinition? && Inside(n.children[k], m)
  }

  ghost predicate CallsBarrier(n: Node, bytes: string) {
    n.kind.CallExpression? && exists c :: Fills(n, Function, c) && Text(c, bytes) in BARRIER_CALLS
  }

  ghost predicate HoldsBarrier(n: Node, bytes: string) {
    exists m :: Inside(n, m) && CallsBarrier(m, bytes)
  }

  /** The arm of an `if`: by field when any arm has one, by its place among the named children else. */
  ghost predicate Arm(n: Node, f: Field, place: nat, c: Node) {
    if HasField(n, Consequence) || HasField(n, Alternative) then Fills(n, f, c)
    else place < |Named(n.children)| && Named(n.children)[place] == c
  }

  /** The body of a loop: by field, else the last named child, and the first one for a do-while. */
  ghost predicate Repeated(n: Node, c: Node) {
    if HasField(n, Body) then Fills(n, Body, c)
    else
      var kids := Named(n.children);
      kids != [] && c == kids[if n.kind.DoStatement? then 0 else |kids| - 1]
  }

  /** The body of a function: by field, else the first compound statement below it. */
  ghost predicate BodyOf(n: Node, c: Node) {
    if HasField(n, Body) then Fills(n, Body, c)
    else exists i :: CompoundAt(n, i) && n.children[i] == c
  }

  predicate CompoundAt(n: Node, i: int) {
    0 <= i < |n.children| && n.children[i].kind.CompoundStatement?
    && forall j :: 0 <= j < i ==> !n.children[j].kind.CompoundStatement?
  }

  // --------------------------------------------------------------------- executions

  function Joined(parts: seq<seq<Step>>): seq<Step> {
    if parts == [] then [] else parts[0] + Joined(parts[1..])
  }

  /** Each round of a loop, with its test in front of it or behind it. */
  function Rounds(test: Step, first: bool, rounds: seq<seq<Step>>): seq<Step> {
    if rounds == [] then []
    else (if first then [test] + rounds[0] else rounds[0] + [test]) + Rounds(test, first, rounds[1..])
  }

  /** `t` is what one execution of `n` does; `r` tells whether it returned from the function. */
  ghost predicate Does(n: Node, bytes: string, t: seq<Step>, r: bool)
    decreases n, 2
  {
    var at := n.Span();
    if n.kind.ReturnStatement? then t == [Returned(at)] && r
    else if HoldsBarrier(n, bytes) then t == [Synced(at)] && !r
    else match n.kind
      case IfStatement =>
        && t != [] && t[0] == Tested(at)
        && (DoesArm(n, bytes, Consequence, 1, t[1..], r) || DoesArm(n, bytes, Alternative, 2, t[1..], r))
      case ForStatement => exists rounds, last :: DoesLoop(n, bytes, rounds, last, t, r)
      case WhileStatement => exists rounds, last :: DoesLoop(n, bytes, rounds, last, t, r)
      case DoStatement => exists rounds, last :: DoesRepeat(n, bytes, rounds, last, t, r)
      case SwitchStatement =>
        && t != [] && t[0] == Tested(at)
        && ((t == [Tested(at)] && !r && forall c :: c in n.children ==> !c.named)
            || exists c :: c in n.children && c.named && (c.kind.CaseStatement? || c.kind.DefaultStatement?)
                           && Does(c, bytes, t[1..], r))
      case CompoundStatement => exists parts :: DoesInTurn(n, bytes, Named(n.children), parts, t, r)
      case _ => t == [Ran(at)] && !r
  }

  /** An arm that is not there does nothing. */
  ghost predicate DoesArm(n: Node, bytes: string, f: Field, place: nat, t: seq<Step>, r: bool)
    decreases n, 0
  {
    || (exists c :: c in n.children && Arm(n, f, place, c) && Does(c, bytes, t, r))
    || ((forall c :: !Arm(n, f, place, c)) && t == [] && !r)
  }

  ghost predicate DoesBody(n: Node, bytes: string, t: seq<Step>, r: bool)
    decreases n, 0
  {
    || (exists c :: c in n.children && Repeated(n, c) && Does(c, bytes, t, r))
    || ((forall c :: !Repeated(n, c)) && t == [] && !r)
  }

  /** Test and body as often as there are rounds; at last a test that fails, or one before a body that returns. */
  ghost predicate DoesLoop(n: Node, bytes: string, rounds: seq<seq<Step>>, last: seq<Step>, t: seq<Step>, r: bool)
    decreases n, 1
  {
    var test := Tested(n.Span());
    && (forall i :: 0 <= i < |rounds| ==> DoesBody(n, bytes, rounds[i], false))
    && (if r then DoesBody(n, bytes, last, true) else last == [])
    && t == Rounds(test, true, rounds) + ([test] + last)
  }

  /** Body and test as often as there are rounds, at least once; or at last a body that returns. */
  ghost predicate DoesRepeat(n: Node, bytes: string, rounds: seq<seq<Step>>, last: seq<Step>, t: seq<Step>, r: bool)
    decreases n, 1
  {
    && (forall i :: 0 <= i < |rounds| ==> DoesBody(n, bytes, rounds[i], false))
    && (if r then DoesBody(n, bytes, last, true) else rounds != [] && last == [])
    && t == Rounds(Tested(n.Span()), false, rounds) + last
  }

  /** The statements one after the other, to the last one or to the first that returns. */
  ghost predicate DoesInTurn(n: Node, bytes: string, kids: seq<Node>, parts: seq<seq<Step>>, t: seq<Step>, r: bool)
    requires forall c :: c in kids ==> c in n.children
    decreases n, 1
  {
    && |parts| <= |kids|
    && (if r then |parts| > 0 else |parts| == |kids|)
    && (forall i :: 0 <= i < |parts| ==> kids[i] in n.children && Does(kids[i], bytes, parts[i], r && i == |parts| - 1))
    && t == Joined(parts)
  }

  /** What one execution of a function does; one without a body does nothing. */
  ghost predicate FunctionDoes(n: Node, bytes: string, t: seq<Step>) {
    || (exists c, r :: BodyOf(n, c) && Does(c, bytes, t, r))
    || ((forall c :: !BodyOf(n, c)) && t == [])
  }

  // ------------------------------------------------ what the builder reads is what is there

  lemma ArmsAre(n: Node)
    ensures forall c :: Arm(n, Consequence, 1, c) <==> Arms(n).0 == Some(c)
    ensures forall c :: Arm(n, Alternative, 2, c) <==> Arms(n).1 == Some(c)
  {
    hide ChildByField, HasField, Fills;
    FieldIs(n, Consequence);
    FieldIs(n, Alternative);
  }

  lemma LoopBodyIs(n: Node)
    ensures forall c :: Repeated(n, c) <==> LoopBody(n) == Some(c)
  {
    hide ChildByField, HasField, Fills;
    FieldIs(n, Body);
  }

  lemma {:induction false} CasesAre(nodes: seq<Node>, c: Node)
    ensures c in CasesOf(nodes) <==> c in nodes && (c.kind.CaseStatement? || c.kind.DefaultStatement?)
  {
    if nodes == [] {
    } else {
      CasesAre(nodes[1..], c);
      assert nodes == [nodes[0]] + nodes[1..];
    }
  }

  lemma {:induction false} FirstCompoundIs(nodes: seq<Node>, i: nat)
    requires i < |nodes| && nodes[i].kind.CompoundStatement?
    requires forall j :: 0 <= j < i ==> !nodes[j].kind.CompoundStatement?
    ensures FirstCompound(nodes) == Some(nodes[i])
  {
    if i == 0 {
    } else {
      FirstCompoundIs(nodes[1..], i - 1);
    }
  }

  lemma {:induction false} CompoundPlace(nodes: seq<Node>) returns (i: nat)
    requires FirstCompound(nodes).Some?
    ensures i < |nodes| && nodes[i].kind.CompoundStatement? && forall j :: 0 <= j < i ==> !nodes[j].kind.CompoundStatement?
  {
    i := 0;
    if !nodes[0].kind.CompoundStatement? {
      var j := CompoundPlace(nodes[1..]);
      i := j + 1;
    }
  }

  lemma FunctionBodyIs(n: Node)
    ensures forall c :: BodyOf(n, c) <==> FunctionBody(n) == Some(c)
  {
    hide ChildByField, HasField, Fills;
    FieldIs(n, Body);
    if !HasField(n, Body) && FirstCompound(n.children).Some? {
      var i := CompoundPlace(n.children);
      FirstCompoundIs(n.children, i);
      assert CompoundAt(n, i);
    }
    forall c | !HasField(n, Body) && BodyOf(n, c)
      ensures FunctionBody(n) == Some(c)
    {
      var i :| CompoundAt(n, i) && n.children[i] == c;
      FirstCompoundIs(n.children, i);
    }
  }

  lemma BarrierNames(ident: string)
    ensures IsBarrierCall(ident) <==> ident in BARRIER_CALLS
  {
  }

  lemma CallIs(n: Node, bytes: string)
    ensures CallsBarrier(n, bytes) <==>
            n.kind.CallExpression? && ChildByField(n, Function).Some?
            && IsBarrierCall(Text(ChildByField(n, Function).value, bytes))
  {
    hide IsBarrierCall, ChildByField, Text, Fills;
    FieldIs(n, Function);
    if ChildByField(n, Function).Some? {
      BarrierNames(Text(ChildByField(n, Function).value, bytes));
    }
  }

  lemma {:induction false} DetectedIsHeld(n: Node, bytes: string)
    ensures DetectBarrier(n, bytes) <==> HoldsBarrier(n, bytes)
    decreases n
  {
    hide IsBarrierCall, ChildByField, Text, CallsBarrier;
    CallIs(n, bytes);
    forall k | 0 <= k < |n.children|
      ensures DetectBarrier(n.children[k], bytes) <==> HoldsBarrier(n.children[k], bytes)
    {
      DetectedIsHeld(n.children[k], bytes);
    }
    if k :| 0 <= k < |n.children| && !n.children[k].kind.FunctionDefinition? && DetectBarrier(n.children[k], bytes) {
      var m :| Inside(n.children[k], m) && CallsBarrier(m, bytes);
      assert Inside(n, m);
    }
    if CallsBarrier(n, bytes) {
      assert Inside(n, n);
    }
    if m :| Inside(n, m) && CallsBarrier(m, bytes) {
      if m != n {
        var k :| 0 <= k < |n.children| && !n.children[k].kind.FunctionDefinition? && Inside(n.children[k], m);
        assert HoldsBarrier(n.children[k], bytes);
      }
    }
  }

  // ---------------------------------------------------------- loops and lists, all at once

  lemma OneRound(test: Step, first: bool, round: seq<Step>, rest: seq<seq<Step>>)
    ensures Rounds(test, first, [round] + rest) ==
            (if first then [test] + round else round + [test]) + Rounds(test, first, rest)
  {
    assert ([round] + rest)[1..] == rest;
  }

  lemma NoRounds(test: Step, first: bool)
    ensures Rounds(test, first, []) == []
  {
  }

  lemma OnePart(part: seq<Step>, rest: seq<seq<Step>>)
    ensures Joined([part] + rest) == part + Joined(rest)
  {
    assert ([part] + rest)[1..] == rest;
  }

  lemma {:induction false} LoopGathers(s: Stmt, n: nat, t: seq<Step>, r: bool)
    returns (rounds: seq<seq<Step>>, last: seq<Step>)
    requires s.Loop? && RunsLoop(s, s.span, s.body, n, t, r)
    ensures forall i :: 0 <= i < |rounds| ==> RunsOption(s, s.body, rounds[i], false)
    ensures if r then RunsOption(s, s.body, last, true) else last == []
    ensures t == Rounds(Tested(s.span), true, rounds) + ([Tested(s.span)] + last)
    decreases n
  {
    hide RunsOption, RunsLoop, Rounds;
    var test := Tested(s.span);
    var m := LoopRunOf(s, n, t, r);
    NoRounds(test, true);
    if n == 0 {
      rounds, last := [], t[1..];
    } else {
      var rest, end := LoopGathers(s, n - 1, t[m..], r);
      rounds, last := [t[1..m]] + rest, end;
      OneRound(test, true, t[1..m], rest);
      assert t == ([test] + t[1..m]) + (Rounds(test, true, rest) + ([test] + end));
    }
  }

  lemma {:induction false} LoopRuns(outer: Stmt, span: ByteSpan, body: Option<Stmt>,
                                    rounds: seq<seq<Step>>, last: seq<Step>, t: seq<Step>, r: bool)
    requires body.Some? ==> body.value < outer
    requires forall i :: 0 <= i < |rounds| ==> RunsOption(outer, body, rounds[i], false)
    requires if r then RunsOption(outer, body, last, true) else last == []
    requires t == Rounds(Tested(span), true, rounds) + ([Tested(span)] + last)
    ensures RunsLoop(outer, span, body, |rounds|, t, r)
    decreases |rounds|
  {
    hide RunsOption;
    var test := Tested(span);
    if rounds == [] {
      assert t == [test] + last && t[1..] == last;
    } else {
      var rest := Rounds(test, true, rounds[1..]) + ([test] + last);
      var m := |rounds[0]| + 1;
      assert t == ([test] + rounds[0]) + rest;
      assert t[1..m] == rounds[0] && t[m..] == rest;
      LoopRuns(outer, span, body, rounds[1..], last, rest, r);
    }
  }

  /** How a run of a do-while begins. */
  lemma RepeatRunOf(outer: Stmt, span: ByteSpan, body: Option<Stmt>, n: nat, t: seq<Step>, r: bool) returns (m: nat)
    requires (body.Some? ==> body.value < outer) && RunsDo(outer, span, body, n, t, r)
    ensures n == 0 && !(r && RunsOption(outer, body, t, true)) ==>
              !r && m < |t| && t == t[..m] + [Tested(span)] && RunsOption(outer, body, t[..m], false)
    ensures n > 0 ==>
              m < |t| && t == (t[..m] + [Tested(span)]) + t[m + 1..] && RunsOption(outer, body, t[..m], false)
              && RunsDo(outer, span, body, n - 1, t[m + 1..], r)
  {
    hide RunsOption;
    if n == 0 {
      m := if |t| > 0 then |t| - 1 else 0;
    } else {
      m :| 0 <= m < |t| && t[m] == Tested(span) && RunsOption(outer, body, t[..m], false)
           && RunsDo(outer, span, body, n - 1, t[m + 1..], r);
    }
  }

  lemma {:induction false} RepeatGathers(outer: Stmt, span: ByteSpan, body: Option<Stmt>, n: nat, t: seq<Step>, r: bool)
    returns (rounds: seq<seq<Step>>, last: seq<Step>)
    requires (body.Some? ==> body.value < outer) && RunsDo(outer, span, body, n, t, r)
    ensures forall i :: 0 <= i < |rounds| ==> RunsOption(outer, body, rounds[i], false)
    ensures if r then RunsOption(outer, body, last, true) else rounds != [] && last == []
    ensures t == Rounds(Tested(span), false, rounds) + last
    decreases n
  {
    hide RunsOption, RunsDo, Rounds;
    var test := Tested(span);
    var m := RepeatRunOf(outer, span, body, n, t, r);
    NoRounds(test, false);
    if n == 0 && r && RunsOption(outer, body, t, true) {
      rounds, last := [], t;
    } else if n == 0 {
      rounds, last := [t[..m]] + [], [];
      OneRound(test, false, t[..m], []);
    } else {
      var rest, end := RepeatGathers(outer, span, body, n - 1, t[m + 1..], r);
      rounds, last := [t[..m]] + rest, end;
      OneRound(test, false, t[..m], rest);
    }
  }

  lemma RepeatLast(outer: Stmt, span: ByteSpan, body: Option<Stmt>, t: seq<Step>, r: bool)
    requires body.Some? ==> body.value < outer
    requires if r then RunsOption(outer, body, t, true)
             else t != [] && t[|t| - 1] == Tested(span) && RunsOption(outer, body, t[..|t| - 1], false)
    ensures RunsDo(outer, span, body, 0, t, r)
  {
    hide RunsOption;
  }

  lemma RepeatFirst(outer: Stmt, span: ByteSpan, body: Option<Stmt>, n: nat, round: seq<Step>, rest: seq<Step>, r: bool)
    requires (body.Some? ==> body.value < outer) && RunsOption(outer, body, round, false) && RunsDo(outer, span, body, n, rest, r)
    ensures RunsDo(outer, span, body, n + 1, (round + [Tested(span)]) + rest, r)
  {
    hide RunsOption;
    var t, m := (round + [Tested(span)]) + rest, |round|;
    assert t[..m] == round && t[m] == Tested(span) && t[m + 1..] == rest;
  }

  lemma {:induction false} RepeatRuns(outer: Stmt, span: ByteSpan, body: Option<Stmt>,
                                      rounds: seq<seq<Step>>, last: seq<Step>, t: seq<Step>, r: bool)
    requires body.Some? ==> body.value < outer
    requires forall i :: 0 <= i < |rounds| ==> RunsOption(outer, body, rounds[i], false)
    requires if r then RunsOption(outer, body, last, true) else rounds != [] && last == []
    requires t == Rounds(Tested(span), false, rounds) + last
    ensures RunsDo(outer, span, body, if r then |rounds| else |rounds| - 1, t, r)
    decreases |rounds|
  {
    hide RunsOption, RunsDo, Rounds;
    var test := Tested(span);
    NoRounds(test, false);
    if rounds == [] {
      assert t == last;
      RepeatLast(outer, span, body, t, true);
    } else {
      var more := rounds[1..];
      var rest := Rounds(test, false, more) + last;
      assert rounds == [rounds[0]] + more;
      OneRound(test, false, rounds[0], more);
      assert t == (rounds[0] + [test]) + rest;
      if !r && |rounds| == 1 {
        assert more == [] && rest == [] && t == rounds[0] + [test] && t[..|t| - 1] == rounds[0];
        RepeatLast(outer, span, body, t, false);
      } else {
        RepeatRuns(outer, span, body, more, last, rest, r);
        RepeatFirst(outer, span, body, if r then |more| else |more| - 1, rounds[0], rest, r);
      }
    }
  }

  /** The executions of the statements from `k` on, part by part. */
  ghost predicate RunsInTurn(stmts: seq<Stmt>, k: nat, parts: seq<seq<Step>>, t: seq<Step>, r: bool)
    requires k <= |stmts|
  {
    && k + |parts| <= |stmts|
    && (if r then |parts| > 0 else k + |parts| == |stmts|)
    && (forall i :: 0 <= i < |parts| ==> Runs(stmts[k + i], parts[i], r && i == |parts| - 1))
    && t == Joined(parts)
  }

  lemma {:induction false} SequenceGathers(outer: Stmt, stmts: seq<Stmt>, k: nat, t: seq<Step>, r: bool)
    returns (parts: seq<seq<Step>>)
    requires k <= |stmts| && (forall m :: 0 <= m < |stmts| ==> stmts[m] < outer) && RunsFrom(outer, stmts, k, t, r)
    ensures RunsInTurn(stmts, k, parts, t, r)
    decreases |stmts| - k
  {
    hide Runs;
    if k == |stmts| {
      parts := [];
    } else if r && Runs(stmts[k], t, true) {
      parts := [t] + [];
      OnePart(t, []);
      assert t == t + [] && stmts[k + 0] == stmts[k];
    } else {
      var m :| 0 <= m <= |t| && Runs(stmts[k], t[..m], false) && RunsFrom(outer, stmts, k + 1, t[m..], r);
      var rest := SequenceGathers(outer, stmts, k + 1, t[m..], r);
      parts := [t[..m]] + rest;
      OnePart(t[..m], rest);
      assert t == t[..m] + t[m..];
      MorePart(stmts, k, t[..m], rest, r);
    }
  }

  lemma MorePart(stmts: seq<Stmt>, k: nat, part: seq<Step>, rest: seq<seq<Step>>, r: bool)
    requires k < |stmts| && Runs(stmts[k], part, false) && k + 1 + |rest| <= |stmts| && (r ==> rest != [])
    requires forall i :: 0 <= i < |rest| ==> Runs(stmts[k + 1 + i], rest[i], r && i == |rest| - 1)
    ensures forall i :: 0 <= i < |rest| + 1 ==> Runs(stmts[k + i], ([part] + rest)[i], r && i == |rest|)
  {
    hide Runs;
    var parts := [part] + rest;
    forall i | 0 <= i < |parts|
      ensures Runs(stmts[k + i], parts[i], r && i == |rest|)
    {
      if i > 0 {
        assert parts[i] == rest[i - 1] && stmts[k + i] == stmts[k + 1 + (i - 1)];
      }
    }
  }

  lemma {:induction false} SequenceRuns(outer: Stmt, stmts: seq<Stmt>, k: nat, parts: seq<seq<Step>>, t: seq<Step>, r: bool)
    requires k <= |stmts| && (forall m :: 0 <= m < |stmts| ==> stmts[m] < outer) && RunsInTurn(stmts, k, parts, t, r)
    ensures RunsFrom(outer, stmts, k, t, r)
    decreases |parts|
  {
    hide Runs;
    if parts == [] {
    } else {
      var m := |parts[0]|;
      var rest := Joined(parts[1..]);
      assert t[..m] == parts[0] && t[m..] == rest;
      assert Runs(stmts[k + 0], parts[0], r && 0 == |parts| - 1);
      if r && |parts| == 1 {
        assert rest == [] && t == parts[0];
      } else {
        forall i | 0 <= i < |parts[1..]|
          ensures Runs(stmts[k + 1 + i], parts[1..][i], r && i == |parts[1..]| - 1)
        {
          assert stmts[k + 1 + i] == stmts[k + (i + 1)] && parts[1..][i] == parts[i + 1];
        }
        SequenceRuns(outer, stmts, k + 1, parts[1..], rest, r);
      }
    }
  }

  // ------------------------------------------------------------------- the two agree

  /** The unfolding of `Runs`, for proofs that hide it. */
  lemma RunsIs(s: Stmt, t: seq<Step>, r: bool)
    ensures s.Plain? ==> (Runs(s, t, r) <==> t == [Ran(s.span)] && !r)
    ensures s.Return? ==> (Runs(s, t, r) <==> t == [Returned(s.span)] && r)
    ensures s.Barrier? ==> (Runs(s, t, r) <==> t == [Synced(s.span)] && !r)
    ensures s.If? ==> (Runs(s, t, r) <==> t != [] && t[0] == Tested(s.span)
                                          && (RunsOption(s, s.thn, t[1..], r) || RunsOption(s, s.els, t[1..], r)))
    ensures s.Switch? ==> (Runs(s, t, r) <==> t != [] && t[0] == Tested(s.span)
                                              && ((s.empty && t == [Tested(s.span)] && !r)
                                                  || exists k :: 0 <= k < |s.cases| && Runs(s.cases[k], t[1..], r)))
    ensures s.Block? ==> (Runs(s, t, r) <==> RunsFrom(s, s.stmts, 0, t, r))
  {
  }

  lemma LoopTurns(s: Stmt, t: seq<Step>, r: bool) returns (n: nat)
    requires s.Loop? && Runs(s, t, r)
    ensures RunsLoop(s, s.span, s.body, n, t, r)
  {
    var Loop(span, _, body) := s;
    n :| RunsLoop(s, span, body, n, t, r);
  }

  lemma LoopRun(s: Stmt, n: nat, t: seq<Step>, r: bool)
    requires s.Loop? && RunsLoop(s, s.span, s.body, n, t, r)
    ensures Runs(s, t, r)
  {
  }

  lemma RepeatRun(s: Stmt, n: nat, t: seq<Step>, r: bool)
    requires s.DoWhile? && RunsDo(s, s.span, s.body, n, t, r)
    ensures Runs(s, t, r)
  {
  }

  lemma RepeatOf(s: Stmt, t: seq<Step>, r: bool) returns (n: nat)
    requires s.DoWhile? && Runs(s, t, r)
    ensures RunsDo(s, s.span, s.body, n, t, r)
  {
    var DoWhile(span, _, body) := s;
    n :| RunsDo(s, span, body, n, t, r);
  }

  lemma {:induction false} OptionMeans(n: Node, bytes: string, outer: Stmt, c: Option<Node>, t: seq<Step>, r: bool)
    requires (c.Some? ==> c.value in n.children) && (c.Some? ==> Shape(c.value, bytes) < outer)
    ensures RunsOption(outer, ShapeOption(n, c, bytes), t, r) <==>
            if c.None? then t == [] && !r else Does(c.value, bytes, t, r)
    decreases n, 0
  {
    if c.Some? {
      ShapeMeans(c.value, bytes, t, r);
    }
    hide Runs, Shape, Does;
  }

  lemma {:induction false} ArmMeans(n: Node, bytes: string, outer: Stmt, f: Field, place: nat, c: Option<Node>, t: seq<Step>, r: bool)
    requires (c.Some? ==> c.value in n.children) && (c.Some? ==> Shape(c.value, bytes) < outer)
    requires forall d :: Arm(n, f, place, d) <==> c == Some(d)
    ensures RunsOption(outer, ShapeOption(n, c, bytes), t, r) <==> DoesArm(n, bytes, f, place, t, r)
    decreases n, 1
  {
    OptionMeans(n, bytes, outer, c, t, r);
    hide Does, Arm, RunsOption, ShapeOption;
    if c.Some? {
      assert Arm(n, f, place, c.value);
    }
  }

  lemma {:induction false} BodyMeans(n: Node, bytes: string, outer: Stmt, c: Option<Node>, t: seq<Step>, r: bool)
    requires (c.Some? ==> c.value in n.children) && (c.Some? ==> Shape(c.value, bytes) < outer)
    requires forall d :: Repeated(n, d) <==> c == Some(d)
    ensures RunsOption(outer, ShapeOption(n, c, bytes), t, r) <==> DoesBody(n, bytes, t, r)
    decreases n, 1
  {
    OptionMeans(n, bytes, outer, c, t, r);
    hide Does, Repeated, RunsOption, ShapeOption;
    if c.Some? {
      assert Repeated(n, c.value);
    }
  }

  lemma {:induction false} IfMeans(n: Node, bytes: string, s: Stmt, t: seq<Step>, r: bool)
    requires s.If? && s.span == n.Span()
    requires s.thn == ShapeOption(n, Arms(n).0, bytes) && s.els == ShapeOption(n, Arms(n).1, bytes)
    ensures Runs(s, t, r) <==>
              && t != [] && t[0] == Tested(n.Span())
              && (DoesArm(n, bytes, Consequence, 1, t[1..], r) || DoesArm(n, bytes, Alternative, 2, t[1..], r))
    decreases n, 2
  {
    RunsIs(s, t, r);
    hide Runs, RunsOption, Arms, Arm, DoesArm, Shape;
    ArmsAre(n);
    if t != [] {
      ArmMeans(n, bytes, s, Consequence, 1, Arms(n).0, t[1..], r);
      ArmMeans(n, bytes, s, Alternative, 2, Arms(n).1, t[1..], r);
    }
  }

  lemma {:induction false} LoopMeans(n: Node, bytes: string, s: Stmt, t: seq<Step>, r: bool)
    requires (n.kind.ForStatement? || n.kind.WhileStatement?) && !HoldsBarrier(n, bytes)
    requires s.Loop? && s.span == n.Span() && s.body == ShapeOption(n, LoopBody(n), bytes)
    ensures Runs(s, t, r) <==> Does(n, bytes, t, r)
    decreases n, 2
  {
    RunsIs(s, t, r);
    hide Runs, RunsOption, RunsLoop, LoopBody, Repeated, DoesBody, Shape, ShapeOption, Does, HoldsBarrier;
    LoopBodyIs(n);
    forall u, q
      ensures RunsOption(s, s.body, u, q) <==> DoesBody(n, bytes, u, q)
    {
      SmallerBody(n, bytes, s, LoopBody(n));
      BodyMeans(n, bytes, s, LoopBody(n), u, q);
    }
    if Runs(s, t, r) {
      var k := LoopTurns(s, t, r);
      var rounds, last := LoopGathers(s, k, t, r);
      LoopBack(n, bytes, rounds, last, t, r);
    }
    if Does(n, bytes, t, r) {
      var rounds, last := LoopOf(n, bytes, t, r);
      LoopRuns(s, s.span, s.body, rounds, last, t, r);
      LoopRun(s, |rounds|, t, r);
    }
  }

  lemma SmallerBody(n: Node, bytes: string, s: Stmt, c: Option<Node>)
    requires (s.Loop? || s.DoWhile?) && (c.Some? ==> c.value in n.children) && s.body == ShapeOption(n, c, bytes)
    ensures c.Some? ==> Shape(c.value, bytes) < s
    ensures s.body.Some? ==> s.body.value < s
  {
    hide Shape;
  }

  lemma {:induction false} RepeatMeans(n: Node, bytes: string, s: Stmt, t: seq<Step>, r: bool)
    requires n.kind.DoStatement? && !HoldsBarrier(n, bytes)
    requires s.DoWhile? && s.span == n.Span() && s.body == ShapeOption(n, LoopBody(n), bytes)
    ensures Runs(s, t, r) <==> Does(n, bytes, t, r)
    decreases n, 2
  {
    RunsIs(s, t, r);
    hide Runs, RunsOption, RunsDo, LoopBody, Repeated, DoesBody, Shape, ShapeOption, Does, HoldsBarrier;
    LoopBodyIs(n);
    forall u, q
      ensures RunsOption(s, s.body, u, q) <==> DoesBody(n, bytes, u, q)
    {
      SmallerBody(n, bytes, s, LoopBody(n));
      BodyMeans(n, bytes, s, LoopBody(n), u, q);
    }
    if Runs(s, t, r) {
      var k := RepeatOf(s, t, r);
      var rounds, last := RepeatGathers(s, s.span, s.body, k, t, r);
      RepeatBack(n, bytes, rounds, last, t, r);
    }
    if Does(n, bytes, t, r) {
      var rounds, last := RepeatIn(n, bytes, t, r);
      RepeatRuns(s, s.span, s.body, rounds, last, t, r);
      RepeatRun(s, if r then |rounds| else |rounds| - 1, t, r);
    }
  }

  lemma {:induction false} SwitchMeans(n: Node, bytes: string, s: Stmt, t: seq<Step>, r: bool)
    requires s.Switch? && s.span == n.Span() && s.empty == (Named(n.children) == [])
    requires s.cases == ShapeAll(n, CasesOf(Named(n.children)), bytes)
    ensures Runs(s, t, r) <==>
              && t != [] && t[0] == Tested(n.Span())
              && ((t == [Tested(n.Span())] && !r && forall c :: c in n.children ==> !c.named)
                  || exists c :: c in n.children && c.named && (c.kind.CaseStatement? || c.kind.DefaultStatement?)
                                 && Does(c, bytes, t[1..], r))
    decreases n, 2
  {
    RunsIs(s, t, r);
    hide Runs, Shape, ShapeAll, CasesOf, Does;
    var kids := Named(n.children);
    var cases := CasesOf(kids);
    NoneNamed(n.children);
    forall c
      ensures c in cases <==> c in n.children && c.named && (c.kind.CaseStatement? || c.kind.DefaultStatement?)
    {
      CasesAre(kids, c);
    }
    hide Named;
    if t != [] {
      forall k: nat | k < |cases|
        ensures Runs(s.cases[k], t[1..], r) <==> Does(cases[k], bytes, t[1..], r)
      {
        ShapeAllAt(n, cases, bytes, k);
        assert cases[k] in cases;
        ShapeMeans(cases[k], bytes, t[1..], r);
      }
      if c :| c in cases && Does(c, bytes, t[1..], r) {
        var k :| 0 <= k < |cases| && cases[k] == c;
        assert Runs(s.cases[k], t[1..], r);
      }
      if k :| 0 <= k < |s.cases| && Runs(s.cases[k], t[1..], r) {
        assert cases[k] in cases;
      }
    }
  }

  lemma NoneNamed(nodes: seq<Node>)
    ensures Named(nodes) == [] <==> forall c :: c in nodes ==> !c.named
  {
    if Named(nodes) != [] {
      assert Named(nodes)[0] in Named(nodes);
    }
  }

  lemma {:induction false} BlockMeans(n: Node, bytes: string, s: Stmt, t: seq<Step>, r: bool)
    requires n.kind.CompoundStatement? && !HoldsBarrier(n, bytes)
    requires s.Block? && s.stmts == ShapeAll(n, Named(n.children), bytes)
    ensures Runs(s, t, r) <==> Does(n, bytes, t, r)
    decreases n, 2
  {
    RunsIs(s, t, r);
    hide Runs, Shape, ShapeAll, Does, RunsFrom, Joined, HoldsBarrier;
    var kids := Named(n.children);
    forall k: nat, u, q | k < |kids|
      ensures Runs(s.stmts[0 + k], u, q) <==> Does(kids[k], bytes, u, q)
    {
      ShapeAllAt(n, kids, bytes, k);
      assert kids[k] in kids;
      ShapeMeans(kids[k], bytes, u, q);
    }
    if RunsFrom(s, s.stmts, 0, t, r) {
      var parts := SequenceGathers(s, s.stmts, 0, t, r);
      forall i | 0 <= i < |parts|
        ensures kids[i] in n.children && Does(kids[i], bytes, parts[i], r && i == |parts| - 1)
      {
        assert kids[i] in kids;
        assert Runs(s.stmts[0 + i], parts[i], r && i == |parts| - 1);
      }
      PartsBack(n, bytes, parts, t, r);
    }
    if Does(n, bytes, t, r) {
      var parts := PartsOf(n, bytes, t, r);
      forall i | 0 <= i < |parts|
        ensures Runs(s.stmts[0 + i], parts[i], r && i == |parts| - 1)
      {
        assert Runs(s.stmts[0 + i], parts[i], r && i == |parts| - 1) <==> Does(kids[i], bytes, parts[i], r && i == |parts| - 1);
      }
      assert RunsInTurn(s.stmts, 0, parts, t, r);
      SequenceRuns(s, s.stmts, 0, parts, t, r);
    }
  }

  lemma LoopOf(n: Node, bytes: string, t: seq<Step>, r: bool) returns (rounds: seq<seq<Step>>, last: seq<Step>)
    requires (n.kind.ForStatement? || n.kind.WhileStatement?) && !HoldsBarrier(n, bytes) && Does(n, bytes, t, r)
    ensures DoesLoop(n, bytes, rounds, last, t, r)
  {
    rounds, last :| DoesLoop(n, bytes, rounds, last, t, r);
  }

  lemma LoopBack(n: Node, bytes: string, rounds: seq<seq<Step>>, last: seq<Step>, t: seq<Step>, r: bool)
    requires (n.kind.ForStatement? || n.kind.WhileStatement?) && !HoldsBarrier(n, bytes)
    requires DoesLoop(n, bytes, rounds, last, t, r)
    ensures Does(n, bytes, t, r)
  {
  }

  lemma RepeatIn(n: Node, bytes: string, t: seq<Step>, r: bool) returns (rounds: seq<seq<Step>>, last: seq<Step>)
    requires n.kind.DoStatement? && !HoldsBarrier(n, bytes) && Does(n, bytes, t, r)
    ensures DoesRepeat(n, bytes, rounds, last, t, r)
  {
    rounds, last :| DoesRepeat(n, bytes, rounds, last, t, r);
  }

  lemma RepeatBack(n: Node, bytes: string, rounds: seq<seq<Step>>, last: seq<Step>, t: seq<Step>, r: bool)
    requires n.kind.DoStatement? && !HoldsBarrier(n, bytes) && DoesRepeat(n, bytes, rounds, last, t, r)
    ensures Does(n, bytes, t, r)
  {
  }

  lemma PartsOf(n: Node, bytes: string, t: seq<Step>, r: bool) returns (parts: seq<seq<Step>>)
    requires n.kind.CompoundStatement? && !HoldsBarrier(n, bytes) && Does(n, bytes, t, r)
    ensures DoesInTurn(n, bytes, Named(n.children), parts, t, r)
  {
    parts :| DoesInTurn(n, bytes, Named(n.children), parts, t, r);
  }

  lemma PartsBack(n: Node, bytes: string, parts: seq<seq<Step>>, t: seq<Step>, r: bool)
    requires n.kind.CompoundStatement? && !HoldsBarrier(n, bytes) && DoesInTurn(n, bytes, Named(n.children), parts, t, r)
    ensures Does(n, bytes, t, r)
  {
  }

  /** The statement the builder sees in a piece of syntax has the executions of that syntax. */
  lemma {:induction false} ShapeMeans(n: Node, bytes: string, t: seq<Step>, r: bool)
    ensures Runs(Shape(n, bytes), t, r) <==> Does(n, bytes, t, r)
    decreases n, 3
  {
    var s := Shape(n, bytes);
    ShapeIs(n, bytes);
    DetectedIsHeld(n, bytes);
    RunsIs(s, t, r);
    hide Runs, Shape, HoldsBarrier, DetectBarrier, DoesArm, DoesLoop, DoesRepeat, DoesInTurn, ShapeOption, ShapeAll, MentionsDiscard,
         Arms, LoopBody, CasesOf, Text;
    if n.kind.ReturnStatement? || HoldsBarrier(n, bytes) {
    } else {
      match n.kind
      case IfStatement => IfMeans(n, bytes, s, t, r);
      case ForStatement => LoopMeans(n, bytes, s, t, r);
      case WhileStatement => LoopMeans(n, bytes, s, t, r);
      case DoStatement => RepeatMeans(n, bytes, s, t, r);
      case SwitchStatement => SwitchMeans(n, bytes, s, t, r);
      case CompoundStatement => BlockMeans(n, bytes, s, t, r);
      case _ =>
    }
  }

  /**
   The graph of a function means what the function means: the step sequences along paths from the
   entry to an exit block are exactly the step sequences of its executions.
   */
  lemma GraphMeansFunction(n: Node, bytes: string, t: seq<Step>)
    requires !HasError(n)
    ensures FunctionDoes(n, bytes, t) <==> exists p :: Trace(BuiltBlocks(n, bytes), p, t)
  {
    FunctionBodyIs(n);
    hide BodyOf, Does, Runs, Shape, FunctionBody;
    var body := FunctionBody(n);
    if body.Some? {
      assert BodyOf(n, body.value);
      GraphMeansBody(n, bytes, body.value, t);
      forall r
        ensures Runs(Shape(body.value, bytes), t, r) <==> Does(body.value, bytes, t, r)
      {
        ShapeMeans(body.value, bytes, t, r);
      }
    } else {
      NoBodyTraces(n, bytes, t);
    }
  }

  lemma NoBodyTraces(n: Node, bytes: string, t: seq<Step>)
    requires !HasError(n) && FunctionBody(n).None?
    ensures t == [] <==> exists p :: Trace(BuiltBlocks(n, bytes), p, t)
  {
    var g := BuiltBlocks(n, bytes);
    assert g == MarkExit([Fresh(n.Span())], 0);
    ContentSingle(g, 0);
    assert t == [] ==> Trace(g, [0], t);
    if p :| Trace(g, p, t) {
      if |p| > 1 {
        OpenIsLast(g, p, 0, 0);
      }
      assert p == [0];
    }
  }
}
