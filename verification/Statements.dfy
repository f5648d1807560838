/**
 Statements as the graph builder reads them, and what executions of a statement do. Whatever the
 builder does not look into (expressions, declarations, case bodies, wrapped branches) is `Plain`.
 */
module Statements {
  import opened Options
  import opened Graph

  datatype Stmt =
    | Plain(span: ByteSpan, discard: bool)
    | Return(span: ByteSpan)
    | Barrier(span: ByteSpan)
    | If(span: ByteSpan, discard: bool, thn: Option<Stmt>, els: Option<Stmt>)
    | Loop(span: ByteSpan, discard: bool, body: Option<Stmt>)
    | DoWhile(span: ByteSpan, discard: bool, body: Option<Stmt>)
    | Switch(span: ByteSpan, discard: bool, empty: bool, cases: seq<Stmt>)
    | Block(span: ByteSpan, discard: bool, stmts: seq<Stmt>)

  /**
   `t` is what one execution of `s` does; `r` tells whether it returned from the function. A switch,
   as the builder reads it, runs exactly one of its cases; only one without any children is passed by.
   */
  ghost predicate Runs(s: Stmt, t: seq<Step>, r: bool)
    decreases s, 0
  {
    match s
    case Plain(span, _) => t == [Ran(span)] && !r
    case Return(span) => t == [Returned(span)] && r
    case Barrier(span) => t == [Synced(span)] && !r
    case If(span, _, thn, els) =>
      && t != [] && t[0] == Tested(span)
      && (RunsOption(s, thn, t[1..], r) || RunsOption(s, els, t[1..], r))
    case Loop(span, _, body) => exists n: nat :: RunsLoop(s, span, body, n, t, r)
    case DoWhile(span, _, body) => exists n: nat :: RunsDo(s, span, body, n, t, r)
    case Switch(span, _, empty, cases) =>
      && t != [] && t[0] == Tested(span)
      && ((empty && t == [Tested(span)] && !r) || exists k :: 0 <= k < |cases| && Runs(cases[k], t[1..], r))
    case Block(_, _, stmts) => RunsFrom(s, stmts, 0, t, r)
  }

  /** A missing branch or body does nothing. */
  ghost predicate RunsOption(outer: Stmt, s: Option<Stmt>, t: seq<Step>, r: bool)
    requires s.Some? ==> s.value < outer
    decreases outer, 0, 0
  {
    match s
    case None => t == [] && !r
    case Some(inner) => Runs(inner, t, r)
  }

  /** The statements from position `k` on, one after the other, up to the first return. */
  ghost predicate RunsFrom(outer: Stmt, stmts: seq<Stmt>, k: nat, t: seq<Step>, r: bool)
    requires k <= |stmts| && forall m :: 0 <= m < |stmts| ==> stmts[m] < outer
    decreases outer, 0, |stmts| - k
  {
    if k == |stmts| then t == [] && !r
    else
      || (r && Runs(stmts[k], t, true))
      || exists m :: 0 <= m <= |t| && Runs(stmts[k], t[..m], false) && RunsFrom(outer, stmts, k + 1, t[m..], r)
  }

  /** Test, then body and so on for `n` completed iterations; the last test fails, or the body returns. */
  ghost predicate RunsLoop(outer: Stmt, span: ByteSpan, body: Option<Stmt>, n: nat, t: seq<Step>, r: bool)
    requires body.Some? ==> body.value < outer
    decreases outer, 0, n + 1
  {
    && t != [] && t[0] == Tested(span)
    && (if n == 0 then (t == [Tested(span)] && !r) || (r && RunsOption(outer, body, t[1..], true))
        else exists m :: 1 <= m <= |t| && RunsOption(outer, body, t[1..m], false) && RunsLoop(outer, span, body, n - 1, t[m..], r))
  }

  /** Body, then test, and again for `n` further iterations; the last test fails, or the body returns. */
  ghost predicate RunsDo(outer: Stmt, span: ByteSpan, body: Option<Stmt>, n: nat, t: seq<Step>, r: bool)
    requires body.Some? ==> body.value < outer
    decreases outer, 0, n + 1
  {
    if n == 0 then
      || (r && RunsOption(outer, body, t, true))
      || (!r && t != [] && t[|t| - 1] == Tested(span) && RunsOption(outer, body, t[..|t| - 1], false))
    else
      exists m :: 0 <= m < |t| && t[m] == Tested(span) && RunsOption(outer, body, t[..m], false)
                  && RunsDo(outer, span, body, n - 1, t[m + 1..], r)
  }
}
