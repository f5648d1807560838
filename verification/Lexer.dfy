/**
 The lexical states of source text, one character at a time: code, line comments, block comments
 and string literals with escapes. The scanners that jump over whole tokens are measured by it.
 */
module Lexer {
  import opened Options

  /** What the character at a position is part of; openers and closers of two characters have a state in between. */
  datatype LexState =
    | Code
    | LineOpen | Line
    | BlockOpen | Block | BlockClose
    | Str(quote: char) | Escaped(quote: char)

  function Next(st: LexState, c: char, next: Option<char>): LexState {
    match st
    case Code =>
      if c == '/' && next == Some('/') then LineOpen
      else if c == '/' && next == Some('*') then BlockOpen
      else if c == '"' || c == '\'' then Str(c)
      else Code
    case LineOpen => if next == Some('\n') then Code else Line
    case Line => if next == Some('\n') then Code else Line
    case BlockOpen => Block
    case Block => if c == '*' && next == Some('/') then BlockClose else Block
    case BlockClose => Code
    case Str(q) =>
      if c == q then Code
      else if c == '\\' && next.Some? then Escaped(q)
      else Str(q)
    case Escaped(q) => Str(q)
  }

  function At(s: string, i: nat): Option<char> {
    if i < |s| then Some(s[i]) else None
  }

  /** The state at position `i` of text that is code at position `o`. */
  function StateFrom(s: string, o: nat, i: nat): LexState
    requires o <= i <= |s|
    decreases i
  {
    if i == o then Code else Next(StateFrom(s, o, i - 1), s[i - 1], At(s, i))
  }

  /** Lexing may start anew at any position of code. */
  lemma {:induction false} Restart(s: string, o: nat, m: nat, i: nat)
    requires o <= m <= i <= |s| && StateFrom(s, o, m) == Code
    ensures StateFrom(s, m, i) == StateFrom(s, o, i)
    decreases i
  {
    if m >= i {
    } else {
      Restart(s, o, m, i - 1);
    }
  }

  /** From `i` on, `[i, r)` is one token after its first character, and `r` is code again or the end. */
  ghost predicate TokenEnds(s: string, o: nat, i: nat, r: nat)
    requires o <= i
  {
    && i < r <= |s|
    && (forall j :: i < j < r ==> StateFrom(s, o, j) != Code)
    && (r < |s| ==> StateFrom(s, o, r) == Code)
  }

  predicate StartsWith(s: string, i: nat, a: char, b: char) {
    i + 1 < |s| && s[i] == a && s[i + 1] == b
  }

  // ------------------------------------------------------------ jumping scanners

  method EndOfLine(s: string, i: nat) returns (r: nat)
    requires i <= |s|
    ensures i <= r <= |s| && (forall k :: i <= k < r ==> s[k] != '\n') && (r < |s| ==> s[r] == '\n')
  {
    r := i;
    while r < |s| && s[r] != '\n'
      invariant i <= r <= |s| && forall k :: i <= k < r ==> s[k] != '\n'
    {
      r := r + 1;
    }
  }

  /** A line comment is a token up to its newline. */
  lemma {:induction false} LineToken(s: string, o: nat, i: nat, r: nat, j: nat)
    requires o <= i && StartsWith(s, i, '/', '/') && StateFrom(s, o, i) == Code
    requires i + 2 <= r <= |s| && (forall k :: i + 2 <= k < r ==> s[k] != '\n') && (r < |s| ==> s[r] == '\n')
    requires i + 2 <= j <= r
    ensures StateFrom(s, o, i + 1) == LineOpen
    ensures StateFrom(s, o, j) == if j < |s| && s[j] == '\n' then Code else Line
    decreases j
  {
    assert StateFrom(s, o, i + 1) == LineOpen;
    if i + 2 >= j {
    } else {
      LineToken(s, o, i, r, j - 1);
    }
  }

  method EndOfBlock(s: string, i: nat) returns (r: nat)
    requires i <= |s|
    ensures i <= r <= |s|
    ensures r < |s| || (i + 2 <= r && StartsWith(s, r - 2, '*', '/')) || (forall k :: i <= k ==> !StartsWith(s, k, '*', '/'))
    ensures forall k :: i <= k < r - 2 ==> !StartsWith(s, k, '*', '/')
    ensures r < |s| ==> i + 2 <= r && StartsWith(s, r - 2, '*', '/')
  {
    var k := i;
    while k + 1 < |s|
      invariant i <= k <= |s|
      invariant forall m :: i <= m < k ==> !StartsWith(s, m, '*', '/')
    {
      if s[k] == '*' && s[k + 1] == '/' {
        return k + 2;
      }
      k := k + 1;
    }
    return |s|;
  }

  /** Inside a block comment, up to the first closer. */
  lemma {:induction false} BlockToken(s: string, o: nat, i: nat, r: nat, j: nat)
    requires o <= i && StartsWith(s, i, '/', '*') && StateFrom(s, o, i) == Code
    requires i + 2 <= r <= |s| && forall k :: i + 2 <= k < r ==> !StartsWith(s, k, '*', '/')
    requires i + 2 <= j <= r
    ensures StateFrom(s, o, i + 1) == BlockOpen && StateFrom(s, o, j) == Block
    decreases j
  {
    assert StateFrom(s, o, i + 1) == BlockOpen;
    if i + 2 >= j {
    } else {
      BlockToken(s, o, i, r, j - 1);
      assert !StartsWith(s, j - 1, '*', '/');
    }
  }

  lemma LineEnds(s: string, o: nat, i: nat, r: nat)
    requires o <= i && StartsWith(s, i, '/', '/') && StateFrom(s, o, i) == Code
    requires i + 2 <= r <= |s| && (forall k :: i + 2 <= k < r ==> s[k] != '\n') && (r < |s| ==> s[r] == '\n')
    ensures TokenEnds(s, o, i, r)
  {
    forall j | i < j < r
      ensures StateFrom(s, o, j) != Code
    {
      LineToken(s, o, i, r, if j == i + 1 then i + 2 else j);
    }
    LineToken(s, o, i, r, r);
  }

  lemma BlockEnds(s: string, o: nat, i: nat, r: nat)
    requires o <= i && StartsWith(s, i, '/', '*') && StateFrom(s, o, i) == Code && i + 2 <= r <= |s|
    requires forall k :: i + 2 <= k < r - 2 ==> !StartsWith(s, k, '*', '/')
    requires r < |s| ==> i + 4 <= r && StartsWith(s, r - 2, '*', '/')
    requires r < |s| || (i + 4 <= r && StartsWith(s, r - 2, '*', '/')) || (forall k :: i + 2 <= k ==> !StartsWith(s, k, '*', '/'))
    ensures TokenEnds(s, o, i, r)
  {
    var closed := i + 4 <= r && StartsWith(s, r - 2, '*', '/');
    var stop := if closed then r - 2 else r;
    forall j | i < j < r
      ensures StateFrom(s, o, j) != Code
    {
      if j <= stop {
        BlockToken(s, o, i, stop, if j == i + 1 then i + 2 else j);
      } else {
        BlockToken(s, o, i, stop, stop);
        assert j == stop + 1 && StateFrom(s, o, j) == BlockClose;
      }
    }
    if r < |s| {
      BlockToken(s, o, i, stop, stop);
      assert StateFrom(s, o, stop + 1) == BlockClose;
    }
  }

  /** Past the closing quote of the literal that opens at `i`, or the end of the text. */
  method SkipStringLiteral(s: string, i: nat, quote: char, ghost o: nat) returns (r: nat)
    requires i < |s| && s[i] == quote && (quote == '"' || quote == '\'')
    requires o <= i && StateFrom(s, o, i) == Code
    ensures TokenEnds(s, o, i, r)
  {
    var k := i + 1;
    while k < |s| && s[k] != quote
      invariant i < k <= |s|
      invariant StateFrom(s, o, k) == Str(quote)
      invariant forall j :: i < j <= k ==> StateFrom(s, o, j) != Code
    {
      if s[k] == '\\' && k + 1 < |s| {
        assert StateFrom(s, o, k + 1) == Escaped(quote);
        assert StateFrom(s, o, k + 2) == Str(quote);
        k := k + 2;
        continue;
      }
      assert StateFrom(s, o, k + 1) == Str(quote);
      k := k + 1;
    }
    if k < |s| {
      assert StateFrom(s, o, k + 1) == Code;
      k := k + 1;
    }
    r := k;
  }

  /** How many backslashes stand directly before `j`, not counting any before `lo`. */
  function Backslashes(s: string, lo: nat, j: nat): (n: nat)
    requires lo <= j <= |s|
    ensures n <= j - lo
    decreases j
  {
    if j > lo && s[j - 1] == '\\' then Backslashes(s, lo, j - 1) + 1 else 0
  }

  /** The quote at `j` is not escaped within the literal whose text begins at `lo`. */
  predicate BareQuote(s: string, lo: nat, quote: char, j: nat) {
    lo <= j < |s| && s[j] == quote && Backslashes(s, lo, j) % 2 == 0
  }

  /** No such quote stands in `[lo, hi)`. */
  predicate StaysOpen(s: string, lo: nat, hi: nat, quote: char) {
    forall k :: lo <= k < hi ==> !BareQuote(s, lo, quote, k)
  }

  lemma {:induction false} InsideLiteral(s: string, o: nat, i: nat, quote: char, j: nat)
    requires o <= i < j < |s| && s[i] == quote && (quote == '"' || quote == '\'') && StateFrom(s, o, i) == Code
    requires StaysOpen(s, i + 1, j, quote)
    ensures StateFrom(s, o, j) == if Backslashes(s, i + 1, j) % 2 == 0 then Str(quote) else Escaped(quote)
    decreases j
  {
    if j == i + 1 {
    } else {
      InsideLiteral(s, o, i, quote, j - 1);
      assert !BareQuote(s, i + 1, quote, j - 1);
    }
  }

  /** A literal is a token up to the first quote of its kind with an even number of backslashes before it, or to the end. */
  lemma LiteralEnds(s: string, o: nat, i: nat, quote: char, r: nat)
    requires o <= i < r <= |s| && s[i] == quote && (quote == '"' || quote == '\'') && StateFrom(s, o, i) == Code
    requires StaysOpen(s, i + 1, r - 1, quote)
    requires BareQuote(s, i + 1, quote, r - 1) || r == |s|
    ensures TokenEnds(s, o, i, r)
  {
    forall j | i < j < r
      ensures StateFrom(s, o, j) != Code
    {
      InsideLiteral(s, o, i, quote, j);
    }
    if r < |s| {
      InsideLiteral(s, o, i, quote, r - 1);
    }
  }

  /** Past the comment or literal that starts at `i`; `i` itself for plain code. */
  method SkipToken(s: string, i: nat, ghost o: nat) returns (r: nat)
    requires o <= i < |s| && StateFrom(s, o, i) == Code
    ensures r == i <==> StateFrom(s, o, i + 1) == Code
    ensures r != i ==> TokenEnds(s, o, i, r)
  {
    var c := s[i];
    if c == '/' && i + 1 < |s| && s[i + 1] == '/' {
      r := EndOfLine(s, i + 2);
      LineEnds(s, o, i, r);
      return;
    }
    if c == '/' && i + 1 < |s| && s[i + 1] == '*' {
      r := EndOfBlock(s, i + 2);
      BlockEnds(s, o, i, r);
      return;
    }
    if c == '"' || c == '\'' {
      r := SkipStringLiteral(s, i, c, o);
      return;
    }
    return i;
  }

  // --------------------------------------------------------------------- braces

  /** Braces opened and not closed in code among `[o, i)`. */
  function Depth(s: string, o: nat, i: nat): int
    requires o <= i <= |s|
    decreases i
  {
    if i == o then 0
    else
      Depth(s, o, i - 1) +
      (if StateFrom(s, o, i - 1) != Code then 0
       else if s[i - 1] == '{' then 1 else if s[i - 1] == '}' then -1 else 0)
  }

  /** Text inside a token opens and closes nothing. */
  lemma {:induction false} DepthInToken(s: string, o: nat, i: nat, r: nat)
    requires o <= i < r <= |s| && forall j :: i < j < r ==> StateFrom(s, o, j) != Code
    requires s[i] != '{' && s[i] != '}'
    ensures forall j :: i < j <= r ==> Depth(s, o, j) == Depth(s, o, i)
    decreases r
  {
    if i + 1 >= r {
    } else {
      DepthInToken(s, o, i, r - 1);
    }
  }

  /**
   One past the brace that closes the one at `open`: the first position behind it where the braces
   of the code in between balance. The end of the text if they never do, or if there is no brace.
   */
  method EndOfBlockBrace(s: string, open: nat) returns (r: nat)
    ensures open >= |s| || s[open] != '{' ==> r == |s|
    ensures open < |s| && s[open] == '{' ==>
              && open < r <= |s|
              && (forall j :: open < j < r ==> Depth(s, open, j) > 0)
              && (Depth(s, open, r) <= 0 ==> Depth(s, open, r) == 0 && s[r - 1] == '}' && StateFrom(s, open, r - 1) == Code)
              && (Depth(s, open, r) > 0 ==> r == |s|)
  {
    if open >= |s| || s[open] != '{' {
      return |s|;
    }
    var depth := 1;
    var i := open + 1;
    assert StateFrom(s, open, i) == Code && Depth(s, open, i) == 1;
    while i < |s| && depth > 0
      invariant open < i <= |s| && depth == Depth(s, open, i) > 0
      invariant i < |s| ==> StateFrom(s, open, i) == Code
      invariant forall j :: open < j <= i ==> Depth(s, open, j) > 0
      decreases |s| - i
    {
      var afterToken := SkipToken(s, i, open);
      if afterToken != i {
        DepthInToken(s, open, i, afterToken);
        i := afterToken;
        continue;
      }
      var c := s[i];
      if c == '{' {
        depth := depth + 1;
      } else if c == '}' {
        depth := depth - 1;
        if depth == 0 {
          return i + 1;
        }
      }
      assert Depth(s, open, i + 1) == depth;
      i := i + 1;
    }
    return |s|;
  }

}
