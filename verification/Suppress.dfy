/** The suppression scanner: which rules are silenced where. */
module Suppress {
  import opened Options
  import opened Lexer
  import opened Markers

  const WILDCARD := "*"

  /** One rule silenced for diagnostics in `[lo, hi)`. */
  datatype Suppression = Suppression(ruleId: string, lo: nat, hi: nat)

  /** A malformed marker and where it stands. */
  datatype ScanDiagnostic = ScanDiagnostic(lo: nat, hi: nat)

  // ------------------------------------- the scopes, told one character at a time

  predicate IsSpace(c: char, crIsSpace: bool) {
    c == ' ' || c == '\t' || c == '\n' || (crIsSpace && c == '\r')
  }

  /** The character at a code position is neither white space nor the start of a comment. */
  predicate RealCode(s: string, i: nat, crIsSpace: bool)
    requires i < |s|
  {
    && !IsSpace(s[i], crIsSpace)
    && !(s[i] == '/' && i + 1 < |s| && (s[i + 1] == '/' || s[i + 1] == '*'))
  }

  /** The first real code at or behind `i` in text lexed from `o`; the end if there is none. */
  function FirstReal(s: string, o: nat, i: nat, crIsSpace: bool): (r: nat)
    requires o <= i <= |s|
    ensures i <= r <= |s|
    decreases |s| - i
  {
    if i == |s| || (StateFrom(s, o, i) == Code && RealCode(s, i, crIsSpace)) then i
    else FirstReal(s, o, i + 1, crIsSpace)
  }

  function LineEnd(s: string, i: nat): (r: nat)
    requires i <= |s|
    ensures i <= r <= |s|
    decreases |s| - i
  {
    if i == |s| || s[i] == '\n' then i else LineEnd(s, i + 1)
  }

  function LineBegin(s: string, i: nat): (r: nat)
    requires i <= |s|
    ensures r <= i
  {
    if i == 0 || s[i - 1] == '\n' then i else LineBegin(s, i - 1)
  }

  /** Where the blanks of the code directly before `t` begin, in text lexed from `lo`. */
  function BlankBegin(s: string, lo: nat, t: nat): (r: nat)
    requires lo <= t <= |s|
    ensures lo <= r <= t
    decreases t
  {
    if t > lo && IsBlank(s[t - 1]) && StateFrom(s, lo, t - 1) == Code then BlankBegin(s, lo, t - 1) else t
  }

  /** The first position behind `open` at which no brace of the code since `open` is left open. */
  function BraceEnd(s: string, open: nat, i: nat): (r: nat)
    requires open <= i <= |s|
    ensures i <= r <= |s|
    decreases |s| - i
  {
    if i == |s| || (i > open && Depth(s, open, i) <= 0) then i else BraceEnd(s, open, i + 1)
  }

  predicate AllBlank(s: string, lo: nat, hi: nat)
    requires lo <= hi <= |s|
  {
    forall k :: lo <= k < hi ==> IsBlank(s[k])
  }

  datatype Scope = Scope(lo: nat, hi: nat, wildcardAtTop: bool)

  /**
   What the marker in the comment `[lo, hi)` silences: its own line if code precedes it there, else
   the braces that follow, else the next line with code. A wildcard before all code covers the file.
   */
  function ScopeOf(s: string, lo: nat, hi: nat, seenRealCode: bool, rules: seq<string>): Scope
    requires 2 <= lo <= hi <= |s|
  {
    var lineStart := LineBegin(s, lo - 2);
    if !AllBlank(s, lineStart, lo - 2) then Scope(lineStart, hi, false)
    else
      var top := !seenRealCode && WILDCARD in rules;
      var token := FirstReal(s, hi, hi, true);
      if token == |s| then Scope(hi, hi, top)
      else if s[token] == '{' then Scope(token, BraceEnd(s, token, token + 1), top)
      else
        var from := if hi < |s| && s[hi] == '\n' then hi + 1 else hi;
        var code := FirstReal(s, from, from, false);
        Scope(BlankBegin(s, from, code), LineEnd(s, code), top)
  }

  function EntriesFor(scope: Scope, length: nat, rules: seq<string>): seq<Suppression> {
    if scope.wildcardAtTop then [Suppression(WILDCARD, 0, length)]
    else seq(|rules|, k requires 0 <= k < |rules| => Suppression(rules[k], scope.lo, scope.hi))
  }

  /** What a line comment contributes. */
  function Finalize(s: string, lo: nat, hi: nat, seenRealCode: bool): (seq<Suppression>, seq<ScanDiagnostic>)
    requires 2 <= lo <= hi <= |s|
  {
    var marker := Marker(s[lo..hi]);
    if marker.Some? && marker.value != [] then
      (EntriesFor(ScopeOf(s, lo, hi, seenRealCode, marker.value), |s|, marker.value), [])
    else if MARKER <= SkipBlanks(s[lo..hi]) then ([], [ScanDiagnostic(lo - 2, hi)])
    else ([], [])
  }

  predicate SeenCode(s: string, i: nat)
    requires i <= |s|
  {
    i > 0 && (SeenCode(s, i - 1) || (StateFrom(s, 0, i - 1) == Code && RealCode(s, i - 1, true)))
  }

  predicate OpensComment(s: string, i: nat)
    requires i <= |s|
  {
    StateFrom(s, 0, i) == Code && StartsWith(s, i, '/', '/')
  }

  /** What the first `i` characters contribute: each line comment, as the lexer sees them. */
  function Found(s: string, i: nat): (seq<Suppression>, seq<ScanDiagnostic>)
    requires i <= |s|
  {
    if i == 0 then ([], [])
    else
      var (entries, diagnostics) := Found(s, i - 1);
      if OpensComment(s, i - 1) then
        var (e, d) := Finalize(s, i + 1, LineEnd(s, i + 1), SeenCode(s, i - 1));
        (entries + e, diagnostics + d)
      else (entries, diagnostics)
  }

  // ----------------------------------------------------------- the jumping scans

  lemma {:induction false} LineEndIs(s: string, i: nat, r: nat)
    requires i <= r <= |s| && (forall k :: i <= k < r ==> s[k] != '\n') && (r < |s| ==> s[r] == '\n')
    ensures LineEnd(s, i) == r
    decreases r - i
  {
    if i >= r {
    } else {
      LineEndIs(s, i + 1, r);
    }
  }

  /** Positions inside a token are no candidates for real code. */
  lemma {:induction false} FirstRealSkips(s: string, o: nat, i: nat, r: nat, crIsSpace: bool)
    requires o <= i <= r <= |s|
    requires forall j :: i <= j < r ==> StateFrom(s, o, j) != Code || !RealCode(s, j, crIsSpace)
    ensures FirstReal(s, o, i, crIsSpace) == FirstReal(s, o, r, crIsSpace)
    decreases r - i
  {
    if i >= r {
    } else {
      FirstRealSkips(s, o, i + 1, r, crIsSpace);
    }
  }

  lemma CommentSkipped(s: string, o: nat, i: nat, r: nat, crIsSpace: bool)
    requires o <= i && TokenEnds(s, o, i, r) && !RealCode(s, i, crIsSpace)
    ensures FirstReal(s, o, i, crIsSpace) == FirstReal(s, o, r, crIsSpace)
  {
    FirstRealSkips(s, o, i, r, crIsSpace);
  }

  method SkipWsAndComments(s: string, i: nat) returns (r: nat)
    requires i <= |s|
    ensures r == FirstReal(s, i, i, true)
  {
    r := i;
    while r < |s|
      invariant i <= r <= |s| && FirstReal(s, i, r, true) == FirstReal(s, i, i, true)
      invariant r < |s| ==> StateFrom(s, i, r) == Code
      decreases |s| - r
    {
      var c := s[r];
      if c == ' ' || c == '\t' || c == '\r' || c == '\n' {
        r := r + 1;
        continue;
      }
      if c == '/' && r + 1 < |s| {
        if s[r + 1] == '/' {
          var e := EndOfLine(s, r + 2);
          LineEnds(s, i, r, e);
          CommentSkipped(s, i, r, e, true);
          r := e;
          continue;
        }
        if s[r + 1] == '*' {
          var e := EndOfBlock(s, r + 2);
          BlockEnds(s, i, r, e);
          CommentSkipped(s, i, r, e, true);
          r := e;
          continue;
        }
      }
      return;
    }
  }

  /** Stepping over white space or a comment towards the code being looked for. */
  ghost predicate Towards(s: string, from: nat, i: nat) {
    && from <= i <= |s|
    && (i < |s| ==> StateFrom(s, from, i) == Code)
    && FirstReal(s, from, i, false) == FirstReal(s, from, from, false)
  }

  lemma StartTowards(s: string, from: nat)
    requires from <= |s|
    ensures Towards(s, from, from) && BlankBegin(s, from, from) == from
  {
  }

  lemma OverSpace(s: string, from: nat, i: nat)
    requires i < |s| && Towards(s, from, i) && IsSpace(s[i], false)
    ensures Towards(s, from, i + 1)
    ensures BlankBegin(s, from, i + 1) == if IsBlank(s[i]) then BlankBegin(s, from, i) else i + 1
  {
  }

  lemma OverComment(s: string, from: nat, i: nat, e: nat)
    requires i < |s| && Towards(s, from, i) && !RealCode(s, i, false) && TokenEnds(s, from, i, e)
    requires i + 2 <= e && s[i] == '/'
    ensures Towards(s, from, e) && BlankBegin(s, from, e) == e
  {
    CommentSkipped(s, from, i, e, false);
  }

  lemma Arrived(s: string, from: nat, i: nat)
    requires Towards(s, from, i) && (i < |s| ==> RealCode(s, i, false))
    ensures FirstReal(s, from, from, false) == i
  {
  }

  /**
   The next line with code: where its blanks begin, and where it ends; the end of the text, with the
   blanks before it, if no code follows. The source finds the two in two loops that are the same. A
   carriage return counts as code here.
   */
  method NextCodeLine(s: string, lineEnd: nat) returns (start: nat, end: nat)
    requires lineEnd <= |s|
    ensures var from := if lineEnd < |s| && s[lineEnd] == '\n' then lineEnd + 1 else lineEnd;
            var code := FirstReal(s, from, from, false);
            start == BlankBegin(s, from, code) && end == LineEnd(s, code)
  {
    hide FirstReal, StateFrom, TokenEnds, BlankBegin;
    var i := lineEnd;
    if i < |s| && s[i] == '\n' {
      i := i + 1;
    }
    ghost var from := i;
    StartTowards(s, from);
    while i < |s|
      invariant Towards(s, from, i) && BlankBegin(s, from, i) == i
      decreases |s| - i
    {
      var lineStart := i;
      while i < |s| && (s[i] == ' ' || s[i] == '\t')
        invariant lineStart <= i && Towards(s, from, i)
        invariant BlankBegin(s, from, i) == lineStart
      {
        OverSpace(s, from, i);
        i := i + 1;
      }
      if i < |s| && s[i] == '\n' {
        OverSpace(s, from, i);
        i := i + 1;
        continue;
      }
      if i + 1 < |s| && s[i] == '/' && s[i + 1] == '/' {
        var e := EndOfLine(s, i + 2);
        LineEnds(s, from, i, e);
        OverComment(s, from, i, e);
        i := e;
        if i < |s| && s[i] == '\n' {
          OverSpace(s, from, i);
          i := i + 1;
        }
        continue;
      }
      if i + 1 < |s| && s[i] == '/' && s[i + 1] == '*' {
        var e := EndOfBlock(s, i + 2);
        BlockEnds(s, from, i, e);
        OverComment(s, from, i, e);
        i := e;
        continue;
      }
      start := lineStart;
      end := EndOfLine(s, i);
      LineEndIs(s, i, end);
      Arrived(s, from, i);
      return;
    }
    Arrived(s, from, i);
    return |s|, |s|;
  }

  /** Without a carriage return in front, the first code is the first token, and the other way round. */
  lemma {:induction false} CodeFoundAtToken(s: string, o: nat, i: nat)
    requires o <= i <= |s|
    ensures var code, token := FirstReal(s, o, i, false), FirstReal(s, o, i, true);
            && code <= token
            && (code < token ==> s[code] == '\r' && StateFrom(s, o, code) == Code)
            && (forall j :: i <= j < code && StateFrom(s, o, j) == Code ==> s[j] != '\r')
    decreases |s| - i
  {
    if i < |s| && !(StateFrom(s, o, i) == Code && RealCode(s, i, true)) {
      CodeFoundAtToken(s, o, i + 1);
    }
  }

  /** Two positions have the same line end, or the same line begin, when no newline is between them. */
  lemma {:induction false} SameLineEnd(s: string, a: nat, b: nat)
    requires a <= b <= |s|
    ensures LineEnd(s, a) == LineEnd(s, b) <==> '\n' !in s[a..b]
    decreases b - a
  {
    if a == b {
      assert s[a..b] == "";
    } else {
      SameLineEnd(s, a + 1, b);
      var rest := s[a + 1..b];
      assert s[a..b] == [s[a]] + rest;
    }
  }

  lemma {:induction false} SameLineBegin(s: string, a: nat, b: nat)
    requires a <= b <= |s|
    ensures LineBegin(s, a) == LineBegin(s, b) <==> '\n' !in s[a..b]
    decreases b - a
  {
    if a == b {
      assert s[a..b] == "";
    } else {
      SameLineBegin(s, a, b - 1);
      assert s[a..b] == s[a..b - 1] + [s[b - 1]];
    }
  }

  /**
   The line found is the line of the token that decided for it exactly when no carriage return of the
   code before the token has a newline between it and the token. A line that holds only a carriage
   return is taken for a line of code; one on the token's own line changes nothing.
   */
  lemma CodeLineHoldsToken(s: string, o: nat, i: nat)
    requires o <= i <= |s|
    ensures var code, token := FirstReal(s, o, i, false), FirstReal(s, o, i, true);
            var clear := forall j :: i <= j < token && StateFrom(s, o, j) == Code && s[j] == '\r' ==> '\n' !in s[j..token];
            && (LineEnd(s, code) == LineEnd(s, token) <==> clear)
            && (LineBegin(s, code) == LineBegin(s, token) <==> clear)
  {
    var code, token := FirstReal(s, o, i, false), FirstReal(s, o, i, true);
    CodeFoundAtToken(s, o, i);
    SameLineEnd(s, code, token);
    SameLineBegin(s, code, token);
    if '\n' !in s[code..token] {
      forall j | i <= j < token && StateFrom(s, o, j) == Code && s[j] == '\r'
        ensures '\n' !in s[j..token]
      {
        assert s[j..token] == s[code..token][j - code..];
      }
    }
  }

  lemma PrintOne()
    ensures |Print(["r"])| == 23 && '\n' !in Print(["r"])
  {
    assert Join(["r"]) == "r";
    assert |MARKER| == 14 && |ALLOW| == 5;
    assert '\n' !in MARKER && '\n' !in ALLOW;
  }

  /** A marker above such a line covers that line, and not the code below it. */
  lemma BlankLineTakenForCode()
    ensures var s := "// " + Print(["r"]) + "\n\r\nx";
            && |s| == 30 && s[29] == 'x' && LineEnd(s, 2) == 26 && Marker(s[2..26]) == Some(["r"])
            && ScopeOf(s, 2, 26, false, ["r"]) == Scope(27, 28, false)
  {
    PrintOne();
    MarkerRoundTrip(["r"], "");
    hide Print, Marker, ScopeOf;
    var comment := " " + Print(["r"]);
    var s := "// " + Print(["r"]) + "\n\r\nx";
    assert s[2..26] == comment && comment == comment + "";
    LineEndIs(s, 2, 26) by {
      forall k | 2 <= k < 26
        ensures s[k] != '\n'
      {
        assert s[k] == comment[k - 2] && comment[k - 2] in comment;
      }
    }
    BehindTheMarker(s);
  }

  lemma BehindTheMarker(s: string)
    requires |s| == 30 && s[26] == '\n' && s[27] == '\r' && s[28] == '\n' && s[29] == 'x'
    ensures ScopeOf(s, 2, 26, false, ["r"]) == Scope(27, 28, false)
  {
    assert LineBegin(s, 0) == 0 && AllBlank(s, 0, 0);
    assert StateFrom(s, 26, 27) == Code && StateFrom(s, 26, 28) == Code && StateFrom(s, 26, 29) == Code;
    assert FirstReal(s, 26, 29, true) == 29;
    assert FirstReal(s, 26, 28, true) == 29;
    assert FirstReal(s, 26, 27, true) == 29;
    assert FirstReal(s, 27, 27, false) == 27;
    assert LineEnd(s, 28) == 28;
  }

  lemma {:induction false} BraceEndIs(s: string, open: nat, i: nat, r: nat)
    requires open < i <= r <= |s|
    requires forall j :: i <= j < r ==> Depth(s, open, j) > 0
    requires r == |s| || Depth(s, open, r) <= 0
    ensures BraceEnd(s, open, i) == r
    decreases r - i
  {
    if i >= r {
    } else {
      BraceEndIs(s, open, i + 1, r);
    }
  }

  method FindLineBegin(s: string, i: nat) returns (r: nat)
    requires i <= |s|
    ensures r == LineBegin(s, i)
  {
    r := i;
    while r > 0 && s[r - 1] != '\n'
      invariant r <= i && LineBegin(s, r) == LineBegin(s, i)
    {
      r := r - 1;
    }
  }

  method AnyNonWs(s: string, lo: nat, hi: nat) returns (r: bool)
    requires lo <= hi <= |s|
    ensures r <==> !AllBlank(s, lo, hi)
  {
    var k := lo;
    while k < hi
      invariant lo <= k <= hi && AllBlank(s, lo, k)
    {
      if s[k] != ' ' && s[k] != '\t' {
        return true;
      }
      k := k + 1;
    }
    return false;
  }

  method ResolveScope(s: string, lo: nat, hi: nat, seenRealCode: bool, rules: seq<string>) returns (scope: Scope)
    requires 2 <= lo <= hi <= |s| && (hi < |s| ==> s[hi] == '\n')
    ensures scope == ScopeOf(s, lo, hi, seenRealCode, rules)
  {
    var lineStart := FindLineBegin(s, lo - 2);
    var sameLineCode := AnyNonWs(s, lineStart, lo - 2);
    if sameLineCode {
      return Scope(lineStart, hi, false);
    }
    var top := !seenRealCode && WILDCARD in rules;
    var token := SkipWsAndComments(s, hi);
    if token >= |s| {
      return Scope(hi, hi, top);
    } else if s[token] == '{' {
      var end := EndOfBlockBrace(s, token);
      BraceEndIs(s, token, token + 1, end);
      return Scope(token, end, top);
    }
    var start, end := NextCodeLine(s, hi);
    return Scope(start, end, top);
  }

  method FinalizeLineComment(s: string, lo: nat, hi: nat, seenRealCode: bool)
    returns (entries: seq<Suppression>, diagnostics: seq<ScanDiagnostic>)
    requires 2 <= lo <= hi <= |s| && (hi < |s| ==> s[hi] == '\n')
    ensures (entries, diagnostics) == Finalize(s, lo, hi, seenRealCode)
  {
    var rules, wellFormed := ParseMarker(s, lo, hi);
    if wellFormed && rules != [] {
      var scope := ResolveScope(s, lo, hi, seenRealCode, rules);
      return EntriesFor(scope, |s|, rules), [];
    }
    var probe := SkipInlineWs(s, lo, hi);
    var triggered := StartsWithAt(s, probe, MARKER, hi);
    if triggered {
      return [], [ScanDiagnostic(lo - 2, hi)];
    }
    return [], [];
  }

  /** Nothing inside a token contributes anything, and nothing in a comment is code. */
  lemma {:induction false} TokenContributes(s: string, i: nat, r: nat)
    requires i < r <= |s| && forall j :: i < j < r ==> StateFrom(s, 0, j) != Code
    ensures Found(s, r) == Found(s, i + 1) && SeenCode(s, r) == SeenCode(s, i + 1)
    decreases r
  {
    if i + 1 >= r {
    } else {
      TokenContributes(s, i, r - 1);
    }
  }

  /** The scan agrees with the lexer: it contributes what the line comments of the source do, in order. */
  method ScanSource(s: string) returns (entries: seq<Suppression>, diagnostics: seq<ScanDiagnostic>)
    ensures (entries, diagnostics) == Found(s, |s|)
  {
    hide Finalize;
    entries, diagnostics := [], [];
    var seenRealCode := false;
    var i := 0;
    while i < |s|
      invariant 0 <= i <= |s|
      invariant i < |s| ==> StateFrom(s, 0, i) == Code
      invariant seenRealCode == SeenCode(s, i)
      invariant (entries, diagnostics) == Found(s, i)
      decreases |s| - i
    {
      var c := s[i];
      if c == '/' && i + 1 < |s| && s[i + 1] == '/' {
        var bodyHi := EndOfLine(s, i + 2);
        LineEndIs(s, i + 2, bodyHi);
        LineEnds(s, 0, i, bodyHi);
        TokenContributes(s, i, bodyHi);
        var e, d := FinalizeLineComment(s, i + 2, bodyHi, seenRealCode);
        entries, diagnostics := entries + e, diagnostics + d;
        i := bodyHi;
        continue;
      }
      if c == '/' && i + 1 < |s| && s[i + 1] == '*' {
        var e := EndOfBlock(s, i + 2);
        BlockEnds(s, 0, i, e);
        TokenContributes(s, i, e);
        i := e;
        continue;
      }
      if c == '"' || c == '\'' {
        seenRealCode := true;
        var e := SkipStringLiteral(s, i, c, 0);
        TokenContributes(s, i, e);
        i := e;
        continue;
      }
      if c != ' ' && c != '\t' && c != '\r' && c != '\n' {
        seenRealCode := true;
      }
      i := i + 1;
    }
  }

  // ------------------------------------------------------------------ the result

  type Interval = (nat, nat)

  /** The suppression silences a diagnostic that starts inside it, or an empty one that touches it. */
  predicate Covers(iv: Interval, lo: nat, hi: nat) {
    (iv.0 <= lo < iv.1) || (lo == hi && iv.0 <= lo <= iv.1)
  }

  /** Some entry for the rule, or for all rules, covers the place. */
  ghost predicate Silenced(entries: seq<Suppression>, ruleId: string, lo: nat, hi: nat) {
    exists e :: e in entries && (e.ruleId == WILDCARD || e.ruleId == ruleId) && e.lo < e.hi && Covers((e.lo, e.hi), lo, hi)
  }

  lemma {:induction false} FoundGrows(s: string, i: nat, j: nat)
    requires i <= j <= |s|
    ensures Found(s, i).0 <= Found(s, j).0
  {
    if i >= j {
    } else {
      FoundGrows(s, i, j - 1);
    }
  }

  /**
   A printed marker, in a line comment the lexer sees, takes effect: it silences the rules it names in
   its scope, and every rule everywhere when it names the wildcard before all code.
   */
  lemma MarkerSilences(s: string, i: nat, rules: seq<string>, rest: string, ruleId: string, at: nat, end: nat)
    requires i + 2 <= |s| && OpensComment(s, i) && rules != [] && forall r :: r in rules ==> IsIdent(r)
    requires s[i + 2..LineEnd(s, i + 2)] == " " + Print(rules) + rest
    ensures var scope := ScopeOf(s, i + 2, LineEnd(s, i + 2), SeenCode(s, i), rules);
            && (ruleId in rules && scope.lo <= at < scope.hi <= |s| ==> Silenced(Found(s, |s|).0, ruleId, at, end))
            && (scope.wildcardAtTop && at < |s| ==> Silenced(Found(s, |s|).0, ruleId, at, end))
  {
    hide ScopeOf, Marker, OpensComment, SeenCode;
    MarkerRoundTrip(rules, rest);
    FoundGrows(s, i + 1, |s|);
    var hi := LineEnd(s, i + 2);
    var scope := ScopeOf(s, i + 2, hi, SeenCode(s, i), rules);
    var own := EntriesFor(scope, |s|, rules);
    assert Finalize(s, i + 2, hi, SeenCode(s, i)) == (own, []);
    assert Found(s, i + 1).0 == Found(s, i).0 + own;
    forall e | e in own
      ensures e in Found(s, |s|).0
    {
      assert e in Found(s, i + 1).0;
    }
    hide Found;
    if scope.wildcardAtTop {
      if at < |s| {
        assert Suppression(WILDCARD, 0, |s|) in own;
      }
    } else if ruleId in rules && scope.lo <= at < scope.hi {
      var k :| 0 <= k < |rules| && rules[k] == ruleId;
      assert own[k] == Suppression(ruleId, scope.lo, scope.hi);
    }
  }

  /** The intervals the entries give to one rule id. */
  ghost predicate Listed(entries: seq<Suppression>, ruleId: string, list: seq<Interval>) {
    forall iv :: iv in list <==> Suppression(ruleId, iv.0, iv.1) in entries && iv.0 < iv.1
  }

  predicate Sorted(list: seq<Interval>) {
    forall i, j :: 0 <= i < j < |list| ==> list[i].0 <= list[j].0
  }

  method SortIntervals(list: seq<Interval>) returns (r: seq<Interval>)
    ensures Sorted(r) && multiset(r) == multiset(list)
  {
    r := [];
    var i := 0;
    assert list[..0] == [];
    while i < |list|
      invariant 0 <= i <= |list| && Sorted(r) && multiset(r) == multiset(list[..i])
    {
      InsertKeeps(r, list[i]);
      InsertSorted(r, list[i]);
      r := Insert(r, list[i]);
      assert list[..i + 1] == list[..i] + [list[i]];
      i := i + 1;
    }
    assert list[..i] == list;
  }

  function Insert(list: seq<Interval>, iv: Interval): seq<Interval> {
    if list == [] || iv.0 <= list[0].0 then [iv] + list else [list[0]] + Insert(list[1..], iv)
  }

  lemma {:induction false} InsertKeeps(list: seq<Interval>, iv: Interval)
    ensures multiset(Insert(list, iv)) == multiset(list) + multiset{iv}
  {
    if list != [] && iv.0 > list[0].0 {
      InsertKeeps(list[1..], iv);
      assert list == [list[0]] + list[1..];
    }
  }

  lemma {:induction false} InsertSorted(list: seq<Interval>, iv: Interval)
    requires Sorted(list)
    ensures Sorted(Insert(list, iv))
    ensures forall k :: 0 <= k < |Insert(list, iv)| ==> (list != [] && list[0].0 <= Insert(list, iv)[k].0) || iv.0 <= Insert(list, iv)[k].0
  {
    if list != [] && iv.0 > list[0].0 {
      InsertSorted(list[1..], iv);
    }
  }

  class SuppressionSet {
    var entries: seq<Suppression>
    var scanDiagnostics: seq<ScanDiagnostic>
    var byRule: map<string, seq<Interval>>
    var wildcard: seq<Interval>

    /** The lists hold, sorted, what the entries say. */
    ghost predicate Indexed()
      reads this
    {
      && Listed(entries, WILDCARD, wildcard) && Sorted(wildcard)
      && WILDCARD !in byRule
      && (forall r :: r in byRule ==> Listed(entries, r, byRule[r]) && Sorted(byRule[r]))
      && (forall r, lo, hi :: Suppression(r, lo, hi) in entries && lo < hi && r != WILDCARD ==> r in byRule)
    }

    constructor Scan(source: string)
      ensures Indexed() && (entries, scanDiagnostics) == Found(source, |source|)
    {
      entries, scanDiagnostics := [], [];
      byRule, wildcard := map[], [];
      new;
      var e, d := ScanSource(source);
      entries, scanDiagnostics := e, d;
      Index();
    }

    method Index()
      modifies this`byRule, this`wildcard
      ensures Indexed()
    {
      byRule, wildcard := map[], [];
      var i := 0;
      while i < |entries|
        invariant 0 <= i <= |entries|
        invariant Listed(entries[..i], WILDCARD, wildcard) && WILDCARD !in byRule
        invariant forall r :: r in byRule ==> Listed(entries[..i], r, byRule[r])
        invariant forall r, lo, hi :: Suppression(r, lo, hi) in entries[..i] && lo < hi && r != WILDCARD ==> r in byRule
      {
        var e := entries[i];
        assert entries[..i + 1] == entries[..i] + [e];
        i := i + 1;
        if e.hi <= e.lo {
          continue;
        }
        if e.ruleId == WILDCARD {
          wildcard := wildcard + [(e.lo, e.hi)];
        } else {
          byRule := byRule[e.ruleId := (if e.ruleId in byRule then byRule[e.ruleId] else []) + [(e.lo, e.hi)]];
        }
      }
      assert entries[..i] == entries;
      wildcard := SortListed(entries, WILDCARD, wildcard);
      var keys := byRule.Keys;
      ghost var ids := byRule.Keys;
      while keys != {}
        invariant keys <= byRule.Keys == ids && WILDCARD !in byRule
        invariant Listed(entries, WILDCARD, wildcard) && Sorted(wildcard)
        invariant forall r :: r in byRule ==> Listed(entries, r, byRule[r]) && (r in keys || Sorted(byRule[r]))
        decreases keys
      {
        var k :| k in keys;
        var list := SortListed(entries, k, byRule[k]);
        byRule := byRule[k := list];
        keys := keys - {k};
      }
    }

    /** A rule is silenced exactly where an entry for it, or for all rules, covers the place. */
    method Suppresses(ruleId: string, lo: nat, hi: nat) returns (r: bool)
      requires Indexed()
      ensures r <==> Silenced(entries, ruleId, lo, hi)
    {
      r := AnyCovers(wildcard, lo, hi);
      if r {
        return;
      }
      if ruleId !in byRule {
        return false;
      }
      r := AnyCovers(byRule[ruleId], lo, hi);
    }
  }

  method SortListed(ghost entries: seq<Suppression>, ghost ruleId: string, list: seq<Interval>) returns (r: seq<Interval>)
    requires Listed(entries, ruleId, list)
    ensures Listed(entries, ruleId, r) && Sorted(r)
  {
    r := SortIntervals(list);
    forall iv
      ensures iv in r <==> iv in list
    {
      assert iv in r <==> iv in multiset(r);
      assert iv in list <==> iv in multiset(list);
    }
  }

  method AnyCovers(list: seq<Interval>, lo: nat, hi: nat) returns (r: bool)
    ensures r <==> exists iv :: iv in list && Covers(iv, lo, hi)
  {
    var i := 0;
    while i < |list|
      invariant 0 <= i <= |list| && forall k :: 0 <= k < i ==> !Covers(list[k], lo, hi)
    {
      if Covers(list[i], lo, hi) {
        return true;
      }
      i := i + 1;
    }
    return false;
  }
}
