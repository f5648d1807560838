/**
 What a marker silences, told on the text alone: which positions, for which rules, and nothing else.
 */
module MarkerScopes {
  import opened Options
  import opened Lexer
  import opened Markers
  import opened Suppress

  // --------------------------------------------------------------- places in a text

  const BLANK: set<char> := {' ', '\t'}
  const WHITE: set<char> := {' ', '\t', '\n', '\r'}
  const WHITE_BUT_RETURN: set<char> := {' ', '\t', '\n'}

  /** In text lexed from `o`, code stands at `j` that is neither in `white` nor the start of a comment. */
  predicate TokenAt(s: string, o: nat, j: int, white: set<char>) {
    o <= j < |s| && StateFrom(s, o, j) == Code && s[j] !in white && !StartsWith(s, j, '/', '/') && !StartsWith(s, j, '/', '*')
  }

  /** The first such place at or behind `o` is `t`. */
  predicate FirstTokenAt(s: string, o: nat, t: int, white: set<char>) {
    TokenAt(s, o, t, white) && forall j :: o <= j < t ==> !TokenAt(s, o, j, white)
  }

  /** A line of the text begins at `b`, and `i` is on it. */
  predicate LineFrom(s: string, b: nat, i: nat) {
    b <= i <= |s| && (b == 0 || s[b - 1] == '\n') && forall k :: b <= k < i ==> s[k] != '\n'
  }

  /** The line that holds `i` ends at `e`. */
  predicate LineTo(s: string, i: nat, e: nat) {
    i <= e <= |s| && (e == |s| || s[e] == '\n') && forall k :: i <= k < e ==> s[k] != '\n'
  }

  /** Behind the brace at `open`, the first place where the braces of the code since then balance, or the end. */
  predicate BracesClose(s: string, open: nat, r: nat) {
    && open < r <= |s|
    && (forall j :: open < j < r ==> Depth(s, open, j) > 0)
    && (r == |s| || Depth(s, open, r) <= 0)
  }

  /** The blanks of the code directly in front of `c` begin at `b`. */
  predicate BlanksFrom(s: string, o: nat, b: nat, c: nat) {
    && o <= b <= c <= |s|
    && (forall k :: b <= k < c ==> s[k] in BLANK && StateFrom(s, o, k) == Code)
    && (b == o || !(s[b - 1] in BLANK && StateFrom(s, o, b - 1) == Code))
  }

  // ------------------------------------------------------------------- the one marker

  /** A line comment the lexer sees stands at `i` and ends at `e`. */
  predicate CommentAt(s: string, i: nat, e: nat) {
    i + 2 <= |s| && StateFrom(s, 0, i) == Code && StartsWith(s, i, '/', '/') && LineTo(s, i + 2, e)
  }

  /** That comment holds a printed marker for `rules`, and no other line comment mentions markers. */
  ghost predicate OnlyMarker(s: string, i: nat, e: nat, rules: seq<string>) {
    && CommentAt(s, i, e)
    && rules != [] && (forall r :: r in rules ==> IsIdent(r))
    && " " + Print(rules) <= s[i + 2..e]
    && (forall j: nat, f: nat :: j != i && CommentAt(s, j, f) ==> !MentionsMarker(s[j + 2..f]))
  }

  predicate MentionsMarker(text: string) {
    exists k :: 0 <= k <= |text| && MARKER <= text[k..]
  }

  /** Something other than blanks stands before the comment on its line. */
  ghost predicate BehindCode(s: string, i: nat) {
    exists b: nat, k: nat :: LineFrom(s, b, i) && b <= k < i && s[k] !in BLANK
  }

  /** No code at all stands before the comment. */
  ghost predicate AtTop(s: string, i: nat) {
    forall j :: 0 <= j < i ==> !TokenAt(s, 0, j, WHITE)
  }

  /** The stretch `[lo, hi)` that a marker for `rules` in the comment from `i` to `e` is about. */
  ghost predicate About(s: string, i: nat, e: nat, lo: nat, hi: nat)
    requires e <= |s|
  {
    if BehindCode(s, i) then LineFrom(s, lo, i) && hi == e
    else
      || ((forall t :: !TokenAt(s, e, t, WHITE)) && lo == hi)
      || (exists t: nat :: FirstTokenAt(s, e, t, WHITE) && s[t] == '{' && lo == t && BracesClose(s, t, hi))
      || (exists t: nat, c: nat :: FirstTokenAt(s, e, t, WHITE) && s[t] != '{' && NextCode(s, e, c, lo, hi))
  }

  /** The next line with code, a carriage return counting as code, has its first code at `c`. */
  ghost predicate NextCode(s: string, e: nat, c: nat, lo: nat, hi: nat)
    requires e <= |s|
  {
    var o := if e < |s| then e + 1 else e;
    FirstTokenAt(s, o, c, WHITE_BUT_RETURN) && BlanksFrom(s, o, lo, c) && LineTo(s, c, hi)
  }

  // -------------------------------------------------- the scanner's places are these

  lemma {:induction false} LineBeginIs(s: string, b: nat, i: nat)
    requires LineFrom(s, b, i)
    ensures LineBegin(s, i) == b
    decreases i
  {
    if b == i {
    } else {
      LineBeginIs(s, b, i - 1);
    }
  }

  lemma {:induction false} LineBeginsThere(s: string, i: nat)
    requires i <= |s|
    ensures LineFrom(s, LineBegin(s, i), i)
    decreases i
  {
    if i == 0 || s[i - 1] == '\n' {
    } else {
      LineBeginsThere(s, i - 1);
    }
  }

  lemma RealIsToken(s: string, o: nat, j: nat, crIsSpace: bool)
    requires o <= j < |s|
    ensures StateFrom(s, o, j) == Code && RealCode(s, j, crIsSpace) <==>
            TokenAt(s, o, j, if crIsSpace then WHITE else WHITE_BUT_RETURN)
  {
  }

  lemma FirstRealIs(s: string, o: nat, t: nat, crIsSpace: bool)
    requires o <= |s|
    ensures var white := if crIsSpace then WHITE else WHITE_BUT_RETURN;
            && (FirstTokenAt(s, o, t, white) ==> FirstReal(s, o, o, crIsSpace) == t)
            && ((forall j :: !TokenAt(s, o, j, white)) ==> FirstReal(s, o, o, crIsSpace) == |s|)
  {
    var white := if crIsSpace then WHITE else WHITE_BUT_RETURN;
    hide TokenAt, RealCode, FirstReal;
    if FirstTokenAt(s, o, t, white) {
      TokenInRange(s, o, t, white);
      forall j | o <= j < t
        ensures StateFrom(s, o, j) != Code || !RealCode(s, j, crIsSpace)
      {
        RealIsToken(s, o, j, crIsSpace);
      }
      FirstRealSkips(s, o, o, t, crIsSpace);
      RealIsToken(s, o, t, crIsSpace);
      RealStops(s, o, t, crIsSpace);
    } else if forall j :: !TokenAt(s, o, j, white) {
      forall j | o <= j < |s|
        ensures StateFrom(s, o, j) != Code || !RealCode(s, j, crIsSpace)
      {
        RealIsToken(s, o, j, crIsSpace);
      }
      FirstRealSkips(s, o, o, |s|, crIsSpace);
      NothingAtEnd(s, o, crIsSpace);
    }
  }

  lemma TokenInRange(s: string, o: nat, t: nat, white: set<char>)
    requires TokenAt(s, o, t, white)
    ensures o <= t < |s|
  {
  }

  lemma RealStops(s: string, o: nat, t: nat, crIsSpace: bool)
    requires o <= t < |s| && StateFrom(s, o, t) == Code && RealCode(s, t, crIsSpace)
    ensures FirstReal(s, o, t, crIsSpace) == t
  {
  }

  lemma NothingAtEnd(s: string, o: nat, crIsSpace: bool)
    requires o <= |s|
    ensures FirstReal(s, o, |s|, crIsSpace) == |s|
  {
  }

  lemma {:induction false} BlankBeginIs(s: string, o: nat, b: nat, c: nat)
    requires BlanksFrom(s, o, b, c)
    ensures BlankBegin(s, o, c) == b
    decreases c
  {
    if b == c {
    } else {
      BlankBeginIs(s, o, b, c - 1);
    }
  }

  lemma {:induction false} SeenCodeIs(s: string, i: nat)
    requires i <= |s|
    ensures SeenCode(s, i) <==> !AtTop(s, i)
    decreases i
  {
    if i == 0 {
    } else {
      SeenCodeIs(s, i - 1);
      RealIsToken(s, 0, i - 1, true);
    }
  }

  lemma BehindCodeIs(s: string, i: nat)
    requires i <= |s|
    ensures BehindCode(s, i) <==> !AllBlank(s, LineBegin(s, i), i)
  {
    LineBeginsThere(s, i);
    if b: nat, k: nat :| LineFrom(s, b, i) && b <= k < i && s[k] !in BLANK {
      LineBeginIs(s, b, i);
    }
  }

  /** The scope the scanner resolves is the one the marker is about. */
  lemma ScopeIsAbout(s: string, i: nat, e: nat, seen: bool, rules: seq<string>, lo: nat, hi: nat)
    requires i + 2 <= e <= |s| && (e < |s| ==> s[e] == '\n') && About(s, i, e, lo, hi)
    ensures var scope := ScopeOf(s, i + 2, e, seen, rules);
            && scope.wildcardAtTop == (!BehindCode(s, i) && !seen && WILDCARD in rules)
            && (lo < hi ==> (scope.lo, scope.hi) == (lo, hi)) && (lo >= hi ==> scope.lo >= scope.hi)
  {
    BehindCodeIs(s, i);
    hide FirstReal, BraceEnd, BlankBegin, LineEnd, TokenAt, BracesClose, BlanksFrom, LineTo, LineFrom, LineBegin, AllBlank, NextCode,
         FirstTokenAt, BehindCode;
    if BehindCode(s, i) {
      LineBeginIs(s, lo, i);
      LineStartsBefore(s, lo, i);
    } else if forall t :: !TokenAt(s, e, t, WHITE) {
      FirstRealIs(s, e, e, true);
    } else if t: nat :| FirstTokenAt(s, e, t, WHITE) && s[t] == '{' && lo == t && BracesClose(s, t, hi) {
      FirstRealIs(s, e, t, true);
      FirstInRange(s, e, t, WHITE);
      ClosesThere(s, t, hi);
    } else {
      var t: nat, c: nat :| FirstTokenAt(s, e, t, WHITE) && s[t] != '{' && NextCode(s, e, c, lo, hi);
      FirstRealIs(s, e, t, true);
      FirstInRange(s, e, t, WHITE);
      NextCodeIs(s, e, c, lo, hi);
    }
  }

  lemma LineStartsBefore(s: string, lo: nat, i: nat)
    requires LineFrom(s, lo, i)
    ensures lo <= i
  {
  }

  lemma FirstInRange(s: string, o: nat, t: nat, white: set<char>)
    requires FirstTokenAt(s, o, t, white)
    ensures o <= t < |s|
  {
  }

  lemma ClosesThere(s: string, t: nat, hi: nat)
    requires t < |s| && BracesClose(s, t, hi)
    ensures BraceEnd(s, t, t + 1) == hi && t < hi
  {
    BraceEndIs(s, t, t + 1, hi);
  }

  lemma NextCodeIs(s: string, e: nat, c: nat, lo: nat, hi: nat)
    requires e <= |s| && (e < |s| ==> s[e] == '\n') && NextCode(s, e, c, lo, hi)
    ensures var from := if e < |s| && s[e] == '\n' then e + 1 else e;
            var code := FirstReal(s, from, from, false);
            code <= |s| && BlankBegin(s, from, code) == lo && LineEnd(s, code) == hi
  {
    var from := if e < |s| then e + 1 else e;
    FirstRealIs(s, from, c, false);
    BlankBeginIs(s, from, lo, c);
    LineEndIs(s, c, hi);
  }

  // --------------------------------------------------------- every marker is about something

  lemma {:induction false} LineEndsThere(s: string, i: nat)
    requires i <= |s|
    ensures LineTo(s, i, LineEnd(s, i))
    decreases |s| - i
  {
    if i == |s| || s[i] == '\n' {
    } else {
      LineEndsThere(s, i + 1);
    }
  }

  lemma {:induction false} FirstRealThere(s: string, o: nat, i: nat, crIsSpace: bool)
    requires o <= i <= |s|
    ensures var t, white := FirstReal(s, o, i, crIsSpace), if crIsSpace then WHITE else WHITE_BUT_RETURN;
            (t < |s| ==> TokenAt(s, o, t, white)) && forall j :: i <= j < t ==> !TokenAt(s, o, j, white)
    decreases |s| - i
  {
    if i == |s| {
    } else {
      RealIsToken(s, o, i, crIsSpace);
      if !(StateFrom(s, o, i) == Code && RealCode(s, i, crIsSpace)) {
        FirstRealThere(s, o, i + 1, crIsSpace);
      }
    }
  }

  lemma {:induction false} BlankBeginThere(s: string, o: nat, c: nat)
    requires o <= c <= |s|
    ensures BlanksFrom(s, o, BlankBegin(s, o, c), c)
    decreases c
  {
    if c > o && IsBlank(s[c - 1]) && StateFrom(s, o, c - 1) == Code {
      BlankBeginThere(s, o, c - 1);
    }
  }

  lemma {:induction false} BraceEndThere(s: string, open: nat, i: nat)
    requires open < i <= |s|
    requires forall j :: open < j < i ==> Depth(s, open, j) > 0
    ensures BracesClose(s, open, BraceEnd(s, open, i))
    decreases |s| - i
  {
    if i == |s| || Depth(s, open, i) <= 0 {
    } else {
      BraceEndThere(s, open, i + 1);
    }
  }

  lemma AboutSomething(s: string, i: nat, e: nat) returns (lo: nat, hi: nat)
    requires i + 2 <= e <= |s| && (e < |s| ==> s[e] == '\n')
    ensures About(s, i, e, lo, hi)
  {
    LineBeginsThere(s, i);
    var t := FirstReal(s, e, e, true);
    FirstRealThere(s, e, e, true);
    var o := if e < |s| then e + 1 else e;
    var c := FirstReal(s, o, o, false);
    FirstRealThere(s, o, o, false);
    hide FirstReal, StateFrom, StartsWith, BlanksFrom, LineTo, LineFrom;
    if BehindCode(s, i) {
      lo, hi := LineBegin(s, i), e;
    } else if t == |s| {
      lo, hi := e, e;
    } else if s[t] == '{' {
      lo, hi := t, BraceEnd(s, t, t + 1);
      BraceEndThere(s, t, t + 1);
    } else {
      lo, hi := BlankBegin(s, o, c), LineEnd(s, c);
      BlankBeginThere(s, o, c);
      LineEndsThere(s, c);
      SameToken(s, e, t);
      assert FirstTokenAt(s, o, c, WHITE_BUT_RETURN);
      assert NextCode(s, e, c, lo, hi);
    }
  }

  /** A token behind the newline is also one when lexing starts behind it. */
  lemma SameToken(s: string, e: nat, t: nat)
    requires e <= |s| && (e < |s| ==> s[e] == '\n') && TokenAt(s, e, t, WHITE)
    ensures TokenAt(s, if e < |s| then e + 1 else e, t, WHITE_BUT_RETURN)
  {
    assert StateFrom(s, e, e + 1) == Code;
    Restart(s, e, e + 1, t);
  }

  // ----------------------------------------------------------------- what is silenced

  lemma CommentIs(s: string, i: nat, e: nat)
    ensures CommentAt(s, i, e) <==> i + 2 <= |s| && OpensComment(s, i) && LineEnd(s, i + 2) == e
  {
    if i + 2 <= |s| {
      LineEndsThere(s, i + 2);
      if LineTo(s, i + 2, e) {
        LineEndIs(s, i + 2, e);
      }
    }
  }

  /** A comment that nowhere mentions a marker contributes nothing. */
  lemma NoMarkerNoEntries(s: string, lo: nat, hi: nat, seen: bool)
    requires 2 <= lo <= hi <= |s| && !MentionsMarker(s[lo..hi])
    ensures Finalize(s, lo, hi, seen) == ([], [])
  {
    SkipBlanksShrinks(s[lo..hi]);
  }

  lemma OnlyOneContributes(s: string, i: nat, e: nat, rules: seq<string>, k: nat)
    requires OnlyMarker(s, i, e, rules) && k < |s|
    ensures k == i ==> OpensComment(s, i) && i + 2 <= |s| && LineEnd(s, i + 2) == e
    ensures k != i && OpensComment(s, k) ==> Finalize(s, k + 2, LineEnd(s, k + 2), SeenCode(s, k)) == ([], [])
  {
    hide Finalize, SeenCode, MentionsMarker, LineTo, Print, IsIdent;
    CommentIs(s, i, e);
    if k != i && OpensComment(s, k) {
      var f := LineEnd(s, k + 2);
      CommentIs(s, k, f);
      NoMarkerNoEntries(s, k + 2, f, SeenCode(s, k));
    }
  }

  lemma FoundNext(s: string, k: nat)
    requires k < |s|
    ensures !OpensComment(s, k) ==> Found(s, k + 1) == Found(s, k)
    ensures OpensComment(s, k) && Found(s, k) == ([], []) ==>
              Found(s, k + 1) == Finalize(s, k + 2, LineEnd(s, k + 2), SeenCode(s, k))
    ensures OpensComment(s, k) && Finalize(s, k + 2, LineEnd(s, k + 2), SeenCode(s, k)) == ([], []) ==>
              Found(s, k + 1) == Found(s, k)
  {
    hide Finalize, SeenCode, StateFrom;
    if OpensComment(s, k) {
      var (entries, diagnostics) := Found(s, k);
      var (e, d) := Finalize(s, k + 2, LineEnd(s, k + 2), SeenCode(s, k));
      assert entries + [] == entries && diagnostics + [] == diagnostics && [] + e == e && [] + d == d;
    }
  }

  lemma NothingFound(s: string)
    ensures Found(s, 0) == ([], [])
  {
  }

  lemma {:induction false} FoundWith(s: string, i: nat, e: nat, rules: seq<string>, k: nat)
    requires OnlyMarker(s, i, e, rules) && k <= |s|
    ensures i + 2 <= e <= |s|
    ensures k <= i ==> Found(s, k) == ([], [])
    ensures k > i ==> Found(s, k) == Finalize(s, i + 2, e, SeenCode(s, i))
    decreases k
  {
    assert i + 2 <= e <= |s|;
    hide *;
    if k == 0 {
      NothingFound(s);
    } else {
      FoundWith(s, i, e, rules, k - 1);
      OnlyOneContributes(s, i, e, rules, k - 1);
      FoundNext(s, k - 1);
    }
  }

  lemma MarkerReads(s: string, i: nat, e: nat, rules: seq<string>)
    requires i + 2 <= e <= |s| && rules != [] && (forall r :: r in rules ==> IsIdent(r)) && " " + Print(rules) <= s[i + 2..e]
    ensures Marker(s[i + 2..e]) == Some(rules)
  {
    hide IsIdent, Marker;
    var text := s[i + 2..e];
    var front := " " + Print(rules);
    assert text == " " + Print(rules) + text[|front|..];
    MarkerRoundTrip(rules, text[|front|..]);
  }

  ghost predicate InStretch(lo: nat, hi: nat, at: nat, end: nat) {
    lo < hi && (lo <= at < hi || (at == end && at == hi))
  }

  /**
   A printed marker alone in its source: before all code the wildcard silences every rule everywhere;
   otherwise exactly the rules it names, or all with the wildcard, exactly in the stretch it is about.
   */
  lemma SilencedExactly(s: string, i: nat, e: nat, rules: seq<string>, lo: nat, hi: nat, ruleId: string, at: nat, end: nat)
    requires OnlyMarker(s, i, e, rules) && About(s, i, e, lo, hi)
    ensures Silenced(Found(s, |s|).0, ruleId, at, end) <==>
            if WILDCARD in rules && AtTop(s, i) && !BehindCode(s, i) then InStretch(0, |s|, at, end)
            else (ruleId in rules || WILDCARD in rules) && InStretch(lo, hi, at, end)
    ensures Found(s, |s|).1 == []
  {
    FoundWith(s, i, e, rules, |s|);
    MarkerReads(s, i, e, rules);
    SeenCodeIs(s, i);
    hide OnlyMarker, AtTop, Marker, MentionsMarker;
    ScopeIsAbout(s, i, e, SeenCode(s, i), rules, lo, hi);
    hide ScopeOf, About, SeenCode, BehindCode, Found;
    var scope := ScopeOf(s, i + 2, e, SeenCode(s, i), rules);
    EntriesSilence(scope, |s|, rules, ruleId, at, end);
  }

  lemma EntriesSilence(scope: Scope, length: nat, rules: seq<string>, ruleId: string, at: nat, end: nat)
    ensures Silenced(EntriesFor(scope, length, rules), ruleId, at, end) <==>
            if scope.wildcardAtTop then InStretch(0, length, at, end)
            else (ruleId in rules || WILDCARD in rules) && InStretch(scope.lo, scope.hi, at, end)
  {
    var entries := EntriesFor(scope, length, rules);
    if scope.wildcardAtTop {
      assert entries == [Suppression(WILDCARD, 0, length)] && entries[0] in entries;
    } else {
      forall r | r in rules
        ensures Suppression(r, scope.lo, scope.hi) in entries
      {
        var k :| 0 <= k < |rules| && rules[k] == r;
        assert entries[k] == Suppression(r, scope.lo, scope.hi);
      }
    }
  }

  /** Beside other markers it silences at least that. */
  lemma MarkerSilencesAbout(s: string, i: nat, e: nat, rules: seq<string>, lo: nat, hi: nat, ruleId: string, at: nat, end: nat)
    requires CommentAt(s, i, e) && rules != [] && (forall r :: r in rules ==> IsIdent(r)) && " " + Print(rules) <= s[i + 2..e]
    requires About(s, i, e, lo, hi)
    ensures ruleId in rules && lo <= at < hi && !(WILDCARD in rules && AtTop(s, i)) ==> Silenced(Found(s, |s|).0, ruleId, at, end)
    ensures WILDCARD in rules && AtTop(s, i) && !BehindCode(s, i) && at < |s| ==> Silenced(Found(s, |s|).0, ruleId, at, end)
  {
    var text := s[i + 2..e];
    var front := " " + Print(rules);
    assert text == front + text[|front|..];
    SeenCodeIs(s, i);
    CommentIs(s, i, e);
    hide *;
    ScopeIsAbout(s, i, e, SeenCode(s, i), rules, lo, hi);
    ScopeInText(s, i + 2, e, SeenCode(s, i), rules);
    MarkerSilences(s, i, rules, text[|front|..], ruleId, at, end);
  }

  lemma ScopeInText(s: string, lo: nat, hi: nat, seen: bool, rules: seq<string>)
    requires 2 <= lo <= hi <= |s|
    ensures ScopeOf(s, lo, hi, seen, rules).hi <= |s|
  {
  }

  /** The text begins, behind blanks, with what begins a marker. */
  predicate BeginsMarked(text: string) {
    exists j :: 0 <= j <= |text| && (forall m :: 0 <= m < j ==> text[m] in BLANK) && MARKER <= text[j..]
  }

  lemma ReportOf(s: string, lo: nat, hi: nat, seen: bool, a: nat, b: nat)
    requires 2 <= lo <= hi <= |s|
    ensures ScanDiagnostic(a, b) in Finalize(s, lo, hi, seen).1 <==>
            a == lo - 2 && b == hi && BeginsMarked(s[lo..hi]) && Marker(s[lo..hi]) in {None, Some([])}
  {
    hide Marker, ScopeOf, SkipBlanks, BeginsMarked;
    BeginsWithMarker(s[lo..hi]);
    NoMarkerUnmarked(s[lo..hi]);
  }

  lemma NoMarkerUnmarked(text: string)
    ensures Marker(text).Some? ==> MARKER <= SkipBlanks(text)
  {
  }

  /** The malformed markers that are reported are exactly the line comments that begin like a marker and name no rules. */
  lemma {:induction false} ReportedExactly(s: string, k: nat, lo: nat, hi: nat)
    requires k <= |s|
    ensures ScanDiagnostic(lo, hi) in Found(s, k).1 <==>
            lo < k && CommentAt(s, lo, hi) && BeginsMarked(s[lo + 2..hi]) && Marker(s[lo + 2..hi]) in {None, Some([])}
    decreases k
  {
    hide Finalize, Marker, BeginsMarked, SeenCode;
    if k == 0 {
    } else {
      ReportedExactly(s, k - 1, lo, hi);
      CommentIs(s, k - 1, hi);
      if OpensComment(s, k - 1) {
        var f := LineEnd(s, k + 1);
        CommentIs(s, k - 1, f);
        ReportOf(s, k + 1, f, SeenCode(s, k - 1), lo, hi);
      }
    }
  }

  lemma {:induction false} BeginsWithMarker(text: string)
    ensures MARKER <= SkipBlanks(text) <==> BeginsMarked(text)
  {
    if text != [] && IsBlank(text[0]) {
      BeginsWithMarker(text[1..]);
      if j :| 0 <= j <= |text| && (forall m :: 0 <= m < j ==> text[m] in BLANK) && MARKER <= text[j..] {
        assert j > 0;
        assert text[1..][j - 1..] == text[j..];
        forall m | 0 <= m < j - 1
          ensures text[1..][m] in BLANK
        {
        }
      }
      if j :| 0 <= j <= |text[1..]| && (forall m :: 0 <= m < j ==> text[1..][m] in BLANK) && MARKER <= text[1..][j..] {
        assert text[1..][j..] == text[j + 1..];
        assert forall m :: 0 < m < j + 1 ==> text[m] == text[1..][m - 1];
      }
    } else {
      assert text[0..] == text;
    }
  }
}
