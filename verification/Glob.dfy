/** Path globs: what the matcher's loop and backtracking accept. */
module Glob {

  /**
   One step of a pattern, read from left to right. No pattern is read as `Components`: that is what
   the documentation makes of a `**` with its `/`.
   */
  datatype Token = Literal(c: char) | AnyChar | Star | GlobStar | Components

  /** A `**` takes one following `/` with it. */
  function Width(p: string): (w: nat)
    requires p != []
    ensures 1 <= w <= |p|
  {
    if !DoubleStar(p) then 1
    else if |p| > 2 && p[2] == '/' then 3
    else 2
  }

  predicate DoubleStar(p: string) {
    |p| >= 2 && p[0] == '*' && p[1] == '*'
  }

  function Head(p: string): Token
    requires p != []
  {
    if DoubleStar(p) then GlobStar
    else if p[0] == '*' then Star
    else if p[0] == '?' then AnyChar
    else Literal(p[0])
  }

  function Tokenise(p: string): seq<Token> {
    if p == [] then [] else [Head(p)] + Tokenise(p[Width(p)..])
  }

  /** What one token stands for. */
  predicate Accepts(token: Token, s: string) {
    match token
    case Literal(c) => s == [c]
    case AnyChar => |s| == 1 && s[0] != '/'
    case Star => '/' !in s
    case GlobStar => true
    case Components => s == "" || s[|s| - 1] == '/'
  }

  function Concat(parts: seq<string>): string {
    if parts == [] then "" else parts[0] + Concat(parts[1..])
  }

  /** The text splits into one accepted part for each token. */
  ghost predicate SplitsAs(tokens: seq<Token>, text: string, parts: seq<string>) {
    && |parts| == |tokens| && Concat(parts) == text
    && forall i :: 0 <= i < |tokens| ==> Accepts(tokens[i], parts[i])
  }

  /** The language of a token list. */
  ghost predicate Denotes(tokens: seq<Token>, text: string) {
    exists parts :: SplitsAs(tokens, text, parts)
  }

  lemma DenotesNothing(text: string)
    ensures Denotes([], text) <==> text == ""
  {
    if text == "" {
      assert SplitsAs([], text, []);
    }
  }

  /** The first token takes some prefix, the others the rest. */
  lemma DenotesFirst(token: Token, tokens: seq<Token>, text: string)
    ensures Denotes([token] + tokens, text) <==>
            exists k: nat :: k <= |text| && Accepts(token, text[..k]) && Denotes(tokens, text[k..])
  {
    var all := [token] + tokens;
    if parts :| SplitsAs(all, text, parts) {
      var k := |parts[0]|;
      assert all[0] == token && all[1..] == tokens;
      assert text[..k] == parts[0] && text[k..] == Concat(parts[1..]);
      forall i | 0 <= i < |tokens|
        ensures Accepts(tokens[i], parts[1..][i])
      {
        assert all[i + 1] == tokens[i];
      }
      assert SplitsAs(tokens, text[k..], parts[1..]);
    }
    if k: nat :| k <= |text| && Accepts(token, text[..k]) && Denotes(tokens, text[k..]) {
      var rest :| SplitsAs(tokens, text[k..], rest);
      var parts := [text[..k]] + rest;
      assert parts[1..] == rest && text == text[..k] + text[k..];
      assert SplitsAs(all, text, parts);
    }
  }

  /** Some suffix of `text` from `lo` to `hi` is in the language. */
  ghost predicate RestDenoted(tokens: seq<Token>, text: string, lo: nat, hi: nat) {
    exists k: nat :: lo <= k <= hi && k <= |text| && Denotes(tokens, text[k..])
  }

  /** The loop and its backtracking decide the language of the pattern; they always end. */
  method GlobMatch(pattern: string, text: string) returns (matched: bool)
    ensures matched <==> Denotes(Tokenise(pattern), text)
    decreases |pattern|
  {
    var p, t := 0, 0;
    assert pattern[0..] == pattern && text[0..] == text;
    while p < |pattern|
      invariant 0 <= p <= |pattern| && 0 <= t <= |text|
      invariant Denotes(Tokenise(pattern), text) <==> Denotes(Tokenise(pattern[p..]), text[t..])
    {
      var now := pattern[p..];
      if pattern[p] == '*' && p + 1 < |pattern| && pattern[p + 1] == '*' {
        var pn := p + 2;
        if pn < |pattern| && pattern[pn] == '/' {
          pn := pn + 1;
        }
        assert Head(now) == GlobStar && now[Width(now)..] == pattern[pn..];
        GlobStarTries(pattern[pn..], text[t..]);
        matched := TryAnywhere(pattern[pn..], text[t..]);
        return;
      }
      if pattern[p] == '*' {
        assert Head(now) == Star && now[Width(now)..] == pattern[p + 1..];
        StarTries(pattern[p + 1..], text[t..]);
        matched := TryUpToSlash(pattern[p + 1..], text[t..]);
        return;
      }
      ghost var tokens := Tokenise(pattern[p + 1..]);
      assert now[Width(now)..] == pattern[p + 1..];
      OneCharacter(Head(now), tokens, text[t..]);
      if t >= |text| {
        return false;
      }
      assert text[t..][1..] == text[t + 1..];
      if pattern[p] == '?' {
        if text[t] == '/' {
          return false;
        }
        p := p + 1;
        t := t + 1;
        continue;
      }
      if pattern[p] != text[t] {
        return false;
      }
      p := p + 1;
      t := t + 1;
    }
    assert pattern[p..] == "";
    DenotesNothing(text[t..]);
    return t == |text|;
  }

  /** The tries of a `**`: the rest of the pattern at every position. */
  method TryAnywhere(rest: string, text: string) returns (matched: bool)
    ensures matched <==> RestDenoted(Tokenise(rest), text, 0, |text|)
    decreases |rest| + 1, 0
  {
    matched := GlobMatch(rest, text);
    assert text[0..] == text;
    if matched {
      return;
    }
    for k := 0 to |text|
      invariant !RestDenoted(Tokenise(rest), text, 0, k)
    {
      matched := GlobMatch(rest, text[k + 1..]);
      if matched {
        return;
      }
    }
    return false;
  }

  /** The tries of a `*`: the rest of the pattern at every position up to the next `/`. */
  method TryUpToSlash(rest: string, text: string) returns (matched: bool)
    ensures matched <==> exists k: nat :: k <= |text| && '/' !in text[..k] && Denotes(Tokenise(rest), text[k..])
    decreases |rest| + 1, 0
  {
    matched := GlobMatch(rest, text);
    assert text[0..] == text && '/' !in text[..0];
    if matched {
      return;
    }
    for k := 0 to |text|
      invariant '/' !in text[..k]
      invariant !RestDenoted(Tokenise(rest), text, 0, k)
    {
      if text[k] == '/' {
        assert forall m :: k < m <= |text| ==> text[..m][k] == '/';
        return false;
      }
      assert text[..k + 1] == text[..k] + [text[k]];
      matched := GlobMatch(rest, text[k + 1..]);
      if matched {
        return;
      }
    }
    return false;
  }

  lemma GlobStarTries(rest: string, text: string)
    ensures Denotes([GlobStar] + Tokenise(rest), text) <==> RestDenoted(Tokenise(rest), text, 0, |text|)
  {
    DenotesFirst(GlobStar, Tokenise(rest), text);
  }

  lemma StarTries(rest: string, text: string)
    ensures Denotes([Star] + Tokenise(rest), text) <==>
            exists k: nat :: k <= |text| && '/' !in text[..k] && Denotes(Tokenise(rest), text[k..])
  {
    DenotesFirst(Star, Tokenise(rest), text);
  }

  lemma OneCharacter(token: Token, tokens: seq<Token>, text: string)
    requires token.Literal? || token.AnyChar?
    ensures Denotes([token] + tokens, text) <==>
            text != "" && Accepts(token, text[..1]) && Denotes(tokens, text[1..])
  {
    DenotesFirst(token, tokens, text);
  }

  // ------------------------------------------------------------- laws of the language

  /** A token of `p` starts at position `i`. */
  predicate TokenStarts(p: string, i: nat) {
    i == 0 || (p != [] && i >= Width(p) && TokenStarts(p[Width(p)..], i - Width(p)))
  }

  function DoubleAt(p: string, i: nat): string
    requires i < |p|
  {
    p[..i] + "**" + p[i + 1..]
  }

  lemma EarlierTokenStays(p: string, i: nat)
    requires 0 < i < |p| && TokenStarts(p, i) && p[i] == '*'
    ensures var w, q := Width(p), DoubleAt(p, i);
            && w <= i && q != [] && Head(q) == Head(p) && Width(q) == w
            && p[w..][i - w..] == p[i..]
            && q[w..] == DoubleAt(p[w..], i - w)
  {
    var w, q := Width(p), DoubleAt(p, i);
    assert forall k :: 0 <= k < i ==> q[k] == p[k];
    assert q[i] == '*';
    var rest := p[w..];
    assert |rest| == |p| - w && rest[..i - w] == p[w..i];
    assert rest[i - w + 1..] == p[i + 1..];
    assert q[w..] == p[w..i] + "**" + p[i + 1..];
  }

  /** Writing `**` for a `*` only lets more texts in. */
  lemma {:induction false} DoublingAStarWidens(p: string, i: nat, text: string)
    requires i < |p| && TokenStarts(p, i) && Head(p[i..]) == Star
    requires Denotes(Tokenise(p), text)
    ensures Denotes(Tokenise(DoubleAt(p, i)), text)
    decreases |p|
  {
    hide Denotes, Accepts;
    var q := DoubleAt(p, i);
    var w := Width(p);
    DenotesFirst(Head(p), Tokenise(p[w..]), text);
    var k: nat :| k <= |text| && Accepts(Head(p), text[..k]) && Denotes(Tokenise(p[w..]), text[k..]);
    if i == 0 {
      assert p[0..] == p && q == "**" + p[1..];
      DoublingTheFirstStar(p, text, k);
    } else {
      EarlierTokenStays(p, i);
      hide DoubleAt;
      DoublingAStarWidens(p[w..], i - w, text[k..]);
      DenotesFirst(Head(q), Tokenise(q[w..]), text);
    }
  }

  lemma DoublingTheFirstStar(p: string, text: string, k: nat)
    requires p != [] && Head(p) == Star && k <= |text| && Denotes(Tokenise(p[1..]), text[k..])
    ensures Denotes(Tokenise("**" + p[1..]), text)
  {
    var q := "**" + p[1..];
    assert Head(q) == GlobStar;
    DenotesFirst(GlobStar, Tokenise(q[Width(q)..]), text);
    if |p| > 1 && p[1] == '/' {
      var rest := p[1..];
      assert Head(rest) == Literal('/') && rest[Width(rest)..] == p[2..] == q[3..];
      DenotesFirst(Literal('/'), Tokenise(p[2..]), text[k..]);
      var m: nat :| m <= |text[k..]| && Accepts(Literal('/'), text[k..][..m]) && Denotes(Tokenise(p[2..]), text[k..][m..]);
      assert text[k..][m..] == text[k + m..];
    } else {
      assert q[Width(q)..] == p[1..];
    }
  }

  /** What the wildcards stand for on their own. */
  lemma WildcardsAre(text: string)
    ensures Denotes(Tokenise("?"), text) <==> |text| == 1 && text[0] != '/'
    ensures Denotes(Tokenise("*"), text) <==> '/' !in text
    ensures Denotes(Tokenise("**"), text)
  {
    hide Denotes;
    assert "?"[1..] == "" && "*"[1..] == "" && "**"[2..] == "";
    DenotesFirst(AnyChar, [], text);
    DenotesFirst(Star, [], text);
    DenotesFirst(GlobStar, [], text);
    assert text[..|text|] == text && text[|text|..] == "";
    forall k: nat | k <= |text|
      ensures Denotes([], text[k..]) <==> k == |text|
    {
      DenotesNothing(text[k..]);
    }
  }

  /** A pattern without wildcards names one path. */
  lemma {:induction false} PlainPatternIsItself(p: string, text: string)
    requires '*' !in p && '?' !in p
    ensures Denotes(Tokenise(p), text) <==> text == p
  {
    if p == [] {
      DenotesNothing(text);
    } else {
      OneCharacter(Head(p), Tokenise(p[1..]), text);
      if text != "" {
        PlainPatternIsItself(p[1..], text[1..]);
        assert text == [text[0]] + text[1..] && p == [p[0]] + p[1..];
      }
    }
  }

  /** A `*` stays inside one path component: without `**`, a match has as many `/` as the pattern. */
  lemma {:induction false} SlashesAreKept(p: string, text: string)
    requires GlobStar !in Tokenise(p) && Denotes(Tokenise(p), text)
    ensures Slashes(text) == Slashes(p)
    decreases |p|
  {
    hide Denotes;
    if p == [] {
      DenotesNothing(text);
    } else {
      var w := Width(p);
      assert Head(p) in Tokenise(p);
      DenotesFirst(Head(p), Tokenise(p[w..]), text);
      var k: nat :| k <= |text| && Accepts(Head(p), text[..k]) && Denotes(Tokenise(p[w..]), text[k..]);
      assert forall token :: token in Tokenise(p[w..]) ==> token in Tokenise(p);
      SlashesAreKept(p[w..], text[k..]);
      SlashesAdd(text[..k], text[k..]);
      assert text == text[..k] + text[k..];
      HeadSlashes(Head(p), p[0], text[..k]);
    }
  }

  function Slashes(s: string): nat {
    if s == [] then 0 else (if s[0] == '/' then 1 else 0) + Slashes(s[1..])
  }

  lemma SlashesOfOne(c: char)
    ensures Slashes([c]) == if c == '/' then 1 else 0
  {
    assert [c][1..] == [];
  }

  lemma {:induction false} SlashesAdd(a: string, b: string)
    ensures Slashes(a + b) == Slashes(a) + Slashes(b)
  {
    if a == [] {
      assert a + b == b;
    } else {
      SlashesAdd(a[1..], b);
      assert (a + b)[1..] == a[1..] + b;
    }
  }

  lemma {:induction false} HeadSlashes(token: Token, c: char, s: string)
    requires token != GlobStar && Accepts(token, s)
    requires token == Literal(c) || (token == Star && c == '*') || (token == AnyChar && c == '?')
    ensures Slashes(s) == if c == '/' then 1 else 0
  {
    if token == Star {
      NoSlashes(s);
    } else {
      assert s[1..] == "";
    }
  }

  lemma {:induction false} NoSlashes(s: string)
    requires '/' !in s
    ensures Slashes(s) == 0
  {
    if s == [] {
    } else {
      NoSlashes(s[1..]);
    }
  }

  /** `**` is not held to whole path components: the `/` it takes with it need not be in the path. */
  lemma GlobStarCutsComponents()
    ensures Denotes(Tokenise("a/**/b"), "a/xb")
  {
    CutsInFront();
    LiteralInFront('/', "**/b", "xb");
    assert ['/'] + "**/b" == "/**/b" && ['/'] + "xb" == "/xb";
    LiteralInFront('a', "/**/b", "/xb");
    assert ['a'] + "/**/b" == "a/**/b" && ['a'] + "/xb" == "a/xb";
  }

  lemma CutsInFront()
    ensures Denotes(Tokenise("**/b"), "xb")
  {
    hide Denotes;
    PlainPatternIsItself("b", "b");
    assert "xb"[1..] == "b";
    GlobStarTries("b", "xb");
    GlobStarFirst("b");
    assert "**/" + "b" == "**/b";
  }

  lemma LiteralInFront(c: char, p: string, text: string)
    requires c != '*' && c != '?' && Denotes(Tokenise(p), text)
    ensures Denotes(Tokenise([c] + p), [c] + text)
  {
    hide Denotes;
    assert ([c] + p)[1..] == p && ([c] + text)[1..] == text;
    OneCharacter(Literal(c), Tokenise(p), [c] + text);
  }

  lemma GlobStarFirst(rest: string)
    ensures Tokenise("**/" + rest) == [GlobStar] + Tokenise(rest)
  {
  }
}
