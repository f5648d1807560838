/**
 The documented reading of `**`, by whole path components, against the one the matcher computes.
 */
module GlobComponents {
  import opened Glob

  /** A `**` that takes the `/` behind it. */
  predicate TakesSlash(p: string) {
    |p| > 2 && DoubleStar(p) && p[2] == '/'
  }

  function DocumentedHead(p: string): Token
    requires p != []
  {
    if TakesSlash(p) then Components else Head(p)
  }

  /**
   The pattern as documented: a `**` with its `/` stands for whole components, all else is as
   computed. The documentation speaks of a `**` between separators only (`WholeStars`).
   */
  function Documented(p: string): seq<Token> {
    if p == [] then [] else [DocumentedHead(p)] + Documented(p[Width(p)..])
  }

  /** The two readings accept the same texts. */
  ghost predicate ReadingsAgree(p: string) {
    forall text :: Denotes(Tokenise(p), text) <==> Denotes(Documented(p), text)
  }

  /** The pattern begins with some `?`, perhaps none, and then a `*` or `**`. */
  predicate Absorbs(p: string) {
    p != [] && (p[0] == '*' || (p[0] == '?' && Absorbs(p[1..])))
  }

  /** Each `**` with its `/` is followed by some `?` and then a `*` or `**`. */
  predicate AllAbsorbed(p: string) {
    p == [] || ((TakesSlash(p) ==> Absorbs(p[3..])) && AllAbsorbed(p[Width(p)..]))
  }

  lemma {:induction false} DocumentedIsComputed(p: string, text: string)
    requires Denotes(Documented(p), text)
    ensures Denotes(Tokenise(p), text)
    decreases |p|
  {
    hide Denotes;
    if p == [] {
      DenotesNothing(text);
    } else {
      var w := Width(p);
      DenotesFirst(DocumentedHead(p), Documented(p[w..]), text);
      var k: nat :| k <= |text| && Accepts(DocumentedHead(p), text[..k]) && Denotes(Documented(p[w..]), text[k..]);
      DocumentedIsComputed(p[w..], text[k..]);
      DenotesFirst(Head(p), Tokenise(p[w..]), text);
    }
  }

  /** Where the last component of `s` begins. */
  function LastComponent(s: string): (k: nat)
    ensures k <= |s| && '/' !in s[k..] && (k == 0 || s[k - 1] == '/')
  {
    if s == [] || s[|s| - 1] == '/' then |s|
    else
      var k := LastComponent(s[..|s| - 1]);
      assert s[k..] == s[..|s| - 1][k..] + [s[|s| - 1]];
      k
  }

  /** Part of a component in front of such a pattern is taken in by its `*`. */
  lemma {:induction false} TakesIn(p: string, part: string, text: string)
    requires Absorbs(p) && AllAbsorbed(p) && '/' !in part && Denotes(Documented(p), text)
    ensures Denotes(Documented(p), part + text)
    decreases |p|
  {
    hide Denotes, Accepts;
    var w, head := Width(p), DocumentedHead(p);
    var rest := Documented(p[w..]);
    DenotesFirst(head, rest, text);
    DenotesFirst(head, rest, part + text);
    var k: nat :| k <= |text| && Accepts(head, text[..k]) && Denotes(rest, text[k..]);
    if part == "" {
      assert part + text == text;
    } else if p[0] == '?' {
      OneTaken(text, k);
      Slide(part, text);
      TakesIn(p[1..], part[1..] + text[..1], text[1..]);
    } else if TakesSlash(p) && k == 0 {
      TakesIn(p[3..], part, text);
      assert (part + text)[0..] == part + text && text[0..] == text && (part + text)[..0] == text[..0];
    } else {
      TakesMore(head, part, text, k);
    }
  }

  lemma OneTaken(text: string, k: nat)
    requires k <= |text| && Accepts(AnyChar, text[..k])
    ensures k == 1 && text[0] != '/'
  {
  }

  /** Shifting a part by the one character in front of it. */
  lemma Slide(part: string, text: string)
    requires part != "" && text != "" && '/' !in part && text[0] != '/'
    ensures (part + text)[1..] == (part[1..] + text[..1]) + text[1..]
    ensures '/' !in part[1..] + text[..1] && Accepts(AnyChar, (part + text)[..1])
  {
  }

  lemma TakesMore(head: Token, part: string, text: string, k: nat)
    requires '/' !in part && k <= |text| && Accepts(head, text[..k])
    requires head.Star? || head.GlobStar? || (head.Components? && k > 0)
    ensures (part + text)[|part| + k..] == text[k..] && Accepts(head, (part + text)[..|part| + k])
  {
    assert (part + text)[..|part| + k] == part + text[..k];
  }

  lemma FirstToken(p: string, text: string) returns (k: nat)
    requires p != [] && Denotes(Tokenise(p), text)
    ensures k <= |text| && Accepts(Head(p), text[..k]) && Denotes(Tokenise(p[Width(p)..]), text[k..])
  {
    hide Denotes, Accepts;
    DenotesFirst(Head(p), Tokenise(p[Width(p)..]), text);
    k :| k <= |text| && Accepts(Head(p), text[..k]) && Denotes(Tokenise(p[Width(p)..]), text[k..]);
  }

  lemma FirstDocumented(p: string, text: string, k: nat)
    requires p != [] && k <= |text| && Accepts(DocumentedHead(p), text[..k]) && Denotes(Documented(p[Width(p)..]), text[k..])
    ensures Denotes(Documented(p), text)
  {
    hide Denotes, Accepts;
    DenotesFirst(DocumentedHead(p), Documented(p[Width(p)..]), text);
  }

  /** What the matcher takes for a `**` splits into whole components and part of one, which the rest takes in. */
  lemma TakesComponents(p: string, text: string, k: nat)
    requires TakesSlash(p) && Absorbs(p[3..]) && AllAbsorbed(p[3..]) && k <= |text| && Denotes(Documented(p[3..]), text[k..])
    ensures Denotes(Documented(p), text)
  {
    var j := LastComponent(text[..k]);
    assert text[..k][..j] == text[..j] && text[..k][j..] == text[j..k];
    assert Accepts(DocumentedHead(p), text[..j]);
    hide Denotes, Accepts, AllAbsorbed, Absorbs, Documented;
    TakesIn(p[3..], text[j..k], text[k..]);
    assert text[j..] == text[j..k] + text[k..];
    FirstDocumented(p, text, j);
  }

  lemma {:induction false} ComputedIsDocumented(p: string, text: string)
    requires AllAbsorbed(p) && Denotes(Tokenise(p), text)
    ensures Denotes(Documented(p), text)
    decreases |p|
  {
    hide Denotes, Accepts, Absorbs;
    if p == [] {
    } else {
      var k := FirstToken(p, text);
      ComputedIsDocumented(p[Width(p)..], text[k..]);
      if TakesSlash(p) {
        TakesComponents(p, text, k);
      } else {
        FirstDocumented(p, text, k);
      }
    }
  }

  // Where each `**` with its `/` has some `?` and then a `*` behind it, as in `**/*.hlsl`, the readings agree.
  lemma AbsorbedReadingsAgree(p: string)
    requires AllAbsorbed(p)
    ensures ReadingsAgree(p)
  {
    forall text
      ensures Denotes(Tokenise(p), text) <==> Denotes(Documented(p), text)
    {
      if Denotes(Tokenise(p), text) {
        ComputedIsDocumented(p, text);
      } else if Denotes(Documented(p), text) {
        DocumentedIsComputed(p, text);
      }
    }
  }

  // ------------------------------------------------------------ `**` between separators

  predicate NoDoubleStar(p: string) {
    forall i :: 0 <= i < |p| - 1 ==> !(p[i] == '*' && p[i + 1] == '*')
  }

  predicate WholeComponents(s: string) {
    s == "" || s[|s| - 1] == '/'
  }

  /** Each `**` is a component of its own; `boundary` tells whether `p` begins at one. */
  predicate WholeStars(p: string, boundary: bool) {
    p == [] ||
    if DoubleStar(p) then boundary && (|p| == 2 || p[2] == '/') && WholeStars(p[Width(p)..], true)
    else WholeStars(p[1..], p[0] == '/')
  }

  /** The pattern with no component for each `**`, and nothing but a last one for one at the end. */
  function Collapsed(p: string): string {
    if p == [] then ""
    else if TakesSlash(p) then Collapsed(p[3..])
    else if DoubleStar(p) then "*"
    else [p[0]] + Collapsed(p[1..])
  }

  lemma {:induction false} CollapsedIsPlain(p: string, boundary: bool)
    requires WholeStars(p, boundary)
    ensures NoDoubleStar(Collapsed(p))
    ensures !Absorbs(p) ==> !Absorbs(Collapsed(p))
    decreases |p|
  {
    if p == [] {
    } else if DoubleStar(p) {
      if |p| > 2 {
        CollapsedIsPlain(p[3..], true);
      }
    } else {
      CollapsedIsPlain(p[1..], p[0] == '/');
      StarIsLast(p, boundary);
      assert Collapsed(p)[1..] == Collapsed(p[1..]);
      PutInFront(p[0], Collapsed(p[1..]));
    }
  }

  /** Behind a single `*` the collapsed pattern goes on with no other. */
  lemma StarIsLast(p: string, boundary: bool)
    requires p != [] && !DoubleStar(p) && WholeStars(p, boundary)
    ensures p[0] == '*' && Collapsed(p[1..]) != [] ==> Collapsed(p[1..])[0] != '*'
  {
  }

  lemma PutInFront(c: char, p: string)
    requires NoDoubleStar(p) && (c == '*' && p != [] ==> p[0] != '*')
    ensures NoDoubleStar([c] + p)
  {
    assert ([c] + p)[1..] == p;
    forall i | 0 <= i < |[c] + p| - 1
      ensures !(([c] + p)[i] == '*' && ([c] + p)[i + 1] == '*')
    {
      if i > 0 {
        assert ([c] + p)[i] == p[i - 1] && ([c] + p)[i + 1] == p[i];
      }
    }
  }

  lemma {:induction false} PlainTokens(p: string)
    requires NoDoubleStar(p)
    ensures GlobStar !in Tokenise(p) && Documented(p) == Tokenise(p) && AllAbsorbed(p)
  {
    if p == [] {
    } else {
      assert p[1..][..] == p[1..];
      PlainTokens(p[1..]);
    }
  }

  lemma {:induction false} DenotesConcat(a: seq<Token>, b: seq<Token>, text: string)
    ensures Denotes(a + b, text) <==> exists k: nat :: k <= |text| && Denotes(a, text[..k]) && Denotes(b, text[k..])
  {
    hide Denotes, Accepts;
    if a == [] {
      assert a + b == b;
      forall k: nat | k <= |text|
        ensures Denotes(a, text[..k]) <==> k == 0
      {
        DenotesNothing(text[..k]);
      }
      assert text[0..] == text;
    } else {
      var rest := a[1..];
      assert a == [a[0]] + rest && a + b == [a[0]] + (rest + b);
      DenotesFirst(a[0], rest + b, text);
      if k: nat :| k <= |text| && Accepts(a[0], text[..k]) && Denotes(rest + b, text[k..]) {
        DenotesConcat(rest, b, text[k..]);
        var j: nat :| j <= |text[k..]| && Denotes(rest, text[k..][..j]) && Denotes(b, text[k..][j..]);
        DenotesFirst(a[0], rest, text[..k + j]);
        assert text[..k + j][..k] == text[..k] && text[..k + j][k..] == text[k..][..j];
        assert text[k..][j..] == text[k + j..];
      }
      if k: nat :| k <= |text| && Denotes(a, text[..k]) && Denotes(b, text[k..]) {
        DenotesFirst(a[0], rest, text[..k]);
        var j: nat :| j <= k && Accepts(a[0], text[..k][..j]) && Denotes(rest, text[..k][j..]);
        DenotesConcat(rest, b, text[j..]);
        assert text[j..][..k - j] == text[..k][j..] && text[j..][k - j..] == text[k..];
        assert text[..k][..j] == text[..j];
      }
    }
  }

  /** A shortest text of a pattern, with `c` for each `?`. */
  function Shortest(p: string, c: char): string {
    if p == [] then "" else ShortestHead(Head(p), c) + Shortest(p[Width(p)..], c)
  }

  function ShortestHead(token: Token, c: char): (r: string)
    ensures !token.Literal? && c != '/' ==> Accepts(token, r)
    ensures token.Literal? ==> Accepts(token, r)
  {
    match token
    case Literal(a) => [a]
    case AnyChar => [c]
    case _ => ""
  }

  lemma {:induction false} ShortestMatches(p: string, c: char)
    requires c != '/'
    ensures Denotes(Tokenise(p), Shortest(p, c))
    decreases |p|
  {
    hide Denotes;
    if p == [] {
      DenotesNothing("");
    } else {
      ShortestMatches(p[Width(p)..], c);
      InFront(Head(p), Tokenise(p[Width(p)..]), ShortestHead(Head(p), c), Shortest(p[Width(p)..], c));
    }
  }

  lemma InFront(token: Token, tokens: seq<Token>, part: string, text: string)
    requires Accepts(token, part) && Denotes(tokens, text)
    ensures Denotes([token] + tokens, part + text)
  {
    DenotesFirst(token, tokens, part + text);
    assert (part + text)[..|part|] == part && (part + text)[|part|..] == text;
  }

  /** A character that no literal behind the leading `?` of the pattern starts with. */
  function Filler(p: string): (c: char)
    ensures c != '/'
  {
    if p == [] then 'a' else if p[0] == '?' then Filler(p[1..]) else if p[0] == 'a' then 'b' else 'a'
  }

  /** Nothing takes in one more character in front. */
  lemma {:induction false} OneTooMany(p: string)
    requires NoDoubleStar(p) && !Absorbs(p)
    ensures !Denotes(Tokenise(p), [Filler(p)] + Shortest(p, Filler(p)))
  {
    hide Denotes;
    var c := Filler(p);
    var text := [c] + Shortest(p, c);
    if p == [] {
      DenotesNothing(text);
    } else {
      OneCharacter(Head(p), Tokenise(p[1..]), text);
      if p[0] == '?' {
        OneTooMany(p[1..]);
        assert text[1..] == [c] + Shortest(p[1..], c);
      } else {
        assert text[..1] == [c];
      }
    }
  }

  /** What a pattern that ends with a component matches ends with one. */
  lemma {:induction false} MatchEndsComponent(q: string, text: string)
    requires NoDoubleStar(q) && WholeComponents(q) && Denotes(Tokenise(q), text)
    ensures WholeComponents(text)
  {
    hide Denotes;
    if q == [] {
      DenotesNothing(text);
    } else {
      DenotesFirst(Head(q), Tokenise(q[1..]), text);
      var k: nat :| k <= |text| && Accepts(Head(q), text[..k]) && Denotes(Tokenise(q[1..]), text[k..]);
      MatchEndsComponent(q[1..], text[k..]);
      if q[1..] == [] {
        DenotesNothing(text[k..]);
        assert text == text[..k];
      } else if text[k..] == "" {
        SlashInPattern(q[1..], text[k..]);
      }
    }
  }

  lemma SlashInPattern(q: string, text: string)
    requires NoDoubleStar(q) && q != "" && q[|q| - 1] == '/' && Denotes(Tokenise(q), text)
    ensures text != ""
  {
    hide Denotes;
    PlainTokens(q);
    SlashesAreKept(q, text);
    SlashesAdd(q[..|q| - 1], "/");
    assert q == q[..|q| - 1] + "/";
    SlashesOfOne('/');
  }

  /** Two splits of a text behind equally many whole components are the same. */
  lemma SameSplit(a: string, b: string, a': string, b': string)
    requires a + b == a' + b' && WholeComponents(a) && WholeComponents(a') && Slashes(a) == Slashes(a')
    ensures a == a' && b == b'
  {
    var whole := a + b;
    assert a == whole[..|a|] && a' == whole[..|a'|];
    if |a| <= |a'| {
      LongerHasMore(a, a');
    } else {
      LongerHasMore(a', a);
    }
    assert b == (a + b)[|a|..] && b' == (a' + b')[|a'|..];
  }

  lemma LongerHasMore(a: string, b: string)
    requires a <= b && WholeComponents(b)
    ensures |a| < |b| ==> Slashes(a) < Slashes(b)
  {
    if |a| < |b| {
      var n := |b| - 1;
      SlashesAdd(b[..n], "/");
      SlashesAdd(a, b[|a|..n]);
      assert b == b[..n] + "/" && b[..n] == a + b[|a|..n];
      SlashesOfOne('/');
    }
  }

  /** The collapsed pattern in front of the first `**` that is not absorbed. */
  function Front(p: string): string
    requires !AllAbsorbed(p)
  {
    if TakesSlash(p) && !Absorbs(p[3..]) then ""
    else if DoubleStar(p) then Front(p[Width(p)..])
    else [p[0]] + Front(p[1..])
  }

  /** And behind it. */
  function Back(p: string): string
    requires !AllAbsorbed(p)
  {
    if TakesSlash(p) && !Absorbs(p[3..]) then Collapsed(p[3..]) else Back(p[Width(p)..])
  }

  lemma {:induction false} FrontMeetsBack(p: string, boundary: bool)
    requires WholeStars(p, boundary) && !AllAbsorbed(p)
    ensures Collapsed(p) == Front(p) + Back(p)
    decreases |p|
  {
    hide Absorbs;
    if TakesSlash(p) && !Absorbs(p[3..]) {
    } else if DoubleStar(p) {
      FrontMeetsBack(p[3..], true);
    } else {
      FrontMeetsBack(p[1..], p[0] == '/');
      var front, back := Front(p[1..]), Back(p[1..]);
      assert [p[0]] + (front + back) == ([p[0]] + front) + back;
    }
  }

  lemma {:induction false} BackIsPlain(p: string, boundary: bool)
    requires WholeStars(p, boundary) && !AllAbsorbed(p)
    ensures NoDoubleStar(Back(p)) && !Absorbs(Back(p))
    decreases |p|
  {
    hide NoDoubleStar;
    if TakesSlash(p) && !Absorbs(p[3..]) {
      CollapsedIsPlain(p[3..], true);
    } else if DoubleStar(p) {
      BackIsPlain(p[3..], true);
    } else {
      BackIsPlain(p[1..], p[0] == '/');
    }
  }

  lemma {:induction false} FrontIsWhole(p: string, boundary: bool)
    requires WholeStars(p, boundary) && !AllAbsorbed(p)
    ensures WholeComponents(Front(p)) && (boundary || Front(p) != "")
    decreases |p|
  {
    hide WholeComponents, Absorbs;
    if TakesSlash(p) && !Absorbs(p[3..]) {
      NothingIsWhole();
    } else if DoubleStar(p) {
      FrontIsWhole(p[3..], true);
    } else {
      FrontIsWhole(p[1..], p[0] == '/');
      StillWhole(p[0], Front(p[1..]));
    }
  }

  lemma FrontAndBack(p: string, boundary: bool)
    requires WholeStars(p, boundary) && !AllAbsorbed(p)
    ensures Collapsed(p) == Front(p) + Back(p)
    ensures NoDoubleStar(Front(p)) && NoDoubleStar(Back(p)) && !Absorbs(Back(p))
    ensures WholeComponents(Front(p)) && (boundary || Front(p) != "")
  {
    hide *;
    FrontMeetsBack(p, boundary);
    BackIsPlain(p, boundary);
    FrontIsWhole(p, boundary);
    CollapsedIsPlain(p, boundary);
    PlainPrefix(Front(p), Back(p));
  }

  lemma NothingIsWhole()
    ensures WholeComponents("")
  {
  }

  lemma StillWhole(c: char, s: string)
    requires WholeComponents(s) && (c == '/' || s != "")
    ensures WholeComponents([c] + s)
  {
  }

  /** A text of the pattern in which the matcher takes anything for that `**`, and nothing for the others. */
  function Around(p: string, c: char, middle: string): string
    requires !AllAbsorbed(p)
  {
    Shortest(Front(p), c) + (middle + Shortest(Back(p), c))
  }

  lemma {:induction false} MatcherTakesAnything(p: string, boundary: bool, c: char, middle: string)
    requires WholeStars(p, boundary) && !AllAbsorbed(p) && c != '/'
    ensures Denotes(Tokenise(p), Around(p, c, middle))
    decreases |p|
  {
    hide Denotes, Accepts, Absorbs, Around, Shortest;
    AroundStarts(p, boundary, c, middle);
    var rest := Tokenise(p[Width(p)..]);
    if TakesSlash(p) && !Absorbs(p[3..]) {
      CollapsedMatches(p[3..], true, c);
      AnythingAccepted(middle);
      InFront(GlobStar, rest, middle, Shortest(Collapsed(p[3..]), c));
    } else if DoubleStar(p) {
      MatcherTakesAnything(p[3..], true, c, middle);
      AnythingAccepted("");
      InFront(GlobStar, rest, "", Around(p[3..], c, middle));
    } else {
      MatcherTakesAnything(p[1..], p[0] == '/', c, middle);
      InFront(Head(p), rest, ShortestHead(Head(p), c), Around(p[1..], c, middle));
    }
  }

  lemma AroundStarts(p: string, boundary: bool, c: char, middle: string)
    requires WholeStars(p, boundary) && !AllAbsorbed(p)
    ensures TakesSlash(p) && !Absorbs(p[3..]) ==> Around(p, c, middle) == middle + Shortest(Collapsed(p[3..]), c)
    ensures TakesSlash(p) && Absorbs(p[3..]) ==> Around(p, c, middle) == "" + Around(p[3..], c, middle)
    ensures !DoubleStar(p) ==> Around(p, c, middle) == ShortestHead(Head(p), c) + Around(p[1..], c, middle)
  {
    hide Absorbs;
    if TakesSlash(p) && !Absorbs(p[3..]) {
      assert Around(p, c, middle) == "" + (middle + Shortest(Collapsed(p[3..]), c));
    } else if !DoubleStar(p) {
      FrontStarts(p, boundary);
      var part, front, back := ShortestHead(Head(p), c), Shortest(Front(p[1..]), c), Shortest(Back(p), c);
      assert (part + front) + (middle + back) == part + (front + (middle + back));
    }
  }

  lemma FrontStarts(p: string, boundary: bool)
    requires p != [] && !DoubleStar(p) && WholeStars(p, boundary) && !AllAbsorbed(p)
    ensures Front(p) != [] && Front(p)[1..] == Front(p[1..]) && Head(Front(p)) == Head(p) && Width(Front(p)) == 1
  {
    FrontAndBack(p, boundary);
    assert Front(p)[1..] == Front(p[1..]);
  }

  lemma AnythingAccepted(s: string)
    ensures Accepts(GlobStar, s)
  {
  }

  lemma PlainPrefix(a: string, b: string)
    requires NoDoubleStar(a + b)
    ensures NoDoubleStar(a)
  {
    assert forall i :: 0 <= i < |a| ==> a[i] == (a + b)[i];
  }

  /** The matcher takes nothing for a `**`. */
  lemma {:induction false} CollapsedMatches(p: string, boundary: bool, c: char)
    requires WholeStars(p, boundary) && c != '/'
    ensures Denotes(Tokenise(p), Shortest(Collapsed(p), c))
    decreases |p|
  {
    hide Denotes, Accepts;
    if p == [] {
      DenotesNothing("");
    } else if TakesSlash(p) {
      var rest := Shortest(Collapsed(p[3..]), c);
      CollapsedMatches(p[3..], true, c);
      AnythingAccepted("");
      InFront(GlobStar, Tokenise(p[3..]), "", rest);
      assert "" + rest == rest;
    } else if DoubleStar(p) {
      DenotesNothing("");
      AnythingAccepted("");
      InFront(GlobStar, [], "", "");
      assert p[2..] == [] && Shortest("*", c) == "";
    } else {
      CollapsedMatches(p[1..], p[0] == '/', c);
      CollapsedIsPlain(p, boundary);
      var whole := Collapsed(p);
      assert whole[1..] == Collapsed(p[1..]) && Head(whole) == Head(p) && Width(whole) == 1;
      InFront(Head(p), Tokenise(p[1..]), ShortestHead(Head(p), c), Shortest(Collapsed(p[1..]), c));
    }
  }

  /**
   A text with no more `/` than the pattern spells out leaves no component to any `**`: as documented
   it has at least as many, and with as many the collapsed pattern matches it.
   */
  lemma {:induction false} DocumentedCollapses(p: string, boundary: bool, text: string)
    requires WholeStars(p, boundary) && Denotes(Documented(p), text)
    ensures Slashes(text) >= Slashes(Collapsed(p))
    ensures Slashes(text) == Slashes(Collapsed(p)) ==> Denotes(Tokenise(Collapsed(p)), text)
    decreases |p|
  {
    hide Denotes;
    if p == [] {
      DenotesNothing(text);
    } else {
      var w, head := Width(p), DocumentedHead(p);
      DenotesFirst(head, Documented(p[w..]), text);
      var k: nat :| k <= |text| && Accepts(head, text[..k]) && Denotes(Documented(p[w..]), text[k..]);
      SlashesAdd(text[..k], text[k..]);
      assert text == text[..k] + text[k..];
      if TakesSlash(p) {
        DocumentedCollapses(p[3..], true, text[k..]);
        LongerHasMore("", text[..k]);
      } else if DoubleStar(p) {
        LastStarCollapses(text, k);
      } else {
        DocumentedCollapses(p[1..], p[0] == '/', text[k..]);
        HeadSlashes(head, p[0], text[..k]);
        SlashesAdd([p[0]], Collapsed(p[1..]));
        SlashesOfOne(p[0]);
        CollapsedIsPlain(p, boundary);
        HeadOfCollapsed(p, boundary);
        DenotesFirst(head, Tokenise(Collapsed(p[1..])), text);
      }
    }
  }

  lemma HeadOfCollapsed(p: string, boundary: bool)
    requires p != [] && !DoubleStar(p) && WholeStars(p, boundary) && NoDoubleStar(Collapsed(p))
    ensures Tokenise(Collapsed(p)) == [Head(p)] + Tokenise(Collapsed(p[1..]))
  {
    assert Collapsed(p)[1..] == Collapsed(p[1..]);
  }

  lemma LastStarCollapses(text: string, k: nat)
    requires k <= |text| && Denotes([], text[k..])
    ensures Slashes(text) == 0 ==> Denotes(Tokenise("*"), text)
  {
    DenotesNothing(text[k..]);
    if Slashes(text) == 0 {
      NoneWithoutSlashes(text);
      DenotesFirst(Star, [], text);
      assert text[..|text|] == text && text[|text|..] == "";
      DenotesNothing("");
      assert "*"[1..] == "";
    }
  }

  lemma {:induction false} NoneWithoutSlashes(s: string)
    requires Slashes(s) == 0
    ensures '/' !in s
  {
    if s == [] {
    } else {
      NoneWithoutSlashes(s[1..]);
    }
  }

  lemma PlainTail(p: string)
    requires NoDoubleStar(p) && p != []
    ensures NoDoubleStar(p[1..]) && Tokenise(p) == [Head(p)] + Tokenise(p[1..])
  {
  }

  lemma HeadOfJoin(a: string, b: string)
    requires NoDoubleStar(a) && NoDoubleStar(a + b) && a != []
    ensures a + b != [] && Head(a + b) == Head(a) && (a + b)[1..] == a[1..] + b
  {
  }

  lemma {:induction false} TokensJoin(a: string, b: string)
    requires NoDoubleStar(a) && NoDoubleStar(a + b)
    ensures Tokenise(a + b) == Tokenise(a) + Tokenise(b)
  {
    if a == [] {
      assert a + b == b;
    } else {
      hide NoDoubleStar, Tokenise, Head;
      HeadOfJoin(a, b);
      PlainTail(a);
      PlainTail(a + b);
      TokensJoin(a[1..], b);
    }
  }

  /** One more character in front of what follows whole components is not matched. */
  lemma OneMoreFails(a: string, b: string)
    requires NoDoubleStar(a) && WholeComponents(a) && NoDoubleStar(b) && NoDoubleStar(a + b) && !Absorbs(b)
    ensures var c := Filler(b); !Denotes(Tokenise(a + b), Shortest(a, c) + ([c] + Shortest(b, c)))
  {
    hide *;
    var c := Filler(b);
    var back := [c] + Shortest(b, c);
    var text := Shortest(a, c) + back;
    TokensJoin(a, b);
    DenotesConcat(Tokenise(a), Tokenise(b), text);
    if k: nat :| k <= |text| && Denotes(Tokenise(a), text[..k]) && Denotes(Tokenise(b), text[k..]) {
      assert text[..k] + text[k..] == text;
      SplitAtComponents(a, c, text[..k], text[k..], back);
      OneTooMany(b);
    }
  }

  lemma SplitAtComponents(q: string, c: char, head: string, tail: string, back: string)
    requires NoDoubleStar(q) && WholeComponents(q) && c != '/'
    requires Denotes(Tokenise(q), head) && head + tail == Shortest(q, c) + back
    ensures tail == back
  {
    hide Denotes;
    PlainTokens(q);
    ShortestMatches(q, c);
    MatchEndsComponent(q, head);
    MatchEndsComponent(q, Shortest(q, c));
    SlashesAreKept(q, head);
    SlashesAreKept(q, Shortest(q, c));
    SameSplit(head, tail, Shortest(q, c), back);
  }

  lemma SlashesOfShortest(p: string, c: char)
    requires NoDoubleStar(p) && c != '/'
    ensures Slashes(Shortest(p, c)) == Slashes(p)
  {
    PlainTokens(p);
    ShortestMatches(p, c);
    SlashesAreKept(p, Shortest(p, c));
  }

  /** A shortest text with one more character in the place of a `**` that is not absorbed sets the readings apart. */
  lemma OneMoreIsNotDocumented(p: string) returns (text: string)
    requires WholeStars(p, true) && !AllAbsorbed(p)
    ensures Denotes(Tokenise(p), text) && !Denotes(Documented(p), text)
  {
    hide *;
    var c := Filler(Back(p));
    text := Around(p, c, [c]);
    MatcherTakesAnything(p, true, c, [c]);
    FrontAndBack(p, true);
    CollapsedIsPlain(p, true);
    OneMoreFails(Front(p), Back(p));
    AroundIs(p, c, [c]);
    SlashesOfAround(p, c);
    if Denotes(Documented(p), text) {
      DocumentedCollapses(p, true, text);
    }
  }

  lemma AroundIs(p: string, c: char, middle: string)
    requires !AllAbsorbed(p)
    ensures Around(p, c, middle) == Shortest(Front(p), c) + (middle + Shortest(Back(p), c))
  {
  }

  lemma SlashesOfAround(p: string, c: char)
    requires WholeStars(p, true) && !AllAbsorbed(p) && c != '/'
    ensures Slashes(Around(p, c, [c])) == Slashes(Collapsed(p))
  {
    hide Front, Back, Collapsed, Shortest, WholeStars, NoDoubleStar, AllAbsorbed;
    var a, b := Front(p), Back(p);
    FrontAndBack(p, true);
    SlashesOfShortest(a, c);
    SlashesOfShortest(b, c);
    SlashesAdd(a, b);
    SlashesAdd([c], Shortest(b, c));
    SlashesAdd(Shortest(a, c), [c] + Shortest(b, c));
    SlashesOfOne(c);
  }

  /** Where each `**` is a component of its own, the documentation is right exactly when all of them are absorbed. */
  lemma ReadingsAgreeExactly(p: string)
    requires WholeStars(p, true)
    ensures ReadingsAgree(p) <==> AllAbsorbed(p)
  {
    if AllAbsorbed(p) {
      AbsorbedReadingsAgree(p);
    } else {
      var text := OneMoreIsNotDocumented(p);
    }
  }

  // ---------------------------------------------------------------------- letter case

  predicate Letter(c: char) {
    'a' <= c <= 'z' || 'A' <= c <= 'Z'
  }

  function OtherCase(c: char): (r: char)
    ensures Letter(c) <==> r != c
    ensures Letter(c) <==> Letter(r)
  {
    if 'a' <= c <= 'z' then c - ('a' - 'A') else if 'A' <= c <= 'Z' then c + ('a' - 'A') else c
  }

  /** The texts differ at most in the case of letters. */
  predicate SameButCase(s: string, t: string) {
    |s| == |t| && forall i :: 0 <= i < |s| ==> t[i] == s[i] || t[i] == OtherCase(s[i])
  }

  ghost predicate IgnoresCase(p: string) {
    forall s, t :: SameButCase(s, t) ==> (Denotes(Tokenise(p), s) <==> Denotes(Tokenise(p), t))
  }

  lemma {:induction false} CaseIsFree(p: string, s: string, t: string)
    requires (forall c :: c in p ==> !Letter(c)) && SameButCase(s, t) && Denotes(Tokenise(p), s)
    ensures Denotes(Tokenise(p), t)
    decreases |p|
  {
    hide Denotes;
    if p == [] {
      DenotesNothing(s);
      DenotesNothing(t);
    } else {
      var w := Width(p);
      DenotesFirst(Head(p), Tokenise(p[w..]), s);
      DenotesFirst(Head(p), Tokenise(p[w..]), t);
      var k: nat :| k <= |s| && Accepts(Head(p), s[..k]) && Denotes(Tokenise(p[w..]), s[k..]);
      CaseIsFree(p[w..], s[k..], t[k..]);
      assert p[0] in p;
      PartIsFree(Head(p), s[..k], t[..k]);
    }
  }

  lemma PartIsFree(token: Token, s: string, t: string)
    requires (token.Literal? ==> !Letter(token.c)) && SameButCase(s, t) && Accepts(token, s) && !token.Components?
    ensures Accepts(token, t)
  {
    assert forall i :: 0 <= i < |s| && t[i] == '/' ==> s[i] == '/';
  }

  /** The text with the case of every letter changed. */
  function Swapped(s: string): (t: string)
    ensures SameButCase(s, t)
  {
    if s == [] then [] else [OtherCase(s[0])] + Swapped(s[1..])
  }

  lemma {:induction false} SwappedJoin(a: string, b: string)
    ensures Swapped(a + b) == Swapped(a) + Swapped(b)
  {
    if a == [] {
      assert a + b == b;
    } else {
      assert (a + b)[1..] == a[1..] + b;
      SwappedJoin(a[1..], b);
    }
  }

  lemma {:induction false} ShortestIsShortest(p: string, c: char, text: string)
    requires Denotes(Tokenise(p), text)
    ensures |text| >= |Shortest(p, c)|
    decreases |p|
  {
    hide Denotes;
    if p == [] {
    } else {
      var w := Width(p);
      DenotesFirst(Head(p), Tokenise(p[w..]), text);
      var k: nat :| k <= |text| && Accepts(Head(p), text[..k]) && Denotes(Tokenise(p[w..]), text[k..]);
      ShortestIsShortest(p[w..], c, text[k..]);
    }
  }

  /** A shortest text leaves nothing to any wildcard but one character to each `?`, so its letters are the pattern's. */
  lemma {:induction false} SwappedFails(p: string, c: char)
    requires exists a :: a in p && Letter(a)
    ensures !Denotes(Tokenise(p), Swapped(Shortest(p, c)))
    decreases |p|
  {
    hide Denotes;
    var w := Width(p);
    var part, rest := ShortestHead(Head(p), c), Shortest(p[w..], c);
    var text := Swapped(part + rest);
    SwappedJoin(part, rest);
    DenotesFirst(Head(p), Tokenise(p[w..]), text);
    if k: nat :| k <= |text| && Accepts(Head(p), text[..k]) && Denotes(Tokenise(p[w..]), text[k..]) {
      ShortestIsShortest(p[w..], c, text[k..]);
      assert k <= |part|;
      LetterStays(p, c, k, text);
      assert text[k..] == Swapped(rest);
      SwappedFails(p[w..], c);
    }
  }

  lemma LetterStays(p: string, c: char, k: nat, text: string)
    requires p != [] && k <= |text| && k <= |ShortestHead(Head(p), c)| && Accepts(Head(p), text[..k])
    requires (exists a :: a in p && Letter(a)) && Swapped(ShortestHead(Head(p), c)) <= text
    ensures k == |ShortestHead(Head(p), c)| && exists a :: a in p[Width(p)..] && Letter(a)
  {
    var a :| a in p && Letter(a);
    var i :| 0 <= i < |p| && p[i] == a;
    if i >= Width(p) {
      assert p[Width(p)..][i - Width(p)] == a;
    }
  }

  /** A pattern matches whatever the case of letters exactly when it spells out no letter. */
  lemma IgnoresCaseExactly(p: string)
    ensures IgnoresCase(p) <==> forall c :: c in p ==> !Letter(c)
  {
    hide Denotes, Tokenise, SameButCase;
    if forall c :: c in p ==> !Letter(c) {
      forall s, t | SameButCase(s, t)
        ensures Denotes(Tokenise(p), s) <==> Denotes(Tokenise(p), t)
      {
        SameButCaseBack(s, t);
        if Denotes(Tokenise(p), s) {
          CaseIsFree(p, s, t);
        }
        if Denotes(Tokenise(p), t) {
          CaseIsFree(p, t, s);
        }
      }
    } else {
      ShortestMatches(p, '.');
      SwappedFails(p, '.');
      assert SameButCase(Shortest(p, '.'), Swapped(Shortest(p, '.')));
    }
  }

  lemma SameButCaseBack(s: string, t: string)
    requires SameButCase(s, t)
    ensures SameButCase(t, s)
  {
    forall i | 0 <= i < |s|
      ensures s[i] == t[i] || s[i] == OtherCase(t[i])
    {
    }
  }
}
