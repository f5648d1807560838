/** The text of suppression markers: `shader-clippy: allow(rule, ...)`. */
module Markers {
  import opened Options

  const MARKER := "shader-clippy:"
  const ALLOW := "allow"

  predicate IsBlank(c: char) {
    c == ' ' || c == '\t'
  }

  predicate IsIdentChar(c: char) {
    || c == '-' || c == '_' || c == '*' || c == ':'
    || 'a' <= c <= 'z' || 'A' <= c <= 'Z' || '0' <= c <= '9'
  }

  const LOWER: set<char> := {'a', 'b', 'c', 'd', 'e', 'f', 'g', 'h', 'i', 'j', 'k', 'l', 'm', 'n', 'o', 'p', 'q', 'r', 's', 't', 'u', 'v', 'w', 'x', 'y', 'z'}

  const UPPER: set<char> := {'A', 'B', 'C', 'D', 'E', 'F', 'G', 'H', 'I', 'J', 'K', 'L', 'M', 'N', 'O', 'P', 'Q', 'R', 'S', 'T', 'U', 'V', 'W', 'X', 'Y', 'Z'}

  const DIGITS: set<char> := {'0', '1', '2', '3', '4', '5', '6', '7', '8', '9'}

  /** What a rule name may be made of. */
  lemma NamesAreMadeOf(c: char)
    ensures IsIdentChar(c) <==> c in LOWER || c in UPPER || c in DIGITS || c in {'-', '_', '*', ':'}
  {
  }

  predicate IsIdent(t: string) {
    t != [] && forall k :: 0 <= k < |t| ==> IsIdentChar(t[k])
  }

  // -------------------------------------------------- what a marker means, on its text

  function SkipBlanks(t: string): string {
    if t != [] && IsBlank(t[0]) then SkipBlanks(t[1..]) else t
  }

  /** The longest prefix of identifier characters. */
  function IdentPrefix(t: string): (r: string)
    ensures r <= t && (forall k :: 0 <= k < |r| ==> IsIdentChar(r[k])) && (|r| < |t| ==> !IsIdentChar(t[|r|]))
  {
    if t != [] && IsIdentChar(t[0]) then [t[0]] + IdentPrefix(t[1..]) else []
  }

  /** The rules a comment names; none if it is no well-formed marker. Text behind the marker is ignored. */
  function Marker(t: string): Option<seq<string>> {
    var t1 := SkipBlanks(t);
    if MARKER <= t1 then AfterMarker(t1[|MARKER|..]) else None
  }

  function AfterMarker(t: string): Option<seq<string>> {
    var t1 := SkipBlanks(t);
    if ALLOW <= t1 then AfterAllow(t1[|ALLOW|..]) else None
  }

  function AfterAllow(t: string): Option<seq<string>> {
    var t1 := SkipBlanks(t);
    if t1 == [] || t1[0] != '(' then None else Rules(t1[1..])
  }

  lemma {:induction false} SkipBlanksShrinks(t: string)
    ensures |SkipBlanks(t)| <= |t| && SkipBlanks(t) == t[|t| - |SkipBlanks(t)|..]
  {
    if t != [] && IsBlank(t[0]) {
      SkipBlanksShrinks(t[1..]);
    }
  }

  /** The names up to the closing parenthesis, which may follow a comma. */
  function Rules(t: string): Option<seq<string>>
    decreases |t|
  {
    SkipBlanksShrinks(t);
    var t1 := SkipBlanks(t);
    if t == [] then None
    else if t1 != [] && t1[0] == ')' then Some([])
    else
      var name := IdentPrefix(t1);
      SkipBlanksShrinks(t1[|name|..]);
      var t2 := SkipBlanks(t1[|name|..]);
      if name == [] || t2 == [] then None
      else if t2[0] == ')' then Some([name])
      else if t2[0] != ',' then None
      else match Rules(t2[1..])
        case None => None
        case Some(rest) => Some([name] + rest)
  }

  // ----------------------------------------------------------------- round trip

  function Join(rules: seq<string>): string {
    if rules == [] then "" else if |rules| == 1 then rules[0] else rules[0] + ", " + Join(rules[1..])
  }

  function Print(rules: seq<string>): string {
    MARKER + " " + ALLOW + "(" + Join(rules) + ")"
  }

  lemma {:induction false} IdentPrefixOf(name: string, rest: string)
    requires (forall k :: 0 <= k < |name| ==> IsIdentChar(name[k])) && (rest != [] ==> !IsIdentChar(rest[0]))
    ensures IdentPrefix(name + rest) == name
  {
    if name == [] {
      assert name + rest == rest;
    } else {
      assert (name + rest)[1..] == name[1..] + rest;
      IdentPrefixOf(name[1..], rest);
    }
  }

  lemma OneBlank(t: string)
    requires t != [] && !IsBlank(t[0])
    ensures SkipBlanks(t) == t && SkipBlanks(" " + t) == t
  {
  }

  /** Names are read one at a time. */
  lemma RulesStep(name: string, tail: string)
    requires IsIdent(name) && tail != [] && (tail[0] == ',' || tail[0] == ')')
    ensures Rules(name + tail) == (if tail[0] == ')' then Some([name]) else Prepend([name], Rules(tail[1..])))
    ensures Rules(" " + name + tail) == Rules(name + tail)
  {
    var t := name + tail;
    assert t[0] == name[0] && !IsBlank(t[0]) && t[0] != ')';
    OneBlank(t);
    assert " " + name + tail == " " + t;
    IdentPrefixOf(name, tail);
    assert t[|name|..] == tail;
    OneBlank(tail);
  }

  lemma {:induction false} RulesOfJoin(rules: seq<string>, rest: string)
    requires rules != [] && forall r :: r in rules ==> IsIdent(r)
    ensures Rules(Join(rules) + ")" + rest) == Some(rules)
    ensures Rules(" " + Join(rules) + ")" + rest) == Some(rules)
    decreases |rules|
  {
    hide Rules, IsIdent;
    var name := rules[0];
    var tail := if |rules| == 1 then ")" + rest else ", " + Join(rules[1..]) + ")" + rest;
    assert Join(rules) + ")" + rest == name + tail;
    assert " " + Join(rules) + ")" + rest == " " + name + tail;
    RulesStep(name, tail);
    if |rules| > 1 {
      assert tail[1..] == " " + Join(rules[1..]) + ")" + rest;
      RulesOfJoin(rules[1..], rest);
      assert [name] + rules[1..] == rules;
    } else {
      assert rules == [name];
    }
  }

  lemma AfterAllowOf(body: string)
    ensures AfterAllow("(" + body) == Rules(body)
  {
  }

  lemma AfterMarkerOf(t: string)
    ensures AfterMarker(" " + (ALLOW + t)) == AfterAllow(t)
  {
    hide AfterAllow;
    OneBlank(ALLOW + t);
    assert (ALLOW + t)[|ALLOW|..] == t;
  }

  lemma MarkerOf(t: string)
    ensures Marker(MARKER + t) == AfterMarker(t) == Marker(" " + (MARKER + t))
  {
  }

  /** Every printed list of names is read back, whatever follows it in the comment. */
  lemma MarkerRoundTrip(rules: seq<string>, rest: string)
    requires rules != [] && forall r :: r in rules ==> IsIdent(r)
    ensures Marker(Print(rules) + rest) == Some(rules)
    ensures Marker(" " + Print(rules) + rest) == Some(rules)
  {
    hide Marker, AfterMarker, AfterAllow, Rules, IsIdent, Join;
    var body := Join(rules) + ")" + rest;
    var t := " " + (ALLOW + ("(" + body));
    assert Print(rules) + rest == MARKER + t;
    assert " " + Print(rules) + rest == " " + (MARKER + t);
    MarkerOf(t);
    AfterMarkerOf("(" + body);
    AfterAllowOf(body);
    RulesOfJoin(rules, rest);
  }

  /** What is read are identifiers only. */
  lemma {:induction false} RulesAreIdents(t: string)
    ensures Rules(t).Some? ==> forall r :: r in Rules(t).value ==> IsIdent(r)
    decreases |t|
  {
    var t1 := SkipBlanks(t);
    SkipBlanksShrinks(t);
    if t != [] && !(t1 != [] && t1[0] == ')') {
      var name := IdentPrefix(t1);
      SkipBlanksShrinks(t1[|name|..]);
      var t2 := SkipBlanks(t1[|name|..]);
      if name != [] && t2 != [] && t2[0] == ',' {
        RulesAreIdents(t2[1..]);
      }
    }
  }

  // ------------------------------------------------------------------ the parser

  method SkipInlineWs(src: string, i: nat, ghost hi: nat) returns (r: nat)
    requires i <= hi <= |src| && (hi < |src| ==> src[hi] == '\n')
    ensures i <= r <= hi && src[r..hi] == SkipBlanks(src[i..hi])
    ensures r < |src| ==> !IsBlank(src[r])
  {
    r := i;
    while r < |src| && IsBlank(src[r])
      invariant i <= r <= hi
      invariant SkipBlanks(src[r..hi]) == SkipBlanks(src[i..hi])
    {
      assert src[r..hi][1..] == src[r + 1..hi];
      r := r + 1;
    }
  }

  method SkipIdent(src: string, i: nat, ghost hi: nat) returns (r: nat)
    requires i <= hi <= |src| && (hi < |src| ==> src[hi] == '\n')
    ensures i <= r <= hi && src[i..r] == IdentPrefix(src[i..hi])
  {
    r := i;
    while r < |src| && IsIdentChar(src[r])
      invariant i <= r <= hi
      invariant forall k :: i <= k < r ==> IsIdentChar(src[k])
    {
      r := r + 1;
    }
    assert src[i..hi] == src[i..r] + src[r..hi];
    IdentPrefixOf(src[i..r], src[r..hi]);
  }

  lemma NeedleFits(src: string, i: nat, needle: string, hi: nat)
    requires i <= hi <= |src| && i + |needle| <= |src| && (hi < |src| ==> src[hi] == '\n') && '\n' !in needle
    ensures src[i..i + |needle|] == needle <==> needle <= src[i..hi]
  {
    var part := src[i..i + |needle|];
    if i + |needle| > hi {
      assert part[hi - i] == '\n';
    } else {
      assert src[i..hi][..|needle|] == part;
    }
  }

  /** Does `needle` stand at `i`? Where the line ends, no needle without a newline reaches beyond it. */
  method StartsWithAt(src: string, i: nat, needle: string, ghost hi: nat) returns (r: bool)
    requires i <= hi <= |src| && (hi < |src| ==> src[hi] == '\n') && '\n' !in needle
    ensures r <==> needle <= src[i..hi]
  {
    if i + |needle| > |src| {
      return false;
    }
    r := src[i..i + |needle|] == needle;
    NeedleFits(src, i, needle, hi);
  }

  /**
   Parses the comment text `[lo, hi)`, where `hi` is the end of its line. The helpers only know the
   end of the source, yet the position never passes the end of the comment.
   */
  method ParseMarker(src: string, lo: nat, hi: nat) returns (rules: seq<string>, wellFormed: bool)
    requires lo <= hi <= |src| && (hi < |src| ==> src[hi] == '\n')
    ensures wellFormed <==> Marker(src[lo..hi]).Some?
    ensures wellFormed ==> Marker(src[lo..hi]) == Some(rules)
  {
    hide Rules, SkipBlanks;
    rules, wellFormed := [], false;
    var i := SkipInlineWs(src, lo, hi);
    var ok := StartsWithAt(src, i, MARKER, hi);
    if !ok {
      return;
    }
    assert src[i..hi][|MARKER|..] == src[i + |MARKER|..hi];
    i := SkipInlineWs(src, i + |MARKER|, hi);
    ok := StartsWithAt(src, i, ALLOW, hi);
    if !ok {
      return;
    }
    assert src[i..hi][|ALLOW|..] == src[i + |ALLOW|..hi];
    i := SkipInlineWs(src, i + |ALLOW|, hi);
    if i >= hi || src[i] != '(' {
      return;
    }
    assert src[i..hi][1..] == src[i + 1..hi];
    i := i + 1;
    assert Marker(src[lo..hi]) == Rules(src[i..hi]);
    rules, wellFormed := ParseNames(src, i, hi);
  }

  /** The loop over the names behind the opening parenthesis. */
  method ParseNames(src: string, start: nat, hi: nat) returns (rules: seq<string>, wellFormed: bool)
    requires start <= hi <= |src| && (hi < |src| ==> src[hi] == '\n')
    ensures wellFormed <==> Rules(src[start..hi]).Some?
    ensures wellFormed ==> Rules(src[start..hi]) == Some(rules)
  {
    hide Rules, SkipBlanks, IdentPrefix;
    rules, wellFormed := [], false;
    var i := start;
    PrependNothing([], Rules(src[start..hi]));
    while i < hi
      invariant start <= i <= hi && !wellFormed
      invariant Rules(src[start..hi]) == Prepend(rules, Rules(src[i..hi]))
    {
      RulesIs(src[i..hi]);
      PrependNothing(rules, Some([]));
      i := SkipInlineWs(src, i, hi);
      if i < hi && src[i] == ')' {
        return rules, true;
      }
      var nameLo := i;
      i := SkipIdent(src, i, hi);
      if i == nameLo {
        return;
      }
      ghost var before, nameEnd := rules, i;
      rules := rules + [src[nameLo..i]];
      assert src[nameLo..hi][i - nameLo..] == src[i..hi];
      i := SkipInlineWs(src, i, hi);
      if i < hi && src[i] == ',' {
        assert src[i..hi][1..] == src[i + 1..hi];
        PrependMore(before, src[nameLo..nameEnd], Rules(src[i + 1..hi]));
        i := i + 1;
        continue;
      }
      if i < hi && src[i] == ')' {
        return rules, true;
      }
      return;
    }
    assert src[i..hi] == [];
    RulesIs([]);
    PrependNothing(rules, None);
  }

  lemma PrependNothing(rules: seq<string>, list: Option<seq<string>>)
    ensures Prepend([], list) == list
    ensures Prepend(rules, Some([])) == Some(rules) && Prepend(rules, None) == None
    ensures list.Some? ==> Prepend(rules, list).Some?
  {
    if list.Some? {
      assert [] + list.value == list.value;
    }
    assert rules + [] == rules;
  }

  lemma PrependMore(before: seq<string>, name: string, rest: Option<seq<string>>)
    ensures Prepend(before, Prepend([name], rest)) == Prepend(before + [name], rest)
  {
    if rest.Some? {
      assert before + ([name] + rest.value) == before + [name] + rest.value;
    }
  }

  lemma RulesIs(t: string)
    ensures Rules(t) ==
            var t1 := SkipBlanks(t);
            if t == [] then None
            else if t1 != [] && t1[0] == ')' then Some([])
            else
              var name := IdentPrefix(t1);
              var t2 := SkipBlanks(t1[|name|..]);
              if name == [] || t2 == [] then None
              else if t2[0] == ')' then Some([name])
              else if t2[0] != ',' then None
              else Prepend([name], Rules(t2[1..]))
  {
  }

  function Prepend(rules: seq<string>, list: Option<seq<string>>): Option<seq<string>> {
    match list
    case None => None
    case Some(more) => Some(rules + more)
  }

  // ------------------------------------------------------------ the language, written out

  /** A name with the blanks around it. */
  datatype Item = Item(before: string, name: string, after: string)

  predicate AllBlanks(t: string) {
    forall k :: 0 <= k < |t| ==> t[k] == ' ' || t[k] == '\t'
  }

  predicate GoodItem(item: Item) {
    AllBlanks(item.before) && IsIdent(item.name) && AllBlanks(item.after)
  }

  function Written(item: Item): string {
    item.before + item.name + item.after
  }

  function NamesOf(items: seq<Item>): seq<string> {
    seq(|items|, i requires 0 <= i < |items| => items[i].name)
  }

  /** The items, each with a comma behind it, then `end`. */
  function Commas(items: seq<Item>, end: string): string {
    if items == [] then end else Written(items[0]) + ("," + Commas(items[1..], end))
  }

  /** What stands behind the last comma: an item, or only blanks, and the closing parenthesis. */
  predicate GoodEnd(last: seq<Item>, blanks: string) {
    AllBlanks(blanks) && |last| <= 1 && forall i :: 0 <= i < |last| ==> GoodItem(last[i])
  }

  function EndText(last: seq<Item>, blanks: string, rest: string): string {
    (if last == [] then blanks else Written(last[0])) + (")" + rest)
  }

  lemma {:induction false} SkipsBlanks(blanks: string, t: string)
    requires AllBlanks(blanks) && (t != [] ==> !IsBlank(t[0]))
    ensures SkipBlanks(blanks + t) == t
  {
    if blanks == [] {
      assert blanks + t == t;
    } else {
      assert (blanks + t)[1..] == blanks[1..] + t;
      SkipsBlanks(blanks[1..], t);
    }
  }

  lemma ItemReads(item: Item, tail: string)
    requires GoodItem(item) && tail != [] && (tail[0] == ',' || tail[0] == ')')
    ensures Rules(Written(item) + tail) == if tail[0] == ')' then Some([item.name]) else Prepend([item.name], Rules(tail[1..]))
  {
    var t := Written(item) + tail;
    var t1 := item.name + (item.after + tail);
    assert t == item.before + t1 && t1[0] == item.name[0] && IsIdentChar(item.name[0]);
    SkipsBlanks(item.before, t1);
    assert (item.after + tail)[0] == if item.after == [] then tail[0] else item.after[0];
    IdentPrefixOf(item.name, item.after + tail);
    assert t1[|item.name|..] == item.after + tail;
    SkipsBlanks(item.after, tail);
    RulesIs(t);
  }

  /** Names with any blanks around them, separated by commas, with or without a comma behind the last, read back. */
  lemma {:induction false} ListReads(items: seq<Item>, last: seq<Item>, blanks: string, rest: string)
    requires (forall i :: 0 <= i < |items| ==> GoodItem(items[i])) && GoodEnd(last, blanks)
    ensures Rules(Commas(items, EndText(last, blanks, rest))) == Some(NamesOf(items + last))
    decreases |items|
  {
    hide Rules, Written, GoodItem, EndText, GoodEnd;
    var end := EndText(last, blanks, rest);
    if items == [] {
      assert items + last == last;
      EndReads(last, blanks, rest);
    } else {
      var more := Commas(items[1..], end);
      ItemReads(items[0], "," + more);
      assert ("," + more)[1..] == more;
      ListReads(items[1..], last, blanks, rest);
      assert items + last == [items[0]] + (items[1..] + last);
      OneMoreName(items[0], items[1..] + last);
    }
  }

  lemma OneMoreName(item: Item, items: seq<Item>)
    ensures NamesOf([item] + items) == [item.name] + NamesOf(items)
  {
  }

  lemma EndReads(last: seq<Item>, blanks: string, rest: string)
    requires GoodEnd(last, blanks)
    ensures Rules(EndText(last, blanks, rest)) == Some(NamesOf(last))
  {
    var end := EndText(last, blanks, rest);
    hide GoodItem, Written;
    if last == [] {
      SkipsBlanks(blanks, ")" + rest);
      RulesIs(end);
    } else {
      hide Rules;
      assert last == [last[0]] + [];
      ItemReads(last[0], ")" + rest);
      assert NamesOf(last) == [last[0].name];
    }
  }

  /** The marker in its own words, with any blanks in between. */
  lemma MarkerReadsWithBlanks(b0: string, b1: string, b2: string, items: seq<Item>, last: seq<Item>, blanks: string, rest: string)
    requires AllBlanks(b0) && AllBlanks(b1) && AllBlanks(b2)
    requires (forall i :: 0 <= i < |items| ==> GoodItem(items[i])) && GoodEnd(last, blanks)
    ensures Marker(b0 + ("shader-clippy:" + (b1 + ("allow" + (b2 + ("(" + Commas(items, EndText(last, blanks, rest)))))))) ==
            Some(NamesOf(items + last))
  {
    var t3 := "(" + Commas(items, EndText(last, blanks, rest));
    var t2 := "allow" + (b2 + t3);
    var t1 := "shader-clippy:" + (b1 + t2);
    ListReads(items, last, blanks, rest);
    SkipsBlanks(b0, t1);
    SkipsBlanks(b1, t2);
    SkipsBlanks(b2, t3);
    hide Rules, Commas, EndText;
    assert t1[|MARKER|..] == b1 + t2 && t2[|ALLOW|..] == b2 + t3 && t3[1..] == Commas(items, EndText(last, blanks, rest));
    assert MARKER <= t1 && ALLOW <= t2;
  }

  lemma {:induction false} BlanksBefore(t: string) returns (blanks: string)
    ensures AllBlanks(blanks) && t == blanks + SkipBlanks(t)
  {
    if t != [] && IsBlank(t[0]) {
      var more := BlanksBefore(t[1..]);
      blanks := [t[0]] + more;
      assert t == [t[0]] + t[1..];
    } else {
      blanks := "";
    }
  }

  /** Nothing else is read: a list of names has this form. */
  lemma {:induction false} ListHasForm(t: string) returns (items: seq<Item>, last: seq<Item>, blanks: string, rest: string)
    requires Rules(t).Some?
    ensures (forall i :: 0 <= i < |items| ==> GoodItem(items[i])) && GoodEnd(last, blanks)
    ensures t == Commas(items, EndText(last, blanks, rest))
    decreases |t|
  {
    RulesIs(t);
    var before := BlanksBefore(t);
    var t1 := SkipBlanks(t);
    if t1 != [] && t1[0] == ')' {
      items, last, blanks, rest := [], [], before, t1[1..];
      assert t1 == ")" + rest;
    } else {
      var name := IdentPrefix(t1);
      var tail := t1[|name|..];
      var after := BlanksBefore(tail);
      var t2 := SkipBlanks(tail);
      var item := Item(before, name, after);
      assert t1 == name + tail && tail == after + t2;
      assert t == Written(item) + t2;
      SkipBlanksShrinks(t);
      SkipBlanksShrinks(tail);
      if t2[0] == ')' {
        items, last, blanks, rest := [], [item], "", t2[1..];
        assert t2 == ")" + rest;
      } else {
        assert t2 == "," + t2[1..];
        var more;
        more, last, blanks, rest := ListHasForm(t2[1..]);
        items := [item] + more;
        assert items[1..] == more;
      }
    }
  }

  lemma MarkerHasForm(t: string) returns (b0: string, b1: string, b2: string, items: seq<Item>, last: seq<Item>, blanks: string, rest: string)
    requires Marker(t).Some?
    ensures AllBlanks(b0) && AllBlanks(b1) && AllBlanks(b2)
    ensures (forall i :: 0 <= i < |items| ==> GoodItem(items[i])) && GoodEnd(last, blanks)
    ensures t == b0 + ("shader-clippy:" + (b1 + ("allow" + (b2 + ("(" + Commas(items, EndText(last, blanks, rest)))))))
  {
    hide Rules, Commas, EndText;
    b0 := BlanksBefore(t);
    var t1 := SkipBlanks(t);
    assert t1 == "shader-clippy:" + t1[|MARKER|..];
    b1 := BlanksBefore(t1[|MARKER|..]);
    var t2 := SkipBlanks(t1[|MARKER|..]);
    assert t2 == "allow" + t2[|ALLOW|..];
    b2 := BlanksBefore(t2[|ALLOW|..]);
    var t3 := SkipBlanks(t2[|ALLOW|..]);
    assert t3 == "(" + t3[1..];
    items, last, blanks, rest := ListHasForm(t3[1..]);
  }
}
