/** Lines and columns of byte offsets. */
module LineTable {

  /** Line and column, both counted from one. */
  datatype LineCol = LineCol(line: nat, column: nat)

  function Newlines(s: string): nat {
    if s == [] then 0
    else Newlines(s[..|s| - 1]) + if s[|s| - 1] == '\n' then 1 else 0
  }

  /** The positions after the newlines among the first `n` characters. */
  function AfterNewlines(s: string, n: nat): seq<nat>
    requires n <= |s|
  {
    if n == 0 then []
    else AfterNewlines(s, n - 1) + if s[n - 1] == '\n' then [n] else []
  }

  /** Where the lines start. */
  function LineStarts(s: string): seq<nat> {
    [0] + AfterNewlines(s, |s|)
  }

  lemma {:induction false} AfterNewlinesAre(s: string, n: nat)
    requires n <= |s|
    ensures |AfterNewlines(s, n)| == Newlines(s[..n])
    ensures forall i :: 0 <= i < |AfterNewlines(s, n)| ==>
              0 < AfterNewlines(s, n)[i] <= n && s[AfterNewlines(s, n)[i] - 1] == '\n'
    ensures forall i, j :: 0 <= i < j < |AfterNewlines(s, n)| ==> AfterNewlines(s, n)[i] < AfterNewlines(s, n)[j]
    ensures forall p :: 0 < p <= n && s[p - 1] == '\n' ==> p in AfterNewlines(s, n)
  {
    if n > 0 {
      AfterNewlinesAre(s, n - 1);
      assert s[..n][..n - 1] == s[..n - 1];
    }
  }

  /** Counting further only adds later starts. */
  lemma {:induction false} AfterNewlinesGrow(s: string, n: nat, m: nat)
    requires n <= m <= |s|
    ensures AfterNewlines(s, n) <= AfterNewlines(s, m)
    ensures forall i :: |AfterNewlines(s, n)| <= i < |AfterNewlines(s, m)| ==> AfterNewlines(s, m)[i] > n
  {
    if n < m {
      AfterNewlinesGrow(s, n, m - 1);
    }
  }

  /** Line starts begin at 0 and rise; each but the first follows a newline, and every newline has one. */
  lemma LineStartsAre(s: string)
    ensures var starts := LineStarts(s);
            && |starts| == 1 + Newlines(s)
            && starts[0] == 0
            && (forall i, j :: 0 <= i < j < |starts| ==> starts[i] < starts[j])
            && (forall i :: 0 < i < |starts| ==> 0 < starts[i] <= |s| && s[starts[i] - 1] == '\n')
            && (forall p :: 0 < p <= |s| && s[p - 1] == '\n' ==> p in starts)
  {
    AfterNewlinesAre(s, |s|);
    assert s[..|s|] == s;
  }

  function Clamped(s: string, offset: nat): nat {
    if offset < |s| then offset else |s|
  }

  /** The starts up to an offset come first, and there is one more than newlines before it. */
  lemma StartsSplit(s: string, c: nat)
    requires c <= |s|
    ensures Newlines(s[..c]) < |LineStarts(s)|
    ensures forall i :: 0 <= i <= Newlines(s[..c]) ==> LineStarts(s)[i] <= c
    ensures forall i :: Newlines(s[..c]) < i < |LineStarts(s)| ==> LineStarts(s)[i] > c
  {
    AfterNewlinesAre(s, c);
    AfterNewlinesGrow(s, c, |s|);
    var k := |AfterNewlines(s, c)|;
    assert forall i :: 0 < i <= k ==> LineStarts(s)[i] == AfterNewlines(s, c)[i - 1];
  }

  /** Where the starts pass an offset tells the newlines before it. */
  lemma StartsUpTo(s: string, c: nat, u: nat)
    requires c <= |s| && u <= |LineStarts(s)|
    requires forall i :: 0 <= i < u ==> LineStarts(s)[i] <= c
    requires forall i :: u <= i < |LineStarts(s)| ==> LineStarts(s)[i] > c
    ensures u == 1 + Newlines(s[..c])
  {
    hide LineStarts, Newlines;
    StartsSplit(s, c);
    var k := Newlines(s[..c]);
    assert LineStarts(s)[k] <= c;
    assert k + 1 < |LineStarts(s)| ==> LineStarts(s)[k + 1] > c;
  }

  /** The line and column of an offset; offsets past the end count as the end. */
  function LineColOf(s: string, offset: nat): LineCol {
    var c := Clamped(s, offset);
    var line := Newlines(s[..c]);
    (LineStartBefore(s, c);
     LineCol(line + 1, c - LineStarts(s)[line] + 1))
  }

  lemma LineStartBefore(s: string, c: nat)
    requires c <= |s|
    ensures var line := Newlines(s[..c]);
            line < |LineStarts(s)| && LineStarts(s)[line] <= c &&
            (line + 1 < |LineStarts(s)| ==> c < LineStarts(s)[line + 1])
  {
    StartsSplit(s, c);
  }

  /** Adding the column to the start of the line gives the offset back. */
  lemma OffsetRoundTrip(s: string, offset: nat)
    ensures var at := LineColOf(s, offset);
            at.line - 1 < |LineStarts(s)| && LineStarts(s)[at.line - 1] + at.column - 1 == Clamped(s, offset)
  {
    LineStartBefore(s, Clamped(s, offset));
  }

  /** Every line and every column on it is the place of the offset they add up to. */
  lemma PlaceRoundTrip(s: string, at: LineCol)
    requires 1 <= at.line <= |LineStarts(s)| && 1 <= at.column
    requires var offset := LineStarts(s)[at.line - 1] + at.column - 1;
             offset <= |s| && (at.line < |LineStarts(s)| ==> offset < LineStarts(s)[at.line])
    ensures LineColOf(s, LineStarts(s)[at.line - 1] + at.column - 1) == at
  {
    LineStartsAre(s);
    var offset := LineStarts(s)[at.line - 1] + at.column - 1;
    forall i | at.line <= i < |LineStarts(s)|
      ensures LineStarts(s)[i] > offset
    {
      assert i > at.line ==> LineStarts(s)[at.line] < LineStarts(s)[i];
    }
    StartsUpTo(s, offset, at.line);
  }

  /** The line from `start` ends at `end`: at the next newline or at the end of the text. */
  predicate LineSpans(s: string, start: nat, end: nat) {
    start <= end <= |s| && '\n' !in s[start..end] && (end == |s| || s[end] == '\n')
  }

  /** The start of the line an offset is on. */
  function LineStartOf(s: string, offset: nat): (start: nat)
    ensures start <= Clamped(s, offset)
  {
    var line := Newlines(s[..Clamped(s, offset)]);
    (LineStartBefore(s, Clamped(s, offset)); LineStarts(s)[line])
  }

  /** A line without its terminator; a carriage return at the end counts as part of that. */
  function WithoutReturn(line: string): string {
    if line != "" && line[|line| - 1] == '\r' then line[..|line| - 1] else line
  }

  /** `text` is the line around `offset` without its terminator. */
  ghost predicate IsLineText(s: string, offset: nat, text: string) {
    var start := LineStartOf(s, offset);
    exists end: nat :: LineSpans(s, start, end) && Clamped(s, offset) <= end && text == WithoutReturn(s[start..end])
  }

  /** It stands between two newlines, or the ends of the text, with the offset in between, and a carriage return in front of the second is left out. */
  lemma LineTextIs(s: string, offset: nat, text: string) returns (start: nat, end: nat)
    requires IsLineText(s, offset, text)
    ensures start <= end <= |s| && start <= (if offset < |s| then offset else |s|) <= end
    ensures (start == 0 || s[start - 1] == '\n') && (end == |s| || s[end] == '\n')
    ensures forall k :: start <= k < end ==> s[k] != '\n'
    ensures text == s[start..if start < end && s[end - 1] == '\r' then end - 1 else end]
  {
    start := LineStartOf(s, offset);
    StartOfLine(s, offset);
    end := EndOfLineText(s, offset, start, text);
    hide LineStartOf, LineSpans;
    var line := s[start..end];
    if start < end {
      assert line[|line| - 1] == s[end - 1] && line[..|line| - 1] == s[start..end - 1];
    }
  }

  lemma EndOfLineText(s: string, offset: nat, start: nat, text: string) returns (end: nat)
    requires IsLineText(s, offset, text) && start == LineStartOf(s, offset)
    ensures LineSpans(s, start, end) && Clamped(s, offset) <= end && text == WithoutReturn(s[start..end])
    ensures forall k :: start <= k < end ==> s[k] != '\n'
  {
    hide LineStartOf, WithoutReturn;
    end :| LineSpans(s, start, end) && Clamped(s, offset) <= end && text == WithoutReturn(s[start..end]);
    forall k | start <= k < end
      ensures s[k] != '\n'
    {
      assert s[start..end][k - start] in s[start..end];
    }
  }

  lemma StartOfLine(s: string, offset: nat)
    ensures var start := LineStartOf(s, offset); start <= Clamped(s, offset) && (start == 0 || s[start - 1] == '\n')
  {
    LineStartsAre(s);
    LineStartBefore(s, Clamped(s, offset));
    hide LineStarts, Newlines;
  }

  lemma LineTextIsUnique(s: string, offset: nat, a: string, b: string)
    requires IsLineText(s, offset, a) && IsLineText(s, offset, b)
    ensures a == b
  {
  }

  /** The line of an offset runs up to the newline before the next start, or to the end of the text. */
  lemma LineRunsTo(s: string, offset: nat, next: nat) returns (end: nat)
    requires var line := Newlines(s[..Clamped(s, offset)]) + 1;
             next == if line < |LineStarts(s)| then LineStarts(s)[line] else |s|
    ensures var start := LineStartOf(s, offset);
            && start <= next <= |s|
            && end == (if start < next && s[next - 1] == '\n' then next - 1 else next)
            && LineSpans(s, start, end) && Clamped(s, offset) <= end
            && (start > 0 ==> s[start - 1] == '\n')
  {
    var c := Clamped(s, offset);
    var start, line := LineStartOf(s, offset), Newlines(s[..c]);
    StartsSplit(s, c);
    LineStartsAre(s);
    hide LineStarts, Newlines;
    forall p | start <= p < |s| && s[p] == '\n'
      ensures p + 1 >= next && line + 1 < |LineStarts(s)|
    {
      assert s[p + 1 - 1] == '\n';
      assert p + 1 in LineStarts(s);
      var i :| 0 <= i < |LineStarts(s)| && LineStarts(s)[i] == p + 1;
      assert i > line;
    }
    end := if start < next && s[next - 1] == '\n' then next - 1 else next;
    if line + 1 < |LineStarts(s)| {
      assert s[next - 1] == '\n';
    }
  }

  class SourceFile {
    const contents: string
    var lineStarts: seq<nat>

    predicate Valid()
      reads `lineStarts
    {
      lineStarts == LineStarts(contents)
    }

    constructor (contents: string)
      ensures this.contents == contents && Valid()
    {
      this.contents := contents;
      lineStarts := [];
      new;
      BuildLineStarts();
    }

    method BuildLineStarts()
      modifies `lineStarts
      ensures Valid()
    {
      lineStarts := [];
      lineStarts := lineStarts + [0];
      for i := 0 to |contents|
        invariant lineStarts == [0] + AfterNewlines(contents, i)
      {
        if contents[i] == '\n' {
          lineStarts := lineStarts + [i + 1];
        }
      }
    }

    /** The first index whose start is greater than `value`, by binary search. */
    method UpperBound(value: nat) returns (u: nat)
      requires Valid()
      ensures u <= |lineStarts|
      ensures forall i :: 0 <= i < u ==> lineStarts[i] <= value
      ensures forall i :: u <= i < |lineStarts| ==> lineStarts[i] > value
    {
      LineStartsAre(contents);
      var lo, hi := 0, |lineStarts|;
      while lo < hi
        invariant 0 <= lo <= hi <= |lineStarts|
        invariant forall i :: 0 <= i < lo ==> lineStarts[i] <= value
        invariant forall i :: hi <= i < |lineStarts| ==> lineStarts[i] > value
      {
        var mid := (lo + hi) / 2;
        if lineStarts[mid] > value {
          hi := mid;
        } else {
          lo := mid + 1;
        }
      }
      return lo;
    }

    method LineColAt(offset: nat) returns (at: LineCol)
      requires Valid()
      ensures at == LineColOf(contents, offset)
    {
      var clamped := if offset < |contents| then offset else |contents|;
      var it := UpperBound(clamped);
      StartsUpTo(contents, clamped, it);
      at := LineCol(it, clamped - lineStarts[it - 1] + 1);
    }

    method LineText(offset: nat) returns (text: string)
      requires Valid()
      ensures IsLineText(contents, offset, text)
    {
      var clamped := if offset < |contents| then offset else |contents|;
      var it := UpperBound(clamped);
      StartsUpTo(contents, clamped, it);
      var start := lineStarts[it - 1];
      var next := |contents|;
      if it < |lineStarts| {
        next := lineStarts[it];
      }
      ghost var lineEnd := LineRunsTo(contents, offset, next);
      hide LineStarts, Newlines, LineStartOf, LineSpans;
      assert start == LineStartOf(contents, offset) by { StartIs(contents, offset, start); }
      if next <= start {
        assert contents[start..lineEnd] == "";
        return "";
      }
      text := WithoutTerminator(start, next);
      assert text == WithoutReturn(contents[start..lineEnd]);
    }

    method WithoutTerminator(start: nat, next: nat) returns (text: string)
      requires start < next <= |contents|
      requires start > 0 ==> contents[start - 1] == '\n'
      ensures text == WithoutReturn(contents[start..if contents[next - 1] == '\n' then next - 1 else next])
    {
      var end := next;
      if end > 0 && contents[end - 1] == '\n' {
        end := end - 1;
      }
      ghost var line := contents[start..end];
      if end > start {
        assert line[|line| - 1] == contents[end - 1];
      }
      if end > 0 && contents[end - 1] == '\r' {
        end := end - 1;
      }
      if end <= start {
        return "";
      }
      return contents[start..end];
    }
  }

  lemma StartIs(s: string, offset: nat, start: nat)
    requires var line := Newlines(s[..Clamped(s, offset)]); line < |LineStarts(s)| && start == LineStarts(s)[line]
    ensures start == LineStartOf(s, offset)
  {
  }
}
