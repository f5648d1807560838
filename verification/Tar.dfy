/** Pulling one file out of a tar archive: the header walk against the ustar layout. */
module Tar {
  import opened Options

  type Byte = b: int | 0 <= b < 256

  const BLOCK := 512
  const NUL: Byte := 0
  const SPACE: Byte := 32
  const SLASH: Byte := 47
  const ZERO: Byte := 48
  const SEVEN: Byte := 55
  const REGULAR: Byte := 48

  // ---------------------------------------------------------------- reading a header

  predicate Blank(b: Byte) {
    b == NUL || b == SPACE
  }

  function StripNuls(s: seq<Byte>): seq<Byte> {
    if s != [] && s[|s| - 1] == NUL then StripNuls(s[..|s| - 1]) else s
  }

  function StripBlanks(s: seq<Byte>): seq<Byte> {
    if s != [] && Blank(s[|s| - 1]) then StripBlanks(s[..|s| - 1]) else s
  }

  /** ASCII decoding keeps the low seven bits. */
  function Ascii(s: seq<Byte>): (r: seq<Byte>)
    ensures |r| == |s|
  {
    seq(|s|, i requires 0 <= i < |s| => s[i] % 128)
  }

  predicate Whitespace(b: Byte) {
    b == SPACE || 9 <= b <= 13
  }

  predicate OctalDigit(b: Byte) {
    ZERO <= b <= SEVEN
  }

  function SkipWhitespace(s: seq<Byte>): seq<Byte> {
    if s != [] && Whitespace(s[0]) then SkipWhitespace(s[1..]) else s
  }

  function LeadingDigits(s: seq<Byte>): seq<Byte> {
    if s != [] && OctalDigit(s[0]) then [s[0]] + LeadingDigits(s[1..]) else []
  }

  function OctalValue(digits: seq<Byte>): nat {
    if digits == [] then 0
    else
      var d := digits[|digits| - 1];
      8 * OctalValue(digits[..|digits| - 1]) + if d >= ZERO then d - ZERO else 0
  }

  /** Radix-8 parsing: white space, a sign, and as many digits as there are; not a number without digits. */
  function ParseOctal(s: seq<Byte>): Option<int> {
    var t := SkipWhitespace(s);
    var negative := t != [] && t[0] == '-' as int;
    var digits := LeadingDigits(if t != [] && (negative || t[0] == '+' as int) then t[1..] else t);
    var value: int := OctalValue(digits);
    if digits == [] then None else Some(if negative then -value else value)
  }

  lemma {:induction false} SkipsWhite(white: seq<Byte>, t: seq<Byte>)
    requires (forall b :: b in white ==> Whitespace(b)) && (t != [] ==> !Whitespace(t[0]))
    ensures SkipWhitespace(white + t) == t
  {
    if white == [] {
      assert white + t == t;
    } else {
      assert (white + t)[1..] == white[1..] + t;
      SkipsWhite(white[1..], t);
    }
  }

  lemma {:induction false} DigitsLead(digits: seq<Byte>, rest: seq<Byte>)
    requires (forall b :: b in digits ==> OctalDigit(b)) && (rest != [] ==> !OctalDigit(rest[0]))
    ensures LeadingDigits(digits + rest) == digits
  {
    if digits == [] {
      assert digits + rest == rest;
    } else {
      assert (digits + rest)[1..] == digits[1..] + rest;
      DigitsLead(digits[1..], rest);
    }
  }

  /** White space, an optional sign, octal digits and anything else reads as the number; without digits it is none. */
  lemma OctalParses(white: seq<Byte>, sign: seq<Byte>, digits: seq<Byte>, rest: seq<Byte>)
    requires (forall b :: b in white ==> b == 32 || 9 <= b <= 13) && sign in {[], [43], [45]}
    requires (forall b :: b in digits ==> 48 <= b < 56) && (rest != [] ==> !(48 <= rest[0] < 56))
    requires digits == [] && sign == [] && rest != [] ==> rest[0] != 43 && rest[0] != 45 && rest[0] != 32 && !(9 <= rest[0] <= 13)
    ensures ParseOctal(white + (sign + (digits + rest))) ==
            var value: int := OctalValue(digits);
            if digits == [] then None else Some(if sign == [45] then -value else value)
  {
    var t := sign + (digits + rest);
    assert sign == [] ==> t == digits + rest;
    assert sign != [] ==> t[1..] == digits + rest && t[0] == sign[0];
    assert digits == [] ==> digits + rest == rest;
    assert digits != [] ==> (digits + rest)[0] in digits;
    SkipsWhite(white, t);
    DigitsLead(digits, rest);
    hide OctalValue, LeadingDigits, SkipWhitespace;
  }

  function WithoutTrailingSlashes(p: seq<Byte>): seq<Byte> {
    if p != [] && p[|p| - 1] == SLASH then WithoutTrailingSlashes(p[..|p| - 1]) else p
  }

  function AfterLastSlash(p: seq<Byte>): seq<Byte> {
    if SLASH in p then AfterLastSlash(p[1..]) else p
  }

  function Basename(p: seq<Byte>): seq<Byte> {
    AfterLastSlash(WithoutTrailingSlashes(p))
  }

  /** The base name is what stands behind the last slash; slashes at the end do not count. */
  lemma BasenameIs(dir: seq<Byte>, name: seq<Byte>)
    requires name != [] && SLASH !in name
    ensures Basename(name) == name && Basename(dir + [SLASH] + name) == name
    ensures Basename(dir + [SLASH]) == Basename(dir)
  {
    assert (dir + [SLASH])[..|dir|] == dir;
    assert (dir + [SLASH] + name)[|dir| + |name|] in name;
    NoTrailingSlash(name);
    NoTrailingSlash(dir + [SLASH] + name);
    BehindSlash(dir, name);
  }

  lemma NoTrailingSlash(p: seq<Byte>)
    requires p != [] && p[|p| - 1] != SLASH
    ensures WithoutTrailingSlashes(p) == p
  {
  }

  lemma {:induction false} BehindSlash(dir: seq<Byte>, name: seq<Byte>)
    requires SLASH !in name
    ensures AfterLastSlash(dir + [SLASH] + name) == name
    decreases |dir|
  {
    var p := dir + [SLASH] + name;
    if dir == [] {
      assert p[0] == SLASH && p[1..] == name;
    } else {
      assert p[|dir|] == SLASH && p[1..] == dir[1..] + [SLASH] + name;
      BehindSlash(dir[1..], name);
    }
  }

  predicate ZeroBlock(h: seq<Byte>) {
    forall i :: 0 <= i < |h| ==> h[i] == 0
  }

  /** A place in a buffer: negative ones count from the back, and none lies outside. */
  function Place(buf: seq<Byte>, i: int): (k: nat)
    ensures k <= |buf|
  {
    if i > |buf| then |buf| else if i >= 0 then i else if |buf| + i >= 0 then |buf| + i else 0
  }

  function Subarray(buf: seq<Byte>, lo: int, hi: int): seq<Byte> {
    if Place(buf, lo) < Place(buf, hi) then buf[Place(buf, lo)..Place(buf, hi)] else []
  }

  /** The remainder has the sign of the dividend. */
  function Remainder(a: int, b: int): int
    requires b > 0
  {
    if a >= 0 then a % b else -((-a) % b)
  }

  /** Where the next header is, for data of `size` from `offset`. */
  function NextOffset(offset: int, size: int): int {
    offset + size + Remainder(BLOCK - Remainder(size, BLOCK), BLOCK)
  }

  datatype Header = Header(name: seq<Byte>, size: Option<int>, typeflag: Byte)

  function TypeFlag(h: seq<Byte>): Byte {
    if |h| > 156 then h[156] else NUL
  }

  function ReadHeader(h: seq<Byte>): Header {
    Header(StripNuls(Subarray(h, 0, 100)), ParseOctal(StripBlanks(Ascii(Subarray(h, 124, 136)))), TypeFlag(h))
  }

  predicate Wanted(h: Header, exe: seq<Byte>) {
    (h.typeflag == REGULAR || h.typeflag == NUL) && Basename(h.name) == exe
  }

  predicate AtHeader(buf: seq<Byte>, offset: int) {
    offset + BLOCK <= |buf| && !ZeroBlock(Subarray(buf, offset, offset + BLOCK))
  }

  function HeaderAt(buf: seq<Byte>, offset: int): Header {
    ReadHeader(Subarray(buf, offset, offset + BLOCK))
  }

  /** Where the walk goes on from `offset`, if it does. */
  function Next(buf: seq<Byte>, exe: seq<Byte>, offset: int): Option<int> {
    var h := HeaderAt(buf, offset);
    if !AtHeader(buf, offset) || Wanted(h, exe) || h.size.None? then None
    else Some(NextOffset(offset + BLOCK, h.size.value))
  }

  /** What the walk brings back when it ends at `offset`. */
  function Found(buf: seq<Byte>, exe: seq<Byte>, offset: int): Option<seq<Byte>> {
    var h := HeaderAt(buf, offset);
    var data := offset + BLOCK;
    if AtHeader(buf, offset) && Wanted(h, exe) then Some(if h.size.Some? then Subarray(buf, data, data + h.size.value) else [])
    else None
  }

  /** The walk from `offset` goes on at most `n` times. */
  predicate EndsWithin(buf: seq<Byte>, exe: seq<Byte>, offset: int, n: nat)
    decreases n
  {
    var next := Next(buf, exe, offset);
    next.Some? ==> n > 0 && EndsWithin(buf, exe, next.value, n - 1)
  }

  ghost predicate Ends(buf: seq<Byte>, exe: seq<Byte>, offset: int) {
    exists n: nat :: EndsWithin(buf, exe, offset, n)
  }

  function ExtractedWithin(buf: seq<Byte>, exe: seq<Byte>, offset: int, n: nat): Option<seq<Byte>>
    requires EndsWithin(buf, exe, offset, n)
    decreases n
  {
    hide Next, Found;
    var next := Next(buf, exe, offset);
    if next.None? then Found(buf, exe, offset) else ExtractedWithin(buf, exe, next.value, n - 1)
  }

  /** What the walk from `offset` brings back. */
  ghost function Extracted(buf: seq<Byte>, exe: seq<Byte>, offset: int): Option<seq<Byte>>
    requires Ends(buf, exe, offset)
  {
    var n: nat :| EndsWithin(buf, exe, offset, n);
    ExtractedWithin(buf, exe, offset, n)
  }

  lemma {:induction false} BoundsDoNotMatter(buf: seq<Byte>, exe: seq<Byte>, offset: int, n: nat, m: nat)
    requires EndsWithin(buf, exe, offset, n) && EndsWithin(buf, exe, offset, m)
    ensures ExtractedWithin(buf, exe, offset, n) == ExtractedWithin(buf, exe, offset, m)
    decreases n
  {
    hide Next, Found;
    if Next(buf, exe, offset).None? {
    } else {
      BoundsDoNotMatter(buf, exe, Next(buf, exe, offset).value, n - 1, m - 1);
    }
  }

  lemma ExtractedIs(buf: seq<Byte>, exe: seq<Byte>, offset: int, n: nat)
    requires EndsWithin(buf, exe, offset, n)
    ensures Ends(buf, exe, offset) && Extracted(buf, exe, offset) == ExtractedWithin(buf, exe, offset, n)
  {
    hide EndsWithin, ExtractedWithin;
    var m: nat :| EndsWithin(buf, exe, offset, m) && Extracted(buf, exe, offset) == ExtractedWithin(buf, exe, offset, m);
    BoundsDoNotMatter(buf, exe, offset, n, m);
  }

  /** The walk, one turn at a time. */
  lemma OneTurn(buf: seq<Byte>, exe: seq<Byte>, offset: int, n: nat)
    requires EndsWithin(buf, exe, offset, n)
    ensures Ends(buf, exe, offset)
    ensures var next := Next(buf, exe, offset);
            if next.None? then Extracted(buf, exe, offset) == Found(buf, exe, offset)
            else n > 0 && EndsWithin(buf, exe, next.value, n - 1) && Ends(buf, exe, next.value)
                 && Extracted(buf, exe, offset) == Extracted(buf, exe, next.value)
  {
    hide Next, Found, Extracted, Ends;
    ExtractedIs(buf, exe, offset, n);
    var next := Next(buf, exe, offset);
    if next.Some? {
      ExtractedIs(buf, exe, next.value, n - 1);
    }
  }

  /** The loop; its offset stays on block boundaries. `None` stands for the error that the file is not there. */
  method ExtractTar(buf: seq<Byte>, exe: seq<Byte>) returns (file: Option<seq<Byte>>)
    requires Ends(buf, exe, 0)
    ensures file == Extracted(buf, exe, 0)
  {
    hide EndsWithin, Ends, Extracted, ExtractedWithin, Subarray, StripNuls, ParseOctal, Basename, NextOffset, ZeroBlock, TypeFlag;
    var offset := 0;
    ghost var n := TurnsOf(buf, exe, 0);
    OneTurn(buf, exe, 0, n);
    while offset + BLOCK <= |buf|
      invariant offset % BLOCK == 0
      invariant EndsWithin(buf, exe, offset, n) && Ends(buf, exe, offset)
      invariant Extracted(buf, exe, 0) == Extracted(buf, exe, offset)
      decreases n
    {
      OneTurn(buf, exe, offset, n);
      ghost var from := offset;
      var header := Subarray(buf, offset, offset + BLOCK);
      offset := offset + BLOCK;
      if ZeroBlock(header) {
        return None;
      }
      var rawName := StripNuls(Subarray(header, 0, 100));
      var size := ParseOctal(StripBlanks(Ascii(Subarray(header, 124, 136))));
      var typeflag := TypeFlag(header);
      assert HeaderAt(buf, from) == Header(rawName, size, typeflag);
      if typeflag == REGULAR || typeflag == NUL {
        if Basename(rawName) == exe {
          return Some(if size.Some? then Subarray(buf, offset, offset + size.value) else []);
        }
      }
      if size.None? {
        return None;
      }
      AlignedNext(offset, size.value);
      offset := NextOffset(offset, size.value);
      n := n - 1;
    }
    OneTurn(buf, exe, offset, n);
    return None;
  }

  ghost function TurnsOf(buf: seq<Byte>, exe: seq<Byte>, offset: int): (n: nat)
    requires Ends(buf, exe, offset)
    ensures EndsWithin(buf, exe, offset, n)
  {
    var n: nat :| EndsWithin(buf, exe, offset, n);
    n
  }

  lemma AlignedNext(offset: int, size: int)
    requires offset % BLOCK == 0
    ensures NextOffset(offset, size) % BLOCK == 0
    ensures size >= 0 ==> offset + size <= NextOffset(offset, size) < offset + size + BLOCK
    ensures NextOffset(offset, size) >= offset <==> size > -BLOCK
  {
    if size < 0 {
      var r := (-size) % BLOCK;
      assert Remainder(size, BLOCK) == -r;
      assert Remainder(BLOCK + r, BLOCK) == r;
    } else {
      var r := size % BLOCK;
      assert Remainder(BLOCK - r, BLOCK) == if r == 0 then 0 else BLOCK - r;
    }
  }

  // -------------------------------------------------------------------------- ending

  /** Where the walk stands after going on `i` times. */
  function Standing(buf: seq<Byte>, exe: seq<Byte>, offset: int, i: nat): Option<int> {
    if i == 0 then Some(offset)
    else
      var before := Standing(buf, exe, offset, i - 1);
      if before.None? then None else Next(buf, exe, before.value)
  }

  ghost predicate ComesBack(buf: seq<Byte>, exe: seq<Byte>, offset: int, i: nat, j: nat) {
    i < j && Standing(buf, exe, offset, i).Some? && Standing(buf, exe, offset, i) == Standing(buf, exe, offset, j)
  }

  /** The walk ends exactly when it never comes back to a place where it stood before. */
  lemma EndsExactly(buf: seq<Byte>, exe: seq<Byte>, offset: int)
    ensures Ends(buf, exe, offset) <==> forall i: nat, j: nat :: !ComesBack(buf, exe, offset, i, j)
  {
    hide Ends, ComesBack;
    if Ends(buf, exe, offset) {
      forall i: nat, j: nat
        ensures !ComesBack(buf, exe, offset, i, j)
      {
        EndingNeverComesBack(buf, exe, offset, i, j);
      }
    } else {
      var i, j := EndlessComesBack(buf, exe, offset);
    }
  }

  lemma EndingNeverComesBack(buf: seq<Byte>, exe: seq<Byte>, offset: int, i: nat, j: nat)
    requires Ends(buf, exe, offset)
    ensures !ComesBack(buf, exe, offset, i, j)
  {
    hide Next, Standing, EndsWithin, Ends;
    if ComesBack(buf, exe, offset, i, j) {
      var n := TurnsOf(buf, exe, offset);
      StandingEnds(buf, exe, offset, n, i);
      StandingFrom(buf, exe, offset, i, j - i);
      NeverEnds(buf, exe, Standing(buf, exe, offset, i).value, n - i, j - i);
    }
  }

  lemma EndlessComesBack(buf: seq<Byte>, exe: seq<Byte>, offset: int) returns (i: nat, j: nat)
    requires !Ends(buf, exe, offset)
    ensures ComesBack(buf, exe, offset, i, j)
  {
    hide Next, Standing, EndsWithin, Ends;
    var size := 2 * |buf| + BLOCK + 1;
    var at := seq(size + 1, i requires 0 <= i => Standing(buf, exe, offset, i));
    forall i | 0 <= i < |at|
      ensures at[i].Some? && -|buf| - BLOCK <= at[i].value <= |buf|
    {
      GoesOn(buf, exe, offset, i);
    }
    i, j := SomeTwice(at, -|buf| - BLOCK, size);
  }

  /** Where the walk stands, it has that many turns less to go. */
  lemma {:induction false} StandingEnds(buf: seq<Byte>, exe: seq<Byte>, offset: int, n: nat, i: nat)
    requires EndsWithin(buf, exe, offset, n) && Standing(buf, exe, offset, i).Some?
    ensures i <= n && EndsWithin(buf, exe, Standing(buf, exe, offset, i).value, n - i)
  {
    hide Next;
    if i == 0 {
    } else {
      StandingEnds(buf, exe, offset, n, i - 1);
    }
  }

  lemma {:induction false} StandingFrom(buf: seq<Byte>, exe: seq<Byte>, offset: int, i: nat, d: nat)
    requires Standing(buf, exe, offset, i).Some?
    ensures Standing(buf, exe, offset, i + d) == Standing(buf, exe, Standing(buf, exe, offset, i).value, d)
  {
    hide Next;
    if d == 0 {
    } else {
      StandingFrom(buf, exe, offset, i, d - 1);
    }
  }

  lemma {:induction false} NeverEnds(buf: seq<Byte>, exe: seq<Byte>, offset: int, n: nat, d: nat)
    requires d > 0 && Standing(buf, exe, offset, d) == Some(offset)
    ensures !EndsWithin(buf, exe, offset, n)
  {
    if EndsWithin(buf, exe, offset, n) {
      StandingEnds(buf, exe, offset, n, d);
      NeverEnds(buf, exe, offset, n - d, d);
    }
  }

  /** A walk that does not end within a number of turns still stands on a header, which lies in the buffer. */
  lemma {:induction false} GoesOn(buf: seq<Byte>, exe: seq<Byte>, offset: int, i: nat)
    requires !Ends(buf, exe, offset)
    ensures Standing(buf, exe, offset, i).Some? && !Ends(buf, exe, Standing(buf, exe, offset, i).value)
    ensures -|buf| - BLOCK <= Standing(buf, exe, offset, i).value <= |buf|
  {
    if i == 0 {
      StillOnHeader(buf, exe, offset);
    } else {
      GoesOn(buf, exe, offset, i - 1);
      StillOnHeader(buf, exe, Standing(buf, exe, offset, i - 1).value);
      StillOnHeader(buf, exe, Standing(buf, exe, offset, i).value);
    }
  }

  lemma StillOnHeader(buf: seq<Byte>, exe: seq<Byte>, offset: int)
    requires !Ends(buf, exe, offset)
    ensures Next(buf, exe, offset).Some? && !Ends(buf, exe, Next(buf, exe, offset).value)
    ensures -|buf| - BLOCK <= offset <= |buf|
  {
    assert !EndsWithin(buf, exe, offset, 0);
    var next := Next(buf, exe, offset).value;
    if Ends(buf, exe, next) {
      assert EndsWithin(buf, exe, offset, TurnsOf(buf, exe, next) + 1);
    }
  }

  /** More places than there are values in a range: one value stands at two of them. */
  lemma {:induction false} SomeTwice(at: seq<Option<int>>, lo: int, size: nat) returns (i: nat, j: nat)
    requires 0 < size < |at| && forall k :: 0 <= k < |at| ==> at[k].Some? && lo <= at[k].value < lo + size
    ensures i < j < |at| && at[i] == at[j]
    decreases size
  {
    var top := Some(lo + size - 1);
    if a, b :| 0 <= a < b < |at| && at[a] == at[b] == top {
      i, j := a, b;
    } else if a :| 0 <= a < |at| && at[a] == top {
      var rest := at[..a] + at[a + 1..];
      forall k | 0 <= k < |rest|
        ensures rest[k] == at[if k < a then k else k + 1] && rest[k] != top
      {
      }
      assert rest[0].value < lo + size - 1;
      var i', j' := SomeTwice(rest, lo, size - 1);
      i, j := if i' < a then i' else i' + 1, if j' < a then j' else j' + 1;
    } else {
      assert at[0] != top;
      i, j := SomeTwice(at, lo, size - 1);
    }
  }

  // ---------------------------------------------------------------- the end of an archive

  predicate LoneZeroBlock(buf: seq<Byte>, offset: int) {
    && offset + 2 * BLOCK <= |buf|
    && ZeroBlock(Subarray(buf, offset, offset + BLOCK))
    && !ZeroBlock(Subarray(buf, offset + BLOCK, offset + 2 * BLOCK))
  }

  /** The walk as the source describes it: one zero block before another header does not end it. */
  function PatientNext(buf: seq<Byte>, exe: seq<Byte>, offset: int): Option<int> {
    if LoneZeroBlock(buf, offset) then Some(offset + BLOCK) else Next(buf, exe, offset)
  }

  predicate PatientEndsWithin(buf: seq<Byte>, exe: seq<Byte>, offset: int, n: nat)
    decreases n
  {
    var next := PatientNext(buf, exe, offset);
    next.Some? ==> n > 0 && PatientEndsWithin(buf, exe, next.value, n - 1)
  }

  function PatientExtracted(buf: seq<Byte>, exe: seq<Byte>, offset: int, n: nat): Option<seq<Byte>>
    requires PatientEndsWithin(buf, exe, offset, n)
    decreases n
  {
    hide PatientNext, Found;
    var next := PatientNext(buf, exe, offset);
    if next.None? then Found(buf, exe, offset) else PatientExtracted(buf, exe, next.value, n - 1)
  }

  lemma LoneBlockEnds(buf: seq<Byte>, exe: seq<Byte>, offset: int)
    ensures LoneZeroBlock(buf, offset) ==> Next(buf, exe, offset).None? && Found(buf, exe, offset).None?
  {
  }

  /** How often the walk of the code goes on. */
  function Turns(buf: seq<Byte>, exe: seq<Byte>, offset: int, n: nat): nat
    requires EndsWithin(buf, exe, offset, n)
    decreases n
  {
    hide Next;
    var next := Next(buf, exe, offset);
    if next.None? then 0 else Turns(buf, exe, next.value, n - 1) + 1
  }

  /** Where it stands when it ends. */
  function Stop(buf: seq<Byte>, exe: seq<Byte>, offset: int, n: nat): int
    requires EndsWithin(buf, exe, offset, n)
    decreases n
  {
    hide Next;
    var next := Next(buf, exe, offset);
    if next.None? then offset else Stop(buf, exe, next.value, n - 1)
  }

  /** The described walk from `offset` goes on from `next` with `left` turns left, and brings back what it does there. */
  predicate PatientGoesOn(buf: seq<Byte>, exe: seq<Byte>, offset: int, m: nat, next: int, left: int)
    requires PatientEndsWithin(buf, exe, offset, m)
  {
    && left >= 0 && PatientEndsWithin(buf, exe, next, left)
    && PatientExtracted(buf, exe, offset, m) == PatientExtracted(buf, exe, next, left)
  }

  lemma CodeTurn(buf: seq<Byte>, exe: seq<Byte>, offset: int, n: nat)
    requires EndsWithin(buf, exe, offset, n)
    ensures var next := Next(buf, exe, offset);
            if next.None? then
              && ExtractedWithin(buf, exe, offset, n) == Found(buf, exe, offset)
              && Stop(buf, exe, offset, n) == offset && Turns(buf, exe, offset, n) == 0
            else
              && n > 0 && EndsWithin(buf, exe, next.value, n - 1)
              && ExtractedWithin(buf, exe, offset, n) == ExtractedWithin(buf, exe, next.value, n - 1)
              && Stop(buf, exe, offset, n) == Stop(buf, exe, next.value, n - 1)
              && Turns(buf, exe, offset, n) == Turns(buf, exe, next.value, n - 1) + 1
  {
    hide Next, Found;
  }

  lemma PatientTurn(buf: seq<Byte>, exe: seq<Byte>, offset: int, m: nat)
    requires PatientEndsWithin(buf, exe, offset, m)
    ensures var next := PatientNext(buf, exe, offset);
            && next == (if LoneZeroBlock(buf, offset) then Some(offset + BLOCK) else Next(buf, exe, offset))
            && if next.None? then PatientExtracted(buf, exe, offset, m) == Found(buf, exe, offset)
               else m > 0 && PatientEndsWithin(buf, exe, next.value, m - 1)
                    && PatientExtracted(buf, exe, offset, m) == PatientExtracted(buf, exe, next.value, m - 1)
  {
    hide Next, Found, LoneZeroBlock;
  }

  /**
   The code brings back what the described walk does, unless it stops at a zero block that another
   header follows and the described walk finds the file behind that block.
   */
  lemma {:induction false} PatienceMatters(buf: seq<Byte>, exe: seq<Byte>, offset: int, n: nat, m: nat)
    requires EndsWithin(buf, exe, offset, n) && PatientEndsWithin(buf, exe, offset, m)
    ensures var stop, left := Stop(buf, exe, offset, n), m - Turns(buf, exe, offset, n) - 1;
            LoneZeroBlock(buf, stop) ==>
              PatientGoesOn(buf, exe, offset, m, stop + BLOCK, left) && ExtractedWithin(buf, exe, offset, n).None?
    ensures !LoneZeroBlock(buf, Stop(buf, exe, offset, n)) ==>
              PatientExtracted(buf, exe, offset, m) == ExtractedWithin(buf, exe, offset, n)
    decreases n
  {
    hide Next, Found, LoneZeroBlock, PatientNext, EndsWithin, PatientEndsWithin, ExtractedWithin, PatientExtracted, Stop, Turns;
    LoneBlockEnds(buf, exe, offset);
    CodeTurn(buf, exe, offset, n);
    PatientTurn(buf, exe, offset, m);
    var next := Next(buf, exe, offset);
    if next.None? {
    } else {
      PatienceMatters(buf, exe, next.value, n - 1, m - 1);
    }
  }

  /** In a buffer without such a block on a block boundary, nothing is missed. */
  lemma {:induction false} NoLoneBlockNoLoss(buf: seq<Byte>, exe: seq<Byte>, offset: int, n: nat)
    requires EndsWithin(buf, exe, offset, n) && offset % BLOCK == 0
    requires forall o: int :: o % BLOCK == 0 ==> !LoneZeroBlock(buf, o)
    ensures PatientEndsWithin(buf, exe, offset, n)
    ensures PatientExtracted(buf, exe, offset, n) == ExtractedWithin(buf, exe, offset, n)
    decreases n
  {
    hide Found, LoneZeroBlock, HeaderAt, AtHeader, Wanted, NextOffset;
    var next := Next(buf, exe, offset);
    if next.None? {
    } else {
      AlignedNext(offset + BLOCK, HeaderAt(buf, offset).size.value);
      NoLoneBlockNoLoss(buf, exe, next.value, n - 1);
    }
  }

  // ------------------------------------------------------------------- negative sizes

  /** A size of zero or less goes back by its whole blocks. */
  lemma NegativeSizeTurnsBack(offset: int, size: int)
    requires size <= 0
    ensures NextOffset(offset, size) == offset - (-size) / BLOCK * BLOCK
  {
    var r := (-size) % BLOCK;
    assert Remainder(size, BLOCK) == -r;
    assert Remainder(BLOCK + r, BLOCK) == r;
  }

  /** A size from minus one block down to minus two leads from a header back to the same header, for ever. */
  lemma StaysAtHeader(buf: seq<Byte>, exe: seq<Byte>, offset: int)
    requires AtHeader(buf, offset) && !Wanted(HeaderAt(buf, offset), exe)
    requires HeaderAt(buf, offset).size.Some? && -2 * BLOCK < HeaderAt(buf, offset).size.value <= -BLOCK
    ensures Next(buf, exe, offset) == Some(offset) && !Ends(buf, exe, offset)
  {
    var size := HeaderAt(buf, offset).size.value;
    NegativeSizeTurnsBack(offset + BLOCK, size);
    assert (-size) / BLOCK == 1;
    hide Next;
    assert Standing(buf, exe, offset, 1) == Some(offset) by {
      assert Standing(buf, exe, offset, 0) == Some(offset);
    }
    if Ends(buf, exe, offset) {
      NeverEnds(buf, exe, offset, TurnsOf(buf, exe, offset), 1);
    }
  }

  function Zeros(n: nat): (r: seq<Byte>)
    ensures |r| == n && forall i :: 0 <= i < n ==> r[i] == 0
  {
    seq(n, _ => 0)
  }

  /** A header whose size field reads `-1000`. */
  function MinusOneBlock(): (h: seq<Byte>)
    ensures |h| == BLOCK
  {
    Zeros(124) + MinusField() + Zeros(376)
  }

  function MinusField(): (f: seq<Byte>)
    ensures |f| == 12
  {
    ['-' as int, '1' as int, ZERO, ZERO, ZERO] + Zeros(7)
  }

  lemma MinusFieldReads()
    ensures ParseOctal(StripBlanks(Ascii(MinusField()))) == Some(-BLOCK)
  {
    var digits: seq<Byte> := ['1' as int, ZERO, ZERO, ZERO];
    var text: seq<Byte> := ['-' as int] + digits;
    assert Ascii(MinusField()) == MinusField();
    StripsToDigits(MinusField(), 5);
    assert MinusField()[..5] == text;
    AllDigitsLead(digits);
    assert text[1..] == digits;
    assert digits[..3][..2][..1][..0] == [];
    assert OctalValue(digits[..3][..2][..1]) == 1;
    assert OctalValue(digits[..3][..2]) == 8;
    assert OctalValue(digits[..3]) == 64;
    assert OctalValue(digits) == 512;
    assert SkipWhitespace(text) == text;
  }

  lemma MinusOneBlockNeverEnds(exe: seq<Byte>)
    requires exe != []
    ensures var buf := MinusOneBlock();
            && AtHeader(buf, 0) && HeaderAt(buf, 0).size == Some(-BLOCK)
            && Next(buf, exe, 0) == Some(0) && !Ends(buf, exe, 0)
  {
    var buf := MinusOneBlock();
    assert buf[0..BLOCK] == buf;
    assert buf[124..136] == MinusField();
    assert buf[124] == '-' as int;
    MinusFieldReads();
    StripsToName(buf[0..100], []);
    StaysAtHeader(buf, exe, 0);
  }

  /** The size field at `offset` begins, behind white space, with a minus sign. */
  predicate MinusAt(buf: seq<Byte>, offset: nat) {
    && offset + BLOCK <= |buf|
    && var size := SkipWhitespace(StripBlanks(Ascii(buf[offset + 124..offset + 136])));
       size != [] && size[0] == '-' as int
  }

  lemma SliceOfSlice(buf: seq<Byte>, offset: nat)
    requires offset + BLOCK <= |buf|
    ensures buf[offset..offset + BLOCK][124..136] == buf[offset + 124..offset + 136]
  {
    var h := buf[offset..offset + BLOCK];
    assert forall k :: 0 <= k < 12 ==> h[124..136][k] == buf[offset + 124..offset + 136][k];
  }

  /** Without a minus sign in the size field of any block, the walk always ends. */
  lemma {:induction false} NoMinusEnds(buf: seq<Byte>, exe: seq<Byte>, offset: nat)
    requires offset % BLOCK == 0 && forall o: nat :: o % BLOCK == 0 ==> !MinusAt(buf, o)
    ensures Ends(buf, exe, offset)
    decreases |buf| - offset
  {
    var next := Next(buf, exe, offset);
    if next.None? {
      assert EndsWithin(buf, exe, offset, 0);
    } else {
      var size := HeaderAt(buf, offset).size.value;
      SliceOfSlice(buf, offset);
      assert !MinusAt(buf, offset);
      AlignedNext(offset + BLOCK, size);
      NoMinusEnds(buf, exe, next.value);
      assert EndsWithin(buf, exe, offset, TurnsOf(buf, exe, next.value) + 1);
    }
  }

  // ------------------------------------------------------------------- ustar archives

  datatype Entry = Entry(name: seq<Byte>, typeflag: Byte, data: seq<Byte>)

  predicate NameField(field: seq<Byte>, name: seq<Byte>) {
    name <= field && NUL !in name && forall i :: |name| <= i < |field| ==> field[i] == NUL
  }

  /** `k` octal digits, then spaces or NULs. */
  predicate DigitsThenBlanks(field: seq<Byte>, k: nat) {
    && 1 <= k < |field|
    && (forall i :: 0 <= i < k ==> OctalDigit(field[i]))
    && (forall i :: k <= i < |field| ==> Blank(field[i]))
  }

  ghost predicate SizeField(field: seq<Byte>, size: nat) {
    exists k: nat :: DigitsThenBlanks(field, k) && OctalValue(field[..k]) == size
  }

  /** The fields of a ustar header that matter; the others are free. */
  ghost predicate HeaderOf(h: seq<Byte>, e: Entry) {
    && |h| == BLOCK
    && NameField(h[0..100], e.name)
    && SizeField(h[124..136], |e.data|)
    && h[156] == e.typeflag
  }

  function Padded(size: nat): nat {
    (size + BLOCK - 1) / BLOCK * BLOCK
  }

  /** From `offset` on the buffer holds the entries, each padded to whole blocks, and then no more header. */
  ghost predicate Archive(buf: seq<Byte>, offset: nat, entries: seq<Entry>)
    decreases |entries|
  {
    if entries == [] then !AtHeader(buf, offset)
    else
      var e := entries[0];
      var data := offset + BLOCK;
      && data + Padded(|e.data|) <= |buf|
      && |e.data| <= Padded(|e.data|)
      && HeaderOf(buf[offset..data], e)
      && buf[data..data + |e.data|] == e.data
      && Archive(buf, data + Padded(|e.data|), entries[1..])
  }

  /** The data of the first regular file with the base name. */
  function FirstMatch(entries: seq<Entry>, exe: seq<Byte>): Option<seq<Byte>> {
    if entries == [] then None
    else
      var e := entries[0];
      if (e.typeflag == REGULAR || e.typeflag == NUL) && Basename(e.name) == exe then Some(e.data)
      else FirstMatch(entries[1..], exe)
  }

  lemma {:induction false} StripsToName(field: seq<Byte>, name: seq<Byte>)
    requires NameField(field, name)
    ensures StripNuls(field) == name
  {
    var n := |field|;
    if |name| < n {
      StripsToName(field[..n - 1], name);
    } else if n > 0 {
      assert field == name && name[n - 1] in name;
    }
  }

  lemma {:induction false} StripsToDigits(field: seq<Byte>, k: nat)
    requires k <= |field| && (k > 0 ==> !Blank(field[k - 1]))
    requires forall i :: k <= i < |field| ==> Blank(field[i])
    ensures StripBlanks(field) == field[..k]
  {
    var n := |field|;
    if k < n {
      StripsToDigits(field[..n - 1], k);
      assert field[..n - 1][..k] == field[..k];
    } else {
      assert field[..k] == field;
    }
  }

  lemma {:induction false} AllDigitsLead(s: seq<Byte>)
    requires forall i :: 0 <= i < |s| ==> OctalDigit(s[i])
    ensures LeadingDigits(s) == s
  {
    if s == [] {
    } else {
      AllDigitsLead(s[1..]);
    }
  }

  /** The size field reads back. */
  lemma SizeReadsBack(field: seq<Byte>, size: nat)
    requires SizeField(field, size)
    ensures ParseOctal(StripBlanks(Ascii(field))) == Some(size)
  {
    var k: nat :| DigitsThenBlanks(field, k) && OctalValue(field[..k]) == size;
    assert Ascii(field) == field;
    StripsToDigits(field, k);
    AllDigitsLead(field[..k]);
    assert SkipWhitespace(field[..k]) == field[..k];
  }

  lemma HeaderReadsBack(h: seq<Byte>, e: Entry)
    requires HeaderOf(h, e)
    ensures ReadHeader(h) == Header(e.name, Some(|e.data|), e.typeflag) && !ZeroBlock(h)
  {
    StripsToName(h[0..100], e.name);
    SizeReadsBack(h[124..136], |e.data|);
    assert h[124..136][0] == h[124];
  }

  /** What the walk sees at an entry. */
  lemma EntryReads(buf: seq<Byte>, offset: nat, entries: seq<Entry>)
    requires Archive(buf, offset, entries) && entries != [] && offset % BLOCK == 0
    ensures var e, data := entries[0], offset + BLOCK;
            && AtHeader(buf, offset) && HeaderAt(buf, offset) == Header(e.name, Some(|e.data|), e.typeflag)
            && Subarray(buf, data, data + |e.data|) == e.data
            && NextOffset(data, |e.data|) > offset && NextOffset(data, |e.data|) % BLOCK == 0
            && Archive(buf, NextOffset(data, |e.data|), entries[1..])
  {
    hide ReadHeader, HeaderOf, Subarray, Archive, ZeroBlock, Padded;
    var e, data := entries[0], offset + BLOCK;
    EntryIsThere(buf, offset, entries);
    HeaderReadsBack(buf[offset..data], e);
    Inside(buf, offset, data);
    Inside(buf, data, data + |e.data|);
    PaddedIsNext(data, |e.data|);
  }

  lemma Inside(buf: seq<Byte>, lo: nat, hi: nat)
    requires lo <= hi <= |buf|
    ensures Subarray(buf, lo, hi) == buf[lo..hi]
  {
  }

  lemma PaddedIsNext(data: nat, size: nat)
    requires data % BLOCK == 0
    ensures NextOffset(data, size) == data + Padded(size) >= data && NextOffset(data, size) % BLOCK == 0
  {
    AlignedNext(data, size);
  }

  lemma EntryIsThere(buf: seq<Byte>, offset: nat, entries: seq<Entry>)
    requires Archive(buf, offset, entries) && entries != []
    ensures var e, data := entries[0], offset + BLOCK;
            && data + Padded(|e.data|) <= |buf| && |e.data| <= Padded(|e.data|)
            && HeaderOf(buf[offset..data], e) && buf[data..data + |e.data|] == e.data
            && Archive(buf, data + Padded(|e.data|), entries[1..])
  {
  }

  /** Extraction undoes archiving: it ends, and brings back the exact bytes of the first file asked for. */
  lemma {:induction false} ExtractionInvertsArchiving(buf: seq<Byte>, exe: seq<Byte>, offset: nat, entries: seq<Entry>)
    requires Archive(buf, offset, entries) && offset % BLOCK == 0
    ensures Ends(buf, exe, offset) && Extracted(buf, exe, offset) == FirstMatch(entries, exe)
    decreases |entries|
  {
    hide HeaderAt, NextOffset, Basename, Subarray, Extracted, ExtractedWithin, Ends;
    if entries == [] {
      OneTurn(buf, exe, offset, 0);
    } else {
      EntryReads(buf, offset, entries);
      hide Archive, AtHeader;
      var next := NextOffset(offset + BLOCK, |entries[0].data|);
      ExtractionInvertsArchiving(buf, exe, next, entries[1..]);
      OneTurn(buf, exe, offset, TurnsOf(buf, exe, next) + 1);
    }
  }

  // ------------------------------------------------------------------------- writing

  function Power8(k: nat): (r: nat)
    ensures r > 0
  {
    if k == 0 then 1 else 8 * Power8(k - 1)
  }

  /** `n` in `k` octal digits. */
  function OctalDigits(n: nat, k: nat): (r: seq<Byte>)
    requires n < Power8(k)
    ensures |r| == k && forall i :: 0 <= i < k ==> OctalDigit(r[i])
  {
    if k == 0 then [] else OctalDigits(n / 8, k - 1) + [ZERO + n % 8]
  }

  lemma {:induction false} OctalRoundTrip(n: nat, k: nat)
    requires n < Power8(k)
    ensures OctalValue(OctalDigits(n, k)) == n
  {
    if k == 0 {
    } else {
      OctalRoundTrip(n / 8, k - 1);
      var digits := OctalDigits(n, k);
      assert digits[..k - 1] == OctalDigits(n / 8, k - 1);
    }
  }

  /** The entry fits a header: its name in 100 bytes, its size in eleven digits. */
  predicate Representable(e: Entry) {
    |e.name| <= 100 && NUL !in e.name && |e.data| < Power8(11)
  }

  /** The parts of a header that extraction does not look at: mode and owner, time and checksum, and the rest. */
  datatype Filler = Filler(owner: seq<Byte>, time: seq<Byte>, rest: seq<Byte>)

  predicate ValidFiller(f: Filler) {
    |f.owner| == 24 && |f.time| == 20 && |f.rest| == 355
  }

  function WriteHeader(e: Entry, f: Filler): (h: seq<Byte>)
    requires Representable(e) && ValidFiller(f)
    ensures |h| == BLOCK
  {
    e.name + Zeros(100 - |e.name|) + f.owner + OctalDigits(|e.data|, 11) + [NUL] + f.time + [e.typeflag] + f.rest
  }

  lemma WrittenHeaderReads(e: Entry, f: Filler)
    requires Representable(e) && ValidFiller(f)
    ensures HeaderOf(WriteHeader(e, f), e)
  {
    hide Power8, OctalDigits, OctalValue, OctalDigit;
    var h := WriteHeader(e, f);
    var field := OctalDigits(|e.data|, 11) + [NUL];
    assert h[0..100] == e.name + Zeros(100 - |e.name|);
    assert h[124..136] == field;
    OctalRoundTrip(|e.data|, 11);
    assert field[..11] == OctalDigits(|e.data|, 11);
    assert DigitsThenBlanks(field, 11);
  }

  function WriteEntries(entries: seq<Entry>, f: Filler): seq<Byte>
    requires ValidFiller(f) && forall i :: 0 <= i < |entries| ==> Representable(entries[i])
  {
    if entries == [] then []
    else
      var e := entries[0];
      (PaddedHolds(|e.data|); WriteHeader(e, f) + e.data + Zeros(Padded(|e.data|) - |e.data|) + WriteEntries(entries[1..], f))
  }

  lemma PaddedHolds(size: nat)
    ensures size <= Padded(size) && Padded(size) % BLOCK == 0
  {
  }

  /** A whole archive: the entries and two zero blocks. */
  function WriteArchive(entries: seq<Entry>, f: Filler): seq<Byte>
    requires ValidFiller(f) && forall i :: 0 <= i < |entries| ==> Representable(entries[i])
  {
    WriteEntries(entries, f) + Zeros(2 * BLOCK)
  }

  lemma {:induction false} WrittenIsArchive(before: seq<Byte>, entries: seq<Entry>, f: Filler)
    requires ValidFiller(f) && forall i :: 0 <= i < |entries| ==> Representable(entries[i])
    ensures Archive(before + WriteArchive(entries, f), |before|, entries)
    decreases |entries|
  {
    hide HeaderOf, WriteHeader, Padded, Representable;
    var buf := before + WriteArchive(entries, f);
    if entries == [] {
      assert buf[|before|..|before| + BLOCK] == Zeros(BLOCK);
    } else {
      var e := entries[0];
      PaddedHolds(|e.data|);
      WrittenHeaderReads(e, f);
      var h, pad := WriteHeader(e, f), Zeros(Padded(|e.data|) - |e.data|);
      Layout(before, h, e.data, pad, WriteEntries(entries[1..], f), Zeros(2 * BLOCK));
      WrittenIsArchive(before + h + e.data + pad, entries[1..], f);
    }
  }

  lemma Layout(before: seq<Byte>, h: seq<Byte>, data: seq<Byte>, pad: seq<Byte>, rest: seq<Byte>, end: seq<Byte>)
    ensures var buf, lo, hi := before + ((h + data + pad + rest) + end), |before| + |h|, |before| + |h| + |data|;
            buf[|before|..lo] == h && buf[lo..hi] == data && buf == (before + h + data + pad) + (rest + end)
  {
  }

  /** Whatever else the headers say, the first regular file with the base name comes back as it went in. */
  lemma RoundTrip(entries: seq<Entry>, f: Filler, exe: seq<Byte>)
    requires ValidFiller(f) && forall i :: 0 <= i < |entries| ==> Representable(entries[i])
    ensures var buf := WriteArchive(entries, f);
            Ends(buf, exe, 0) && Extracted(buf, exe, 0) == FirstMatch(entries, exe)
  {
    WrittenIsArchive([], entries, f);
    assert [] + WriteArchive(entries, f) == WriteArchive(entries, f);
    ExtractionInvertsArchiving(WriteArchive(entries, f), exe, 0, entries);
  }

  /** A zero block in front of an archive hides all of it, although the file may be there. */
  lemma ZeroBlockHidesAll(buf: seq<Byte>, exe: seq<Byte>)
    ensures Ends(Zeros(BLOCK) + buf, exe, 0) && Extracted(Zeros(BLOCK) + buf, exe, 0) == None
  {
    var all := Zeros(BLOCK) + buf;
    assert Subarray(all, 0, BLOCK) == Zeros(BLOCK);
    assert EndsWithin(all, exe, 0, 0);
    OneTurn(all, exe, 0, 0);
  }

  lemma HiddenArchive(entries: seq<Entry>, f: Filler, exe: seq<Byte>)
    requires ValidFiller(f) && forall i :: 0 <= i < |entries| ==> Representable(entries[i])
    ensures var buf := Zeros(BLOCK) + WriteArchive(entries, f);
            && Ends(buf, exe, BLOCK) && Extracted(buf, exe, BLOCK) == FirstMatch(entries, exe)
            && (LoneZeroBlock(buf, 0) <==> entries != [])
  {
    WrittenIsArchive(Zeros(BLOCK), entries, f);
    ExtractionInvertsArchiving(Zeros(BLOCK) + WriteArchive(entries, f), exe, BLOCK, entries);
  }
}
