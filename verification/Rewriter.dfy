/** Applying fixes to a source: which of them are applied, and what the text becomes. */
module Rewriter {
  import opened Options
  import opened Severities

  datatype FixPriority = FixPriority(severity: Severity, ruleId: string)

  /** Replaces `[lo, hi)`. */
  datatype Edit = Edit(lo: nat, hi: nat, replacement: string)

  datatype PrioritisedFix = PrioritisedFix(priority: FixPriority, edits: seq<Edit>)

  datatype FixConflict = FixConflict(droppedRuleId: string, winningRuleId: string, lo: nat, hi: nat)

  // ------------------------------------------------------------------- priority

  function SeverityRank(s: Severity): nat {
    match s case Error => 2 case Warning => 1 case Note => 0
  }

  /** Strings in dictionary order of their characters. */
  predicate LexLess(a: string, b: string) {
    b != [] && (a == [] || a[0] < b[0] || (a[0] == b[0] && LexLess(a[1..], b[1..])))
  }

  /** Higher severity first, then rule id, then input position. */
  predicate PriorityGreater(a: FixPriority, i: nat, b: FixPriority, j: nat) {
    if SeverityRank(a.severity) != SeverityRank(b.severity) then SeverityRank(a.severity) > SeverityRank(b.severity)
    else if a.ruleId != b.ruleId then LexLess(a.ruleId, b.ruleId)
    else i < j
  }

  lemma {:induction false} LexTotal(a: string, b: string)
    ensures !(LexLess(a, b) && LexLess(b, a))
    ensures a != b ==> LexLess(a, b) || LexLess(b, a)
    ensures !LexLess(a, a)
  {
    if a != [] && b != [] {
      LexTotal(a[1..], b[1..]);
      if a[0] == b[0] && a[1..] == b[1..] {
        assert a == [a[0]] + a[1..] && b == [b[0]] + b[1..];
      }
    }
    if a == [] {
    } else {
      LexTotal(a[1..], a[1..]);
    }
  }

  lemma {:induction false} LexTrans(a: string, b: string, c: string)
    requires LexLess(a, b) && LexLess(b, c)
    ensures LexLess(a, c)
  {
    if a != [] && a[0] == b[0] == c[0] {
      LexTrans(a[1..], b[1..], c[1..]);
    }
  }

  /** Fix `i` comes before fix `j`. */
  predicate Before(fixes: seq<PrioritisedFix>, i: nat, j: nat)
    requires i < |fixes| && j < |fixes|
  {
    PriorityGreater(fixes[i].priority, i, fixes[j].priority, j)
  }

  lemma BeforeIsStrictOrder(fixes: seq<PrioritisedFix>, i: nat, j: nat, k: nat)
    requires i < |fixes| && j < |fixes| && k < |fixes|
    ensures !Before(fixes, i, i)
    ensures i != j ==> (Before(fixes, i, j) <==> !Before(fixes, j, i))
    ensures Before(fixes, i, j) && Before(fixes, j, k) ==> Before(fixes, i, k)
  {
    var a, b, c := fixes[i].priority.ruleId, fixes[j].priority.ruleId, fixes[k].priority.ruleId;
    LexTotal(a, b);
    LexTotal(b, c);
    if LexLess(a, b) && LexLess(b, c) {
      LexTrans(a, b, c);
      LexTotal(a, c);
    }
  }

  /** The first severity goes before the second. */
  predicate Graver(a: Severity, b: Severity) {
    (a == Error && b != Error) || (a == Warning && b == Note)
  }

  lemma SeverityDecides(fixes: seq<PrioritisedFix>, i: nat, j: nat)
    requires i < |fixes| && j < |fixes| && fixes[i].priority.severity != fixes[j].priority.severity
    ensures Before(fixes, i, j) <==> Graver(fixes[i].priority.severity, fixes[j].priority.severity)
  {
  }

  /** The first id is a proper prefix of the second, or smaller where they first differ. */
  ghost predicate EarlierId(a: string, b: string) {
    || (a <= b && a != b)
    || exists k: nat :: DifferAt(a, b, k)
  }

  predicate DifferAt(a: string, b: string, k: nat) {
    k < |a| && k < |b| && a[..k] == b[..k] && a[k] < b[k]
  }

  lemma {:induction false} LexLessIs(a: string, b: string)
    ensures LexLess(a, b) <==> EarlierId(a, b)
  {
    if a == [] || b == [] {
    } else {
      LexLessIs(a[1..], b[1..]);
      EarlierBehind(a, b);
      hide EarlierId;
    }
  }

  lemma EarlierBehind(a: string, b: string)
    requires a != [] && b != []
    ensures EarlierId(a, b) <==> a[0] < b[0] || (a[0] == b[0] && EarlierId(a[1..], b[1..]))
  {
    assert a == [a[0]] + a[1..] && b == [b[0]] + b[1..];
    assert a[..0] == b[..0];
    if a[0] < b[0] {
      assert DifferAt(a, b, 0);
    }
    if k: nat :| DifferAt(a[1..], b[1..], k) && a[0] == b[0] {
      assert a[..k + 1] == [a[0]] + a[1..][..k] && b[..k + 1] == [b[0]] + b[1..][..k];
      assert DifferAt(a, b, k + 1);
    }
    if k: nat :| k > 0 && DifferAt(a, b, k) {
      assert a[..k][0] == b[..k][0] && a[1..][..k - 1] == a[..k][1..] && b[1..][..k - 1] == b[..k][1..];
      assert DifferAt(a[1..], b[1..], k - 1);
    }
  }

  /** Between fixes of one severity the id decides, and between fixes of one id the position. */
  lemma IdDecides(fixes: seq<PrioritisedFix>, i: nat, j: nat)
    requires i < |fixes| && j < |fixes| && fixes[i].priority.severity == fixes[j].priority.severity
    ensures Before(fixes, i, j) <==>
            if fixes[i].priority.ruleId == fixes[j].priority.ruleId then i < j
            else EarlierId(fixes[i].priority.ruleId, fixes[j].priority.ruleId)
  {
    LexLessIs(fixes[i].priority.ruleId, fixes[j].priority.ruleId);
  }

  // ------------------------------------------------------------------ selection

  predicate Overlaps(a: Edit, b: Edit) {
    a.lo < b.hi && b.lo < a.hi
  }

  predicate FixesOverlap(a: PrioritisedFix, b: PrioritisedFix) {
    exists e, f :: e in a.edits && f in b.edits && Overlaps(e, f)
  }

  /** The fixes before `i`. */
  ghost function Betters(fixes: seq<PrioritisedFix>, i: nat): set<nat>
    requires i < |fixes|
  {
    set j: nat | j < |fixes| && Before(fixes, j, i)
  }

  lemma BettersShrink(fixes: seq<PrioritisedFix>, j: nat, i: nat)
    requires i < |fixes| && j < |fixes| && Before(fixes, j, i)
    ensures Betters(fixes, j) < Betters(fixes, i)
  {
    forall k: nat | k in Betters(fixes, j)
      ensures k in Betters(fixes, i)
    {
      BeforeIsStrictOrder(fixes, k, j, i);
    }
    BeforeIsStrictOrder(fixes, j, j, i);
    assert j in Betters(fixes, i) && j !in Betters(fixes, j);
  }

  /** Greedy by priority: a fix is applied when it edits something and overlaps no better fix that is applied. */
  ghost predicate Applied(fixes: seq<PrioritisedFix>, i: nat)
    requires i < |fixes|
    decreases Betters(fixes, i)
  {
    && fixes[i].edits != []
    && forall j: nat :: j < |fixes| && Before(fixes, j, i) && FixesOverlap(fixes[i], fixes[j]) ==>
         (BettersShrink(fixes, j, i); !Applied(fixes, j))
  }

  /** Applied fixes never overlap each other. */
  lemma AppliedAreApart(fixes: seq<PrioritisedFix>, i: nat, j: nat)
    requires i < |fixes| && j < |fixes| && i != j && Applied(fixes, i) && Applied(fixes, j)
    ensures !FixesOverlap(fixes[i], fixes[j])
  {
    BeforeIsStrictOrder(fixes, i, j, i);
    OverlapSymmetric(fixes[i], fixes[j]);
  }

  lemma OverlapSymmetric(a: PrioritisedFix, b: PrioritisedFix)
    ensures FixesOverlap(a, b) == FixesOverlap(b, a)
  {
    if FixesOverlap(a, b) {
      var e, f :| e in a.edits && f in b.edits && Overlaps(e, f);
      assert Overlaps(f, e);
    }
    if FixesOverlap(b, a) {
      var e, f :| e in b.edits && f in a.edits && Overlaps(e, f);
      assert Overlaps(f, e);
    }
  }

  predicate Covers(e: Edit, x: int) {
    e.lo <= x < e.hi
  }

  /** Two edits that replace something overlap when they share a character; touching is no overlap. */
  lemma OverlapMeans(a: Edit, b: Edit)
    ensures a.lo < a.hi && b.lo < b.hi ==> (Overlaps(a, b) <==> exists x :: Covers(a, x) && Covers(b, x))
    ensures a.lo == a.hi ==> (Overlaps(a, b) <==> b.lo < a.lo < b.hi)
  {
    var x := if a.lo < b.lo then b.lo else a.lo;
    assert a.lo < a.hi && b.lo < b.hi && Overlaps(a, b) ==> Covers(a, x) && Covers(b, x);
  }

  /** A fix that edits something and overlaps only fixes of lower severity is applied, and none of these is. */
  lemma GraverFixWins(fixes: seq<PrioritisedFix>, i: nat)
    requires i < |fixes| && fixes[i].edits != []
    requires forall j :: 0 <= j < |fixes| && j != i && FixesOverlap(fixes[i], fixes[j]) ==>
               Graver(fixes[i].priority.severity, fixes[j].priority.severity)
    ensures Applied(fixes, i)
    ensures forall j: nat :: j < |fixes| && j != i && FixesOverlap(fixes[i], fixes[j]) ==> !Applied(fixes, j)
  {
    hide FixesOverlap;
    forall j: nat | j < |fixes| && j != i && FixesOverlap(fixes[i], fixes[j])
      ensures Before(fixes, i, j) && !Before(fixes, j, i)
    {
      SeverityDecides(fixes, i, j);
      BeforeIsStrictOrder(fixes, i, j, i);
    }
    BeforeIsStrictOrder(fixes, i, i, i);
    assert Applied(fixes, i);
    forall j: nat | j < |fixes| && j != i && FixesOverlap(fixes[i], fixes[j])
      ensures !Applied(fixes, j)
    {
      if Applied(fixes, j) {
        AppliedAreApart(fixes, i, j);
      }
    }
  }

  /** `perm` sends position `i` of `a` to position `perm[i]` of `b`. */
  ghost predicate Permuted(a: seq<PrioritisedFix>, b: seq<PrioritisedFix>, perm: seq<nat>) {
    && |a| == |b| == |perm|
    && (forall i :: 0 <= i < |a| ==> perm[i] < |b| && b[perm[i]] == a[i])
    && (forall i, j :: 0 <= i < j < |a| ==> perm[i] != perm[j])
    && (forall m: nat :: m < |b| ==> m in perm)
  }

  ghost predicate DistinctPriorities(fixes: seq<PrioritisedFix>) {
    forall i, j :: 0 <= i < j < |fixes| ==> fixes[i].priority != fixes[j].priority
  }

  /** With distinct priorities, the order of the input decides nothing. */
  lemma {:induction false} SelectionIgnoresInputOrder(a: seq<PrioritisedFix>, b: seq<PrioritisedFix>, perm: seq<nat>, i: nat)
    requires Permuted(a, b, perm) && DistinctPriorities(a) && i < |a|
    ensures Applied(a, i) <==> Applied(b, perm[i])
    decreases Betters(a, i)
  {
    forall j: nat | j < |a|
      ensures Before(a, j, i) <==> Before(b, perm[j], perm[i])
    {
      if j != i {
        assert a[j].priority != a[i].priority;
      }
    }
    forall j: nat | j < |a| && Before(a, j, i)
      ensures Applied(a, j) <==> Applied(b, perm[j])
    {
      BettersShrink(a, j, i);
      SelectionIgnoresInputOrder(a, b, perm, j);
    }
    if Applied(a, i) {
      forall m: nat | m < |b| && Before(b, m, perm[i]) && FixesOverlap(b[perm[i]], b[m])
        ensures !Applied(b, m)
      {
        assert m in perm;
        var j :| 0 <= j < |a| && perm[j] == m;
      }
    }
    if Applied(b, perm[i]) {
      forall j: nat | j < |a| && Before(a, j, i) && FixesOverlap(a[i], a[j])
        ensures !Applied(a, j)
      {
        assert Before(b, perm[j], perm[i]) && FixesOverlap(b[perm[i]], b[perm[j]]);
      }
    }
  }

  // ---------------------------------------------------------------- substitution

  /** The edit lies inside the text. */
  predicate InRange(s: string, e: Edit) {
    e.lo <= e.hi <= |s|
  }

  /** An edit of the list that lies inside the text and starts at `i`. */
  ghost predicate StartsAt(s: string, edits: seq<Edit>, e: Edit, i: nat) {
    e in edits && InRange(s, e) && e.lo == i
  }

  /** No two edits start at the same place, and none reaches into another. */
  ghost predicate Separate(edits: seq<Edit>) {
    && (forall e :: e in edits && e.lo <= e.hi ==> multiset(edits)[e] == 1)
    && (forall e, f :: e in edits && f in edits && e != f && e.lo <= e.hi && f.lo <= f.hi ==>
          e.lo != f.lo && !Overlaps(e, f))
  }

  /**
   The text from `i` on with all edits made at once: where an edit starts, its replacement stands
   for what it covers; everything else stays. Edits outside the text are ignored.
   */
  ghost function Substitute(s: string, edits: seq<Edit>, i: nat): string
    requires i <= |s|
    decreases |s| - i
  {
    if exists e :: StartsAt(s, edits, e, i) then
      var e :| StartsAt(s, edits, e, i);
      e.replacement +
      (if e.hi > i then Substitute(s, edits, e.hi)
       else if i < |s| then [s[i]] + Substitute(s, edits, i + 1)
       else "")
    else if i < |s| then [s[i]] + Substitute(s, edits, i + 1)
    else ""
  }

  /** Where no edit starts, the character stays. */
  lemma AtGap(s: string, edits: seq<Edit>, i: nat)
    requires i <= |s| && forall e :: !StartsAt(s, edits, e, i)
    ensures Substitute(s, edits, i) == if i < |s| then [s[i]] + Substitute(s, edits, i + 1) else ""
  {
  }

  /** Text before the next edit stays as it is. */
  lemma {:induction false} UntouchedPrefix(s: string, edits: seq<Edit>, i: nat, j: nat)
    requires i <= j <= |s|
    requires forall e :: e in edits && InRange(s, e) ==> e.lo >= j
    ensures Substitute(s, edits, i) == s[i..j] + Substitute(s, edits, j)
    decreases j - i
  {
    hide Substitute;
    if i < j {
      AtGap(s, edits, i);
      UntouchedPrefix(s, edits, i + 1, j);
      assert s[i..j] == [s[i]] + s[i + 1..j];
    } else {
      assert s[i..j] == "";
    }
  }

  lemma StartIsUnique(s: string, edits: seq<Edit>, e: Edit, f: Edit, i: nat)
    requires Separate(edits) && StartsAt(s, edits, e, i) && StartsAt(s, edits, f, i)
    ensures e == f
  {
  }

  /** Where an edit starts, its replacement comes next. */
  lemma AtStart(s: string, edits: seq<Edit>, e: Edit, i: nat)
    requires Separate(edits) && StartsAt(s, edits, e, i)
    ensures Substitute(s, edits, i) ==
            e.replacement +
            (if e.hi > i then Substitute(s, edits, e.hi)
             else if i < |s| then [s[i]] + Substitute(s, edits, i + 1)
             else "")
  {
    hide Separate, InRange;
    forall f | StartsAt(s, edits, f, i)
      ensures f == e
    {
      StartIsUnique(s, edits, e, f, i);
    }
  }

  /** From `i` on, only the edits that start there or later matter, and not their order. */
  lemma {:induction false} SameFrom(s: string, a: seq<Edit>, b: seq<Edit>, i: nat)
    requires i <= |s| && Separate(a) && Separate(b)
    requires forall e :: InRange(s, e) && e.lo >= i ==> (e in a <==> e in b)
    ensures Substitute(s, a, i) == Substitute(s, b, i)
    decreases |s| - i
  {
    hide Separate, Substitute;
    forall e
      ensures StartsAt(s, a, e, i) <==> StartsAt(s, b, e, i)
    {
    }
    if e :| StartsAt(s, a, e, i) {
      AtStart(s, a, e, i);
      AtStart(s, b, e, i);
      if e.hi > i {
        SameFrom(s, a, b, e.hi);
      } else if i < |s| {
        SameFrom(s, a, b, i + 1);
      }
    } else {
      AtGap(s, a, i);
      AtGap(s, b, i);
      if i < |s| {
        SameFrom(s, a, b, i + 1);
      }
    }
  }

  predicate Descending(edits: seq<Edit>) {
    forall i, j :: 0 <= i < j < |edits| ==> edits[i].lo >= edits[j].lo
  }

  /** The guard of the splicing loop: the edit does not fit the text as it is now. */
  predicate Skipped(out: string, e: Edit) {
    e.lo > |out| || e.hi > |out| || e.hi < e.lo
  }

  /** One turn of the splicing loop. */
  function SpliceOne(out: string, e: Edit): string {
    if Skipped(out, e) then out else out[..e.lo] + e.replacement + out[e.hi..]
  }

  /** All turns of the splicing loop. */
  function Spliced(s: string, edits: seq<Edit>): string {
    if edits == [] then s
    else SpliceOne(Spliced(s, edits[..|edits| - 1]), edits[|edits| - 1])
  }

  /** How much longer the edits inside the text make it. */
  function SizeChange(s: string, edits: seq<Edit>): int {
    if edits == [] then 0
    else
      var e := edits[|edits| - 1];
      SizeChange(s, edits[..|edits| - 1]) + if InRange(s, e) then |e.replacement| - (e.hi - e.lo) else 0
  }

  lemma SeparatePrefix(edits: seq<Edit>, e: Edit)
    requires Separate(edits + [e])
    ensures Separate(edits)
    ensures e.lo <= e.hi ==> e !in edits
  {
    forall f | f in edits && f.lo <= f.hi
      ensures multiset(edits)[f] == 1
    {
      assert f in edits + [e] && multiset(edits + [e]) == multiset(edits) + multiset{e};
    }
    assert e in edits + [e] && multiset(edits + [e]) == multiset(edits) + multiset{e};
    forall f, g | f in edits && g in edits && f != g && f.lo <= f.hi && g.lo <= g.hi
      ensures f.lo != g.lo && !Overlaps(f, g)
    {
      assert f in edits + [e] && g in edits + [e];
    }
  }

  /**
   Splicing an edit that starts before all edits made so far: the guard lets it through exactly when
   it lies inside the original text, and the text comes out as if all edits were made at once.
   */
  lemma SpliceStep(s: string, edits: seq<Edit>, e: Edit)
    requires Separate(edits + [e]) && forall f :: f in edits ==> f.lo >= e.lo
    ensures SpliceOne(Substitute(s, edits, 0), e) == Substitute(s, edits + [e], 0)
    ensures Skipped(Substitute(s, edits, 0), e) <==> !InRange(s, e)
  {
    SeparatePrefix(edits, e);
    if InRange(s, e) {
      SpliceInRange(s, edits, e);
    } else {
      SpliceOutOfRange(s, edits, e);
    }
  }

  lemma SpliceInRange(s: string, edits: seq<Edit>, e: Edit)
    requires InRange(s, e) && Separate(edits + [e]) && Separate(edits) && e !in edits
    requires forall f :: f in edits ==> f.lo >= e.lo
    ensures SpliceOne(Substitute(s, edits, 0), e) == Substitute(s, edits + [e], 0)
    ensures !Skipped(Substitute(s, edits, 0), e)
  {
    var more := edits + [e];
    var out := Substitute(s, edits, 0);
    assert e in more;
    forall f | f in edits && InRange(s, f)
      ensures f.lo >= e.hi && f.lo != e.lo
    {
      assert f in more && f != e;
      assert !Overlaps(f, e);
    }
    UntouchedPrefix(s, edits, 0, e.hi);
    UntouchedPrefix(s, more, 0, e.lo);
    SubstituteFrom(s, edits, e);
    assert out == s[..e.hi] + Substitute(s, edits, e.hi);
    assert out[..e.lo] == s[..e.lo] && out[e.hi..] == Substitute(s, edits, e.hi);
  }

  lemma SubstituteFrom(s: string, edits: seq<Edit>, e: Edit)
    requires InRange(s, e) && Separate(edits + [e]) && Separate(edits) && e !in edits
    requires forall f :: f in edits && InRange(s, f) ==> f.lo >= e.hi && f.lo != e.lo
    ensures Substitute(s, edits + [e], e.lo) == e.replacement + Substitute(s, edits, e.hi)
  {
    hide Separate, Substitute;
    var more := edits + [e];
    assert StartsAt(s, more, e, e.lo);
    AtStart(s, more, e, e.lo);
    if e.hi > e.lo {
      SameFrom(s, more, edits, e.hi);
    } else {
      assert forall f :: !StartsAt(s, edits, f, e.lo);
      AtGap(s, edits, e.lo);
      if e.lo < |s| {
        SameFrom(s, more, edits, e.lo + 1);
      }
    }
  }

  /** An edit outside the text is skipped: nothing before it has made the text longer. */
  lemma SpliceOutOfRange(s: string, edits: seq<Edit>, e: Edit)
    requires !InRange(s, e) && Separate(edits + [e]) && Separate(edits) && forall f :: f in edits ==> f.lo >= e.lo
    ensures Substitute(s, edits + [e], 0) == Substitute(s, edits, 0)
    ensures Skipped(Substitute(s, edits, 0), e)
  {
    var more := edits + [e];
    SameFrom(s, more, edits, 0);
    if e.lo <= e.hi {
      assert e in more;
      forall f | f in edits && f.lo <= f.hi
        ensures f.hi > |s|
      {
        assert f in more;
        assert f != e ==> !Overlaps(f, e);
      }
      assert forall f :: !StartsAt(s, edits, f, |s|);
      UntouchedPrefix(s, edits, 0, |s|);
    }
  }

  lemma NoEdits(s: string)
    ensures Substitute(s, [], 0) == s
  {
    UntouchedPrefix(s, [], 0, |s|);
  }

  /** Splicing from the back is substituting all at once, and the length changes by the sum of the parts. */
  lemma {:induction false} SplicedIsSubstitute(s: string, edits: seq<Edit>)
    requires Separate(edits) && Descending(edits)
    ensures Spliced(s, edits) == Substitute(s, edits, 0)
    ensures |Spliced(s, edits)| == |s| + SizeChange(s, edits)
  {
    hide Separate, Substitute, InRange;
    if edits == [] {
      NoEdits(s);
    } else {
      var rest, e := edits[..|edits| - 1], edits[|edits| - 1];
      assert edits == rest + [e];
      SeparatePrefix(rest, e);
      SplicedIsSubstitute(s, rest);
      SpliceStep(s, rest, e);
    }
  }

  /**
   An insertion of `x` where another edit starts, which puts `y` for some text. Insertion first, `y`
   takes the place of the front of `x` and that text; insertion last, `x` stands before `y`. The two
   orders give one text exactly when these agree; two insertions commute exactly when their texts do.
   */
  lemma TieOrderMatters(s: string, insert: Edit, other: Edit)
    requires InRange(s, insert) && InRange(s, other) && insert.lo == insert.hi == other.lo
    ensures var x, y, covered := insert.replacement, other.replacement, s[other.lo..other.hi];
            Spliced(s, [insert, other]) == Spliced(s, [other, insert]) <==> y + (x + covered)[|covered|..] == x + y
  {
    var x, y, covered, i, rest := insert.replacement, other.replacement, s[other.lo..other.hi], other.lo, s[other.hi..];
    SplicedTwice(s, insert, other);
    SplicedTwice(s, other, insert);
    InsertionFirst(s, insert, other);
    InsertionLast(s, insert, other);
    hide SpliceOne, Spliced;
    SameMiddle(s[..i], y + (x + covered)[|covered|..], x + y, rest);
  }

  lemma SplicedTwice(s: string, e: Edit, f: Edit)
    ensures Spliced(s, [e, f]) == SpliceOne(SpliceOne(s, e), f)
  {
    hide SpliceOne;
    assert [e, f][..1] == [e] && [e][..0] == [];
    assert Spliced(s, [e]) == SpliceOne(s, e);
  }

  lemma InsertionFirst(s: string, insert: Edit, other: Edit)
    requires InRange(s, insert) && InRange(s, other) && insert.lo == insert.hi == other.lo
    ensures var x, y, covered, i := insert.replacement, other.replacement, s[other.lo..other.hi], other.lo;
            SpliceOne(SpliceOne(s, insert), other) == s[..i] + (y + (x + covered)[|covered|..]) + s[other.hi..]
  {
    var x, covered, i, rest := insert.replacement, s[other.lo..other.hi], other.lo, s[other.hi..];
    var out := SpliceOne(s, insert);
    assert out == s[..i] + ((x + covered) + rest);
    assert out[..i] == s[..i] && out[other.hi..] == ((x + covered) + rest)[|covered|..];
    assert ((x + covered) + rest)[|covered|..] == (x + covered)[|covered|..] + rest;
  }

  lemma InsertionLast(s: string, insert: Edit, other: Edit)
    requires InRange(s, insert) && InRange(s, other) && insert.lo == insert.hi == other.lo
    ensures var x, y, i := insert.replacement, other.replacement, other.lo;
            SpliceOne(SpliceOne(s, other), insert) == s[..i] + (x + y) + s[other.hi..]
  {
    var y, i, rest := other.replacement, other.lo, s[other.hi..];
    var out := SpliceOne(s, other);
    assert out == s[..i] + (y + rest);
    assert out[..i] == s[..i] && out[i..] == y + rest;
  }

  lemma SameMiddle<T>(front: seq<T>, a: seq<T>, b: seq<T>, back: seq<T>)
    ensures front + a + back == front + b + back <==> a == b
  {
    var i := |front|;
    if front + a + back == front + b + back {
      assert |a| == |b|;
      assert (front + a + back)[i..i + |a|] == a && (front + b + back)[i..i + |b|] == b;
    }
  }

  /** Where two edits start at one place the outcome hangs on the order, which sorting by start leaves open. */
  lemma SameStartIsAmbiguous()
    ensures var insert, replace := Edit(0, 0, "X"), Edit(0, 1, "Y");
            && !Overlaps(insert, replace)
            && Descending([insert, replace]) && Descending([replace, insert])
            && Spliced("ab", [insert, replace]) != Spliced("ab", [replace, insert])
  {
    var insert, replace := Edit(0, 0, "X"), Edit(0, 1, "Y");
    assert [insert, replace][..1] == [insert] && [replace, insert][..1] == [replace];
    assert [insert][..0] == [] && [replace][..0] == [];
    assert Spliced("ab", [insert]) == "Xab";
    assert Spliced("ab", [replace]) == "Yb";
    assert Spliced("ab", [insert, replace]) == "Yab";
    assert Spliced("ab", [replace, insert]) == "XYb";
  }

  // ---------------------------------------------------------------------- apply

  datatype AcceptedEdit = AcceptedEdit(edit: Edit, ownerRuleId: string)

  /** The fixes in order of priority, each once. */
  predicate Prioritised(fixes: seq<PrioritisedFix>, order: seq<nat>) {
    && (forall k :: 0 <= k < |order| ==> order[k] < |fixes|)
    && (forall k, m :: 0 <= k < m < |order| ==> Before(fixes, order[k], order[m]))
  }

  method SortByPriority(fixes: seq<PrioritisedFix>) returns (order: seq<nat>)
    ensures Prioritised(fixes, order)
    ensures forall i: nat :: i in order <==> i < |fixes|
  {
    order := [];
    for n: nat := 0 to |fixes|
      invariant Prioritised(fixes, order)
      invariant forall i: nat :: i in order <==> i < n
    {
      order := InsertByPriority(fixes, order, n);
    }
  }

  method InsertByPriority(fixes: seq<PrioritisedFix>, order: seq<nat>, n: nat) returns (r: seq<nat>)
    requires Prioritised(fixes, order) && n < |fixes| && n !in order
    ensures Prioritised(fixes, r)
    ensures forall i: nat :: i in r <==> i in order || i == n
  {
    var k := 0;
    while k < |order| && Before(fixes, order[k], n)
      invariant 0 <= k <= |order|
      invariant forall m :: 0 <= m < k ==> Before(fixes, order[m], n)
    {
      k := k + 1;
    }
    r := order[..k] + [n] + order[k..];
    forall m | k <= m < |order|
      ensures Before(fixes, n, order[m])
    {
      assert order[k] != n && order[m] != n;
      BeforeIsStrictOrder(fixes, n, order[k], order[m]);
    }
  }

  /** The edits of the applied fixes of `order`, with the rule each comes from. */
  ghost function AcceptedOf(fixes: seq<PrioritisedFix>, order: seq<nat>): seq<AcceptedEdit>
    requires forall k :: 0 <= k < |order| ==> order[k] < |fixes|
  {
    if order == [] then []
    else
      var i := order[|order| - 1];
      AcceptedOf(fixes, order[..|order| - 1]) +
      if Applied(fixes, i) then Owned(fixes[i].edits, fixes[i].priority.ruleId) else []
  }

  function Owned(edits: seq<Edit>, owner: string): (r: seq<AcceptedEdit>)
    ensures |r| == |edits|
  {
    seq(|edits|, k requires 0 <= k < |edits| => AcceptedEdit(edits[k], owner))
  }

  /** The fixes of `order` that edit something and are not applied. */
  ghost function DroppedOf(fixes: seq<PrioritisedFix>, order: seq<nat>): seq<nat>
    requires forall k :: 0 <= k < |order| ==> order[k] < |fixes|
  {
    if order == [] then []
    else
      var i := order[|order| - 1];
      DroppedOf(fixes, order[..|order| - 1]) + if fixes[i].edits != [] && !Applied(fixes, i) then [i] else []
  }

  /** Fix `j` is applied, comes before fix `i`, and is in its way. */
  ghost predicate Beats(fixes: seq<PrioritisedFix>, j: nat, i: nat) {
    && i < |fixes| && j < |fixes|
    && Applied(fixes, j) && Before(fixes, j, i) && FixesOverlap(fixes[i], fixes[j])
  }

  /** The report on fix `i`, dropped for fix `j`. */
  ghost predicate Reports(fixes: seq<PrioritisedFix>, c: FixConflict, i: nat, j: nat)
    requires i < |fixes| && j < |fixes| && fixes[i].edits != []
  {
    && c.droppedRuleId == fixes[i].priority.ruleId
    && c.winningRuleId == fixes[j].priority.ruleId
    && c.lo == fixes[i].edits[0].lo && c.hi == fixes[i].edits[0].hi
  }

  /** The accepted edit that an edit of the fix runs into first. */
  ghost predicate FirstClash(edits: seq<Edit>, accepted: seq<AcceptedEdit>, a: AcceptedEdit) {
    exists i, j :: 0 <= i < |edits| && 0 <= j < |accepted| && accepted[j] == a && ClashAt(edits, accepted, i, j)
  }

  ghost predicate ClashAt(edits: seq<Edit>, accepted: seq<AcceptedEdit>, i: int, j: int)
    requires 0 <= i < |edits| && 0 <= j < |accepted|
  {
    && Overlaps(edits[i], accepted[j].edit)
    && (forall e, b :: e in edits[..i] && b in accepted ==> !Overlaps(e, b.edit))
    && (forall b :: b in accepted[..j] ==> !Overlaps(edits[i], b.edit))
  }

  /** The report on the fix at position `k` of the order names the owner of its first clash. */
  ghost predicate NamesClash(fixes: seq<PrioritisedFix>, order: seq<nat>, c: FixConflict, k: nat)
    requires forall m :: 0 <= m < |order| ==> order[m] < |fixes|
  {
    && k < |order|
    && exists a :: FirstClash(fixes[order[k]].edits, AcceptedOf(fixes, order[..k]), a) && a.ownerRuleId == c.winningRuleId
  }

  /** The report names the dropped fix and the owner of its first clash, an applied fix before it that it runs into. */
  ghost predicate Justified(fixes: seq<PrioritisedFix>, order: seq<nat>, c: FixConflict, i: nat)
    requires i < |fixes| && forall m :: 0 <= m < |order| ==> order[m] < |fixes|
  {
    && fixes[i].edits != []
    && (exists j: nat :: Beats(fixes, j, i) && Reports(fixes, c, i, j))
    && (exists k: nat :: k < |order| && order[k] == i && NamesClash(fixes, order, c, k))
  }

  /** Which accepted edit, if any, an edit of the fix runs into first. */
  method FindOverlap(edits: seq<Edit>, accepted: seq<AcceptedEdit>) returns (clash: Option<AcceptedEdit>)
    ensures clash.None? <==> forall e, a :: e in edits && a in accepted ==> !Overlaps(e, a.edit)
    ensures clash.Some? ==> clash.value in accepted && exists e :: e in edits && Overlaps(e, clash.value.edit)
    ensures clash.Some? ==> FirstClash(edits, accepted, clash.value)
  {
    for i := 0 to |edits|
      invariant forall e, a :: e in edits[..i] && a in accepted ==> !Overlaps(e, a.edit)
    {
      for j := 0 to |accepted|
        invariant forall a :: a in accepted[..j] ==> !Overlaps(edits[i], a.edit)
      {
        if Overlaps(edits[i], accepted[j].edit) {
          assert edits[i] in edits && accepted[j] in accepted;
          assert ClashAt(edits, accepted, i, j);
          return Some(accepted[j]);
        }
      }
      assert accepted[..|accepted|] == accepted && edits[..i + 1] == edits[..i] + [edits[i]];
    }
    assert edits[..|edits|] == edits;
    return None;
  }

  /** An accepted edit belongs to an applied fix of the list, and every edit of such a fix is there. */
  lemma {:induction false} AcceptedAreApplied(fixes: seq<PrioritisedFix>, order: seq<nat>, a: AcceptedEdit)
    requires forall k :: 0 <= k < |order| ==> order[k] < |fixes|
    ensures a in AcceptedOf(fixes, order) <==>
            exists j :: j in order && Applied(fixes, j) && a.edit in fixes[j].edits && a.ownerRuleId == fixes[j].priority.ruleId
  {
    if order == [] {
    } else {
      var n := |order| - 1;
      var i := order[n];
      AcceptedAreApplied(fixes, order[..n], a);
      assert order == order[..n] + [i];
      assert a in Owned(fixes[i].edits, fixes[i].priority.ruleId) <==>
             a.edit in fixes[i].edits && a.ownerRuleId == fixes[i].priority.ruleId by {
        if a.edit in fixes[i].edits && a.ownerRuleId == fixes[i].priority.ruleId {
          var k :| 0 <= k < |fixes[i].edits| && fixes[i].edits[k] == a.edit;
          assert Owned(fixes[i].edits, fixes[i].priority.ruleId)[k] == a;
        }
      }
    }
  }

  /** A fix that runs into none of the edits accepted before it is applied; one that does is beaten by their owner. */
  lemma OverlapDecides(fixes: seq<PrioritisedFix>, order: seq<nat>, k: nat, clash: Option<AcceptedEdit>)
    requires Prioritised(fixes, order) && (forall i: nat :: i in order <==> i < |fixes|)
    requires k < |order| && fixes[order[k]].edits != []
    requires var accepted := AcceptedOf(fixes, order[..k]);
             && (clash.None? <==> forall e, a :: e in fixes[order[k]].edits && a in accepted ==> !Overlaps(e, a.edit))
             && (clash.Some? ==> clash.value in accepted && exists e :: e in fixes[order[k]].edits && Overlaps(e, clash.value.edit))
    ensures clash.None? <==> Applied(fixes, order[k])
    ensures clash.Some? ==>
              exists j: nat :: Beats(fixes, j, order[k]) && fixes[j].priority.ruleId == clash.value.ownerRuleId
  {
    var i := order[k];
    if clash.Some? {
      AcceptedAreApplied(fixes, order[..k], clash.value);
      var j :| j in order[..k] && Applied(fixes, j) && clash.value.edit in fixes[j].edits && clash.value.ownerRuleId == fixes[j].priority.ruleId;
      assert Before(fixes, j, i);
      assert Beats(fixes, j, i);
    } else {
      forall j: nat | j < |fixes| && Before(fixes, j, i) && FixesOverlap(fixes[i], fixes[j])
        ensures !Applied(fixes, j)
      {
        if Applied(fixes, j) {
          BeforeComesFirst(fixes, order, j, k);
          var e, f :| e in fixes[i].edits && f in fixes[j].edits && Overlaps(e, f);
          var a := AcceptedEdit(f, fixes[j].priority.ruleId);
          AcceptedAreApplied(fixes, order[..k], a);
        }
      }
    }
  }

  lemma BeforeComesFirst(fixes: seq<PrioritisedFix>, order: seq<nat>, j: nat, k: nat)
    requires Prioritised(fixes, order) && (forall i: nat :: i in order <==> i < |fixes|)
    requires k < |order| && j < |fixes| && Before(fixes, j, order[k])
    ensures j in order[..k]
  {
    assert j in order;
    var m :| 0 <= m < |order| && order[m] == j;
    BeforeIsStrictOrder(fixes, j, order[k], j);
  }

  /** The accepting loop: exactly the applied fixes get in, whole, and every other non-empty fix is reported. */
  method SelectFixes(fixes: seq<PrioritisedFix>, order: seq<nat>) returns (accepted: seq<AcceptedEdit>, conflicts: seq<FixConflict>)
    requires Prioritised(fixes, order) && forall i: nat :: i in order <==> i < |fixes|
    ensures accepted == AcceptedOf(fixes, order)
    ensures |conflicts| == |DroppedOf(fixes, order)|
    ensures forall k :: 0 <= k < |conflicts| ==>
              DroppedOf(fixes, order)[k] < |fixes| && Justified(fixes, order, conflicts[k], DroppedOf(fixes, order)[k])
  {
    hide Applied, Before, FixesOverlap, Overlaps, FirstClash;
    accepted, conflicts := [], [];
    for k := 0 to |order|
      invariant accepted == AcceptedOf(fixes, order[..k])
      invariant |conflicts| == |DroppedOf(fixes, order[..k])|
      invariant forall m :: 0 <= m < |conflicts| ==>
                  DroppedOf(fixes, order[..k])[m] < |fixes| && Justified(fixes, order, conflicts[m], DroppedOf(fixes, order[..k])[m])
    {
      var fix := fixes[order[k]];
      assert order[..k + 1][..k] == order[..k];
      if fix.edits != [] {
        var clash := FindOverlap(fix.edits, accepted);
        OverlapDecides(fixes, order, k, clash);
        if clash.Some? {
          ghost var j: nat :| Beats(fixes, j, order[k]) && fixes[j].priority.ruleId == clash.value.ownerRuleId;
          var c := FixConflict(fix.priority.ruleId, clash.value.ownerRuleId, fix.edits[0].lo, fix.edits[0].hi);
          assert Reports(fixes, c, order[k], j);
          assert NamesClash(fixes, order, c, k);
          assert Justified(fixes, order, c, order[k]);
          conflicts := conflicts + [c];
        } else {
          accepted := accepted + Owned(fix.edits, fix.priority.ruleId);
        }
      }
    }
    assert order[..|order|] == order;
  }

  /** The edits without their owners. */
  function Edits(accepted: seq<AcceptedEdit>): (r: seq<Edit>)
    ensures |r| == |accepted|
  {
    seq(|accepted|, k requires 0 <= k < |accepted| => accepted[k].edit)
  }

  /** Highest start first. */
  method SortDescending(accepted: seq<AcceptedEdit>) returns (r: seq<AcceptedEdit>)
    ensures multiset(r) == multiset(accepted)
    ensures multiset(Edits(r)) == multiset(Edits(accepted))
    ensures Descending(Edits(r))
  {
    hide Descending;
    r := [];
    assert Descending(Edits(r)) by { NothingToSort(r); }
    for n := 0 to |accepted|
      invariant multiset(r) == multiset(accepted[..n])
      invariant multiset(Edits(r)) == multiset(Edits(accepted)[..n])
      invariant Descending(Edits(r))
    {
      assert accepted[..n + 1] == accepted[..n] + [accepted[n]];
      assert Edits(accepted)[..n + 1] == Edits(accepted)[..n] + [accepted[n].edit];
      r := InsertDescending(r, accepted[n]);
    }
    assert accepted[..|accepted|] == accepted && Edits(accepted)[..|accepted|] == Edits(accepted);
  }

  lemma NothingToSort(r: seq<AcceptedEdit>)
    requires r == []
    ensures Descending(Edits(r))
  {
  }

  method InsertDescending(s: seq<AcceptedEdit>, a: AcceptedEdit) returns (r: seq<AcceptedEdit>)
    requires Descending(Edits(s))
    ensures multiset(r) == multiset(s) + multiset{a}
    ensures multiset(Edits(r)) == multiset(Edits(s)) + multiset{a.edit}
    ensures Descending(Edits(r))
  {
    var k := 0;
    while k < |s| && s[k].edit.lo > a.edit.lo
      invariant 0 <= k <= |s|
      invariant forall m :: 0 <= m < k ==> s[m].edit.lo > a.edit.lo
    {
      k := k + 1;
    }
    r := s[..k] + [a] + s[k..];
    hide Descending;
    InsertedContents(s, k, a);
    InsertedContents(Edits(s), k, a.edit);
    assert Edits(r) == Edits(s)[..k] + [a.edit] + Edits(s)[k..];
    InsertedOrder(Edits(s), k, a.edit);
  }

  lemma InsertedContents<T>(s: seq<T>, k: nat, a: T)
    requires k <= |s|
    ensures multiset(s[..k] + [a] + s[k..]) == multiset(s) + multiset{a}
  {
    assert s == s[..k] + s[k..];
  }

  lemma InsertedOrder(s: seq<Edit>, k: nat, e: Edit)
    requires Descending(s) && k <= |s|
    requires forall m :: 0 <= m < k ==> s[m].lo > e.lo
    requires k < |s| ==> s[k].lo <= e.lo
    ensures Descending(s[..k] + [e] + s[k..])
  {
    forall m | k <= m < |s|
      ensures s[m].lo <= e.lo
    {
      assert s[k].lo >= s[m].lo;
    }
  }

  /** Splicing in the given order, in place of the text so far. */
  method Splice(source: string, accepted: seq<AcceptedEdit>) returns (out: string)
    ensures out == Spliced(source, Edits(accepted))
  {
    out := source;
    for k := 0 to |accepted|
      invariant out == Spliced(source, Edits(accepted)[..k])
    {
      var e := accepted[k].edit;
      assert Edits(accepted)[..k + 1][..k] == Edits(accepted)[..k];
      if e.lo > |out| || e.hi > |out| || e.hi < e.lo {
        continue;
      }
      out := out[..e.lo] + e.replacement + out[e.hi..];
    }
    assert Edits(accepted)[..|accepted|] == Edits(accepted);
  }

  /** The edits that get in, in order of priority. */
  ghost function AppliedEdits(fixes: seq<PrioritisedFix>, order: seq<nat>): seq<Edit>
    requires forall k :: 0 <= k < |order| ==> order[k] < |fixes|
  {
    Edits(AcceptedOf(fixes, order))
  }

  lemma SameMembers(a: seq<Edit>, b: seq<Edit>)
    requires multiset(a) == multiset(b)
    ensures forall e :: e in a <==> e in b
  {
    forall e
      ensures e in a <==> e in b
    {
      assert e in a <==> e in multiset(a);
      assert e in b <==> e in multiset(b);
    }
  }

  /** Substituting at once does not depend on how the edits are listed. */
  lemma SubstituteIgnoresOrder(s: string, a: seq<Edit>, b: seq<Edit>)
    requires multiset(a) == multiset(b) && Separate(a)
    ensures Separate(b) && Substitute(s, a, 0) == Substitute(s, b, 0)
  {
    hide Substitute;
    SameMembers(a, b);
    SameFrom(s, a, b, 0);
  }

  /** What applying the fixes may return: splicing the applied edits, highest start first, in some such order. */
  ghost predicate OutcomeBy(source: string, fixes: seq<PrioritisedFix>, order: seq<nat>, edits: seq<AcceptedEdit>, out: string) {
    && Prioritised(fixes, order) && (forall i: nat :: i in order <==> i < |fixes|)
    && multiset(edits) == multiset(AcceptedOf(fixes, order))
    && multiset(Edits(edits)) == multiset(AppliedEdits(fixes, order)) && Descending(Edits(edits))
    && out == Spliced(source, Edits(edits))
  }

  /**
   Applies the fixes: the result is the source with the edits of the applied fixes made, highest start
   first. When those edits start at different places and keep apart, that is all of them at once.
   */
  method Apply(source: string, fixes: seq<PrioritisedFix>)
    returns (out: string, conflicts: seq<FixConflict>, order: seq<nat>, edits: seq<AcceptedEdit>)
    ensures OutcomeBy(source, fixes, order, edits, out)
    ensures Separate(AppliedEdits(fixes, order)) ==>
              && out == Substitute(source, AppliedEdits(fixes, order), 0)
              && |out| == |source| + SizeChange(source, Edits(edits))
    ensures |conflicts| == |DroppedOf(fixes, order)|
    ensures forall k :: 0 <= k < |conflicts| ==>
              DroppedOf(fixes, order)[k] < |fixes| && Justified(fixes, order, conflicts[k], DroppedOf(fixes, order)[k])
  {
    if fixes == [] {
      SpliceOutcome(source, [], []);
      return source, [], [], [];
    }
    order := SortByPriority(fixes);
    var accepted;
    accepted, conflicts := SelectFixes(fixes, order);
    edits := SortDescending(accepted);
    out := Splice(source, edits);
    SpliceOutcome(source, accepted, edits);
  }

  // ------------------------------------------------------- order of the input

  /** There is one order of priority. */
  lemma {:induction false} PriorityOrderIsUnique(fixes: seq<PrioritisedFix>, a: seq<nat>, b: seq<nat>)
    requires Prioritised(fixes, a) && Prioritised(fixes, b) && forall i :: i in a <==> i in b
    ensures a == b
  {
    hide Before;
    HasFirst(a);
    HasFirst(b);
    if a != [] && b != [] {
      LeastIsFirst(fixes, a, b);
      PriorityOrderIsUnique(fixes, a[1..], b[1..]);
    }
  }

  lemma HasFirst<T>(s: seq<T>)
    ensures s != [] ==> s[0] in s
  {
  }

  lemma LeastIsFirst(fixes: seq<PrioritisedFix>, a: seq<nat>, b: seq<nat>)
    requires Prioritised(fixes, a) && Prioritised(fixes, b) && a != [] && b != [] && forall i :: i in a <==> i in b
    ensures a[0] == b[0] && forall i :: i in a[1..] <==> i in b[1..]
  {
    assert a[0] in b && b[0] in a;
    BeforeIsStrictOrder(fixes, a[0], b[0], a[0]);
    forall i
      ensures i in a[1..] <==> i in a && i != a[0]
      ensures i in b[1..] <==> i in b && i != b[0]
    {
      OthersFollow(fixes, a, i);
      OthersFollow(fixes, b, i);
    }
  }

  lemma OthersFollow(fixes: seq<PrioritisedFix>, a: seq<nat>, i: nat)
    requires Prioritised(fixes, a) && a != []
    ensures i in a[1..] <==> i in a && i != a[0]
  {
    assert a == [a[0]] + a[1..];
    if i in a[1..] {
      var k :| 1 <= k < |a| && a[k] == i;
      BeforeIsStrictOrder(fixes, a[0], a[k], a[0]);
    }
  }

  function Through(perm: seq<nat>, order: seq<nat>): (r: seq<nat>)
    requires forall k :: 0 <= k < |order| ==> order[k] < |perm|
    ensures |r| == |order|
  {
    seq(|order|, k requires 0 <= k < |order| => perm[order[k]])
  }

  lemma BeforeIgnoresInputOrder(a: seq<PrioritisedFix>, b: seq<PrioritisedFix>, perm: seq<nat>, i: nat, j: nat)
    requires Permuted(a, b, perm) && DistinctPriorities(a) && i < |a| && j < |a| && i != j
    ensures Before(a, i, j) <==> Before(b, perm[i], perm[j])
  {
    assert a[i].priority != a[j].priority;
  }

  /** A permutation of the input carries its order of priority along. */
  lemma OrdersAgree(a: seq<PrioritisedFix>, b: seq<PrioritisedFix>, perm: seq<nat>, orderA: seq<nat>, orderB: seq<nat>)
    requires Permuted(a, b, perm) && DistinctPriorities(a)
    requires Prioritised(a, orderA) && (forall i: nat :: i in orderA <==> i < |a|)
    requires Prioritised(b, orderB) && (forall i: nat :: i in orderB <==> i < |b|)
    ensures orderB == Through(perm, orderA)
  {
    hide Before;
    var order := Through(perm, orderA);
    forall k, m | 0 <= k < m < |order|
      ensures Before(b, order[k], order[m])
    {
      BeforeIsStrictOrder(a, orderA[k], orderA[m], orderA[k]);
      BeforeIgnoresInputOrder(a, b, perm, orderA[k], orderA[m]);
    }
    forall m: nat
      ensures m in order <==> m in orderB
    {
      if m in orderB {
        assert m in perm;
        var i :| 0 <= i < |perm| && perm[i] == m;
        assert i in orderA;
        var k :| 0 <= k < |orderA| && orderA[k] == i;
        assert order[k] == m;
      }
    }
    PriorityOrderIsUnique(b, orderB, order);
  }

  lemma {:induction false} SameAccepted(a: seq<PrioritisedFix>, b: seq<PrioritisedFix>, perm: seq<nat>, order: seq<nat>)
    requires Permuted(a, b, perm) && DistinctPriorities(a) && forall k :: 0 <= k < |order| ==> order[k] < |a|
    ensures AcceptedOf(b, Through(perm, order)) == AcceptedOf(a, order)
  {
    if order == [] {
    } else {
      var n := |order| - 1;
      SameAccepted(a, b, perm, order[..n]);
      SelectionIgnoresInputOrder(a, b, perm, order[n]);
      assert Through(perm, order)[..n] == Through(perm, order[..n]);
    }
  }

  /**
   With distinct priorities, two listings of the same fixes lead to the same applied edits; when
   these keep apart, every text one listing may lead to is every text the other may lead to.
   */
  lemma OutcomesAgree(source: string, a: seq<PrioritisedFix>, b: seq<PrioritisedFix>, perm: seq<nat>,
                      orderA: seq<nat>, editsA: seq<AcceptedEdit>, outA: string,
                      orderB: seq<nat>, editsB: seq<AcceptedEdit>, outB: string)
    requires Permuted(a, b, perm) && DistinctPriorities(a)
    requires OutcomeBy(source, a, orderA, editsA, outA) && OutcomeBy(source, b, orderB, editsB, outB)
    ensures AcceptedOf(a, orderA) == AcceptedOf(b, orderB)
    ensures Separate(AppliedEdits(a, orderA)) ==> outA == outB
    ensures (forall i :: 0 <= i < |a| ==> Disjoint(a[i].edits)) ==> outA == outB
  {
    hide Separate, Disjoint, Descending, Prioritised, Applied, Permuted, Substitute;
    OrdersAgree(a, b, perm, orderA, orderB);
    assert forall k :: 0 <= k < |orderA| ==> orderA[k] in orderA;
    assert forall k :: 0 <= k < |orderB| ==> orderB[k] in orderB;
    SameAccepted(a, b, perm, orderA);
    SpliceOutcome(source, AcceptedOf(a, orderA), editsA);
    SpliceOutcome(source, AcceptedOf(b, orderB), editsB);
    if forall i :: 0 <= i < |a| ==> Disjoint(a[i].edits) {
      AppliedStaySeparate(a, orderA);
    }
  }

  lemma SpliceOutcome(source: string, accepted: seq<AcceptedEdit>, edits: seq<AcceptedEdit>)
    requires multiset(Edits(accepted)) == multiset(Edits(edits)) && Descending(Edits(edits))
    ensures Separate(Edits(accepted)) ==>
              && Spliced(source, Edits(edits)) == Substitute(source, Edits(accepted), 0)
              && |Spliced(source, Edits(edits))| == |source| + SizeChange(source, Edits(edits))
  {
    if Separate(Edits(accepted)) {
      SubstituteIgnoresOrder(source, Edits(accepted), Edits(edits));
      SplicedIsSubstitute(source, Edits(edits));
    }
  }

  /** Every edit covers something, and no two of them reach into each other. */
  predicate Disjoint(edits: seq<Edit>) {
    && (forall k :: 0 <= k < |edits| ==> edits[k].lo < edits[k].hi)
    && (forall k, m :: 0 <= k < m < |edits| ==> !Overlaps(edits[k], edits[m]))
  }

  lemma DisjointIsSeparate(edits: seq<Edit>)
    requires Disjoint(edits)
    ensures Separate(edits)
  {
    forall e | e in edits
      ensures multiset(edits)[e] == 1
    {
      var k :| 0 <= k < |edits| && edits[k] == e;
      OccursOnce(edits, k);
    }
  }

  lemma OccursOnce(edits: seq<Edit>, k: nat)
    requires k < |edits| && forall m :: 0 <= m < |edits| && m != k ==> edits[m] != edits[k]
    ensures multiset(edits)[edits[k]] == 1
  {
    assert edits == edits[..k] + [edits[k]] + edits[k + 1..];
    assert edits[k] !in edits[..k] && edits[k] !in edits[k + 1..];
  }

  lemma AppliedFromEarlier(fixes: seq<PrioritisedFix>, order: seq<nat>, a: AcceptedEdit, f: Edit)
    requires Prioritised(fixes, order) && order != []
    requires var n := |order| - 1; Applied(fixes, order[n]) && f in fixes[order[n]].edits && a in AcceptedOf(fixes, order[..n])
    ensures !Overlaps(a.edit, f)
  {
    var n := |order| - 1;
    var i := order[n];
    AcceptedAreApplied(fixes, order[..n], a);
    var j :| j in order[..n] && Applied(fixes, j) && a.edit in fixes[j].edits;
    BeforeIsStrictOrder(fixes, i, j, i);
    AppliedAreApart(fixes, j, i);
  }

  /** When each fix only replaces disjoint, non-empty stretches, so do the applied fixes together. */
  lemma {:induction false} AppliedStaySeparate(fixes: seq<PrioritisedFix>, order: seq<nat>)
    requires Prioritised(fixes, order)
    requires forall i :: 0 <= i < |fixes| ==> Disjoint(fixes[i].edits)
    ensures Disjoint(AppliedEdits(fixes, order)) && Separate(AppliedEdits(fixes, order))
  {
    hide Applied, Before, Overlaps, FixesOverlap, Separate;
    if order != [] {
      var n := |order| - 1;
      var i := order[n];
      AppliedStaySeparate(fixes, order[..n]);
      var earlier := AcceptedOf(fixes, order[..n]);
      if Applied(fixes, i) {
        forall k, m | 0 <= k < |earlier| && 0 <= m < |fixes[i].edits|
          ensures !Overlaps(earlier[k].edit, fixes[i].edits[m])
        {
          AppliedFromEarlier(fixes, order, earlier[k], fixes[i].edits[m]);
        }
        JoinDisjoint(AppliedEdits(fixes, order[..n]), fixes[i].edits);
        assert AppliedEdits(fixes, order) == AppliedEdits(fixes, order[..n]) + fixes[i].edits;
      } else {
        assert AcceptedOf(fixes, order) == earlier;
      }
    }
    DisjointIsSeparate(AppliedEdits(fixes, order));
  }

  lemma JoinDisjoint(a: seq<Edit>, b: seq<Edit>)
    requires Disjoint(a) && Disjoint(b)
    requires forall k, m :: 0 <= k < |a| && 0 <= m < |b| ==> !Overlaps(a[k], b[m])
    ensures Disjoint(a + b)
  {
  }
}
