/** Which severity the configuration gives a rule in a file, and what that does to diagnostics. */
module Config {
  import opened Options
  import opened Glob
  import opened Severities

  datatype RuleSeverity = Allow | Warn | Deny

  datatype Override = Override(pathGlob: string, ruleSeverity: map<string, RuleSeverity>)

  datatype Config = Config(ruleSeverity: map<string, RuleSeverity>, overrides: seq<Override>)

  function Normalised(s: string): (r: string)
    ensures |r| == |s|
  {
    seq(|s|, i requires 0 <= i < |s| => if s[i] == '\\' then '/' else s[i])
  }

  /** One character of a text with its separators normalised: `/` for either separator, itself else. */
  predicate SeparatorOr(c: char, r: char) {
    if c == '/' || c == '\\' then r == '/' else r == c
  }

  method NormaliseSeparators(s: string) returns (out: string)
    ensures out == Normalised(s)
    ensures |out| == |s| && forall i :: 0 <= i < |s| ==> SeparatorOr(s[i], out[i])
  {
    out := [];
    for i := 0 to |s|
      invariant out == Normalised(s)[..i]
    {
      out := out + [if s[i] == '\\' then '/' else s[i]];
    }
  }

  /** The path is in the language of the glob, both with `\` read as `/`. */
  ghost predicate PathMatches(glob: string, path: string) {
    Denotes(Tokenise(Normalised(glob)), Normalised(path))
  }

  method PathGlobMatch(glob: string, path: string) returns (matched: bool)
    ensures matched <==> PathMatches(glob, path)
  {
    var normalisedPath := NormaliseSeparators(path);
    var normalisedGlob := NormaliseSeparators(glob);
    matched := GlobMatch(normalisedGlob, normalisedPath);
  }

  /** The texts differ at most in which way their separators lean. */
  predicate SameButSeparators(s: string, t: string) {
    && |s| == |t|
    && forall i :: 0 <= i < |s| ==> s[i] == t[i] || (s[i] in {'/', '\\'} && t[i] in {'/', '\\'})
  }

  lemma NormalisedAlike(s: string, t: string)
    requires SameButSeparators(s, t)
    ensures Normalised(s) == Normalised(t)
  {
  }

  /** Which way the separators lean decides nothing, in the glob and in the path. */
  lemma SeparatorsDoNotMatter(glob: string, path: string, glob': string, path': string)
    requires SameButSeparators(glob, glob') && SameButSeparators(path, path')
    ensures PathMatches(glob, path) <==> PathMatches(glob', path')
  {
    hide Normalised;
    NormalisedAlike(glob, glob');
    NormalisedAlike(path, path');
  }

  /** Without backslashes a path matches exactly when it is in the language of the glob. */
  lemma SlashesAreSeparators(glob: string, path: string)
    requires '\\' !in glob && '\\' !in path
    ensures PathMatches(glob, path) <==> Denotes(Tokenise(glob), path)
  {
    assert Normalised(glob) == glob && Normalised(path) == path;
  }

  /** The override applies to the path and speaks of the rule. */
  ghost predicate Overrides(entry: Override, ruleId: string, path: string) {
    PathMatches(entry.pathGlob, path) && ruleId in entry.ruleSeverity
  }

  /** What the last override that applies says. */
  ghost function LastOverride(overrides: seq<Override>, ruleId: string, path: string): Option<RuleSeverity> {
    if overrides == [] then None
    else
      var entry := overrides[|overrides| - 1];
      if Overrides(entry, ruleId, path) then Some(entry.ruleSeverity[ruleId])
      else LastOverride(overrides[..|overrides| - 1], ruleId, path)
  }

  ghost function SeverityOf(config: Config, ruleId: string, path: string): Option<RuleSeverity> {
    var found := LastOverride(config.overrides, ruleId, path);
    if found.Some? then found
    else if ruleId in config.ruleSeverity then Some(config.ruleSeverity[ruleId])
    else None
  }

  /** An override decides when it applies and no later one does; the base table decides when none applies. */
  lemma {:induction false} LaterOverridesWin(config: Config, ruleId: string, path: string, i: nat)
    ensures var applies := set k | 0 <= k < |config.overrides| && PathMatches(config.overrides[k].pathGlob, path)
                                   && ruleId in config.overrides[k].ruleSeverity;
            && (i in applies && (forall j :: j in applies ==> j <= i) ==>
                  SeverityOf(config, ruleId, path) == Some(config.overrides[i].ruleSeverity[ruleId]))
            && (applies == {} ==>
                  SeverityOf(config, ruleId, path) ==
                  if ruleId in config.ruleSeverity then Some(config.ruleSeverity[ruleId]) else None)
    decreases |config.overrides|
  {
    hide PathMatches;
    var overrides := config.overrides;
    var n := |overrides| - 1;
    var applies := set k | 0 <= k < |overrides| && PathMatches(overrides[k].pathGlob, path) && ruleId in overrides[k].ruleSeverity;
    if n >= 0 && !Overrides(overrides[n], ruleId, path) {
      var before := set k | 0 <= k < |overrides[..n]| && PathMatches(overrides[..n][k].pathGlob, path)
                            && ruleId in overrides[..n][k].ruleSeverity;
      assert applies == before;
      LaterOverridesWin(config.(overrides := overrides[..n]), ruleId, path, i);
    } else if n >= 0 {
      assert n in applies;
    }
  }

  method SeverityFor(config: Config, ruleId: string, path: string) returns (severity: Option<RuleSeverity>)
    ensures severity == SeverityOf(config, ruleId, path)
  {
    var found: Option<RuleSeverity> := None;
    for i := 0 to |config.overrides|
      invariant found == LastOverride(config.overrides[..i], ruleId, path)
    {
      var entry := config.overrides[i];
      assert config.overrides[..i + 1][..i] == config.overrides[..i];
      var matched := PathGlobMatch(entry.pathGlob, path);
      if !matched {
        continue;
      }
      if ruleId in entry.ruleSeverity {
        found := Some(entry.ruleSeverity[ruleId]);
      }
    }
    assert config.overrides[..|config.overrides|] == config.overrides;
    if found.Some? {
      return found;
    }
    if ruleId in config.ruleSeverity {
      return Some(config.ruleSeverity[ruleId]);
    }
    return None;
  }

  // ------------------------------------------------------------- filtering diagnostics

  /** A diagnostic; `detail` stands for its span, message and fixes. */
  datatype Diagnostic = Diagnostic(code: string, severity: Severity, detail: string)

  /** What is kept of one diagnostic under a configured severity. */
  function Filtered(diag: Diagnostic, severity: Option<RuleSeverity>): seq<Diagnostic> {
    match severity
    case None => [diag]
    case Some(Allow) => []
    case Some(Warn) => [diag.(severity := Warning)]
    case Some(Deny) => [diag.(severity := Error)]
  }

  ghost function Kept(config: Config, path: string, diagnostics: seq<Diagnostic>): seq<Diagnostic> {
    if diagnostics == [] then []
    else
      var d := diagnostics[|diagnostics| - 1];
      Kept(config, path, diagnostics[..|diagnostics| - 1]) + Filtered(d, SeverityOf(config, d.code, path))
  }

  method FilterBySeverity(config: Config, path: string, diagnostics: seq<Diagnostic>) returns (kept: seq<Diagnostic>)
    ensures kept == Kept(config, path, diagnostics)
  {
    kept := [];
    for i := 0 to |diagnostics|
      invariant kept == Kept(config, path, diagnostics[..i])
    {
      assert diagnostics[..i + 1][..i] == diagnostics[..i];
      var diag := diagnostics[i];
      var severity := SeverityFor(config, diag.code, path);
      if severity.Some? {
        match severity.value
        case Allow => continue;
        case Warn => diag := diag.(severity := Warning);
        case Deny => diag := diag.(severity := Error);
      }
      kept := kept + [diag];
    }
    assert diagnostics[..|diagnostics|] == diagnostics;
  }

  /** What is kept of a diagnostic: all but the severity, which the configuration sets where it speaks of the rule. */
  ghost predicate KeptAs(config: Config, path: string, given: Diagnostic, kept: Diagnostic) {
    var configured := SeverityOf(config, given.code, path);
    && kept.code == given.code && kept.detail == given.detail
    && (configured == Some(Warn) ==> kept.severity == Warning)
    && (configured == Some(Deny) ==> kept.severity == Error)
    && (configured == None ==> kept.severity == given.severity)
  }

  /** The diagnostics at the places `from`, in this order, are kept. */
  ghost predicate KeptFrom(config: Config, path: string, diagnostics: seq<Diagnostic>, kept: seq<Diagnostic>, from: seq<nat>) {
    && |from| == |kept|
    && (forall j, k :: 0 <= j < k < |from| ==> from[j] < from[k])
    && (forall i: nat :: i in from <==> i < |diagnostics| && SeverityOf(config, diagnostics[i].code, path) != Some(Allow))
    && (forall k :: 0 <= k < |from| ==> from[k] < |diagnostics| && KeptAs(config, path, diagnostics[from[k]], kept[k]))
  }

  /** The kept diagnostics are those the configuration does not allow away, in the order they were given. */
  lemma {:induction false} KeptExactly(config: Config, path: string, diagnostics: seq<Diagnostic>) returns (from: seq<nat>)
    ensures KeptFrom(config, path, diagnostics, Kept(config, path, diagnostics), from)
  {
    if diagnostics == [] {
      from := [];
    } else {
      var n := |diagnostics| - 1;
      var d := diagnostics[n];
      var before := Kept(config, path, diagnostics[..n]);
      from := KeptExactly(config, path, diagnostics[..n]);
      var more := Filtered(d, SeverityOf(config, d.code, path));
      assert more == [] <==> SeverityOf(config, d.code, path) == Some(Allow);
      assert more != [] ==> more == [more[0]] && KeptAs(config, path, d, more[0]);
      hide Filtered, SeverityOf, KeptAs;
      assert diagnostics == diagnostics[..n] + [d];
      OneMoreKept(config, path, diagnostics[..n], d, before, from, more);
      if more != [] {
        from := from + [n];
      }
    }
  }

  lemma OneMoreKept(config: Config, path: string, diagnostics: seq<Diagnostic>, d: Diagnostic,
                    kept: seq<Diagnostic>, from: seq<nat>, more: seq<Diagnostic>)
    requires KeptFrom(config, path, diagnostics, kept, from)
    requires more == [] <==> SeverityOf(config, d.code, path) == Some(Allow)
    requires more != [] ==> more == [more[0]] && KeptAs(config, path, d, more[0])
    ensures KeptFrom(config, path, diagnostics + [d], kept + more, if more == [] then from else from + [|diagnostics|])
  {
    hide SeverityOf, KeptAs;
    var from' := if more == [] then from else from + [|diagnostics|];
    forall i: nat
      ensures i in from' <==> i < |diagnostics| + 1 && SeverityOf(config, (diagnostics + [d])[i].code, path) != Some(Allow)
    {
    }
    assert forall k :: 0 <= k < |from| ==> from[k] in from;
  }
}
