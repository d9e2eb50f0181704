/** A task's path rules (tools/agent/validation.py, tools/agent/config.py): which ownership
    surfaces are accepted, and which changed files fall outside them. */
module Ownership {
  import opened Wrappers
  import opened Globs
  import opened PatternText
  import opened TaskGraph

  datatype Config = Config(
    maxSubAgents: nat,
    mainAgentIds: set<string>,
    protectedPaths: seq<string>,
    publicTruthPaths: seq<string>,
    safetyPaths: seq<string>)

  datatype PathError =
    | NothingAllowed
    | InvalidPattern
    | AllowedAndForbidden(path: string)
    | ProtectedPath(path: string)
    | GovernedPath(path: string)
    | IntegrationForbidden(path: string)
    | IntegrationGlob(path: string)

  /** TaskContract.ownership_surface, raw. */
  function Surface(t: Task): seq<string> {
    if t.nativeShared then t.allowedPaths + t.integrationPaths else t.allowedPaths
  }

  /** _normalized_patterns: all patterns normalised, or None where it raises. */
  function NormalizeAll(raw: seq<string>): (r: Option<seq<string>>)
    ensures r.Some? ==> |r.value| == |raw|
    ensures r.Some? ==> forall i :: 0 <= i < |raw| ==> NormalizePattern(raw[i]) == Some(r.value[i])
    ensures r.None? ==> exists i :: 0 <= i < |raw| && NormalizePattern(raw[i]).None?
  {
    if raw == [] then Some([])
    else
      var first, rest := NormalizePattern(raw[0]), NormalizeAll(raw[1..]);
      if first.None? then None
      else if rest.None? then
        assert forall i :: 0 <= i < |raw| - 1 ==> raw[1..][i] == raw[i + 1];
        None
      else Some([first.value] + rest.value)
  }

  predicate Reaches(pattern: string, patterns: seq<string>) {
    exists i :: 0 <= i < |patterns| && PatternsOverlap(pattern, patterns[i])
  }

  predicate CoveredBy(path: string, patterns: seq<string>) {
    exists i :: 0 <= i < |patterns| && MatchesPattern(path, patterns[i])
  }

  /** overlapping_pattern: the first of the patterns the given one overlaps. */
  method OverlappingPattern(pattern: string, patterns: seq<string>) returns (r: Option<string>)
    ensures r.Some? <==> Reaches(pattern, patterns)
    ensures r.Some? ==> r.value in patterns && PatternsOverlap(pattern, r.value)
  {
    for i := 0 to |patterns|
      invariant forall j :: 0 <= j < i ==> !PatternsOverlap(pattern, patterns[j])
    {
      if PatternsOverlap(pattern, patterns[i]) {
        return Some(patterns[i]);
      }
    }
    return None;
  }

  predicate Governed(pattern: string, config: Config) {
    Reaches(pattern, config.protectedPaths) || Reaches(pattern, config.publicTruthPaths)
    || Reaches(pattern, config.safetyPaths)
  }

  predicate Disjoint(patterns: seq<string>, guards: seq<string>) {
    forall i :: 0 <= i < |patterns| ==> !Reaches(patterns[i], guards)
  }

  /** Integration paths are exact files outside everything governed or forbidden. */
  predicate ExactUngoverned(integration: seq<string>, forbidden: seq<string>, config: Config) {
    forall i :: 0 <= i < |integration| ==>
      !Governed(integration[i], config) && !Reaches(integration[i], forbidden) && !IsGlob(integration[i])
  }

  /** The surfaces validate_task accepts. */
  ghost predicate Accepts(t: Task, config: Config) {
    && t.allowedPaths != []
    && NormalizeAll(t.allowedPaths).Some? && NormalizeAll(t.forbiddenPaths).Some? && NormalizeAll(t.integrationPaths).Some?
    && var allowed := NormalizeAll(t.allowedPaths).value;
       var forbidden := NormalizeAll(t.forbiddenPaths).value;
       && Disjoint(allowed, forbidden)
       && (t.owner !in config.mainAgentIds ==> Disjoint(allowed, config.protectedPaths))
       && ExactUngoverned(NormalizeAll(t.integrationPaths).value, forbidden, config)
  }

  /** The first pattern that reaches one of the guards. */
  method FirstReaching(patterns: seq<string>, guards: seq<string>) returns (r: Option<string>)
    ensures r.None? <==> Disjoint(patterns, guards)
    ensures r.Some? ==> r.value in patterns && Reaches(r.value, guards)
  {
    for i := 0 to |patterns|
      invariant Disjoint(patterns[..i], guards)
    {
      var guard := OverlappingPattern(patterns[i], guards);
      if guard.Some? {
        return Some(patterns[i]);
      }
    }
    assert patterns[..|patterns|] == patterns;
    return None;
  }

  /** The error names an integration path and a rule it breaks. */
  ghost predicate IntegrationRefusal(e: PathError, integration: seq<string>, forbidden: seq<string>, config: Config) {
    match e
    case GovernedPath(p) => p in integration && Governed(p, config)
    case IntegrationForbidden(p) => p in integration && Reaches(p, forbidden) && !Governed(p, config)
    case IntegrationGlob(p) => p in integration && IsGlob(p) && !Governed(p, config) && !Reaches(p, forbidden)
    case _ => false
  }

  /** The error names the first rule the task breaks. */
  ghost predicate PathRefusal(e: PathError, t: Task, config: Config) {
    var allowed, forbidden, integration :=
      NormalizeAll(t.allowedPaths), NormalizeAll(t.forbiddenPaths), NormalizeAll(t.integrationPaths);
    if t.allowedPaths == [] then e.NothingAllowed?
    else if allowed.None? || forbidden.None? || integration.None? then e.InvalidPattern?
    else if !Disjoint(allowed.value, forbidden.value) then
      e.AllowedAndForbidden? && e.path in allowed.value && Reaches(e.path, forbidden.value)
    else if t.owner !in config.mainAgentIds && !Disjoint(allowed.value, config.protectedPaths) then
      e.ProtectedPath? && e.path in allowed.value && Reaches(e.path, config.protectedPaths)
    else IntegrationRefusal(e, integration.value, forbidden.value, config)
  }

  method CheckIntegration(integration: seq<string>, forbidden: seq<string>, config: Config) returns (error: Option<PathError>)
    ensures error.None? <==> ExactUngoverned(integration, forbidden, config)
    ensures error.Some? ==> IntegrationRefusal(error.value, integration, forbidden, config)
  {
    for i := 0 to |integration|
      invariant ExactUngoverned(integration[..i], forbidden, config)
    {
      if Governed(integration[i], config) {
        return Some(GovernedPath(integration[i]));
      }
      var blocked := OverlappingPattern(integration[i], forbidden);
      if blocked.Some? {
        return Some(IntegrationForbidden(integration[i]));
      }
      if IsGlob(integration[i]) {
        return Some(IntegrationGlob(integration[i]));
      }
    }
    assert integration[..|integration|] == integration;
    return None;
  }

  /** The path rules of validate_task, in the source's order. */
  method ValidatePaths(t: Task, config: Config) returns (error: Option<PathError>)
    ensures error.None? <==> Accepts(t, config)
    ensures error.Some? ==> PathRefusal(error.value, t, config)
  {
    if t.allowedPaths == [] {
      return Some(NothingAllowed);
    }
    var allowed, forbidden, integration :=
      NormalizeAll(t.allowedPaths), NormalizeAll(t.forbiddenPaths), NormalizeAll(t.integrationPaths);
    if allowed.None? || forbidden.None? || integration.None? {
      return Some(InvalidPattern);
    }
    var blocked := FirstReaching(allowed.value, forbidden.value);
    if blocked.Some? {
      return Some(AllowedAndForbidden(blocked.value));
    }
    var guarded := FirstReaching(allowed.value, config.protectedPaths);
    if guarded.Some? && t.owner !in config.mainAgentIds {
      return Some(ProtectedPath(guarded.value));
    }
    error := CheckIntegration(integration.value, forbidden.value, config);
  }

  /** The surface ownership_violations compares with: normalised. */
  ghost predicate Owns(t: Task, path: string) {
    NormalizeAll(Surface(t)).Some? && CoveredBy(path, NormalizeAll(Surface(t)).value)
  }

  lemma DisjointPatternsShareNoPath(pattern: string, patterns: seq<string>, path: string)
    requires (!EndsWithNewline(path) || IsGlob(path)) && MatchesPattern(path, pattern) && !Reaches(pattern, patterns)
    ensures !CoveredBy(path, patterns)
  {
    if CoveredBy(path, patterns) {
      var i :| 0 <= i < |patterns| && MatchesPattern(path, patterns[i]);
      OverlapIsConservative(path, pattern, patterns[i]);
    }
  }

  /** An owned path of an accepted task comes from its allowed or its integration patterns. */
  lemma OwnedPathHasAPattern(t: Task, config: Config, path: string) returns (pattern: string, integrated: bool)
    requires Accepts(t, config) && Owns(t, path)
    ensures MatchesPattern(path, pattern)
    ensures !integrated ==> pattern in NormalizeAll(t.allowedPaths).value
    ensures integrated ==> pattern in NormalizeAll(t.integrationPaths).value
  {
    var surface := NormalizeAll(Surface(t)).value;
    var i :| 0 <= i < |surface| && MatchesPattern(path, surface[i]);
    pattern, integrated := surface[i], i >= |t.allowedPaths|;
    if integrated {
      assert Surface(t)[i] == t.integrationPaths[i - |t.allowedPaths|];
    } else {
      assert Surface(t)[i] == t.allowedPaths[i];
    }
  }

  /** For an accepted task no owned path is forbidden, and unless its owner is a main agent none
      matches a protected pattern. */
  lemma AcceptedTasksOwnNothingForbidden(t: Task, config: Config, path: string)
    requires Accepts(t, config) && (!EndsWithNewline(path) || IsGlob(path)) && Owns(t, path)
    ensures !CoveredBy(path, NormalizeAll(t.forbiddenPaths).value)
    ensures t.owner !in config.mainAgentIds ==> !CoveredBy(path, config.protectedPaths)
  {
    var pattern, integrated := OwnedPathHasAPattern(t, config, path);
    DisjointPatternsShareNoPath(pattern, NormalizeAll(t.forbiddenPaths).value, path);
    if t.owner !in config.mainAgentIds {
      DisjointPatternsShareNoPath(pattern, config.protectedPaths, path);
    }
  }

  ghost predicate Violates(t: Task, path: string) {
    !Owns(t, path) || (NormalizeAll(t.forbiddenPaths).Some? && CoveredBy(path, NormalizeAll(t.forbiddenPaths).value))
  }

  /** Some changed file normalises to the path. */
  ghost predicate Changed(changed: seq<string>, path: string) {
    exists raw :: raw in changed && NormalizePath(raw) == Some(path)
  }

  /** ownership_violations: the normalised changed files that nothing owns or something forbids; None
      where a pattern or a file does not normalise. */
  method OwnershipViolations(t: Task, changed: seq<string>) returns (r: Option<seq<string>>)
    ensures r.None? <==>
              NormalizeAll(Surface(t)).None? || NormalizeAll(t.forbiddenPaths).None?
              || exists raw :: raw in changed && NormalizePath(raw).None?
    ensures r.Some? ==> forall path :: path in r.value <==> Changed(changed, path) && Violates(t, path)
  {
    var surface, forbidden := NormalizeAll(Surface(t)), NormalizeAll(t.forbiddenPaths);
    if surface.None? || forbidden.None? {
      return None;
    }
    var offending: seq<string> := [];
    for i := 0 to |changed|
      invariant forall raw :: raw in changed[..i] ==> NormalizePath(raw).Some?
      invariant forall path :: path in offending <==> Changed(changed[..i], path) && Violates(t, path)
    {
      OneMoreChange(changed, i);
      var path := NormalizePath(changed[i]);
      if path.None? {
        return None;
      }
      if !CoveredBy(path.value, surface.value) || CoveredBy(path.value, forbidden.value) {
        offending := offending + [path.value];
      }
    }
    assert changed[..|changed|] == changed;
    return Some(offending);
  }

  lemma OneMoreChange(changed: seq<string>, i: nat)
    requires i < |changed|
    ensures changed[i] in changed
    ensures forall raw :: raw in changed[..i + 1] <==> raw in changed[..i] || raw == changed[i]
    ensures forall path :: Changed(changed[..i + 1], path) <==> Changed(changed[..i], path) || NormalizePath(changed[i]) == Some(path)
  {
    assert changed[..i + 1] == changed[..i] + [changed[i]];
    forall path | Changed(changed[..i], path) ensures Changed(changed[..i + 1], path) {
      var raw :| raw in changed[..i] && NormalizePath(raw) == Some(path);
      assert raw in changed[..i + 1];
    }
    forall path | NormalizePath(changed[i]) == Some(path) ensures Changed(changed[..i + 1], path) {
      assert changed[i] in changed[..i + 1];
    }
  }

  lemma SurfaceNormalizes(t: Task, config: Config)
    requires Accepts(t, config)
    ensures NormalizeAll(Surface(t)).Some?
  {
    forall i | 0 <= i < |Surface(t)| ensures NormalizePattern(Surface(t)[i]).Some? {
      assert i < |t.allowedPaths| ==> Surface(t)[i] == t.allowedPaths[i];
      assert i >= |t.allowedPaths| ==> Surface(t)[i] == t.integrationPaths[i - |t.allowedPaths|];
    }
  }

  /** For an accepted task a path is a violation exactly when no pattern owns it. */
  lemma AcceptedTaskViolations(t: Task, config: Config, path: string)
    requires Accepts(t, config) && (!EndsWithNewline(path) || IsGlob(path))
    ensures NormalizeAll(Surface(t)).Some? && (Violates(t, path) <==> !Owns(t, path))
  {
    SurfaceNormalizes(t, config);
    if Owns(t, path) {
      AcceptedTasksOwnNothingForbidden(t, config, path);
    }
  }
}
