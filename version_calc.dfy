/**
 * The version calculator on values: the four versions it keeps (latest
 * released, its repository prefix, the upstream version to release, and
 * the prefix to release it under), the steps that fill them in, and what
 * those steps guarantee. The class Auto.Bump performs the same steps on
 * mutable records and is proved to reach the states defined here.
 */
module VersionCalc {
  import opened Wrappers
  import opened Strings
  import opened Errors
  import opened Manifest
  import opened RepoPrefix
  import SemVer
  import Precedence

  /** Unsigned 64-bit version numbers wrap around modulo 2^64. */
  const Modulus64: nat := 0x1_0000_0000_0000_0000

  /** The increment of an unsigned 64-bit version number. */
  function Inc64(x: nat): (r: nat)
    requires x <= SemVer.MaxNumber
    ensures r <= SemVer.MaxNumber
    ensures x < SemVer.MaxNumber ==> r == x + 1
    ensures x == SemVer.MaxNumber ==> r == 0
  {
    (x + 1) % Modulus64
  }

  /** A version as text and, once parsed, as a semver. */
  datatype Slot = Slot(txt: string, svr: Option<SemVer.Version>)

  const Blank: Slot := Slot("", None)

  /** The text and the semver of a slot agree. */
  predicate Synced(s: Slot)
  {
    s.svr.Some? && SemVer.Parse(s.txt) == Ok(s.svr.value)
  }

  datatype VersionSet = VersionSet(latest: Slot, latestRepoPrefix: Slot, toRelease: Slot, toReleaseRepoPrefix: Slot)

  const Initial: VersionSet := VersionSet(Blank, Blank, Blank, Blank)

  /** The state a step leaves behind, and the error it stopped with, if any. */
  datatype Outcome = Outcome(versions: VersionSet, err: Option<BumpError>)

  // ---------------------------------------------------------------
  // Loading

  /** Reparses a slot's text: on success the semver is replaced, on failure it is kept. */
  function Reparse(s: Slot): (Slot, Option<SemVer.ParseError>)
  {
    match SemVer.Parse(s.txt)
    case Ok(v) => (s.(svr := Some(v)), None)
    case Err(e) => (s, Some(e))
  }

  /**
   * The first half of loadVersions: the latest released version, split at
   * the marker, with the prefix (when there is one) and then the version
   * parsed.
   */
  function LoadLatest(latestRaw: string): Outcome
  {
    if latestRaw == "" then Outcome(Initial, Some(ChartLatestVersion))
    else
      var split := ParseRepoPrefixVersionIfAny(latestRaw);
      var (prefix, prefixErr) := if split.found then Reparse(Slot(split.repoPrefix, None)) else (Blank, None);
      if prefixErr.Some? then Outcome(Initial.(latestRepoPrefix := prefix), Some(SemverParse(prefixErr.value)))
      else
        var (latest, latestErr) := Reparse(Slot(split.version, None));
        var vs := Initial.(latestRepoPrefix := prefix, latest := latest);
        Outcome(vs, if latestErr.Some? then Some(SemverParse(latestErr.value)) else None)
  }

  /**
   * The second half of loadVersions: the upstream version, which must be
   * non-empty, parse, carry no marker and not be below the latest.
   */
  function LoadUpstream(vs: VersionSet, upstream: string): Outcome
    requires vs.latest.svr.Some?
  {
    if upstream == "" then Outcome(vs.(toRelease := Slot(upstream, None)), Some(ChartUpstreamVersion))
    else
      var (toRelease, toReleaseErr) := Reparse(Slot(upstream, None));
      var vs := vs.(toRelease := toRelease);
      if toReleaseErr.Some? then Outcome(vs, Some(SemverParse(toReleaseErr.value)))
      else if ParseRepoPrefixVersionIfAny(upstream).found then Outcome(vs, Some(ChartUpstreamVersionWrong))
      else if Precedence.Less(toRelease.svr.value, vs.latest.svr.value) then Outcome(vs, Some(BumpVersion))
      else Outcome(vs, None)
  }

  /** loadVersions: the latest version, then the upstream version, stopping at the first failure. */
  function Load(latestRaw: string, upstream: string): Outcome
  {
    var latest := LoadLatest(latestRaw);
    if latest.err.Some? then latest
    else LoadUpstream(latest.versions, upstream)
  }

  /** The first reason the latest version is rejected: empty, unparsable prefix, unparsable version. */
  function LatestFault(latestRaw: string): Option<BumpError>
  {
    var split := ParseRepoPrefixVersionIfAny(latestRaw);
    if latestRaw == "" then Some(ChartLatestVersion)
    else if split.found && SemVer.Parse(split.repoPrefix).Err? then Some(SemverParse(SemVer.Parse(split.repoPrefix).error))
    else if SemVer.Parse(split.version).Err? then Some(SemverParse(SemVer.Parse(split.version).error))
    else None
  }

  /**
   * The first reason the upstream version is rejected against a latest
   * version: empty, unparsable, carrying the marker, below the latest.
   */
  function UpstreamFault(latest: SemVer.Version, upstream: string): Option<BumpError>
  {
    if upstream == "" then Some(ChartUpstreamVersion)
    else if SemVer.Parse(upstream).Err? then Some(SemverParse(SemVer.Parse(upstream).error))
    else if Contains(upstream, Marker) then Some(ChartUpstreamVersionWrong)
    else if Precedence.Less(SemVer.Parse(upstream).value, latest) then Some(BumpVersion)
    else None
  }

  /** What a successful load guarantees to the next steps. */
  predicate WellLoaded(vs: VersionSet)
  {
    && Synced(vs.latest)
    && Synced(vs.toRelease)
    && (vs.latestRepoPrefix.txt != "" ==> Synced(vs.latestRepoPrefix))
    && !Precedence.Less(vs.toRelease.svr.value, vs.latest.svr.value)
    && !Contains(vs.toRelease.txt, Marker)
    && vs.toReleaseRepoPrefix == Blank
  }

  /** The latest version is accepted exactly when it has no fault; it is then parsed and in step. */
  lemma LatestErrors(latestRaw: string)
    ensures LoadLatest(latestRaw).err == LatestFault(latestRaw)
    ensures LoadLatest(latestRaw).err.None? ==>
      var vs := LoadLatest(latestRaw).versions;
      var split := ParseRepoPrefixVersionIfAny(latestRaw);
      && vs == Initial.(latest := vs.latest, latestRepoPrefix := vs.latestRepoPrefix)
      && Synced(vs.latest) && vs.latest.txt == split.version
      && vs.latestRepoPrefix.txt == split.repoPrefix
      && (split.found ==> Synced(vs.latestRepoPrefix))
  {
  }

  /** The upstream version is accepted exactly when it has no fault; it is then parsed and in step. */
  lemma UpstreamErrors(vs: VersionSet, upstream: string)
    requires vs.latest.svr.Some?
    ensures LoadUpstream(vs, upstream).err == UpstreamFault(vs.latest.svr.value, upstream)
    ensures LoadUpstream(vs, upstream).err.None? ==>
      LoadUpstream(vs, upstream).versions == vs.(toRelease := Slot(upstream, SemVer.Parse(upstream).ToOption()))
  {
  }

  /** Loading stops with exactly the first fault of its inputs, the latest version's before the upstream version's. */
  lemma LoadErrors(latestRaw: string, upstream: string)
    ensures Load(latestRaw, upstream).err ==
      if LatestFault(latestRaw).Some? then LatestFault(latestRaw)
      else UpstreamFault(SemVer.Parse(ParseRepoPrefixVersionIfAny(latestRaw).version).value, upstream)
  {
    LatestErrors(latestRaw);
    var latest := LoadLatest(latestRaw);
    if latest.err.None? {
      UpstreamErrors(latest.versions, upstream);
    }
  }

  /**
   * After a successful load the versions are parsed and in step, the
   * upstream version is the one given, free of the marker and not below
   * the latest, and a prefix was recorded exactly when the latest version
   * carried the marker.
   */
  lemma LoadSuccess(latestRaw: string, upstream: string)
    requires Load(latestRaw, upstream).err.None?
    ensures var vs := Load(latestRaw, upstream).versions;
      var split := ParseRepoPrefixVersionIfAny(latestRaw);
      && WellLoaded(vs)
      && vs.latest.txt == split.version
      && vs.toRelease.txt == upstream
      && (vs.latestRepoPrefix.txt != "" <==> Contains(latestRaw, Marker))
      && vs.latestRepoPrefix.txt == split.repoPrefix
  {
    LatestErrors(latestRaw);
    var latest := LoadLatest(latestRaw);
    UpstreamErrors(latest.versions, upstream);
    var split := ParseRepoPrefixVersionIfAny(latestRaw);
    if split.found {
      assert SemVer.Parse(split.repoPrefix).Ok?;
      assert split.repoPrefix != "";
    }
  }

  // ---------------------------------------------------------------
  // Applying the branch rules

  /** The lowest prefix of the branch line; a branch without a rule gives "", which does not parse. */
  function RuleMin(rules: VersionRules): string
  {
    if rules.branchVersion in rules.rules then rules.rules[rules.branchVersion].min else ""
  }

  /** What applying the rules dereferences: the parsed latest and upstream versions, and the prefix when recorded. */
  predicate Loaded(vs: VersionSet)
  {
    && vs.latest.svr.Some?
    && vs.toRelease.svr.Some?
    && (vs.latestRepoPrefix.txt != "" ==> vs.latestRepoPrefix.svr.Some?)
  }

  /**
   * The prefix continued from `prefix`: patch + 1 when only the upstream
   * patch number went up, minor + 1 with patch 0 when the upstream major
   * or minor number went up, and `prefix` itself otherwise. Components are
   * compared one by one, and the increments wrap around as 64-bit numbers.
   */
  function BumpPrefix(prefix: SemVer.Version, toRelease: SemVer.Version, latest: SemVer.Version): SemVer.Version
    requires prefix.minor <= SemVer.MaxNumber && prefix.patch <= SemVer.MaxNumber
  {
    var majorBump := toRelease.major > latest.major;
    var minorBump := toRelease.minor > latest.minor;
    var patchBump := toRelease.patch > latest.patch;
    var afterPatch := if patchBump && !majorBump && !minorBump then prefix.(patch := Inc64(prefix.patch)) else prefix;
    if minorBump || majorBump then afterPatch.(minor := Inc64(afterPatch.minor), patch := 0) else afterPatch
  }

  /**
   * applyVersionRules: parse the branch's rule; on a branch-line
   * transition (no recorded prefix, or one of another major) adopt the
   * rule text; otherwise continue from the recorded prefix.
   */
  function ApplyRules(vs: VersionSet, ruleMin: string): (r: Outcome)
    requires Loaded(vs)
    ensures r.versions == vs.(toReleaseRepoPrefix := r.versions.toReleaseRepoPrefix)
  {
    match SemVer.Parse(ruleMin)
    case Err(e) => Outcome(vs, Some(SemverParse(e)))
    case Ok(rule) =>
      if vs.latestRepoPrefix.txt == "" || rule.major != vs.latestRepoPrefix.svr.value.major then
        Outcome(vs.(toReleaseRepoPrefix := Slot(ruleMin, Some(rule))), None)
      else
        var carried := vs.toReleaseRepoPrefix.(txt := vs.latestRepoPrefix.txt);
        match SemVer.Parse(carried.txt)
        case Err(e) => Outcome(vs.(toReleaseRepoPrefix := carried), Some(SemverParse(e)))
        case Ok(prefix) =>
          SemVer.RenderParse(carried.txt, prefix);
          var next := BumpPrefix(prefix, vs.toRelease.svr.value, vs.latest.svr.value);
          Outcome(vs.(toReleaseRepoPrefix := Slot(SemVer.Render(next), Some(next))), None)
  }

  /** A branch rule that does not parse stops the rules and leaves the state as it was. */
  lemma ApplyRulesBadRule(vs: VersionSet, ruleMin: string)
    requires Loaded(vs) && SemVer.Parse(ruleMin).Err?
    ensures ApplyRules(vs, ruleMin) == Outcome(vs, Some(SemverParse(SemVer.Parse(ruleMin).error)))
  {
  }

  /** On a branch-line transition the rule, parsed, becomes the new prefix. */
  lemma ApplyRulesNewLine(vs: VersionSet, ruleMin: string, rule: SemVer.Version)
    requires Loaded(vs) && SemVer.Parse(ruleMin) == Ok(rule)
    requires vs.latestRepoPrefix.txt == "" || rule.major != vs.latestRepoPrefix.svr.value.major
    ensures ApplyRules(vs, ruleMin) == Outcome(vs.(toReleaseRepoPrefix := Slot(ruleMin, Some(rule))), None)
  {
  }

  /** Within a branch line, a recorded prefix that does not parse stops the rules with its text carried over. */
  lemma ApplyRulesBadPrefix(vs: VersionSet, ruleMin: string, rule: SemVer.Version)
    requires Loaded(vs) && SemVer.Parse(ruleMin) == Ok(rule)
    requires vs.latestRepoPrefix.txt != "" && rule.major == vs.latestRepoPrefix.svr.value.major
    requires SemVer.Parse(vs.latestRepoPrefix.txt).Err?
    ensures ApplyRules(vs, ruleMin) == Outcome(vs.(toReleaseRepoPrefix := vs.toReleaseRepoPrefix.(txt := vs.latestRepoPrefix.txt)),
      Some(SemverParse(SemVer.Parse(vs.latestRepoPrefix.txt).error)))
  {
  }

  /** Within a branch line, the recorded prefix, parsed and bumped, becomes the new prefix. */
  lemma ApplyRulesBumped(vs: VersionSet, ruleMin: string, rule: SemVer.Version, prefix: SemVer.Version)
    requires Loaded(vs) && SemVer.Parse(ruleMin) == Ok(rule)
    requires vs.latestRepoPrefix.txt != "" && rule.major == vs.latestRepoPrefix.svr.value.major
    requires SemVer.Parse(vs.latestRepoPrefix.txt) == Ok(prefix)
    ensures prefix.minor <= SemVer.MaxNumber && prefix.patch <= SemVer.MaxNumber
    ensures var next := BumpPrefix(prefix, vs.toRelease.svr.value, vs.latest.svr.value);
      ApplyRules(vs, ruleMin) == Outcome(vs.(toReleaseRepoPrefix := Slot(SemVer.Render(next), Some(next))), None)
  {
    SemVer.RenderParse(vs.latestRepoPrefix.txt, prefix);
  }

  /**
   * Which rule applies is decided by which upstream components went up:
   * the patch rule, the minor rule, or neither, when no component went up.
   * The major number, pre-release and build stay.
   */
  lemma BumpPrefixRules(prefix: SemVer.Version, toRelease: SemVer.Version, latest: SemVer.Version)
    requires prefix.minor <= SemVer.MaxNumber && prefix.patch <= SemVer.MaxNumber
    ensures var r := BumpPrefix(prefix, toRelease, latest);
      && r.major == prefix.major && r.pre == prefix.pre && r.build == prefix.build
      && r.minor <= SemVer.MaxNumber && r.patch <= SemVer.MaxNumber
      && (toRelease.patch > latest.patch && toRelease.major <= latest.major && toRelease.minor <= latest.minor ==>
            r == prefix.(patch := Inc64(prefix.patch)))
      && (toRelease.major > latest.major || toRelease.minor > latest.minor ==>
            r == prefix.(minor := Inc64(prefix.minor), patch := 0))
      && (toRelease.major <= latest.major && toRelease.minor <= latest.minor && toRelease.patch <= latest.patch ==>
            r == prefix)
  {
  }

  /**
   * Once the upstream version is known not to be below the latest one,
   * the prefix is carried over unchanged exactly when the upstream major,
   * minor and patch numbers are those of the latest version (a change in
   * pre-release alone does not bump the prefix).
   */
  lemma SameCoreKeepsPrefix(prefix: SemVer.Version, toRelease: SemVer.Version, latest: SemVer.Version)
    requires prefix.minor <= SemVer.MaxNumber && prefix.patch <= SemVer.MaxNumber
    requires !Precedence.Less(toRelease, latest)
    ensures BumpPrefix(prefix, toRelease, latest) == prefix <==>
      toRelease.major == latest.major && toRelease.minor == latest.minor && toRelease.patch == latest.patch
  {
    Precedence.NotLessCore(toRelease, latest);
  }

  /** Unless a number wraps around, a bumped prefix has higher precedence than the one it continues. */
  lemma BumpRaisesPrefix(prefix: SemVer.Version, toRelease: SemVer.Version, latest: SemVer.Version)
    requires prefix.minor < SemVer.MaxNumber && prefix.patch < SemVer.MaxNumber
    requires BumpPrefix(prefix, toRelease, latest) != prefix
    ensures Precedence.Less(prefix, BumpPrefix(prefix, toRelease, latest))
  {
  }

  /** Bumping keeps a version valid. */
  lemma BumpPrefixValid(prefix: SemVer.Version, toRelease: SemVer.Version, latest: SemVer.Version)
    requires SemVer.Valid(prefix)
    ensures SemVer.Valid(BumpPrefix(prefix, toRelease, latest))
  {
    BumpPrefixRules(prefix, toRelease, latest);
  }

  /**
   * Applying the rules to a loaded state fails only on a rule that does
   * not parse, leaving the state as it was; otherwise the new prefix is
   * in step, has the rule's major number, is the rule text itself on a
   * branch-line transition, and is the bumped recorded prefix otherwise.
   */
  lemma ApplyRulesSpec(vs: VersionSet, ruleMin: string)
    requires WellLoaded(vs)
    ensures Loaded(vs)
    ensures var r := ApplyRules(vs, ruleMin);
      && (r.err.Some? <==> SemVer.Parse(ruleMin).Err?)
      && (r.err.Some? ==> r.err == Some(SemverParse(SemVer.Parse(ruleMin).error)) && r.versions == vs)
      && (r.err.None? ==> Synced(r.versions.toReleaseRepoPrefix))
      && (r.err.None? ==> r.versions.toReleaseRepoPrefix.svr.value.major == SemVer.Parse(ruleMin).value.major)
  {
    var r := ApplyRules(vs, ruleMin);
    match SemVer.Parse(ruleMin)
    case Err(_) =>
    case Ok(rule) =>
      if vs.latestRepoPrefix.txt != "" && rule.major == vs.latestRepoPrefix.svr.value.major {
        var prefix := vs.latestRepoPrefix.svr.value;
        SemVer.RenderParse(vs.latestRepoPrefix.txt, prefix);
        var next := BumpPrefix(prefix, vs.toRelease.svr.value, vs.latest.svr.value);
        BumpPrefixValid(prefix, vs.toRelease.svr.value, vs.latest.svr.value);
        BumpPrefixRules(prefix, vs.toRelease.svr.value, vs.latest.svr.value);
        SemVer.ParseRender(next);
      }
  }

  /** A branch-line transition adopts the rule text verbatim, whatever the upstream change. */
  lemma ApplyRulesTransition(vs: VersionSet, ruleMin: string)
    requires Loaded(vs) && SemVer.Parse(ruleMin).Ok?
    requires vs.latestRepoPrefix.txt == "" || SemVer.Parse(ruleMin).value.major != vs.latestRepoPrefix.svr.value.major
    ensures ApplyRules(vs, ruleMin).err.None?
    ensures ApplyRules(vs, ruleMin).versions.toReleaseRepoPrefix.txt == ruleMin
  {
  }

  /** Within a branch line, the new prefix continues the recorded one. */
  lemma ApplyRulesContinuation(vs: VersionSet, ruleMin: string)
    requires WellLoaded(vs) && SemVer.Parse(ruleMin).Ok?
    requires vs.latestRepoPrefix.txt != "" && SemVer.Parse(ruleMin).value.major == vs.latestRepoPrefix.svr.value.major
    ensures Loaded(vs)
    ensures ApplyRules(vs, ruleMin).err.None?
    ensures var prefix := vs.latestRepoPrefix.svr.value;
      && prefix.minor <= SemVer.MaxNumber && prefix.patch <= SemVer.MaxNumber
      && ApplyRules(vs, ruleMin).versions.toReleaseRepoPrefix.svr
           == Some(BumpPrefix(prefix, vs.toRelease.svr.value, vs.latest.svr.value))
  {
    SemVer.RenderParse(vs.latestRepoPrefix.txt, vs.latestRepoPrefix.svr.value);
  }

  // ---------------------------------------------------------------
  // Calculating the next version

  /** The chart version to release: its text and its parsed form. */
  datatype NextVersion = NextVersion(text: string, semver: SemVer.Version)

  datatype Calculation = Calculation(versions: VersionSet, result: Result<NextVersion, BumpError>)

  /**
   * calculateNextVersion: load, apply the rules, and compose the prefix
   * with the upstream version; a composite that does not parse stops the
   * calculation (the parser's Must variant panics there).
   */
  function Calculate(latestRaw: string, upstream: string, ruleMin: string): Calculation
  {
    var loaded := Load(latestRaw, upstream);
    if loaded.err.Some? then Calculation(loaded.versions, Err(loaded.err.value))
    else
      LoadSuccess(latestRaw, upstream);
      var applied := ApplyRules(loaded.versions, ruleMin);
      if applied.err.Some? then Calculation(applied.versions, Err(applied.err.value))
      else
        var vs := applied.versions;
        var target := Compose(vs.toReleaseRepoPrefix.txt, vs.toRelease.txt);
        match SemVer.Parse(target)
        case Err(e) => Calculation(vs, Err(ComposedVersionInvalid(e)))
        case Ok(v) => Calculation(vs, Ok(NextVersion(target, v)))
  }

  /**
   * A successful calculation yields the composite of the new prefix and
   * the upstream version, parsed, with the precedence of the prefix and
   * the rule's major number; the composite splits back into the prefix and
   * the upstream version when the prefix carries no marker.
   */
  lemma CalculateSuccess(latestRaw: string, upstream: string, ruleMin: string)
    requires Calculate(latestRaw, upstream, ruleMin).result.Ok?
    ensures var c := Calculate(latestRaw, upstream, ruleMin);
      var next := c.result.value;
      var prefix := c.versions.toReleaseRepoPrefix;
      && Load(latestRaw, upstream).err.None?
      && next.text == Compose(prefix.txt, upstream)
      && SemVer.Parse(next.text) == Ok(next.semver)
      && Synced(prefix)
      && Precedence.SamePrecedence(next.semver, prefix.svr.value)
      && SemVer.Parse(ruleMin).Ok? && prefix.svr.value.major == SemVer.Parse(ruleMin).value.major
      && (!Contains(prefix.txt, Marker) ==> ParseRepoPrefixVersionIfAny(next.text) == PrefixSplit(prefix.txt, upstream, true))
  {
    LoadSuccess(latestRaw, upstream);
    var loaded := Load(latestRaw, upstream).versions;
    ApplyRulesSpec(loaded, ruleMin);
    var vs := ApplyRules(loaded, ruleMin).versions;
    var prefix := vs.toReleaseRepoPrefix;
    RepoPrefix.ComposedParse(prefix.txt, prefix.svr.value, upstream, vs.toRelease.svr.value);
    if !Contains(prefix.txt, Marker) {
      RepoPrefixRoundTrip(prefix.txt, upstream);
    }
  }

  /**
   * Once loading and the rules succeed, composing fails exactly when the
   * new prefix or the upstream version carries build metadata: the
   * composite then holds a second '+'.
   */
  lemma CalculateComposes(latestRaw: string, upstream: string, ruleMin: string)
    requires Load(latestRaw, upstream).err.None? && SemVer.Parse(ruleMin).Ok?
    ensures var c := Calculate(latestRaw, upstream, ruleMin);
      var prefix := c.versions.toReleaseRepoPrefix.svr;
      && prefix.Some? && SemVer.Parse(upstream).Ok?
      && (c.result.Ok? <==> prefix.value.build == [] && SemVer.Parse(upstream).value.build == [])
  {
    LoadSuccess(latestRaw, upstream);
    var loaded := Load(latestRaw, upstream).versions;
    ApplyRulesSpec(loaded, ruleMin);
    var vs := ApplyRules(loaded, ruleMin).versions;
    var prefix := vs.toReleaseRepoPrefix;
    RepoPrefix.ComposedParse(prefix.txt, prefix.svr.value, upstream, vs.toRelease.svr.value);
  }

  /** A latest version `prefixTxt+uplatestTxt` with parsable, marker-free parts, and an upstream version that passes the load. */
  predicate LoadsCleanly(prefixTxt: string, latestTxt: string, upstream: string)
  {
    && !Contains(prefixTxt, Marker) && !Contains(latestTxt, Marker) && !Contains(upstream, Marker)
    && SemVer.Parse(prefixTxt).Ok? && SemVer.Parse(latestTxt).Ok? && SemVer.Parse(upstream).Ok?
    && !Precedence.Less(SemVer.Parse(upstream).value, SemVer.Parse(latestTxt).value)
  }

  /** Loading such a version records the prefix, the latest version and the upstream version, each parsed. */
  lemma LoadCleanly(prefixTxt: string, latestTxt: string, upstream: string)
    requires LoadsCleanly(prefixTxt, latestTxt, upstream)
    ensures var r := Load(Compose(prefixTxt, latestTxt), upstream);
      && r.err.None?
      && r.versions.latestRepoPrefix == Slot(prefixTxt, Some(SemVer.Parse(prefixTxt).value))
      && r.versions.latest == Slot(latestTxt, Some(SemVer.Parse(latestTxt).value))
      && r.versions.toRelease == Slot(upstream, Some(SemVer.Parse(upstream).value))
      && WellLoaded(r.versions)
  {
    var raw := Compose(prefixTxt, latestTxt);
    RepoPrefixRoundTrip(prefixTxt, latestTxt);
    assert raw != "" by { assert |raw| >= |Marker|; }
    assert upstream != "";
    LoadErrors(raw, upstream);
    LatestErrors(raw);
    LoadSuccess(raw, upstream);
  }

  /**
   * Once loading and the rules succeed with build-free versions, the
   * calculation releases the new prefix's text composed with the upstream
   * text.
   */
  lemma CalculateReleases(latestRaw: string, upstream: string, ruleMin: string, vs: VersionSet, prefix: Slot)
    requires Load(latestRaw, upstream) == Outcome(vs, None) && Loaded(vs)
    requires ApplyRules(vs, ruleMin) == Outcome(vs.(toReleaseRepoPrefix := prefix), None)
    requires Synced(prefix) && Synced(vs.toRelease)
    requires prefix.svr.value.build == [] && vs.toRelease.svr.value.build == []
    ensures var c := Calculate(latestRaw, upstream, ruleMin);
      c.result.Ok? && c.result.value.text == Compose(prefix.txt, vs.toRelease.txt)
  {
    RepoPrefix.ComposedParse(prefix.txt, prefix.svr.value, vs.toRelease.txt, vs.toRelease.svr.value);
  }

  /**
   * Within a branch line (the rule has the recorded prefix's major number),
   * the calculation releases the recorded prefix, bumped by the upstream
   * change, composed with the upstream version.
   */
  lemma CalculateContinues(prefixTxt: string, latestTxt: string, upstream: string, ruleMin: string)
    requires LoadsCleanly(prefixTxt, latestTxt, upstream)
    requires SemVer.Parse(ruleMin).Ok? && SemVer.Parse(ruleMin).value.major == SemVer.Parse(prefixTxt).value.major
    requires SemVer.Parse(prefixTxt).value.build == [] && SemVer.Parse(upstream).value.build == []
    ensures var prefix := SemVer.Parse(prefixTxt).value;
      && prefix.minor <= SemVer.MaxNumber && prefix.patch <= SemVer.MaxNumber
      && var next := BumpPrefix(prefix, SemVer.Parse(upstream).value, SemVer.Parse(latestTxt).value);
      var c := Calculate(Compose(prefixTxt, latestTxt), upstream, ruleMin);
      c.result.Ok? && c.result.value.text == Compose(SemVer.Render(next), upstream)
  {
    var raw := Compose(prefixTxt, latestTxt);
    LoadCleanly(prefixTxt, latestTxt, upstream);
    var vs := Load(raw, upstream).versions;
    var prefix := SemVer.Parse(prefixTxt).value;
    SemVer.RenderParse(prefixTxt, prefix);
    assert prefixTxt != "" by { SemVer.RenderParts(prefix); }
    var up, latest := SemVer.Parse(upstream).value, SemVer.Parse(latestTxt).value;
    ApplyRulesBumped(vs, ruleMin, SemVer.Parse(ruleMin).value, prefix);
    var next := BumpPrefix(prefix, up, latest);
    BumpPrefixRules(prefix, up, latest);
    BumpPrefixValid(prefix, up, latest);
    SemVer.ParseRender(next);
    CalculateReleases(raw, upstream, ruleMin, vs, Slot(SemVer.Render(next), Some(next)));
  }



  /**
   * On a branch-line transition (the rule has another major number than
   * the recorded prefix), the calculation releases the rule text composed
   * with the upstream version.
   */
  lemma CalculateStartsLine(prefixTxt: string, latestTxt: string, upstream: string, ruleMin: string)
    requires LoadsCleanly(prefixTxt, latestTxt, upstream)
    requires SemVer.Parse(ruleMin).Ok? && SemVer.Parse(ruleMin).value.major != SemVer.Parse(prefixTxt).value.major
    requires SemVer.Parse(ruleMin).value.build == [] && SemVer.Parse(upstream).value.build == []
    ensures var c := Calculate(Compose(prefixTxt, latestTxt), upstream, ruleMin);
      c.result.Ok? && c.result.value.text == Compose(ruleMin, upstream)
  {
    var raw := Compose(prefixTxt, latestTxt);
    LoadCleanly(prefixTxt, latestTxt, upstream);
    var vs := Load(raw, upstream).versions;
    var rule := SemVer.Parse(ruleMin).value;
    ApplyRulesNewLine(vs, ruleMin, rule);
    CalculateReleases(raw, upstream, ruleMin, vs, Slot(ruleMin, Some(rule)));
  }

}
