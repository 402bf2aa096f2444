/**
 * The bump driver as the code keeps it: a Bump object whose methods set
 * its fields in place, and version records whose text and parsed form
 * are resynchronised in place. Each method is proved to reach the state
 * that the value-level definitions in Eligibility and VersionCalc give.
 */
module Auto {
  import opened Wrappers
  import opened Strings
  import opened Errors
  import opened Manifest
  import opened Eligibility
  import opened RepoPrefix
  import SemVer
  import Precedence
  import VersionCalc

  /** A version as text and, once parsed, as a semver. */
  class Version {
    var txt: string
    var svr: Option<SemVer.Version>

    constructor()
      ensures txt == "" && svr == None
    {
      txt := "";
      svr := None;
    }

    function Value(): VersionCalc.Slot
      reads this
    {
      VersionCalc.Slot(txt, svr)
    }

    /** updateSemver: parse the text; the semver is replaced only when parsing succeeds. */
    method UpdateSemver() returns (err: Option<SemVer.ParseError>)
      modifies this`svr
      ensures SemVer.Parse(txt).Ok? ==> err.None? && svr == Some(SemVer.Parse(txt).value)
      ensures SemVer.Parse(txt).Err? ==> err == Some(SemVer.Parse(txt).error) && svr == old(svr)
      ensures err.None? <==> VersionCalc.Synced(Value())
    {
      var parsed := SemVer.Parse(txt);
      if parsed.Err? {
        return Some(parsed.error);
      }
      svr := Some(parsed.value);
      return None;
    }

    /** updateTxt: the text becomes the rendering of the semver, and the two are then in step. */
    method UpdateTxt()
      requires svr.Some?
      modifies this`txt
      ensures txt == SemVer.Render(svr.value)
      ensures SemVer.Valid(svr.value) ==> VersionCalc.Synced(Value())
    {
      txt := SemVer.Render(svr.value);
      if SemVer.Valid(svr.value) {
        SemVer.ParseRender(svr.value);
      }
    }
  }

  /** The four versions of a calculation, each its own record. */
  class Versions {
    const latest: Version
    const latestRepoPrefix: Version
    const toRelease: Version
    const toReleaseRepoPrefix: Version

    predicate Distinct()
    {
      && latest != latestRepoPrefix && latest != toRelease && latest != toReleaseRepoPrefix
      && latestRepoPrefix != toRelease && latestRepoPrefix != toReleaseRepoPrefix
      && toRelease != toReleaseRepoPrefix
    }

    function Value(): VersionCalc.VersionSet
      reads latest, latestRepoPrefix, toRelease, toReleaseRepoPrefix
    {
      VersionCalc.VersionSet(latest.Value(), latestRepoPrefix.Value(), toRelease.Value(), toReleaseRepoPrefix.Value())
    }

    constructor()
      ensures Distinct()
      ensures fresh(latest) && fresh(latestRepoPrefix) && fresh(toRelease) && fresh(toReleaseRepoPrefix)
      ensures Value() == VersionCalc.Initial
    {
      latest := new Version();
      latestRepoPrefix := new Version();
      toRelease := new Version();
      toReleaseRepoPrefix := new Version();
    }
  }

  class Bump {
    var targetChart: string
    var pkg: Option<Package>
    var releaseYaml: Option<Release>
    var versionRules: VersionRules
    var assetsVersionsMap: map<string, seq<Asset>>
    var versions: Versions?

    /** A bump over the rules and release history that the lifecycle setup loaded. */
    constructor(versionRules: VersionRules, assetsVersionsMap: map<string, seq<Asset>>)
      ensures this.versionRules == versionRules && this.assetsVersionsMap == assetsVersionsMap
      ensures targetChart == "" && pkg.None? && releaseYaml.None? && versions == null
    {
      this.versionRules := versionRules;
      this.assetsVersionsMap := assetsVersionsMap;
      targetChart := "";
      pkg := None;
      releaseYaml := None;
      versions := null;
    }

    /** parseChartFromPackage: the chart a package name designates, or BadPackage with the field untouched. */
    method ParseChartFromPackage(targetPackage: string) returns (err: Option<BumpError>)
      modifies this`targetChart
      ensures ChartOfPackage(targetPackage).Some? ==> err.None? && targetChart == ChartOfPackage(targetPackage).value
      ensures ChartOfPackage(targetPackage).None? ==> err == Some(BadPackage) && targetChart == old(targetChart)
    {
      var parts := Split(targetPackage, "/");
      if |parts| == 1 {
        targetChart := parts[0];
        return None;
      } else if |parts| > 1 && |parts| <= MaxPackageParts {
        targetChart := parts[|parts| - 1];
        return None;
      }
      return Some(BadPackage);
    }

    /**
     * parsePackageYaml: exactly one package is accepted and recorded; its
     * checks then run in order and the first failure is returned.
     */
    method ParsePackageYaml(packages: seq<Package>) returns (err: Option<BumpError>)
      modifies this`pkg
      ensures |packages| == 0 ==> err == Some(NoPackage) && pkg == old(pkg)
      ensures |packages| > 1 ==> err == Some(MultiplePackages) && pkg == old(pkg)
      ensures |packages| == 1 ==> pkg == Some(packages[0]) && err == FirstFailure(PackageChecks(packages[0]))
    {
      if |packages| == 0 {
        return Some(NoPackage);
      } else if |packages| > 1 {
        return Some(MultiplePackages);
      }
      pkg := Some(packages[0]);
      var p := packages[0];
      PackageFirstFailure(p);
      RootFirstFailure(p);

      // root fields
      if !p.auto {
        return Some(FalseAuto);
      } else if p.name == "" {
        return Some(PackageName);
      } else if p.version.Some? {
        return Some(PackageChartVersion);
      } else if p.packageVersion.Some? {
        return Some(PackageVersion);
      } else if p.doNotRelease {
        return Some(PackageDoNotRelease);
      } else if p.chart.workingDir == "" {
        return Some(ChartWorkDir);
      }

      // main upstream
      err := CheckUpstreamOptions(p.chart.upstream);
      if err.Some? {
        return err;
      }

      // additional charts, in order
      var charts := p.additionalCharts;
      var i := 0;
      assert charts[0..] == charts;
      while i < |charts|
        invariant 0 <= i <= |charts|
        invariant pkg == Some(p)
        invariant FirstFailure(PackageChecks(p)) == FirstFailure(ChartsChecks(charts[i..]))
      {
        var chart := charts[i];
        ChartsChecksFrom(charts, i);
        ChartFirstFailure(chart);
        CrdFirstFailure(chart);
        err := CheckUpstreamOptions(chart.upstream);
        if err.Some? {
          return err;
        }
        if chart.crdChartOptions.Some? {
          var crd := chart.crdChartOptions.value;
          if crd.templateDirectory == "" {
            return Some(AdditionalChartWorkDir);
          } else if crd.crdDirectory == "" {
            return Some(CRDWorkDir);
          } else if !crd.addCRDValidationToMainChart {
            return Some(AdditionalChartCRDValidation);
          }
        }
        i := i + 1;
      }
      assert charts[i..] == [];
      return None;
    }

    /** The latest released version of the target chart: the head of its history, newest first. */
    function LatestRaw(): string
      reads this
      requires targetChart in assetsVersionsMap && |assetsVersionsMap[targetChart]| > 0
    {
      assetsVersionsMap[targetChart][0].version
    }

    /** The four version records are fresh and distinct. */
    twostate predicate FreshVersions()
      reads this
    {
      versions != null && versions.Distinct()
      && fresh(versions) && fresh(versions.latest) && fresh(versions.latestRepoPrefix)
      && fresh(versions.toRelease) && fresh(versions.toReleaseRepoPrefix)
    }

    /**
     * loadVersions: fresh version records, filled from the latest released
     * version and the upstream version, stopping at the first failure.
     */
    method LoadVersions(upstreamVersion: string) returns (err: Option<BumpError>)
      requires targetChart in assetsVersionsMap && |assetsVersionsMap[targetChart]| > 0
      modifies this`versions
      ensures FreshVersions()
      ensures VersionCalc.Outcome(versions.Value(), err) == VersionCalc.Load(LatestRaw(), upstreamVersion)
    {
      versions := new Versions();
      var latestUnparsed := assetsVersionsMap[targetChart][0].version;
      if latestUnparsed == "" {
        return Some(ChartLatestVersion);
      }

      var split := ParseRepoPrefixVersionIfAny(latestUnparsed);
      if split.found {
        versions.latestRepoPrefix.txt := split.repoPrefix;
        var e := versions.latestRepoPrefix.UpdateSemver();
        if e.Some? {
          return Some(SemverParse(e.value));
        }
      }
      versions.latest.txt := split.version;
      var e := versions.latest.UpdateSemver();
      if e.Some? {
        return Some(SemverParse(e.value));
      }

      versions.toRelease.txt := upstreamVersion;
      if versions.toRelease.txt == "" {
        return Some(ChartUpstreamVersion);
      }
      e := versions.toRelease.UpdateSemver();
      if e.Some? {
        return Some(SemverParse(e.value));
      }

      if ParseRepoPrefixVersionIfAny(versions.toRelease.txt).found {
        return Some(ChartUpstreamVersionWrong);
      }
      if Precedence.Less(versions.toRelease.svr.value, versions.latest.svr.value) {
        return Some(BumpVersion);
      }
      return None;
    }

    /**
     * applyVersionRules: the prefix to release under is the branch's rule
     * text on a branch-line transition, and otherwise the recorded prefix
     * with its patch or minor number bumped by what the upstream changed.
     */
    method ApplyVersionRules() returns (err: Option<BumpError>)
      requires versions != null && versions.Distinct() && VersionCalc.Loaded(versions.Value())
      modifies versions.toReleaseRepoPrefix
      ensures VersionCalc.Outcome(versions.Value(), err)
        == VersionCalc.ApplyRules(old(versions.Value()), VersionCalc.RuleMin(versionRules))
    {
      var ruleMin := VersionCalc.RuleMin(versionRules);
      ghost var before := versions.Value();
      var rule := SemVer.Parse(ruleMin);
      if rule.Err? {
        VersionCalc.ApplyRulesBadRule(before, ruleMin);
        return Some(SemverParse(rule.error));
      }
      var target := versions.toReleaseRepoPrefix;

      if versions.latestRepoPrefix.txt == "" || rule.value.major != versions.latestRepoPrefix.svr.value.major {
        // a new branch line starts from the rule itself, which has just parsed
        VersionCalc.ApplyRulesNewLine(before, ruleMin, rule.value);
        target.txt := ruleMin;
        var e := target.UpdateSemver();
        return None;
      }

      target.txt := versions.latestRepoPrefix.txt;
      var e := target.UpdateSemver();
      if e.Some? {
        VersionCalc.ApplyRulesBadPrefix(before, ruleMin, rule.value);
        return Some(SemverParse(e.value));
      }
      VersionCalc.ApplyRulesBumped(before, ruleMin, rule.value, target.svr.value);

      var toRelease, latest := versions.toRelease.svr.value, versions.latest.svr.value;
      var majorBump := toRelease.major > latest.major;
      var minorBump := toRelease.minor > latest.minor;
      var patchBump := toRelease.patch > latest.patch;
      if patchBump && !majorBump && !minorBump {
        target.svr := Some(target.svr.value.(patch := VersionCalc.Inc64(target.svr.value.patch)));
      }
      if minorBump || majorBump {
        target.svr := Some(target.svr.value.(minor := VersionCalc.Inc64(target.svr.value.minor), patch := 0));
      }
      target.UpdateTxt();
      return None;
    }

    /**
     * calculateNextVersion: load the versions, apply the rules, and on
     * success write the composite version to the release entry and, parsed,
     * to the package; on any failure neither output is written.
     */
    method CalculateNextVersion(upstreamVersion: string) returns (err: Option<BumpError>)
      requires targetChart in assetsVersionsMap && |assetsVersionsMap[targetChart]| > 0
      requires pkg.Some? && releaseYaml.Some?
      modifies this`versions, this`pkg, this`releaseYaml
      ensures FreshVersions()
      ensures var c := VersionCalc.Calculate(LatestRaw(), upstreamVersion, VersionCalc.RuleMin(versionRules));
        && versions.Value() == c.versions
        && (c.result.Ok? ==>
              && err.None?
              && releaseYaml == Some(old(releaseYaml).value.(chartVersion := c.result.value.text))
              && pkg == Some(old(pkg).value.(autoGeneratedBumpVersion := Some(c.result.value.semver))))
        && (c.result.Err? ==> err == Some(c.result.error) && releaseYaml == old(releaseYaml) && pkg == old(pkg))
    {
      err := LoadVersions(upstreamVersion);
      if err.Some? {
        return;
      }
      VersionCalc.LoadSuccess(LatestRaw(), upstreamVersion);
      VersionCalc.ApplyRulesSpec(versions.Value(), VersionCalc.RuleMin(versionRules));
      err := ApplyVersionRules();
      if err.Some? {
        return;
      }

      var targetVersion := Compose(versions.toReleaseRepoPrefix.txt, versions.toRelease.txt);
      var targetSemver := SemVer.Parse(targetVersion);
      if targetSemver.Err? {
        return Some(ComposedVersionInvalid(targetSemver.error));
      }
      releaseYaml := Some(releaseYaml.value.(chartVersion := targetVersion));
      pkg := Some(pkg.value.(autoGeneratedBumpVersion := Some(targetSemver.value)));
      return None;
    }
  }
}
