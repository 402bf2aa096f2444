/**
 * The eligibility checks that gate an automatic chart bump: the branch
 * and package names given on the command line, and the package.yaml
 * manifest. Each check list is a table of (condition, error) rows in the
 * order the code tests them; the code returns the error of the first row
 * whose condition fails.
 */
module Eligibility {
  import opened Wrappers
  import opened Strings
  import opened Errors
  import opened Manifest

  const DevBranchPrefix: string := "dev-v"

  /** At most this many `/`-separated parts are accepted in a package name. */
  const MaxPackageParts: nat := 4

  /** The branch line of a development branch: "dev-v2.9" gives "2.9". */
  function ParseBranchVersion(targetBranch: string): (r: Result<string, BumpError>)
    ensures r.Err? <==> !HasPrefix(targetBranch, DevBranchPrefix)
    ensures r.Err? ==> r.error == NotDevBranch
    ensures r.Ok? ==> DevBranchPrefix + r.value == targetBranch
  {
    if !HasPrefix(targetBranch, DevBranchPrefix) then Err(NotDevBranch)
    else Ok(TrimPrefix(targetBranch, DevBranchPrefix))
  }

  /** Exactly the branch line put behind the prefix comes back. */
  lemma BranchVersionRoundTrip(line: string)
    ensures ParseBranchVersion(DevBranchPrefix + line) == Ok(line)
  {
    assert (DevBranchPrefix + line)[..|DevBranchPrefix|] == DevBranchPrefix;
  }

  /**
   * The chart a package name designates: the whole name when it has no
   * `/`, the last `/`-separated part when it has two to four parts, and
   * nothing when it has more.
   */
  function ChartOfPackage(targetPackage: string): (r: Option<string>)
    ensures r.None? <==> |Split(targetPackage, "/")| > MaxPackageParts
    ensures r.Some? ==> '/' !in r.value
    ensures r.Some? && '/' !in targetPackage ==> r.value == targetPackage
    ensures r.Some? && '/' in targetPackage ==> HasSuffix(targetPackage, "/" + r.value)
  {
    var parts := Split(targetPackage, "/");
    SplitSingle(targetPackage, "/");
    ContainsChar(targetPackage, '/');
    PiecesWithoutChar(targetPackage, '/');
    SplitLast(targetPackage, "/");
    if |parts| == 1 then Some(parts[0])
    else if |parts| <= MaxPackageParts then Some(parts[|parts| - 1])
    else None
  }

  // ---------------------------------------------------------------
  // Ordered checks

  /** One row of a check list: the condition that must hold, and the error reported when it does not. */
  datatype Check = Check(holds: bool, error: BumpError)

  /** The error of the first failing row, if any. */
  function FirstFailure(checks: seq<Check>): Option<BumpError>
  {
    if |checks| == 0 then None
    else if !checks[0].holds then Some(checks[0].error)
    else FirstFailure(checks[1..])
  }

  predicate AllHold(checks: seq<Check>)
  {
    forall k :: 0 <= k < |checks| ==> checks[k].holds
  }

  /** `k` is the first failing row of `checks`. */
  predicate FirstFailingRow(checks: seq<Check>, k: int)
  {
    0 <= k < |checks| && !checks[k].holds && AllHold(checks[..k])
  }

  /** FirstFailure reports nothing exactly when every row holds, and otherwise the error of the first failing row. */
  lemma {:induction false} FirstFailureSpec(checks: seq<Check>)
    ensures FirstFailure(checks).None? <==> AllHold(checks)
    ensures FirstFailure(checks).Some? ==>
      exists k :: FirstFailingRow(checks, k) && checks[k].error == FirstFailure(checks).value
  {
    if |checks| > 0 && checks[0].holds {
      var rest := checks[1..];
      FirstFailureSpec(rest);
      assert forall k :: 0 <= k < |rest| ==> rest[k] == checks[k + 1];
      if FirstFailure(rest).Some? {
        var k :| FirstFailingRow(rest, k) && rest[k].error == FirstFailure(rest).value;
        assert checks[..k + 1] == [checks[0]] + rest[..k];
        assert FirstFailingRow(checks, k + 1);
      }
    } else if |checks| > 0 {
      assert FirstFailingRow(checks, 0);
    }
  }

  /** The first failing row decides the result. */
  lemma {:induction false} FirstFailureAt(checks: seq<Check>, k: int)
    requires FirstFailingRow(checks, k)
    ensures FirstFailure(checks) == Some(checks[k].error)
  {
    if k > 0 {
      assert checks[0] == checks[..k][0];
      var rest := checks[1..];
      assert rest[..k - 1] == checks[..k][1..];
      FirstFailureAt(rest, k - 1);
    }
  }

  /** Checking a concatenation checks the first list, then the second. */
  lemma {:induction false} FirstFailureConcat(a: seq<Check>, b: seq<Check>)
    ensures FirstFailure(a + b) == if FirstFailure(a).Some? then FirstFailure(a) else FirstFailure(b)
  {
    if |a| > 0 {
      assert (a + b)[1..] == a[1..] + b;
      FirstFailureConcat(a[1..], b);
    } else {
      assert a + b == b;
    }
  }

  // ---------------------------------------------------------------
  // Upstream options

  /** The upstream checks, in order: a git URL, no pinned commit, a branch, a subdirectory. */
  function UpstreamChecks(o: UpstreamOptions): seq<Check>
  {
    [ Check(HasSuffix(o.url, ".git"), ChartURL),
      Check(o.commit.None?, ChartRepoCommit),
      Check(o.chartRepoBranch.Some?, ChartRepoBranch),
      Check(o.subdirectory.Some?, ChartSubDir) ]
  }

  predicate UpstreamReady(o: UpstreamOptions)
  {
    HasSuffix(o.url, ".git") && o.commit.None? && o.chartRepoBranch.Some? && o.subdirectory.Some?
  }

  /** checkUpstreamOptions: the first upstream check that fails, if any. */
  function CheckUpstreamOptions(o: UpstreamOptions): (r: Option<BumpError>)
    ensures r.None? <==> UpstreamReady(o)
  {
    if !HasSuffix(o.url, ".git") then Some(ChartURL)
    else if o.commit.Some? then Some(ChartRepoCommit)
    else if o.chartRepoBranch.None? then Some(ChartRepoBranch)
    else if o.subdirectory.None? then Some(ChartSubDir)
    else None
  }

  /** checkUpstreamOptions reports the first failing row of the upstream check list. */
  lemma CheckUpstreamOptionsOrder(o: UpstreamOptions)
    ensures CheckUpstreamOptions(o) == FirstFailure(UpstreamChecks(o))
  {
    var checks := UpstreamChecks(o);
    if !checks[0].holds {
      FirstFailureAt(checks, 0);
    } else if !checks[1].holds {
      FirstFailureAt(checks, 1);
    } else if !checks[2].holds {
      FirstFailureAt(checks, 2);
    } else if !checks[3].holds {
      FirstFailureAt(checks, 3);
    } else {
      FirstFailureSpec(checks);
    }
  }

  // ---------------------------------------------------------------
  // Package

  /** The root-level checks of a package, in order. */
  function RootChecks(p: Package): seq<Check>
  {
    [ Check(p.auto, FalseAuto),
      Check(p.name != "", PackageName),
      Check(p.version.None?, PackageChartVersion),
      Check(p.packageVersion.None?, PackageVersion),
      Check(!p.doNotRelease, PackageDoNotRelease),
      Check(p.chart.workingDir != "", ChartWorkDir) ]
  }

  /** The checks on a chart's CRD options; none when it has no CRD options. */
  function CrdChecks(c: AdditionalChart): seq<Check>
  {
    match c.crdChartOptions
    case None => []
    case Some(crd) =>
      [ Check(crd.templateDirectory != "", AdditionalChartWorkDir),
        Check(crd.crdDirectory != "", CRDWorkDir),
        Check(crd.addCRDValidationToMainChart, AdditionalChartCRDValidation) ]
  }

  /** An additional chart: its upstream first, then its CRD options. */
  function AdditionalChartChecks(c: AdditionalChart): seq<Check>
  {
    UpstreamChecks(c.upstream) + CrdChecks(c)
  }

  /** The additional charts, in list order. */
  function ChartsChecks(charts: seq<AdditionalChart>): seq<Check>
  {
    if |charts| == 0 then [] else AdditionalChartChecks(charts[0]) + ChartsChecks(charts[1..])
  }

  /** Everything a package must satisfy for an automatic bump, in the order it is checked. */
  function PackageChecks(p: Package): seq<Check>
  {
    RootChecks(p) + UpstreamChecks(p.chart.upstream) + ChartsChecks(p.additionalCharts)
  }

  predicate CrdReady(c: AdditionalChart)
  {
    c.crdChartOptions.Some? ==>
      && c.crdChartOptions.value.templateDirectory != ""
      && c.crdChartOptions.value.crdDirectory != ""
      && c.crdChartOptions.value.addCRDValidationToMainChart
  }

  predicate ChartReady(c: AdditionalChart)
  {
    UpstreamReady(c.upstream) && CrdReady(c)
  }

  /** A package configured for an automatic bump, stated field by field. */
  predicate Eligible(p: Package)
  {
    && p.auto
    && p.name != ""
    && p.version.None?
    && p.packageVersion.None?
    && !p.doNotRelease
    && p.chart.workingDir != ""
    && UpstreamReady(p.chart.upstream)
    && forall k :: 0 <= k < |p.additionalCharts| ==> ChartReady(p.additionalCharts[k])
  }

  /** The checks of the charts from index `i` on: chart `i`'s, then the rest. */
  lemma ChartsChecksFrom(charts: seq<AdditionalChart>, i: nat)
    requires i < |charts|
    ensures FirstFailure(ChartsChecks(charts[i..])) ==
      if FirstFailure(AdditionalChartChecks(charts[i])).Some? then FirstFailure(AdditionalChartChecks(charts[i]))
      else FirstFailure(ChartsChecks(charts[i + 1..]))
  {
    assert charts[i..][1..] == charts[i + 1..];
    FirstFailureConcat(AdditionalChartChecks(charts[i]), ChartsChecks(charts[i + 1..]));
  }

  /** A chart's checks: its upstream check decides first, then its CRD checks. */
  lemma ChartFirstFailure(c: AdditionalChart)
    ensures FirstFailure(AdditionalChartChecks(c)) ==
      if CheckUpstreamOptions(c.upstream).Some? then CheckUpstreamOptions(c.upstream)
      else FirstFailure(CrdChecks(c))
    ensures FirstFailure(AdditionalChartChecks(c)).None? <==> ChartReady(c)
  {
    FirstFailureConcat(UpstreamChecks(c.upstream), CrdChecks(c));
    CheckUpstreamOptionsOrder(c.upstream);
    var crd := CrdChecks(c);
    FirstFailureSpec(crd);
    if AllHold(crd) && c.crdChartOptions.Some? {
      assert crd[0].holds && crd[1].holds && crd[2].holds;
    }
    if CrdReady(c) {
      forall k | 0 <= k < |crd| ensures crd[k].holds {
        if k == 0 {} else if k == 1 {} else {}
      }
    }
  }

  /** The additional charts pass exactly when every one of them is ready. */
  lemma {:induction false} ChartsPass(charts: seq<AdditionalChart>)
    ensures FirstFailure(ChartsChecks(charts)).None? <==> forall k :: 0 <= k < |charts| ==> ChartReady(charts[k])
  {
    if |charts| > 0 {
      var rest := charts[1..];
      var head := AdditionalChartChecks(charts[0]);
      assert ChartsChecks(charts) == head + ChartsChecks(rest);
      FirstFailureConcat(head, ChartsChecks(rest));
      ChartFirstFailure(charts[0]);
      ChartsPass(rest);
      if FirstFailure(head).None? && FirstFailure(ChartsChecks(rest)).None? {
        forall k | 0 <= k < |charts| ensures ChartReady(charts[k]) {
          if k > 0 {
            assert charts[k] == rest[k - 1];
          }
        }
      }
      if forall k :: 0 <= k < |charts| ==> ChartReady(charts[k]) {
        assert ChartReady(charts[0]);
        forall k | 0 <= k < |rest| ensures ChartReady(rest[k]) {
          assert rest[k] == charts[k + 1];
        }
      }
    }
  }

  /**
   * The charts are checked in list order: the result is the error of the
   * first chart that fails, and nothing when every chart is ready.
   */
  lemma {:induction false} ChartsFirstFailure(charts: seq<AdditionalChart>)
    ensures FirstFailure(ChartsChecks(charts)).None? <==> forall k :: 0 <= k < |charts| ==> ChartReady(charts[k])
    ensures FirstFailure(ChartsChecks(charts)).Some? ==>
      exists k :: 0 <= k < |charts|
        && FirstFailure(AdditionalChartChecks(charts[k])) == FirstFailure(ChartsChecks(charts))
        && forall j :: 0 <= j < k ==> ChartReady(charts[j])
  {
    ChartsPass(charts);
    if |charts| > 0 {
      var rest := charts[1..];
      var head := AdditionalChartChecks(charts[0]);
      assert ChartsChecks(charts) == head + ChartsChecks(rest);
      FirstFailureConcat(head, ChartsChecks(rest));
      if FirstFailure(head).None? && FirstFailure(ChartsChecks(rest)).Some? {
        ChartFirstFailure(charts[0]);
        ChartsFirstFailure(rest);
        var k :| 0 <= k < |rest|
          && FirstFailure(AdditionalChartChecks(rest[k])) == FirstFailure(ChartsChecks(rest))
          && forall j :: 0 <= j < k ==> ChartReady(rest[j]);
        assert rest[k] == charts[k + 1];
        forall j | 0 <= j < k + 1 ensures ChartReady(charts[j]) {
          if j > 0 {
            assert charts[j] == rest[j - 1];
          }
        }
      }
    }
  }

  /** The package checks pass exactly for an eligible package. */
  lemma PackageChecksEligible(p: Package)
    ensures FirstFailure(PackageChecks(p)).None? <==> Eligible(p)
  {
    FirstFailureConcat(RootChecks(p) + UpstreamChecks(p.chart.upstream), ChartsChecks(p.additionalCharts));
    FirstFailureConcat(RootChecks(p), UpstreamChecks(p.chart.upstream));
    ChartsFirstFailure(p.additionalCharts);
    CheckUpstreamOptionsOrder(p.chart.upstream);
    FirstFailureSpec(RootChecks(p));
    EligibleByRows(p);
  }

  /** Eligibility is the root rows holding, a ready main upstream and ready additional charts. */
  lemma EligibleByRows(p: Package)
    ensures Eligible(p) <==>
      && AllHold(RootChecks(p)) && UpstreamReady(p.chart.upstream)
      && forall k :: 0 <= k < |p.additionalCharts| ==> ChartReady(p.additionalCharts[k])
  {
    var root := RootChecks(p);
    if AllHold(root) {
      assert root[0].holds && root[1].holds && root[2].holds && root[3].holds && root[4].holds && root[5].holds;
    }
    if Eligible(p) {
      forall k | 0 <= k < |root| ensures root[k].holds {
        if k == 0 {} else if k == 1 {} else if k == 2 {} else if k == 3 {} else if k == 4 {} else {}
      }
    }
  }

  /** The root rows decide in their order. */
  lemma RootFirstFailure(p: Package)
    ensures FirstFailure(RootChecks(p)) ==
      if !p.auto then Some(FalseAuto)
      else if p.name == "" then Some(PackageName)
      else if p.version.Some? then Some(PackageChartVersion)
      else if p.packageVersion.Some? then Some(PackageVersion)
      else if p.doNotRelease then Some(PackageDoNotRelease)
      else if p.chart.workingDir == "" then Some(ChartWorkDir)
      else None
  {
    var root := RootChecks(p);
    if !p.auto { FirstFailureAt(root, 0); }
    else if p.name == "" { FirstFailureAt(root, 1); }
    else if p.version.Some? { FirstFailureAt(root, 2); }
    else if p.packageVersion.Some? { FirstFailureAt(root, 3); }
    else if p.doNotRelease { FirstFailureAt(root, 4); }
    else if p.chart.workingDir == "" { FirstFailureAt(root, 5); }
    else {
      FirstFailureSpec(root);
      assert forall k :: 0 <= k < |root| ==> root[k].holds;
    }
  }

  /** The CRD rows decide in their order, and there are none without CRD options. */
  lemma CrdFirstFailure(c: AdditionalChart)
    ensures FirstFailure(CrdChecks(c)) ==
      match c.crdChartOptions
      case None => None
      case Some(crd) =>
        if crd.templateDirectory == "" then Some(AdditionalChartWorkDir)
        else if crd.crdDirectory == "" then Some(CRDWorkDir)
        else if !crd.addCRDValidationToMainChart then Some(AdditionalChartCRDValidation)
        else None
  {
    var checks := CrdChecks(c);
    if c.crdChartOptions.Some? {
      var crd := c.crdChartOptions.value;
      if crd.templateDirectory == "" { FirstFailureAt(checks, 0); }
      else if crd.crdDirectory == "" { FirstFailureAt(checks, 1); }
      else if !crd.addCRDValidationToMainChart { FirstFailureAt(checks, 2); }
      else {
        FirstFailureSpec(checks);
        assert forall k :: 0 <= k < |checks| ==> checks[k].holds;
      }
    }
  }

  /** A package: its root rows, then its main upstream, then its additional charts. */
  lemma PackageFirstFailure(p: Package)
    ensures FirstFailure(PackageChecks(p)) ==
      if FirstFailure(RootChecks(p)).Some? then FirstFailure(RootChecks(p))
      else if CheckUpstreamOptions(p.chart.upstream).Some? then CheckUpstreamOptions(p.chart.upstream)
      else FirstFailure(ChartsChecks(p.additionalCharts))
  {
    FirstFailureConcat(RootChecks(p) + UpstreamChecks(p.chart.upstream), ChartsChecks(p.additionalCharts));
    FirstFailureConcat(RootChecks(p), UpstreamChecks(p.chart.upstream));
    CheckUpstreamOptionsOrder(p.chart.upstream);
  }
}
