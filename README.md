# Automatic chart bump: eligibility and next-version calculation

This project models the `pkg/auto` package of charts-build-scripts, the
tool that builds Rancher's Helm chart repositories. An automatic chart bump
releases a new chart version when the chart's upstream repository
publishes a new version. The model covers two parts of it:

- **Eligibility.** Before a bump, the tool checks three inputs:
  - the development branch (`dev-v<line>`);
  - the package name (`<chart>` or `<chart>/<...>/<chart>`, at most four parts);
  - the package's `package.yaml`. It must be flagged `auto`, carry no fixed
    version, not be marked `doNotRelease`, and point at a git upstream by
    branch and subdirectory rather than by commit. Each additional chart
    must be configured the same way, and its CRD options must be complete.
  The checks run in a fixed order and the first failure is reported.
- **Next chart version.** Chart versions have the form
  `<repository prefix>+up<upstream version>`, for example `104.2.0+up1.2.3`.
  The next version is computed from two inputs: the latest released
  version (the head of the chart's release history) and the upstream
  version. The prefix is chosen like this:
  - a branch-line transition adopts the branch's minimum prefix from the
    versioning rules. A transition means there is no recorded prefix, or
    the recorded prefix has a different major number.
  - otherwise the recorded prefix is continued. It gets `patch + 1` when
    only the upstream patch number went up, and `minor + 1, patch 0` when
    the upstream major or minor number went up.
  The composite text is written to the release entry. Its parsed form is
  written to the package.

Versions follow Semantic Versioning 2.0.0, with numbers bounded to
unsigned 64-bit values as in the parser the code calls. Precedence follows
section 11 of that standard.

Modules:

- `Wrappers`, `Strings`: Option/Result and the Go `strings` functions used.
- `SemVer`: parsing and rendering, with both round trips proved.
- `Precedence`: precedence as a strict order.
- `Errors`, `Manifest`: the error values and the manifest records.
- `Eligibility`:
  - the branch and package-name parsers;
  - the checks, modelled as ordered (condition, error) tables. `FirstFailure`
    is the reference meaning of a Go `switch` chain that returns the first
    error.
- `RepoPrefix`: splitting and composing `prefix+upversion`.
- `VersionCalc`: the calculation on values. It has the four version slots,
  loading, the branch rules and the composition.
- `Auto`: the code's mutable objects (`Bump`, `versions`, `version`) as
  classes. Each method is proved to reach the state that `Eligibility` or
  `VersionCalc` defines.
- `Examples`: worked cases on concrete versions.

The doc comment on `calculateNextVersion`
(pkg/auto/chart_bump_versions.go:34-37) names two cases: a patch bump
raises the prefix's patch number, and a minor or major bump raises its
minor number. The code has a third case, where neither rule fires. When
the upstream version differs from the latest only in its pre-release part,
the recorded prefix is reused unchanged (`BumpPrefixRules`,
`SameCoreKeepsPrefix`). That can yield the same chart version as the
latest release. The model follows the code.

## Model

| member | source | states |
|---|---|---|
| Eligibility.ParseBranchVersion | pkg/auto/chart_bump.go:106-111 | fails with NotDevBranch exactly when the branch lacks the `dev-v` prefix; otherwise the prefix followed by the result is the branch |
| Eligibility.BranchVersionRoundTrip | pkg/auto/chart_bump.go:106-111 | `dev-v` + line parses back to exactly that line |
| Eligibility.ChartOfPackage | pkg/auto/chart_bump.go:117-127 | no chart exactly when the name has more than four `/`-parts; the chart has no `/`; it is the whole name when there is no `/`, and otherwise the name ends in `/` + chart |
| Auto.Bump.ParseChartFromPackage | pkg/auto/chart_bump.go:117-127 | sets the target chart to the designated chart, or returns BadPackage and leaves it unchanged |
| Eligibility.UpstreamChecks | pkg/auto/chart_bump.go:185-198 | the upstream check table: URL ends in `.git`, no commit, a branch, a subdirectory, each with its error, in the switch's order |
| Eligibility.RootChecks | pkg/auto/chart_bump.go:141-154 | the root check table: auto, name, no chart version, no package version, not doNotRelease, a working directory, each with its error, in the switch's order |
| Eligibility.CrdChecks | pkg/auto/chart_bump.go:169-178 | the CRD check table: template directory, CRD directory, validation flag; empty when there are no CRD options |
| Eligibility.PackageChecks | pkg/auto/chart_bump.go:141-179 | all checks of a package: root rows, then main upstream rows, then each additional chart's upstream and CRD rows, in list order |
| Eligibility.FirstFailureSpec | pkg/auto/chart_bump.go:141-154 | an ordered check list reports nothing iff every row holds, and otherwise the error of its first failing row |
| Eligibility.FirstFailureAt | pkg/auto/chart_bump.go:141-154 | the first failing row alone decides the reported error |
| Eligibility.FirstFailureConcat | pkg/auto/chart_bump.go:141-179 | checking two lists in sequence reports the first list's failure, else the second's |
| Eligibility.CheckUpstreamOptions | pkg/auto/chart_bump.go:185-198 | reports nothing exactly when the URL ends in `.git`, no commit is pinned, and a branch and a subdirectory are given |
| Eligibility.CheckUpstreamOptionsOrder | pkg/auto/chart_bump.go:185-198 | the reported error is that of the first failing row in the order URL, commit, branch, subdirectory |
| Eligibility.RootFirstFailure | pkg/auto/chart_bump.go:141-154 | the root checks report auto, name, chart version, package version, doNotRelease, working directory, in that order |
| Eligibility.CrdFirstFailure | pkg/auto/chart_bump.go:169-178 | CRD options are checked for template directory, CRD directory and validation flag, in that order; absent options pass |
| Eligibility.ChartFirstFailure | pkg/auto/chart_bump.go:163-179 | an additional chart reports its upstream failure first, then its CRD failure; it passes iff it is ready |
| Eligibility.ChartsPass | pkg/auto/chart_bump.go:163-179 | the additional charts pass exactly when every one of them is ready |
| Eligibility.ChartsFirstFailure | pkg/auto/chart_bump.go:163-179 | the additional charts pass iff all are ready; otherwise the reported error is that of a chart all of whose predecessors are ready |
| Eligibility.ChartsChecksFrom | pkg/auto/chart_bump.go:163-179 | the charts from index i on report chart i's failure, else that of the charts after it |
| Eligibility.PackageFirstFailure | pkg/auto/chart_bump.go:141-179 | a package reports its root failure, else its main upstream failure, else its additional charts' failure |
| Eligibility.PackageChecksEligible | pkg/auto/chart_bump.go:131-182 | the package checks pass exactly for a package that is eligible field by field |
| Eligibility.EligibleByRows | pkg/auto/chart_bump.go:141-179 | eligibility is the root rows holding, a ready main upstream and ready additional charts |
| Auto.Bump.ParsePackageYaml | pkg/auto/chart_bump.go:131-182 | no package gives NoPackage and several give MultiplePackages, each leaving the package unset; one package is recorded and the first failing check of it is returned |
| Auto.Bump.constructor | pkg/auto/chart_bump.go:16-23 | a bump starts with the loaded rules and release history, no chart, package, release entry or versions |
| Auto.Version.constructor | pkg/auto/chart_bump_versions.go:64-67 | a version record starts empty and unparsed |
| Auto.Version.UpdateSemver | pkg/auto/chart_bump_versions.go:21-28 | parses the text; on success the semver is the parsed text, and on failure the error is returned and the semver is unchanged; no error iff text and semver agree |
| Auto.Version.UpdateTxt | pkg/auto/chart_bump_versions.go:30-32 | the text becomes the rendering of the semver, after which a valid semver and its text agree |
| SemVer.Parse | pkg/auto/chart_bump_versions.go:21-28 | the strict parse that `semver.Make` performs: major.minor.patch without leading zeros and within 64 bits, then optional `-` pre-release and `+` build identifiers; the first violation gives the error |
| SemVer.Render | pkg/auto/chart_bump_versions.go:30-32 | the version's `String()`: major.minor.patch, then `-` pre-release and `+` build identifiers joined with dots |
| Precedence.Less | pkg/auto/chart_bump_versions.go:105-108 | the `LT` test: lower precedence by section 11 of Semantic Versioning 2.0.0, ignoring build metadata |
| SemVer.ParseRender | pkg/auto/chart_bump_versions.go:30-32 | rendering a valid version and parsing it back gives the version |
| SemVer.RenderParse | pkg/auto/chart_bump_versions.go:21-28 | every parsed version is valid and renders back to exactly the parsed text |
| Precedence.LessStrictOrder | pkg/auto/chart_bump_versions.go:105-108 | the "lower than" test is irreflexive and transitive, and two versions are incomparable exactly when they have equal precedence |
| Precedence.NotLessCore | pkg/auto/chart_bump_versions.go:105-108 | a version not below another has a major.minor.patch at least as large |
| RepoPrefix.ParseRepoPrefixVersionIfAny | pkg/auto/chart_bump_versions.go:114-125 | the marker `+up` is found iff it occurs; without it the prefix is empty and the version is the whole text |
| RepoPrefix.MarkerSplit | pkg/auto/chart_bump_versions.go:114-125 | with the marker, neither part holds it, and the text is the composite of the parts, possibly followed by another marker |
| RepoPrefix.FirstMarker | pkg/auto/chart_bump_versions.go:114-125 | in a composite whose prefix is marker-free, the first marker is the one after the prefix |
| RepoPrefix.RepoPrefixRoundTrip | pkg/auto/chart_bump_versions.go:114-125 | the composite of two marker-free parts splits back into exactly those parts |
| RepoPrefix.PlusCount | pkg/auto/chart_bump_versions.go:50-51 | a valid version's text has one `+` if it has build metadata and none otherwise |
| RepoPrefix.ComposedParses | pkg/auto/chart_bump_versions.go:50-51 | the composite of two build-free versions parses to the prefix with the upstream text as its build metadata |
| RepoPrefix.ComposedParse | pkg/auto/chart_bump_versions.go:50-51 | the composite of two version texts parses iff neither has build metadata, and then has the prefix's precedence |
| VersionCalc.Inc64 | pkg/auto/chart_bump_versions.go:161-165 | a 64-bit increment: one more below the maximum, zero at the maximum |
| VersionCalc.LoadLatest | pkg/auto/chart_bump_versions.go:72-88 | the first half of the load: empty latest text fails; the marker splits off a prefix, which is parsed when found, then the version is parsed; each failure stops with the slots filled so far |
| VersionCalc.LoadUpstream | pkg/auto/chart_bump_versions.go:90-108 | the second half of the load: the upstream text is recorded, and then the load fails if the text is empty, does not parse, carries the marker, or is below the latest |
| VersionCalc.Load | pkg/auto/chart_bump_versions.go:62-111 | the whole load on values: the latest half, then the upstream half if the first succeeded; the reference state for `Auto.Bump.LoadVersions` |
| VersionCalc.RuleMin | pkg/auto/chart_bump_versions.go:130 | the minimum prefix of the branch's rule; a branch without a rule gives "" (the zero value of the map lookup), which then fails to parse |
| VersionCalc.BumpPrefix | pkg/auto/chart_bump_versions.go:155-166 | the continued prefix: patch + 1 when only the upstream patch rose, minor + 1 and patch 0 when its major or minor rose, unchanged otherwise, with 64-bit wrap-around |
| VersionCalc.LatestErrors | pkg/auto/chart_bump_versions.go:72-88 | loading the latest version fails with exactly its first fault (empty, unparsable prefix, unparsable version); on success only the latest and its prefix are filled, in step with their texts |
| VersionCalc.UpstreamErrors | pkg/auto/chart_bump_versions.go:90-108 | loading the upstream version fails with exactly its first fault (empty, unparsable, carrying the marker, below the latest); on success it is recorded parsed |
| VersionCalc.LoadErrors | pkg/auto/chart_bump_versions.go:62-111 | loading stops with the latest version's first fault, else the upstream version's |
| VersionCalc.LoadSuccess | pkg/auto/chart_bump_versions.go:62-111 | after a successful load, versions and texts agree, the upstream version is the one given, is marker-free and not below the latest, and a prefix is recorded iff the latest carried the marker |
| VersionCalc.ApplyRules | pkg/auto/chart_bump_versions.go:127-170 | the rules on values, and the reference state for `Auto.Bump.ApplyVersionRules`: an unparsable rule fails; a missing or other-major recorded prefix adopts the rule; otherwise the recorded prefix is parsed and bumped by `BumpPrefix`. Only the prefix to release changes |
| VersionCalc.BumpPrefixRules | pkg/auto/chart_bump_versions.go:155-166 | only an upstream patch increase bumps the patch; an upstream major or minor increase bumps the minor and zeroes the patch; with no component increased the prefix is unchanged; major, pre-release and build stay |
| VersionCalc.SameCoreKeepsPrefix | pkg/auto/chart_bump_versions.go:155-166 | once the upstream is not below the latest, the prefix is unchanged iff the upstream major.minor.patch equals the latest's |
| VersionCalc.BumpRaisesPrefix | pkg/auto/chart_bump_versions.go:155-166 | unless a number wraps around, a changed prefix has higher precedence than the one it continues |
| VersionCalc.BumpPrefixValid | pkg/auto/chart_bump_versions.go:155-168 | bumping keeps a prefix a valid version |
| VersionCalc.ApplyRulesSpec | pkg/auto/chart_bump_versions.go:127-170 | after a load, the rules fail iff the branch rule does not parse, leaving the state as it was; otherwise the new prefix agrees with its text and has the rule's major number |
| VersionCalc.ApplyRulesBadRule | pkg/auto/chart_bump_versions.go:130-134 | an unparsable branch rule stops the rules with its parse error and leaves every slot unchanged |
| VersionCalc.ApplyRulesNewLine | pkg/auto/chart_bump_versions.go:141-148 | on a branch-line transition the new prefix is the rule text with the parsed rule, and there is no error |
| VersionCalc.ApplyRulesBadPrefix | pkg/auto/chart_bump_versions.go:150-153 | within a branch line, a recorded prefix that does not parse stops the rules with its error, its text already copied to the new prefix |
| VersionCalc.ApplyRulesBumped | pkg/auto/chart_bump_versions.go:150-168 | within a branch line, the new prefix is the parsed recorded prefix bumped by `BumpPrefix`, with its rendering as the text |
| VersionCalc.ApplyRulesTransition | pkg/auto/chart_bump_versions.go:141-148 | on a branch-line transition the new prefix is the rule text verbatim |
| VersionCalc.ApplyRulesContinuation | pkg/auto/chart_bump_versions.go:150-168 | within a branch line the new prefix is the recorded prefix bumped by the upstream change |
| VersionCalc.Calculate | pkg/auto/chart_bump_versions.go:38-56 | the whole calculation on values: load, apply the rules, compose prefix `+up` upstream and parse it; the reference state and result for `Auto.Bump.CalculateNextVersion` |
| VersionCalc.CalculateSuccess | pkg/auto/chart_bump_versions.go:38-56 | a successful calculation gives the prefix composed with the upstream version, parsed, with the prefix's precedence and the rule's major number; it splits back into prefix and upstream when the prefix is marker-free |
| VersionCalc.CalculateComposes | pkg/auto/chart_bump_versions.go:49-51 | after load and rules succeed, composing succeeds iff neither the new prefix nor the upstream version has build metadata |
| VersionCalc.LoadCleanly | pkg/auto/chart_bump_versions.go:62-111 | a latest version `prefix+uplatest` with parsable, marker-free parts and an upstream version not below it load without error, recording all three parsed |
| VersionCalc.CalculateReleases | pkg/auto/chart_bump_versions.go:49-54 | once loading and the rules succeed with build-free prefix and upstream versions, the calculation succeeds with the prefix text `+up` the upstream text |
| VersionCalc.CalculateContinues | pkg/auto/chart_bump_versions.go:38-56 | end to end within a branch line: the calculation succeeds and releases the recorded prefix, bumped by the upstream change, `+up` the upstream version |
| VersionCalc.CalculateStartsLine | pkg/auto/chart_bump_versions.go:38-56 | end to end on a branch-line transition: the calculation succeeds and releases the rule text `+up` the upstream version |
| Auto.Versions.constructor | pkg/auto/chart_bump_versions.go:63-68 | four fresh, distinct, empty version records |
| Auto.Bump.LoadVersions | pkg/auto/chart_bump_versions.go:62-111 | fresh records whose final state and returned error are those of the value-level load of the history head and upstream version |
| Auto.Bump.ApplyVersionRules | pkg/auto/chart_bump_versions.go:127-170 | the records' new state and the returned error are those of the value-level rules for the branch's minimum |
| Auto.Bump.CalculateNextVersion | pkg/auto/chart_bump_versions.go:38-56 | the records end as in the value-level calculation; on success the release entry gets the composite text and the package its parsed form; on failure that error is returned and neither is written |
| Examples.SplitExample | pkg/auto/chart_bump_versions.go:114-125 | `104.2.0+up1.2.3` splits into prefix `104.2.0` and version `1.2.3` |
| Examples.PatchBumpExample | pkg/auto/chart_bump_versions.go:160-162 | upstream 1.2.3 to 1.2.4 takes prefix 104.2.0 to 104.2.1 |
| Examples.MinorBumpExample | pkg/auto/chart_bump_versions.go:163-166 | upstream 1.2.3 to 2.0.0 takes prefix 104.2.1 to 104.3.0 |
| Examples.UpstreamMinorExample | pkg/auto/chart_bump_versions.go:163-166 | upstream 1.2.3 to 1.3.0 takes prefix 104.2.0 to 104.3.0 |
| Examples.PreReleaseOnlyExample | pkg/auto/chart_bump_versions.go:155-166 | upstream 1.2.3-rc.1 to 1.2.3 keeps prefix 104.2.0 |

## Left out

- SetupBump (chart_bump.go:55-104) is not modelled as a whole. It reads the repository through the file system and the lifecycle package. The parts it delegates are modelled separately: parseBranchVersion, parseChartFromPackage and parsePackageYaml. Its early return of a nil error when the release.yaml path is empty is not modelled.
- BumpChart (chart_bump.go:203-217) is a stub that only returns nil, so it has no model.
- `configOptions` is stored but never read in these files, so it is not a field of `Auto.Bump`.
- The rules and release history that `lifecycle.InitDependencies` loads are constructor parameters of `Auto.Bump`.
- `Upstream.GetOptions()` is taken as already applied, so the package records hold `UpstreamOptions` directly.
- `Chart.GetUpstreamVersion()` is the `upstreamVersion` parameter of `Auto.Bump.LoadVersions` and `Auto.Bump.CalculateNextVersion`.
- An additional chart without an upstream would make the code dereference nil. That cannot be represented: the upstream field is not optional.
- `Pkg` and `releaseYaml` are pointers in the code and can alias other objects. In the model they are values that the methods reassign, so a change is not seen through other references.
- Auto.Bump.CalculateNextVersion: `semver.MustParse` panics on an unparsable composite. The model returns the error ComposedVersionInvalid instead. `VersionCalc.CalculateComposes` characterises exactly when that happens.
- Auto.Bump.LoadVersions: requires the target chart to have a non-empty release history. On a missing or empty history the code's index would panic.
- Auto.Bump.ApplyVersionRules: in the branch-line transition branch, the parse error of updateSemver is not returned. The rule text has already parsed at that point, so that error cannot occur.
- Auto.Bump.ApplyVersionRules and Auto.Bump.CalculateNextVersion require `versions`, `Pkg` and `releaseYaml` to be set. The code dereferences them without a check.
- Error messages are not modelled; each error sentinel is a constructor of `Errors.BumpError`.
- Semver parse errors are abstract `SemVer.ParseError` values, not the library's message texts.
- `errChartLatestVersion`, `errChartUpstreamVersion`, `errChartUpstreamVersionWrong` and `errBumpVersion` are not declared in the two modelled files. The model gives them distinct constructors of `Errors.BumpError`.
- The `Release` record and the `versions` field of `Bump` are not declared in the two modelled files either. The model gives them the fields their uses in those files show.
- The semver library's internals are not part of this model. Parsing, rendering and precedence are modelled after Semantic Versioning 2.0.0, with 64-bit number bounds.
