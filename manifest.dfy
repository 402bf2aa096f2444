/**
 * The records the bump logic reads: the package.yaml manifest with its
 * upstream descriptors, the release.yaml entry, the branch version rules
 * and the released-versions history. Optional (pointer) fields are Options.
 */
module Manifest {
  import opened Wrappers
  import SemVer

  /** Where a chart's upstream lives; the result of the upstream's GetOptions. */
  datatype UpstreamOptions = UpstreamOptions(
    url: string,
    commit: Option<string>,
    chartRepoBranch: Option<string>,
    subdirectory: Option<string>)

  datatype CRDChartOptions = CRDChartOptions(
    templateDirectory: string,
    crdDirectory: string,
    addCRDValidationToMainChart: bool)

  /** A chart shipped beside the main one, typically its CRDs. */
  datatype AdditionalChart = AdditionalChart(
    upstream: UpstreamOptions,
    crdChartOptions: Option<CRDChartOptions>)

  datatype Chart = Chart(workingDir: string, upstream: UpstreamOptions)

  datatype Package = Package(
    name: string,
    auto: bool,
    version: Option<string>,
    packageVersion: Option<int>,
    doNotRelease: bool,
    chart: Chart,
    additionalCharts: seq<AdditionalChart>,
    autoGeneratedBumpVersion: Option<SemVer.Version>)

  /** The release.yaml entry being prepared for the chart. */
  datatype Release = Release(chart: string, chartVersion: string, releaseYamlPath: string)

  /** The lowest repository prefix version allowed on a branch line (e.g. "105.0.0"). */
  datatype VersionRule = VersionRule(min: string)

  /** The rules per branch line, and the branch line being worked on. */
  datatype VersionRules = VersionRules(branchVersion: string, rules: map<string, VersionRule>)

  /** A released chart version, as listed in the repository index. */
  datatype Asset = Asset(version: string)
}
