/**
 * The closed set of errors the bump logic can return (the sentinel errors
 * of package auto), identified by name rather than by message text.
 */
module Errors {
  import SemVer

  datatype BumpError =
    // setup: branch and package name
    | NotDevBranch
    | BadPackage
    // package.yaml: number of packages
    | NoPackage
    | MultiplePackages
    // package.yaml: root fields
    | FalseAuto
    | PackageName
    | PackageChartVersion
    | PackageVersion
    | PackageDoNotRelease
    | ChartWorkDir
    // upstream options
    | ChartURL
    | ChartRepoCommit
    | ChartRepoBranch
    | ChartSubDir
    // additional (CRD) charts
    | AdditionalChartWorkDir
    | CRDWorkDir
    | AdditionalChartCRDValidation
    // version calculation
    | ChartLatestVersion
    | ChartUpstreamVersion
    | ChartUpstreamVersionWrong
    | BumpVersion
    /** A version text that the semver parser rejected. */
    | SemverParse(cause: SemVer.ParseError)
    /** The composed chart version is not a semver: the parser's Must variant panics. */
    | ComposedVersionInvalid(cause: SemVer.ParseError)
}
