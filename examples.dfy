/** Worked examples of the version calculator on concrete versions. */
module Examples {
  import opened Wrappers
  import opened Strings
  import opened SemVer
  import opened RepoPrefix
  import opened VersionCalc

  function Core(major: nat, minor: nat, patch: nat): Version
  {
    Version(major, minor, patch, [], [])
  }

  /** A text without a '+' cannot hold the marker. */
  lemma NoPlusNoMarker(s: string)
    requires '+' !in s
    ensures !Contains(s, Marker)
  {
    forall i: nat | i <= |s| ensures !OccursAt(s, Marker, i) {
      if i + |Marker| <= |s| {
        assert s[i..i + |Marker|][0] == s[i];
      }
    }
  }

  /** A prefix split off a composite: "104.2.0+up1.2.3" is prefix 104.2.0 and version 1.2.3. */
  lemma SplitExample()
    ensures ParseRepoPrefixVersionIfAny("104.2.0+up1.2.3") == PrefixSplit("104.2.0", "1.2.3", true)
  {
    NoPlusNoMarker("104.2.0");
    NoPlusNoMarker("1.2.3");
    RepoPrefixRoundTrip("104.2.0", "1.2.3");
    assert Compose("104.2.0", "1.2.3") == "104.2.0+up1.2.3";
  }

  /** Upstream 1.2.3 to 1.2.4 on prefix 104.2.0: a patch bump, to 104.2.1. */
  lemma PatchBumpExample()
    ensures BumpPrefix(Core(104, 2, 0), Core(1, 2, 4), Core(1, 2, 3)) == Core(104, 2, 1)
  {
  }

  /** Upstream 1.2.3 to 1.3.0 on prefix 104.2.0: a minor bump, to 104.3.0. */
  lemma UpstreamMinorExample()
    ensures BumpPrefix(Core(104, 2, 0), Core(1, 3, 0), Core(1, 2, 3)) == Core(104, 3, 0)
  {
  }

  /** Upstream 1.2.3 to 2.0.0 on prefix 104.2.1: a minor bump, to 104.3.0, although the upstream patch went down. */
  lemma MinorBumpExample()
    ensures BumpPrefix(Core(104, 2, 1), Core(2, 0, 0), Core(1, 2, 3)) == Core(104, 3, 0)
  {
  }

  /** Upstream 1.2.3-rc.1 to 1.2.3: no component went up, so the prefix stays 104.2.0. */
  lemma PreReleaseOnlyExample()
    ensures BumpPrefix(Core(104, 2, 0), Core(1, 2, 3), Version(1, 2, 3, [Alphanumeric("rc"), Numeric(1)], [])) == Core(104, 2, 0)
  {
  }
}
