/**
 * Precedence of versions (section 11 of Semantic Versioning 2.0.0): the
 * order behind the regression check of the version calculator.
 */
module Precedence {
  import opened SemVer

  function CompareNat(a: nat, b: nat): int
  {
    if a < b then -1 else if a > b then 1 else 0
  }

  /** Character by character in ASCII order; a proper prefix comes first. */
  function CompareText(a: string, b: string): int
  {
    if |a| == 0 && |b| == 0 then 0
    else if |a| == 0 then -1
    else if |b| == 0 then 1
    else if a[0] < b[0] then -1
    else if a[0] > b[0] then 1
    else CompareText(a[1..], b[1..])
  }

  /**
   * Section 11.4.1 to 11.4.3: numeric identifiers compare numerically,
   * alphanumeric ones in ASCII order, and numeric ones come first.
   */
  function CompareIdentifier(a: Identifier, b: Identifier): int
  {
    match (a, b)
    case (Numeric(x), Numeric(y)) => CompareNat(x, y)
    case (Numeric(_), Alphanumeric(_)) => -1
    case (Alphanumeric(_), Numeric(_)) => 1
    case (Alphanumeric(x), Alphanumeric(y)) => CompareText(x, y)
  }

  /** Section 11.4.4: identifier by identifier; a list that is a proper prefix of the other comes first. */
  function CompareIdentifiers(a: seq<Identifier>, b: seq<Identifier>): int
  {
    if |a| == 0 && |b| == 0 then 0
    else if |a| == 0 then -1
    else if |b| == 0 then 1
    else if CompareIdentifier(a[0], b[0]) != 0 then CompareIdentifier(a[0], b[0])
    else CompareIdentifiers(a[1..], b[1..])
  }

  /**
   * Section 11: major, minor and patch numerically; with those equal, a
   * version with a pre-release comes before one without, and two
   * pre-releases compare by their identifiers. Build metadata plays no part.
   */
  function Compare(a: Version, b: Version): int
  {
    if a.major != b.major then CompareNat(a.major, b.major)
    else if a.minor != b.minor then CompareNat(a.minor, b.minor)
    else if a.patch != b.patch then CompareNat(a.patch, b.patch)
    else if a.pre == [] && b.pre == [] then 0
    else if a.pre == [] then 1
    else if b.pre == [] then -1
    else CompareIdentifiers(a.pre, b.pre)
  }

  /** `a` has lower precedence than `b` (the library's LT). */
  predicate Less(a: Version, b: Version)
  {
    Compare(a, b) < 0
  }

  /** Equal precedence: everything but the build metadata agrees. */
  predicate SamePrecedence(a: Version, b: Version)
  {
    a.major == b.major && a.minor == b.minor && a.patch == b.patch && a.pre == b.pre
  }

  /** (major, minor, patch) of `a` is at least that of `b`, compared left to right. */
  predicate CoreAtLeast(a: Version, b: Version)
  {
    || a.major > b.major
    || (a.major == b.major && a.minor > b.minor)
    || (a.major == b.major && a.minor == b.minor && a.patch >= b.patch)
  }

  // ---------------------------------------------------------------
  // Text

  lemma {:induction false} TextAntisymmetric(a: string, b: string)
    ensures CompareText(a, b) == -CompareText(b, a)
    ensures CompareText(a, b) == 0 <==> a == b
  {
    if |a| > 0 && |b| > 0 && a[0] == b[0] {
      TextAntisymmetric(a[1..], b[1..]);
      if a[1..] == b[1..] {
        assert a == [a[0]] + a[1..] && b == [b[0]] + b[1..];
      }
    }
  }

  lemma {:induction false} TextTransitive(a: string, b: string, c: string)
    requires CompareText(a, b) < 0 && CompareText(b, c) < 0
    ensures CompareText(a, c) < 0
  {
    if |a| > 0 && |b| > 0 && |c| > 0 && a[0] == b[0] && b[0] == c[0] {
      TextTransitive(a[1..], b[1..], c[1..]);
    }
  }

  // ---------------------------------------------------------------
  // Identifiers

  lemma IdentifierAntisymmetric(a: Identifier, b: Identifier)
    ensures CompareIdentifier(a, b) == -CompareIdentifier(b, a)
    ensures CompareIdentifier(a, b) == 0 <==> a == b
  {
    if a.Alphanumeric? && b.Alphanumeric? {
      TextAntisymmetric(a.s, b.s);
    }
  }

  lemma IdentifierTransitive(a: Identifier, b: Identifier, c: Identifier)
    requires CompareIdentifier(a, b) < 0 && CompareIdentifier(b, c) < 0
    ensures CompareIdentifier(a, c) < 0
  {
    if a.Alphanumeric? && b.Alphanumeric? && c.Alphanumeric? {
      TextTransitive(a.s, b.s, c.s);
    }
  }

  lemma {:induction false} IdentifiersAntisymmetric(a: seq<Identifier>, b: seq<Identifier>)
    ensures CompareIdentifiers(a, b) == -CompareIdentifiers(b, a)
    ensures CompareIdentifiers(a, b) == 0 <==> a == b
  {
    if |a| > 0 && |b| > 0 {
      IdentifierAntisymmetric(a[0], b[0]);
      if CompareIdentifier(a[0], b[0]) == 0 {
        IdentifiersAntisymmetric(a[1..], b[1..]);
        if a[1..] == b[1..] {
          assert a == [a[0]] + a[1..] && b == [b[0]] + b[1..];
        }
      }
    }
  }

  lemma {:induction false} IdentifiersTransitive(a: seq<Identifier>, b: seq<Identifier>, c: seq<Identifier>)
    requires CompareIdentifiers(a, b) < 0 && CompareIdentifiers(b, c) < 0
    ensures CompareIdentifiers(a, c) < 0
  {
    if |a| > 0 && |b| > 0 && |c| > 0 {
      IdentifierAntisymmetric(a[0], b[0]);
      IdentifierAntisymmetric(b[0], c[0]);
      IdentifierAntisymmetric(a[0], c[0]);
      var ab, bc := CompareIdentifier(a[0], b[0]), CompareIdentifier(b[0], c[0]);
      if ab == 0 && bc == 0 {
        IdentifiersTransitive(a[1..], b[1..], c[1..]);
      } else if ab < 0 && bc < 0 {
        IdentifierTransitive(a[0], b[0], c[0]);
      }
    }
  }

  // ---------------------------------------------------------------
  // Versions

  /** Less is a strict order whose incomparable pairs are exactly those of equal precedence. */
  lemma LessStrictOrder(a: Version, b: Version, c: Version)
    ensures !Less(a, a)
    ensures Less(a, b) && Less(b, c) ==> Less(a, c)
    ensures Less(a, b) || Less(b, a) || SamePrecedence(a, b)
    ensures SamePrecedence(a, b) ==> !Less(a, b) && !Less(b, a)
  {
    IdentifiersAntisymmetric(a.pre, a.pre);
    IdentifiersAntisymmetric(a.pre, b.pre);
    if Less(a, b) && Less(b, c) && CompareIdentifiers(a.pre, b.pre) < 0 && CompareIdentifiers(b.pre, c.pre) < 0 {
      IdentifiersTransitive(a.pre, b.pre, c.pre);
    }
  }

  /** A version that is not below another has a (major, minor, patch) at least as large. */
  lemma NotLessCore(a: Version, b: Version)
    requires !Less(a, b)
    ensures CoreAtLeast(a, b)
  {
  }
}
