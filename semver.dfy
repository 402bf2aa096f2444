/**
 * Semantic Versioning 2.0.0 versions as the bump logic reads and writes
 * them: parsing (sections 2, 9 and 10 of the standard) and rendering, with
 * numbers bounded to unsigned 64-bit values as in the parser the repository
 * calls. Precedence (section 11) is in module Precedence.
 */
module SemVer {
  import opened Wrappers
  import opened Strings

  /** The largest value an unsigned 64-bit version number can hold. */
  const MaxNumber: nat := 0xFFFF_FFFF_FFFF_FFFF

  /** A pre-release identifier (section 9): numeric or alphanumeric. */
  datatype Identifier = Numeric(n: nat) | Alphanumeric(s: string)

  /** major.minor.patch, pre-release identifiers, build metadata identifiers. */
  datatype Version = Version(major: nat, minor: nat, patch: nat, pre: seq<Identifier>, build: seq<string>)

  datatype ParseError =
    | EmptyVersion
    | MissingComponents
    | NotANumber
    | LeadingZero
    | OutOfRange
    | EmptyIdentifier
    | InvalidCharacter

  predicate IsDigit(c: char) { '0' <= c <= '9' }

  /** The characters allowed in identifiers: [0-9A-Za-z-]. */
  predicate IsIdentChar(c: char) { IsDigit(c) || 'a' <= c <= 'z' || 'A' <= c <= 'Z' || c == '-' }

  predicate AllDigits(s: string) { forall i | 0 <= i < |s| :: IsDigit(s[i]) }

  predicate AllIdentChars(s: string) { forall i | 0 <= i < |s| :: IsIdentChar(s[i]) }

  /** The value of a string of decimal digits. */
  function DigitsValue(s: string): nat
    requires AllDigits(s)
  {
    if |s| == 0 then 0 else DigitsValue(s[..|s| - 1]) * 10 + (s[|s| - 1] as int - '0' as int)
  }

  function DigitChar(d: nat): (c: char)
    requires d < 10
    ensures IsDigit(c) && c as int - '0' as int == d
  {
    ('0' as int + d) as char
  }

  /** The decimal numeral of `n`, without leading zeros. */
  function Decimal(n: nat): (r: string)
    ensures |r| > 0 && AllDigits(r)
    ensures DigitsValue(r) == n
    ensures |r| > 1 ==> r[0] != '0'
  {
    if n < 10 then [DigitChar(n)]
    else
      var front := Decimal(n / 10);
      var r := front + [DigitChar(n % 10)];
      assert r[..|r| - 1] == front;
      r
  }

  /**
   * A version number: digits only, no leading zero, at least one digit
   * and at most MaxNumber, checked in that order.
   */
  function ParseNumber(s: string): Result<nat, ParseError>
  {
    if !AllDigits(s) then Err(NotANumber)
    else if |s| > 1 && s[0] == '0' then Err(LeadingZero)
    else if |s| == 0 then Err(NotANumber)
    else if DigitsValue(s) > MaxNumber then Err(OutOfRange)
    else Ok(DigitsValue(s))
  }

  /** A pre-release identifier: numeric when it is all digits, alphanumeric otherwise. */
  function ParseIdentifier(s: string): Result<Identifier, ParseError>
  {
    if |s| == 0 then Err(EmptyIdentifier)
    else if AllDigits(s) then
      if |s| > 1 && s[0] == '0' then Err(LeadingZero)
      else if DigitsValue(s) > MaxNumber then Err(OutOfRange)
      else Ok(Numeric(DigitsValue(s)))
    else if AllIdentChars(s) then Ok(Alphanumeric(s))
    else Err(InvalidCharacter)
  }

  function ParseIdentifiers(parts: seq<string>): Result<seq<Identifier>, ParseError>
  {
    if |parts| == 0 then Ok([])
    else
      var id :- ParseIdentifier(parts[0]);
      var rest :- ParseIdentifiers(parts[1..]);
      Ok([id] + rest)
  }

  /** The first fault among build metadata identifiers: each must be non-empty and [0-9A-Za-z-]. */
  function BuildFault(parts: seq<string>): Option<ParseError>
  {
    if |parts| == 0 then None
    else if |parts[0]| == 0 then Some(EmptyIdentifier)
    else if !AllIdentChars(parts[0]) then Some(InvalidCharacter)
    else BuildFault(parts[1..])
  }

  /** Cuts `text` at its first `c`: the part before, and the part after split on dots. */
  function CutAt(text: string, c: char): (string, seq<string>)
  {
    match IndexOf(text, [c])
    case None => (text, [])
    case Some(k) => (text[..k], Split(text[k + 1..], "."))
  }

  /**
   * Parses a version: the text up to the first dot is the major number, up
   * to the second the minor number, and the rest is the patch number
   * followed by an optional `-` pre-release and an optional `+` build part.
   */
  function Parse(s: string): Result<Version, ParseError>
  {
    if |s| == 0 then Err(EmptyVersion)
    else
      match IndexOf(s, ".")
      case None => Err(MissingComponents)
      case Some(i) =>
        var afterMajor := s[i + 1..];
        match IndexOf(afterMajor, ".")
        case None => Err(MissingComponents)
        case Some(j) => ParseComponents(s[..i], afterMajor[..j], afterMajor[j + 1..])
  }

  function ParseComponents(majorText: string, minorText: string, rest: string): Result<Version, ParseError>
  {
    var major :- ParseNumber(majorText);
    var minor :- ParseNumber(minorText);
    var (core, build) := CutAt(rest, '+');
    var (patchText, preParts) := CutAt(core, '-');
    var patch :- ParseNumber(patchText);
    var pre :- ParseIdentifiers(preParts);
    if BuildFault(build).Some? then Err(BuildFault(build).value)
    else Ok(Version(major, minor, patch, pre, build))
  }

  function IdentifierText(id: Identifier): string
  {
    match id
    case Numeric(n) => Decimal(n)
    case Alphanumeric(s) => s
  }

  function IdentifierTexts(ids: seq<Identifier>): (r: seq<string>)
    ensures |r| == |ids|
    ensures forall k :: 0 <= k < |ids| ==> r[k] == IdentifierText(ids[k])
  {
    if |ids| == 0 then [] else [IdentifierText(ids[0])] + IdentifierTexts(ids[1..])
  }

  function PreText(v: Version): string
  {
    if v.pre == [] then "" else "-" + Join(IdentifierTexts(v.pre), ".")
  }

  function BuildText(v: Version): string
  {
    if v.build == [] then "" else "+" + Join(v.build, ".")
  }

  /** major.minor.patch and the pre-release part: the version without build metadata. */
  function RenderCore(v: Version): string
  {
    Decimal(v.major) + "." + Decimal(v.minor) + "." + Decimal(v.patch) + PreText(v)
  }

  /** The text of a version, as Version.String() writes it. */
  function Render(v: Version): string
  {
    RenderCore(v) + BuildText(v)
  }

  predicate ValidIdentifier(id: Identifier)
  {
    match id
    case Numeric(n) => n <= MaxNumber
    case Alphanumeric(s) => |s| > 0 && AllIdentChars(s) && !AllDigits(s)
  }

  predicate ValidBuildIdentifier(s: string)
  {
    |s| > 0 && AllIdentChars(s)
  }

  /** The versions that Parse can produce. */
  predicate Valid(v: Version)
  {
    && v.major <= MaxNumber && v.minor <= MaxNumber && v.patch <= MaxNumber
    && (forall k :: 0 <= k < |v.pre| ==> ValidIdentifier(v.pre[k]))
    && (forall k :: 0 <= k < |v.build| ==> ValidBuildIdentifier(v.build[k]))
  }

  // ---------------------------------------------------------------
  // Numbers

  lemma {:induction false} PositiveValue(s: string)
    requires AllDigits(s) && |s| > 0 && s[0] != '0'
    ensures DigitsValue(s) > 0
  {
    if |s| > 1 {
      PositiveValue(s[..|s| - 1]);
    }
  }

  /** A numeral without leading zeros is the decimal numeral of its value. */
  lemma {:induction false} DecimalOfDigits(s: string)
    requires AllDigits(s) && |s| > 0 && (|s| > 1 ==> s[0] != '0')
    ensures Decimal(DigitsValue(s)) == s
  {
    var front, last := s[..|s| - 1], s[|s| - 1];
    var n, d := DigitsValue(s), last as int - '0' as int;
    assert n == DigitsValue(front) * 10 + d;
    assert DigitChar(d) == last;
    if |s| > 1 {
      PositiveValue(front);
      DecimalOfDigits(front);
      assert n / 10 == DigitsValue(front) && n % 10 == d;
      assert s == front + [last];
    } else {
      assert s == [last];
    }
  }

  /** ParseNumber and Decimal are inverse on 0..MaxNumber. */
  lemma NumberRoundTrip(n: nat, s: string)
    ensures n <= MaxNumber ==> ParseNumber(Decimal(n)) == Ok(n)
    ensures ParseNumber(s) == Ok(n) ==> Decimal(n) == s && n <= MaxNumber
  {
    if ParseNumber(s) == Ok(n) {
      DecimalOfDigits(s);
    }
  }

  lemma DigitsFree(s: string, c: char)
    requires AllDigits(s) && !IsDigit(c)
    ensures c !in s
  {
  }

  lemma IdentCharsFree(s: string, c: char)
    requires AllIdentChars(s) && !IsIdentChar(c)
    ensures c !in s
  {
  }

  // ---------------------------------------------------------------
  // Identifiers

  /** Pre-release identifiers: parsing a valid identifier's text gives it back, and every parsed identifier is valid. */
  lemma IdentifierRoundTrip(id: Identifier, s: string)
    ensures ValidIdentifier(id) ==> ParseIdentifier(IdentifierText(id)) == Ok(id)
    ensures ParseIdentifier(s) == Ok(id) ==> ValidIdentifier(id) && IdentifierText(id) == s
  {
    if ValidIdentifier(id) && id.Numeric? {
      NumberRoundTrip(id.n, s);
    }
    if ParseIdentifier(s) == Ok(id) && id.Numeric? {
      DecimalOfDigits(s);
    }
  }

  lemma {:induction false} IdentifiersRoundTrip(ids: seq<Identifier>)
    requires forall k :: 0 <= k < |ids| ==> ValidIdentifier(ids[k])
    ensures ParseIdentifiers(IdentifierTexts(ids)) == Ok(ids)
  {
    if |ids| > 0 {
      IdentifierRoundTrip(ids[0], "");
      IdentifiersRoundTrip(ids[1..]);
      assert IdentifierTexts(ids)[1..] == IdentifierTexts(ids[1..]);
      assert ids == [ids[0]] + ids[1..];
    }
  }

  lemma {:induction false} ParsedIdentifiers(parts: seq<string>, ids: seq<Identifier>)
    requires ParseIdentifiers(parts) == Ok(ids)
    ensures IdentifierTexts(ids) == parts
    ensures forall k :: 0 <= k < |ids| ==> ValidIdentifier(ids[k])
  {
    if |parts| > 0 {
      var id := ParseIdentifier(parts[0]).value;
      var rest := ParseIdentifiers(parts[1..]).value;
      assert ids == [id] + rest;
      IdentifierRoundTrip(id, parts[0]);
      ParsedIdentifiers(parts[1..], rest);
      assert parts == [parts[0]] + parts[1..];
    }
  }

  /** No build fault exactly when every build identifier is valid. */
  lemma {:induction false} BuildFaultValid(parts: seq<string>)
    ensures BuildFault(parts).None? <==> forall k :: 0 <= k < |parts| ==> ValidBuildIdentifier(parts[k])
  {
    if |parts| > 0 {
      BuildFaultValid(parts[1..]);
      assert forall k :: 1 <= k < |parts| ==> parts[k] == parts[1..][k - 1];
    }
  }

  lemma IdentifierTextChars(id: Identifier)
    requires ValidIdentifier(id)
    ensures AllIdentChars(IdentifierText(id))
  {
  }

  // ---------------------------------------------------------------
  // Cutting the patch part

  /** The text after the second dot of a rendered version. */
  function PatchPart(v: Version): string
  {
    Decimal(v.patch) + PreText(v) + BuildText(v)
  }

  lemma RenderParts(v: Version)
    ensures Render(v) == Decimal(v.major) + "." + Decimal(v.minor) + "." + PatchPart(v)
  {
  }

  lemma PreTextChars(v: Version, c: char)
    requires Valid(v) && !IsIdentChar(c) && c != '.'
    ensures c !in Decimal(v.patch) + PreText(v)
  {
    DigitsFree(Decimal(v.patch), c);
    if v.pre != [] {
      var texts := IdentifierTexts(v.pre);
      forall k | 0 <= k < |texts| ensures c !in texts[k] {
        IdentifierTextChars(v.pre[k]);
        IdentCharsFree(texts[k], c);
      }
      JoinFree(texts, ".", c);
    }
  }

  lemma CutBuild(v: Version)
    requires Valid(v)
    ensures CutAt(PatchPart(v), '+') == (Decimal(v.patch) + PreText(v), v.build)
  {
    var core := Decimal(v.patch) + PreText(v);
    PreTextChars(v, '+');
    if v.build == [] {
      assert PatchPart(v) == core;
      NoChar(core, '+');
    } else {
      var text := Join(v.build, ".");
      assert PatchPart(v) == core + ['+'] + text;
      FirstChar(core, '+', text);
      assert (core + ['+'] + text)[..|core|] == core;
      assert (core + ['+'] + text)[|core| + 1..] == text;
      forall k | 0 <= k < |v.build| ensures '.' !in v.build[k] {
        IdentCharsFree(v.build[k], '.');
      }
      SplitJoin(v.build, '.');
    }
  }

  lemma CutPre(v: Version)
    requires Valid(v)
    ensures CutAt(Decimal(v.patch) + PreText(v), '-') == (Decimal(v.patch), IdentifierTexts(v.pre))
  {
    var digits := Decimal(v.patch);
    DigitsFree(digits, '-');
    if v.pre == [] {
      assert digits + PreText(v) == digits;
      NoChar(digits, '-');
    } else {
      var texts := IdentifierTexts(v.pre);
      var text := Join(texts, ".");
      assert digits + PreText(v) == digits + ['-'] + text;
      FirstChar(digits, '-', text);
      assert (digits + ['-'] + text)[..|digits|] == digits;
      assert (digits + ['-'] + text)[|digits| + 1..] == text;
      forall k | 0 <= k < |texts| ensures '.' !in texts[k] {
        IdentifierTextChars(v.pre[k]);
        IdentCharsFree(texts[k], '.');
      }
      SplitJoin(texts, '.');
    }
  }

  /** The two dots after the major and minor numbers are the first two dots. */
  lemma ParseOfParts(majorText: string, minorText: string, rest: string)
    requires AllDigits(majorText) && AllDigits(minorText)
    ensures Parse(majorText + "." + minorText + "." + rest) == ParseComponents(majorText, minorText, rest)
  {
    var afterMajor := minorText + "." + rest;
    var s := majorText + "." + minorText + "." + rest;
    assert s == majorText + ['.'] + afterMajor;
    DigitsFree(majorText, '.');
    FirstChar(majorText, '.', afterMajor);
    assert s[..|majorText|] == majorText;
    assert s[|majorText| + 1..] == afterMajor;
    assert afterMajor == minorText + ['.'] + rest;
    DigitsFree(minorText, '.');
    FirstChar(minorText, '.', rest);
    assert afterMajor[..|minorText|] == minorText;
    assert afterMajor[|minorText| + 1..] == rest;
  }

  // ---------------------------------------------------------------
  // Round trips

  /** Rendering a valid version and parsing the text gives the version back. */
  lemma ParseRender(v: Version)
    requires Valid(v)
    ensures Parse(Render(v)) == Ok(v)
  {
    RenderParts(v);
    ParseOfParts(Decimal(v.major), Decimal(v.minor), PatchPart(v));
    NumberRoundTrip(v.major, "");
    NumberRoundTrip(v.minor, "");
    NumberRoundTrip(v.patch, "");
    CutBuild(v);
    CutPre(v);
    IdentifiersRoundTrip(v.pre);
    BuildFaultValid(v.build);
  }

  /** Regrouping a text cut at two dots, kept apart from RenderParse so its solver context stays small. */
  lemma DotJoin(s: string, a: string, t: string, b: string, c: string)
    requires s == a + "." + t && t == b + "." + c
    ensures s == a + "." + b + "." + c
  {
  }

  /** Every parsed version is valid and renders back to the parsed text. */
  lemma RenderParse(s: string, v: Version)
    requires Parse(s) == Ok(v)
    ensures Valid(v)
    ensures Render(v) == s
  {
    var i := IndexOf(s, ".").value;
    Around(s, ".", i);
    var afterMajor := s[i + 1..];
    var j := IndexOf(afterMajor, ".").value;
    Around(afterMajor, ".", j);
    ComponentsRender(s[..i], afterMajor[..j], afterMajor[j + 1..], v);
    DotJoin(s, s[..i], afterMajor, afterMajor[..j], afterMajor[j + 1..]);
  }

  lemma ComponentsRender(majorText: string, minorText: string, rest: string, v: Version)
    requires ParseComponents(majorText, minorText, rest) == Ok(v)
    ensures Valid(v)
    ensures Render(v) == majorText + "." + minorText + "." + rest
  {
    NumberRoundTrip(v.major, majorText);
    NumberRoundTrip(v.minor, minorText);
    var (core, build) := CutAt(rest, '+');
    var (patchText, preParts) := CutAt(core, '-');
    NumberRoundTrip(v.patch, patchText);
    ParsedIdentifiers(preParts, v.pre);
    BuildFaultValid(build);
    CutRejoin(core, '-', patchText, preParts);
    CutRejoin(rest, '+', core, build);
    PatchPartOf(v, patchText, core, rest);
    RenderParts(v);
  }

  lemma PatchPartOf(v: Version, patchText: string, core: string, rest: string)
    requires patchText == Decimal(v.patch)
    requires v.pre == [] ==> core == patchText
    requires v.pre != [] ==> core == patchText + ['-'] + Join(IdentifierTexts(v.pre), ".")
    requires v.build == [] ==> rest == core
    requires v.build != [] ==> rest == core + ['+'] + Join(v.build, ".")
    ensures PatchPart(v) == rest
  {
    assert core == patchText + PreText(v);
    assert rest == core + BuildText(v);
  }

  /** What CutAt cuts off joins back to the text. */
  lemma CutRejoin(text: string, c: char, front: string, parts: seq<string>)
    requires CutAt(text, c) == (front, parts)
    ensures parts == [] ==> text == front
    ensures parts != [] ==> text == front + [c] + Join(parts, ".")
  {
    match IndexOf(text, [c])
    case None =>
    case Some(k) =>
      Around(text, [c], k);
      JoinSplit(text[k + 1..], ".");
  }
}
