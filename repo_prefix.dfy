/**
 * Chart versions of the form `<repository prefix>+up<upstream version>`,
 * e.g. "104.2.0+up1.2.3": the repository's own version line, followed by
 * the upstream version carried in the build metadata position.
 */
module RepoPrefix {
  import opened Wrappers
  import opened Strings
  import opened SemVer
  import Precedence

  /** The marker between the repository prefix and the upstream version. */
  const Marker: string := "+up"

  /** The result of parseRepoPrefixVersionIfAny: prefix, version, and whether the marker was found. */
  datatype PrefixSplit = PrefixSplit(repoPrefix: string, version: string, found: bool)

  /**
   * Splits at the marker: the prefix is the text before its first
   * occurrence and the version the text between the first and the second
   * occurrence (the rest when there is no second). Without a marker the
   * whole text is the version and the prefix is empty.
   */
  function ParseRepoPrefixVersionIfAny(unparsed: string): (r: PrefixSplit)
    ensures r.found <==> Contains(unparsed, Marker)
    ensures !r.found ==> r.repoPrefix == "" && r.version == unparsed
  {
    if Contains(unparsed, Marker) then
      SplitSingle(unparsed, Marker);
      var parts := Split(unparsed, Marker);
      PrefixSplit(parts[0], parts[1], true)
    else PrefixSplit("", unparsed, false)
  }

  /** The composite version text of a prefix and an upstream version. */
  function Compose(repoPrefix: string, version: string): string
  {
    repoPrefix + Marker + version
  }

  /**
   * With a marker, neither part holds the marker, and the text is the
   * composite of the two parts, possibly followed by a further marker and
   * whatever comes after it.
   */
  lemma MarkerSplit(s: string)
    requires Contains(s, Marker)
    ensures var r := ParseRepoPrefixVersionIfAny(s);
      && !Contains(r.repoPrefix, Marker)
      && !Contains(r.version, Marker)
      && (s == Compose(r.repoPrefix, r.version) || HasPrefix(s, Compose(r.repoPrefix, r.version) + Marker))
  {
    var i := IndexOf(s, Marker).value;
    SplitAt(s, Marker, i);
    BeforeFirst(s, Marker, i);
    var p, t := s[..i], s[i + |Marker|..];
    assert ParseRepoPrefixVersionIfAny(s) == PrefixSplit(p, Split(t, Marker)[0], true);
    AfterFirstMarker(s, p, t);
  }

  /** What follows the first marker: the version piece, then possibly another marker. */
  lemma AfterFirstMarker(s: string, p: string, t: string)
    requires s == p + Marker + t
    ensures !Contains(Split(t, Marker)[0], Marker)
    ensures s == Compose(p, Split(t, Marker)[0]) || HasPrefix(s, Compose(p, Split(t, Marker)[0]) + Marker)
  {
    match IndexOf(t, Marker)
    case None =>
      assert Split(t, Marker) == [t];
    case Some(j) =>
      SplitAt(t, Marker, j);
      BeforeFirst(t, Marker, j);
      var front := p + Marker + t[..j] + Marker;
      assert s == front + t[j + |Marker|..];
      assert s[..|front|] == front;
  }

  /** The marker cannot start inside a prefix free of it and end inside the marker after it. */
  lemma FirstMarker(p: string, v: string)
    requires !Contains(p, Marker)
    ensures IndexOf(Compose(p, v), Marker) == Some(|p|)
  {
    var s := Compose(p, v);
    assert s[|p|..|p| + |Marker|] == Marker;
    assert OccursAt(s, Marker, |p|);
    forall j: nat | j < |p| ensures !OccursAt(s, Marker, j) {
      if j + |Marker| <= |p| {
        assert s[j..j + |Marker|] == p[j..j + |Marker|];
        assert !OccursAt(p, Marker, j);
      } else if j + |Marker| <= |s| {
        assert s[j..j + |Marker|][|p| - j] == s[|p|] == '+';
        assert Marker[|p| - j] != '+';
      }
    }
  }

  /** Splitting the composite of two marker-free parts gives the parts back. */
  lemma RepoPrefixRoundTrip(p: string, v: string)
    requires !Contains(p, Marker) && !Contains(v, Marker)
    ensures ParseRepoPrefixVersionIfAny(Compose(p, v)) == PrefixSplit(p, v, true)
  {
    var s := Compose(p, v);
    FirstMarker(p, v);
    SplitAt(s, Marker, |p|);
    assert s[..|p|] == p && s[|p| + |Marker|..] == v;
    SplitSingle(v, Marker);
  }

  // ---------------------------------------------------------------
  // Parsing the composite

  /** The pieces that the dots of "up" + the core of `t` cut it into. */
  function UpstreamPieces(t: Version): seq<string>
  {
    ["up" + Decimal(t.major), Decimal(t.minor)] + PatchPieces(t)
  }

  function PatchPieces(t: Version): seq<string>
  {
    if t.pre == [] then [Decimal(t.patch)]
    else
      var texts := IdentifierTexts(t.pre);
      [Decimal(t.patch) + "-" + texts[0]] + texts[1..]
  }

  lemma PatchPiecesJoin(t: Version)
    ensures Join(PatchPieces(t), ".") == Decimal(t.patch) + PreText(t)
  {
    if t.pre != [] {
      var texts := IdentifierTexts(t.pre);
      FrontJoin(Decimal(t.patch) + "-", texts, ".");
      var d, rest := Decimal(t.patch), Join(texts, ".");
      assert (d + "-") + rest == d + ("-" + rest);
    }
  }

  /** Gluing text to the front of the first piece glues it to the front of the join. */
  lemma FrontJoin(front: string, texts: seq<string>, sep: string)
    requires |texts| > 0
    ensures Join([front + texts[0]] + texts[1..], sep) == front + Join(texts, sep)
  {
    var rest := texts[1..];
    if |rest| > 0 {
      JoinCons(front + texts[0], rest, sep);
      JoinCons(texts[0], rest, sep);
      assert texts == [texts[0]] + rest;
    }
  }

  /** Joining two leading pieces in front of at least one more. */
  lemma JoinTwo(a: string, b: string, rest: seq<string>, sep: string)
    requires |rest| > 0
    ensures Join([a, b] + rest, sep) == a + sep + b + sep + Join(rest, sep)
  {
    JoinCons(a, [b] + rest, sep);
    assert [a, b] + rest == [a] + ([b] + rest);
    JoinCons(b, rest, sep);
  }

  lemma UpstreamPiecesJoin(t: Version)
    requires t.build == []
    ensures Join(UpstreamPieces(t), ".") == "up" + Render(t)
  {
    JoinTwo("up" + Decimal(t.major), Decimal(t.minor), PatchPieces(t), ".");
    PatchPiecesJoin(t);
    RenderParts(t);
    assert PatchPart(t) == Decimal(t.patch) + PreText(t);
    UpText(Decimal(t.major), Decimal(t.minor), Decimal(t.patch) + PreText(t));
  }

  /** Regrouping the dotted core behind "up", kept apart from UpstreamPiecesJoin so its solver context stays small. */
  lemma UpText(a: string, b: string, c: string)
    ensures "up" + a + "." + b + "." + c == "up" + (a + "." + b + "." + c)
  {
  }

  lemma IdentCharsConcat(a: string, b: string)
    requires AllIdentChars(a) && AllIdentChars(b)
    ensures AllIdentChars(a + b)
  {
    assert forall i | 0 <= i < |a + b| :: (a + b)[i] == if i < |a| then a[i] else b[i - |a|];
  }

  lemma UpstreamPiecesValid(t: Version)
    requires Valid(t)
    ensures forall k :: 0 <= k < |UpstreamPieces(t)| ==> ValidBuildIdentifier(UpstreamPieces(t)[k])
  {
    var pieces := UpstreamPieces(t);
    var patchPieces := PatchPieces(t);
    assert pieces == ["up" + Decimal(t.major), Decimal(t.minor)] + patchPieces;
    IdentCharsConcat("up", Decimal(t.major));
    PatchPiecesValid(t);
    forall k | 0 <= k < |pieces| ensures ValidBuildIdentifier(pieces[k]) {
      if k >= 2 {
        assert pieces[k] == patchPieces[k - 2];
      }
    }
  }

  lemma PatchPiecesValid(t: Version)
    requires Valid(t)
    ensures forall k :: 0 <= k < |PatchPieces(t)| ==> ValidBuildIdentifier(PatchPieces(t)[k])
  {
    if t.pre != [] {
      var texts := IdentifierTexts(t.pre);
      forall k | 0 <= k < |texts| ensures ValidBuildIdentifier(texts[k]) {
        IdentifierTextChars(t.pre[k]);
      }
      IdentCharsConcat(Decimal(t.patch), "-");
      IdentCharsConcat(Decimal(t.patch) + "-", texts[0]);
    }
  }

  /** Giving a build-free version build metadata appends it after a '+'. */
  lemma WithBuild(p: Version, build: seq<string>)
    requires p.build == [] && build != []
    ensures Render(p.(build := build)) == Render(p) + "+" + Join(build, ".")
  {
    assert RenderCore(p.(build := build)) == RenderCore(p);
  }

  /** "+" then "up" is the marker; kept apart from ComposedParses so its solver context stays small. */
  lemma PlusUp(a: string, r: string)
    ensures a + "+" + ("up" + r) == Compose(a, r)
  {
    assert "+" + ("up" + r) == Marker + r;
  }

  /** A valid version has at most one '+': the one that opens its build metadata. */
  lemma PlusCount(v: Version)
    requires Valid(v)
    ensures multiset(Render(v))['+'] == if v.build == [] then 0 else 1
  {
    PreTextChars(v, '+');
    DigitsFree(Decimal(v.major), '+');
    DigitsFree(Decimal(v.minor), '+');
    assert '+' !in RenderCore(v);
    if v.build != [] {
      forall k | 0 <= k < |v.build| ensures '+' !in v.build[k] {
        IdentCharsFree(v.build[k], '+');
      }
      JoinFree(v.build, ".", '+');
      assert Render(v) == RenderCore(v) + "+" + Join(v.build, ".");
    }
  }

  /** A composite of two build-free versions parses, with the prefix's precedence. */
  lemma ComposedParses(p: Version, t: Version)
    requires Valid(p) && Valid(t) && p.build == [] && t.build == []
    ensures Parse(Compose(Render(p), Render(t))) == Ok(p.(build := UpstreamPieces(t)))
  {
    var w := p.(build := UpstreamPieces(t));
    UpstreamPiecesValid(t);
    UpstreamPiecesJoin(t);
    WithBuild(p, UpstreamPieces(t));
    PlusUp(Render(p), Render(t));
    ParseRender(w);
  }

  /**
   * The composite of two version texts parses exactly when neither
   * version carries build metadata; the version it parses to then has the
   * precedence of the prefix.
   */
  lemma ComposedParse(ptxt: string, p: Version, ttxt: string, t: Version)
    requires Parse(ptxt) == Ok(p) && Parse(ttxt) == Ok(t)
    ensures Parse(Compose(ptxt, ttxt)).Ok? <==> p.build == [] && t.build == []
    ensures Parse(Compose(ptxt, ttxt)).Ok? ==> Precedence.SamePrecedence(Parse(Compose(ptxt, ttxt)).value, p)
  {
    RenderParse(ptxt, p);
    RenderParse(ttxt, t);
    var s := Compose(ptxt, ttxt);
    if p.build == [] && t.build == [] {
      ComposedParses(p, t);
    } else if Parse(s).Ok? {
      var w := Parse(s).value;
      RenderParse(s, w);
      PlusCount(w);
      PlusCount(p);
      PlusCount(t);
      assert false;
    }
  }
}
