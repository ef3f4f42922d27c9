/** The decision of scripts/semver-compare.py: is the source appVersion (from the
    chart) ahead of the appVersion deployed in the namespace? The script reports the
    answer as its `ahead` output and never fails on a "no". */
module SemVerCompare {
  import opened Results
  import opened SemVer

  /** The value the script writes as `ahead`: `true` exactly when the source has
      strictly higher precedence than the deployed version. The comparison in the
      log line parses the deployed string first, so a malformed deployed version is
      the one reported. */
  function Ahead(source: string, deployed: string): (r: Result<bool>)
    ensures r.Ok? <==> Parse(source).Ok? && Parse(deployed).Ok?
    ensures r.Ok? ==> (r.value <==> Compare(Parse(source).value, Parse(deployed).value) > 0)
    ensures Parse(deployed).Err? ==> r == Err(InvalidVersion(deployed))
    ensures Parse(deployed).Ok? && Parse(source).Err? ==> r == Err(InvalidVersion(source))
  {
    match CompareStrings(deployed, source)
    case Err(e) => Err(e)
    case Ok(_) =>
      // both strings parsed in the logged comparison, so this one cannot raise
      var c := CompareStrings(source, deployed).value;
      Ok(!(c < 1))
  }

  /** The answer for two strings already known to parse. */
  lemma AheadOfParsed(source: string, deployed: string, s: Version, d: Version)
    requires Parse(source) == Ok(s) && Parse(deployed) == Ok(d)
    ensures Ahead(source, deployed) == Ok(Compare(s, d) > 0)
  {
  }

  /** A version is never ahead of itself. */
  lemma AheadIrreflexive(s: string)
    ensures Ahead(s, s).Ok? ==> Ahead(s, s) == Ok(false)
  {
    if Parse(s).Ok? {
      CompareZero(Parse(s).value, Parse(s).value);
    }
  }

  /** If the source is ahead of the deployed version, the deployed version is not
      ahead of the source. */
  lemma AheadAsymmetric(a: string, b: string)
    requires Ahead(a, b) == Ok(true)
    ensures Ahead(b, a) == Ok(false)
  {
    CompareAntisymmetric(Parse(a).value, Parse(b).value);
  }

  lemma AheadTransitive(a: string, b: string, c: string)
    requires Ahead(a, b) == Ok(true) && Ahead(b, c) == Ok(true)
    ensures Ahead(a, c) == Ok(true)
  {
    var va, vb, vc := Parse(a).value, Parse(b).value, Parse(c).value;
    CompareAntisymmetric(va, vb);
    CompareAntisymmetric(vb, vc);
    CompareAntisymmetric(va, vc);
    CompareTransitive(vc, vb, va);
  }

  /** For two valid versions exactly one holds: the first is ahead, the second is
      ahead, or they have the same precedence. */
  lemma AheadTrichotomy(a: string, b: string)
    requires Parse(a).Ok? && Parse(b).Ok?
    ensures Ahead(a, b) == Ok(true) <==> !SamePrecedence(Parse(a).value, Parse(b).value) && Ahead(b, a) == Ok(false)
    ensures SamePrecedence(Parse(a).value, Parse(b).value) ==> Ahead(a, b) == Ok(false) && Ahead(b, a) == Ok(false)
  {
    CompareZero(Parse(a).value, Parse(b).value);
    CompareAntisymmetric(Parse(a).value, Parse(b).value);
  }

  /** Build metadata never changes the answer. */
  lemma AheadIgnoresBuild(v: Version, w: Version, x: seq<string>, y: seq<string>)
    requires WellFormed(v) && WellFormed(w) && WellFormed(v.(build := x)) && WellFormed(w.(build := y))
    ensures Ahead(ToString(v.(build := x)), ToString(w.(build := y))) == Ahead(ToString(v), ToString(w))
  {
    ParseToString(v);
    ParseToString(w);
    ParseToString(v.(build := x));
    ParseToString(w.(build := y));
    BuildIgnored(v, w, x, y);
  }

  /** A pre-release is not ahead of its own release; the release is ahead of it. */
  lemma PreReleaseNotAhead(v: Version, p: seq<Ident>)
    requires WellFormed(v) && v.pre == [] && p != [] && WellFormed(v.(pre := p))
    ensures Ahead(ToString(v.(pre := p)), ToString(v)) == Ok(false)
    ensures Ahead(ToString(v), ToString(v.(pre := p))) == Ok(true)
  {
    ParseToString(v);
    ParseToString(v.(pre := p));
    PreReleaseBelowRelease(v.(pre := p), v);
  }

  // ------------------------------------------------------------------ examples
  // An example's strings are parameters pinned by `requires s == "..."` rather
  // than literals in the `ensures`: a literal there makes the verifier unfold
  // `Parse` over its characters alongside every other fact in the goal, which
  // is far more costly than proving the parse once in a helper lemma.

  /** A release text `M.m.p` parses as that release. */
  lemma ReleaseParses(text: string, major: nat, minor: nat, patch: nat)
    requires text == Text.NatToString(major) + "." + Text.NatToString(minor) + "." + Text.NatToString(patch)
    ensures Parse(text) == Ok(Version(major, minor, patch, [], []))
  {
    ParsesAs(text, Version(major, minor, patch, [], []));
  }

  /** Deployed 1.2.3 and source 1.2.4: ahead. */
  lemma ExampleAhead(source: string, deployed: string)
    requires source == "1.2.4" && deployed == "1.2.3"
    ensures Ahead(source, deployed) == Ok(true)
  {
    ReleaseParses(source, 1, 2, 4);
    ReleaseParses(deployed, 1, 2, 3);
    AheadOfParsed(source, deployed, Version(1, 2, 4, [], []), Version(1, 2, 3, [], []));
  }

  /** Deployed 1.3.0 and source 1.2.9: not ahead, the minor number decides. */
  lemma ExampleNotAhead(source: string, deployed: string)
    requires source == "1.2.9" && deployed == "1.3.0"
    ensures Ahead(source, deployed) == Ok(false)
  {
    ReleaseParses(source, 1, 2, 9);
    ReleaseParses(deployed, 1, 3, 0);
    AheadOfParsed(source, deployed, Version(1, 2, 9, [], []), Version(1, 3, 0, [], []));
  }

  /** Source 1.2.0-pre.1 is not ahead of deployed 1.2.0; the other way round it is. */
  lemma ExamplePreRelease()
    ensures Ahead("1.2.0-pre.1", "1.2.0") == Ok(false)
    ensures Ahead("1.2.0", "1.2.0-pre.1") == Ok(true)
  {
    var release := Version(1, 2, 0, [], []);
    var pre := [Alpha("pre"), Num(1)];
    assert ToString(release) == "1.2.0";
    assert ToString(release.(pre := pre)) == "1.2.0-pre.1" by {
      assert PreString(pre) == "pre.1";
    }
    assert !Text.IsDigit("pre"[0]);
    PreReleaseNotAhead(release, pre);
  }

  /** 1.0.0+a and 1.0.0+b have the same precedence: not ahead. */
  lemma ExampleBuildOnly(source: string, deployed: string)
    requires source == "1.0.0+a" && deployed == "1.0.0+b"
    ensures Ahead(source, deployed) == Ok(false)
  {
    var a, b := Version(1, 0, 0, [], ["a"]), Version(1, 0, 0, [], ["b"]);
    assert Parse(source) == Ok(a) by {
      assert IsBuildIdent("a");
      assert ToString(a) == "1.0.0" + "+" + "a";
      ParsesAs(source, a);
    }
    assert Parse(deployed) == Ok(b) by {
      assert IsBuildIdent("b");
      assert ToString(b) == "1.0.0" + "+" + "b";
      ParsesAs(deployed, b);
    }
    AheadOfParsed(source, deployed, a, b);
  }
}
