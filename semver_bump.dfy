/** The next-version decision of scripts/semver-bump.py. The deployed appVersion is
    finalized; in the `development` namespace the patch is bumped only when
    finalizing changed nothing, and a `-pre.<timestamp>` suffix is added; in every
    other namespace except `production` the finalized version's patch is bumped
    unconditionally. The timestamp arrives already formatted. */
module SemVerBump {
  import opened Results
  import opened Text
  import opened SemVer
  import SemVerCompare
  import SemVerHealth

  const Production := "production"
  const Development := "development"
  const ProductionMessage := "This script is not appropriate for the production environment."

  /** The version the script writes as its `version` output. */
  function Bump(namespace: string, deployed: string, stamp: string): (r: Result<string>)
    ensures namespace == Production ==> r == Err(Raised(ProductionMessage))
    ensures namespace != Production && Parse(deployed).Err? ==> r == Err(InvalidVersion(deployed))
    ensures namespace != Production && Parse(deployed).Ok? ==> r.Ok?
  {
    if namespace == Production then Err(Raised(ProductionMessage))
    else
      var d :- Parse(deployed);
      if namespace == Development then
        var finalized := Finalize(d);
        // the finalized version's text parses back to it, so this cannot raise
        ParseToString(finalized);
        var same := CompareStrings(ToString(finalized), deployed).value;
        var next := if same == 0 then BumpPatch(Finalize(d)) else finalized;
        Ok(ToString(next) + "-pre." + stamp)
      else
        Ok(ToString(BumpPatch(Finalize(d))))
  }

  /** The release the next version is built on, stated by the rule the workflow
      follows: in `development` a deployed pre-release leads to its own release and
      anything else to the next patch release; elsewhere always the next patch
      release after the deployed one's release. */
  function NextRelease(namespace: string, d: Version): (r: Version)
    ensures r.major == d.major && r.minor == d.minor && r.pre == [] && r.build == []
    ensures Compare(r, d) == 1
  {
    if namespace == Development && d.pre != [] then Version(d.major, d.minor, d.patch, [], [])
    else Version(d.major, d.minor, d.patch + 1, [], [])
  }

  /** Outside `production` the script emits the next release, with the pre-release
      suffix in `development`. */
  lemma BumpIsNextRelease(namespace: string, deployed: string, stamp: string)
    requires namespace != Production && Parse(deployed).Ok?
    ensures Bump(namespace, deployed, stamp) == Ok(
      if namespace == Development
      then ToString(NextRelease(namespace, Parse(deployed).value)) + "-pre." + stamp
      else ToString(NextRelease(namespace, Parse(deployed).value)))
  {
    var d := Parse(deployed).value;
    ParseToString(Finalize(d));
  }

  /** `development`, deployed a release (with or without build metadata): the patch
      is bumped. */
  lemma DevelopmentFromRelease(deployed: string, stamp: string)
    requires Parse(deployed).Ok? && Parse(deployed).value.pre == []
    ensures var d := Parse(deployed).value;
      Bump(Development, deployed, stamp) == Ok(ToString(Version(d.major, d.minor, d.patch + 1, [], [])) + "-pre." + stamp)
  {
    var d := Parse(deployed).value;
    BumpIsNextRelease(Development, deployed, stamp);
    assert NextRelease(Development, d) == Version(d.major, d.minor, d.patch + 1, [], []);
  }

  /** `development`, deployed a pre-release: its release is used, with no bump. */
  lemma DevelopmentFromPreRelease(deployed: string, stamp: string)
    requires Parse(deployed).Ok? && Parse(deployed).value.pre != []
    ensures var d := Parse(deployed).value;
      Bump(Development, deployed, stamp) == Ok(ToString(Version(d.major, d.minor, d.patch, [], [])) + "-pre." + stamp)
  {
    var d := Parse(deployed).value;
    BumpIsNextRelease(Development, deployed, stamp);
    assert NextRelease(Development, d) == Version(d.major, d.minor, d.patch, [], []);
  }

  /** Any other namespace but `production`: always the next patch release, even when
      the deployed version is a pre-release. */
  lemma OtherNamespace(namespace: string, deployed: string, stamp: string)
    requires namespace != Production && namespace != Development && Parse(deployed).Ok?
    ensures var d := Parse(deployed).value;
      Bump(namespace, deployed, stamp) == Ok(ToString(Version(d.major, d.minor, d.patch + 1, [], [])))
  {
    BumpIsNextRelease(namespace, deployed, stamp);
  }

  /** Outside `development` the emitted version is a valid release that the compare
      script reports as ahead of the deployed one and that passes the health gate. */
  lemma OtherNamespaceIsAhead(namespace: string, deployed: string, stamp: string)
    requires namespace != Production && namespace != Development && Parse(deployed).Ok?
    ensures Bump(namespace, deployed, stamp).Ok?
    ensures Parse(Bump(namespace, deployed, stamp).value) == Ok(NextRelease(namespace, Parse(deployed).value))
    ensures SemVerCompare.Ahead(Bump(namespace, deployed, stamp).value, deployed) == Ok(true)
    ensures SemVerHealth.Gate(Bump(namespace, deployed, stamp).value, deployed).Ok?
  {
    BumpIsNextRelease(namespace, deployed, stamp);
    ParseToString(NextRelease(namespace, Parse(deployed).value));
    SemVerHealth.GateAgreesWithReport(Bump(namespace, deployed, stamp).value, deployed);
  }

  lemma PreTagValid()
    ensures ValidIdent(Alpha("pre"))
  {
    assert !IsDigit("pre"[0]);
  }

  /** The text of a release with `pre` and the timestamp's identifiers attached. */
  lemma PreTaggedText(base: Version, stamp: seq<Ident>)
    requires base.pre == [] && base.build == [] && stamp != []
    ensures ToString(base.(pre := [Alpha("pre")] + stamp)) == ToString(base) + "-pre." + PreString(stamp)
  {
    PreStringCons(Alpha("pre"), stamp);
    ToStringWithPre(base, [Alpha("pre")] + stamp);
    assert ToString(base) + "-" + ("pre" + "." + PreString(stamp))
        == ToString(base) + "-pre." + PreString(stamp);
  }

  /** In `development`, when the timestamp is a valid pre-release, the emitted text
      is the version `X.Y.Z-pre.<timestamp>` over the next release. */
  lemma DevelopmentOutputParses(deployed: string, d: Version, stamp: seq<Ident>, out: string)
    requires Parse(deployed) == Ok(d) && stamp != []
    requires forall i :: 0 <= i < |stamp| ==> ValidIdent(stamp[i])
    requires Bump(Development, deployed, PreString(stamp)) == Ok(out)
    ensures var base := NextRelease(Development, d);
      Parse(out) == Ok(Version(base.major, base.minor, base.patch, [Alpha("pre")] + stamp, []))
  {
    var base := NextRelease(Development, d);
    var v := base.(pre := [Alpha("pre")] + stamp);
    BumpIsNextRelease(Development, deployed, PreString(stamp));
    assert out == ToString(base) + "-pre." + PreString(stamp);
    PreTagValid();
    PreTaggedText(base, stamp);
    ParsesAs(out, v);
  }

  /** In `development`, from a deployed release, the emitted pre-release is ahead. */
  lemma DevelopmentFromReleaseIsAhead(deployed: string, stamp: seq<Ident>, out: string)
    requires Parse(deployed).Ok? && Parse(deployed).value.pre == [] && stamp != []
    requires forall i :: 0 <= i < |stamp| ==> ValidIdent(stamp[i])
    requires Bump(Development, deployed, PreString(stamp)) == Ok(out)
    ensures SemVerCompare.Ahead(out, deployed) == Ok(true)
  {
    var d := Parse(deployed).value;
    DevelopmentOutputParses(deployed, d, stamp, out);
    var v := Parse(out).value;
    SemVerCompare.AheadOfParsed(out, deployed, v, d);
  }

  /** In `development`, from an earlier `-pre.<t0>` snapshot of a release, a later
      numeric timestamp gives a version that is ahead. */
  lemma DevelopmentAfterEarlierSnapshot(deployed: string, t0: nat, t1: nat, out: string)
    requires Parse(deployed).Ok? && Parse(deployed).value.pre == [Alpha("pre"), Num(t0)]
    requires t0 < t1
    requires Bump(Development, deployed, NatToString(t1)) == Ok(out)
    ensures SemVerCompare.Ahead(out, deployed) == Ok(true)
  {
    assert PreString([Num(t1)]) == NatToString(t1);
    var d := Parse(deployed).value;
    DevelopmentOutputParses(deployed, d, [Num(t1)], out);
    var v := Parse(out).value;
    assert v.pre == [Alpha("pre")] + [Num(t1)] + [];
    assert d.pre == [Alpha("pre")] + [Num(t0)] + [];
    FirstDifferenceDecides([Alpha("pre")], Num(t1), [], Num(t0), []);
    SemVerCompare.AheadOfParsed(out, deployed, v, d);
  }

  /** In `development`, from a deployed pre-release whose first identifier is
      alphanumeric and sorts after `pre`, the emitted version is behind the deployed
      one, and the compare script reports it as not ahead. */
  lemma DevelopmentCanFallBehind(deployed: string, d: Version, stamp: seq<Ident>, out: string)
    requires Parse(deployed) == Ok(d) && d.pre != []
    requires d.pre[0].Alpha? && CompareText("pre", d.pre[0].s) < 0
    requires stamp != [] && forall i :: 0 <= i < |stamp| ==> ValidIdent(stamp[i])
    requires Bump(Development, deployed, PreString(stamp)) == Ok(out)
    ensures SemVerCompare.Ahead(out, deployed) == Ok(false)
  {
    DevelopmentOutputParses(deployed, d, stamp, out);
    var base := NextRelease(Development, d);
    assert base.patch == d.patch;
    var v := Version(base.major, base.minor, base.patch, [Alpha("pre")] + stamp, []);
    assert Parse(out) == Ok(v);
    PreReleaseBehind(v, d, stamp);
    SemVerCompare.AheadOfParsed(out, deployed, v, d);
  }

  // ------------------------------------------------------------------ examples
  // An example's strings are parameters pinned by `requires s == "..."` rather
  // than literals in the `ensures`: a literal there makes the verifier unfold
  // `Parse` over its characters alongside every other fact in the goal, which
  // is far more costly than proving the parse once in a helper lemma.

  /** Deployed 1.2.3-rc.1 in `development`: the emitted 1.2.3-pre.<timestamp> is
      not ahead of it. */
  lemma ExampleFallBehind(deployed: string, stamp: seq<Ident>, out: string)
    requires deployed == "1.2.3-rc.1"
    requires stamp != [] && forall i :: 0 <= i < |stamp| ==> ValidIdent(stamp[i])
    requires Bump(Development, deployed, PreString(stamp)) == Ok(out)
    ensures SemVerCompare.Ahead(out, deployed) == Ok(false)
  {
    ReleaseCandidateParses(deployed);
    assert CompareText("pre", "rc") == -1;
    DevelopmentCanFallBehind(deployed, Version(1, 2, 3, [Alpha("rc"), Num(1)], []), stamp, out);
  }

  lemma ReleaseCandidateParses(deployed: string)
    requires deployed == "1.2.3-rc.1"
    ensures Parse(deployed) == Ok(Version(1, 2, 3, [Alpha("rc"), Num(1)], []))
  {
    var rc := Version(1, 2, 3, [Alpha("rc"), Num(1)], []);
    assert ToString(rc) == "1.2.3-rc.1" by {
      assert PreString(rc.pre) == "rc.1";
    }
    assert !IsDigit("rc"[0]);
    ParsesAs(deployed, rc);
  }

  lemma NextPatchText()
    ensures ToString(Version(1, 0, 6, [], [])) == "1.0.6"
  {
  }

  /** Deployed 1.0.5 in `development`: 1.0.6 with the timestamp attached. */
  lemma ExampleDevelopment(deployed: string, stamp: string)
    requires deployed == "1.0.5"
    ensures Bump(Development, deployed, stamp) == Ok("1.0.6-pre." + stamp)
  {
    SemVerCompare.ReleaseParses(deployed, 1, 0, 5);
    DevelopmentFromRelease(deployed, stamp);
    var next := Version(1, 0, 6, [], []);
    assert Bump(Development, deployed, stamp) == Ok(ToString(next) + "-pre." + stamp);
    NextPatchText();
    assert "1.0.6" + "-pre." + stamp == "1.0.6-pre." + stamp;
  }

  /** Deployed 1.2.3-rc.1 in any other namespace: 1.2.4. */
  lemma ExampleOtherNamespace(namespace: string, deployed: string, stamp: string)
    requires namespace != Production && namespace != Development && deployed == "1.2.3-rc.1"
    ensures Bump(namespace, deployed, stamp) == Ok("1.2.4")
  {
    ReleaseCandidateParses(deployed);
    OtherNamespace(namespace, deployed, stamp);
    assert ToString(Version(1, 2, 4, [], [])) == "1.2.4";
  }
}
