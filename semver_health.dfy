/** The gate of scripts/semver-health.py: the same "is the source ahead?" decision
    as the compare script, but a "no" ends the run with an exception naming both
    versions. */
module SemVerHealth {
  import opened Results
  import opened Text
  import opened SemVer
  import SemVerCompare

  /** The text of the exception raised when the source is not ahead: it quotes
      both versions. */
  function NotAheadMessage(source: string, deployed: string): (r: string)
    ensures Contains(r, Quoted(source)) && Contains(r, Quoted(deployed))
  {
    var lead := "The source appVersion ";
    var middle := " in Chart.yaml is not ahead" + " of the deployed appVersion ";
    var tail := ". Update the source and" + " try again.";
    var m := lead + Quoted(source) + middle + Quoted(deployed) + tail;
    MessageLayout(source, deployed, lead, middle, tail);
    m
  }

  /** Where the two quoted versions sit in a message laid out as the not-ahead
      message is. */
  lemma MessageLayout(source: string, deployed: string, lead: string, middle: string, tail: string)
    ensures var m := lead + Quoted(source) + middle + Quoted(deployed) + tail;
      OccursAt(m, Quoted(source), |lead|)
      && OccursAt(m, Quoted(deployed), |lead| + |Quoted(source)| + |middle|)
  {
    var m := lead + Quoted(source) + middle + Quoted(deployed) + tail;
    assert m == lead + Quoted(source) + (middle + Quoted(deployed) + tail);
    OccursInMiddle(lead, Quoted(source), middle + Quoted(deployed) + tail);
    assert m == (lead + Quoted(source) + middle) + Quoted(deployed) + tail;
    OccursInMiddle(lead + Quoted(source) + middle, Quoted(deployed), tail);
  }

  function Quoted(s: string): string
  {
    "\"" + s + "\""
  }

  /** Passes exactly when the source has strictly higher precedence than the
      deployed version; otherwise raises, with the not-ahead message when both
      versions are valid and with the library's error for the first malformed one
      (the deployed string is parsed first) when not. */
  function Gate(source: string, deployed: string): (r: Result<()>)
    ensures r.Ok? <==>
      Parse(source).Ok? && Parse(deployed).Ok? && Compare(Parse(source).value, Parse(deployed).value) > 0
    ensures Parse(source).Ok? && Parse(deployed).Ok? && Compare(Parse(source).value, Parse(deployed).value) <= 0
      ==> r == Err(Raised(NotAheadMessage(source, deployed)))
    ensures Parse(deployed).Err? ==> r == Err(InvalidVersion(deployed))
    ensures Parse(deployed).Ok? && Parse(source).Err? ==> r == Err(InvalidVersion(source))
  {
    match CompareStrings(deployed, source)
    case Err(e) => Err(e)
    case Ok(_) =>
      // both strings parsed in the logged comparison, so this one cannot raise
      var c := CompareStrings(source, deployed).value;
      if c < 1 then Err(Raised(NotAheadMessage(source, deployed))) else Ok(())
  }

  /** The message quotes the source first and the deployed version after it, the
      two quotations not overlapping. */
  lemma MessageQuotesBoth(source: string, deployed: string)
    ensures var m := NotAheadMessage(source, deployed);
      exists i: nat, j: nat :: i + |Quoted(source)| <= j
        && OccursAt(m, Quoted(source), i) && OccursAt(m, Quoted(deployed), j)
  {
    var lead := "The source appVersion ";
    var middle := " in Chart.yaml is not ahead" + " of the deployed appVersion ";
    var tail := ". Update the source and" + " try again.";
    MessageLayout(source, deployed, lead, middle, tail);
    var i, j := |lead|, |lead| + |Quoted(source)| + |middle|;
    assert OccursAt(NotAheadMessage(source, deployed), Quoted(source), i);
    assert OccursAt(NotAheadMessage(source, deployed), Quoted(deployed), j);
  }

  /** Identical versions never pass. */
  lemma IdenticalVersionsRaise(s: string)
    requires Parse(s).Ok?
    ensures Gate(s, s) == Err(Raised(NotAheadMessage(s, s)))
  {
    CompareZero(Parse(s).value, Parse(s).value);
  }

  /** The gate passes exactly when the compare script reports `ahead=true`, and both
      fail on the same malformed version. */
  lemma GateAgreesWithReport(source: string, deployed: string)
    ensures Gate(source, deployed).Ok? <==> SemVerCompare.Ahead(source, deployed) == Ok(true)
    ensures SemVerCompare.Ahead(source, deployed) == Ok(false) ==>
      Gate(source, deployed) == Err(Raised(NotAheadMessage(source, deployed)))
    ensures SemVerCompare.Ahead(source, deployed).Err? ==>
      Gate(source, deployed) == Err(SemVerCompare.Ahead(source, deployed).error)
  {
  }

  /** A pre-release of the deployed release does not pass. */
  lemma PreReleaseOfReleaseRaises(v: Version, p: seq<Ident>)
    requires WellFormed(v) && v.pre == [] && p != [] && WellFormed(v.(pre := p))
    ensures Gate(ToString(v.(pre := p)), ToString(v)).Err?
  {
    ParseToString(v);
    ParseToString(v.(pre := p));
    PreReleaseBelowRelease(v.(pre := p), v);
  }

  /** Versions that differ only in build metadata do not pass. */
  lemma BuildOnlyDifferenceRaises(v: Version, x: seq<string>, y: seq<string>)
    requires WellFormed(v.(build := x)) && WellFormed(v.(build := y))
    ensures Gate(ToString(v.(build := x)), ToString(v.(build := y))).Err?
  {
    ParseToString(v.(build := x));
    ParseToString(v.(build := y));
    CompareZero(v.(build := x), v.(build := y));
  }

  /** Deployed 2.0.0 and source 2.0.0: the gate raises, naming both. */
  lemma ExampleSameVersion()
    ensures Gate("2.0.0", "2.0.0") == Err(Raised(NotAheadMessage("2.0.0", "2.0.0")))
  {
    ParsesAs("2.0.0", Version(2, 0, 0, [], []));
    IdenticalVersionsRaise("2.0.0");
  }

  /** Deployed 2.0.0 and source 2.0.0-rc.1: the gate raises. */
  lemma ExampleReleaseCandidate()
    ensures Gate("2.0.0-rc.1", "2.0.0").Err?
  {
    var release := Version(2, 0, 0, [], []);
    var pre := [Alpha("rc"), Num(1)];
    assert ToString(release) == "2.0.0";
    assert ToString(release.(pre := pre)) == "2.0.0-rc.1" by {
      assert PreString(pre) == "rc.1";
    }
    assert !IsDigit("rc"[0]);
    PreReleaseOfReleaseRaises(release, pre);
  }
}
