/** Semantic Versioning 2.0.0 as the `semver` library the scripts call implements it:
    `VersionInfo.parse`, `str(...)`, `semver.compare`, `finalize_version` and
    `bump_patch`. */
module SemVer {
  import opened Results
  import opened Text

  /** A pre-release identifier: numeric, or alphanumeric (section 9 of Semantic Versioning 2.0.0). */
  datatype Ident = Num(n: nat) | Alpha(s: string)

  /** `MAJOR.MINOR.PATCH[-PRE][+BUILD]`, with the dot-separated identifiers of the
      pre-release and of the build metadata. */
  datatype Version = Version(major: nat, minor: nat, patch: nat, pre: seq<Ident>, build: seq<string>)

  // ---------------------------------------------------------------- grammar

  /** `[0-9A-Za-z-]` */
  predicate IsIdentChar(ch: char)
  {
    '0' <= ch <= '9' || 'a' <= ch <= 'z' || 'A' <= ch <= 'Z' || ch == '-'
  }

  /** A build identifier, `[0-9A-Za-z-]+` (section 10 of Semantic Versioning 2.0.0). */
  predicate IsBuildIdent(s: string)
  {
    |s| > 0 && forall i :: 0 <= i < |s| ==> IsIdentChar(s[i])
  }

  /** An alphanumeric pre-release identifier: identifier characters, not all digits. */
  predicate IsAlphanumeric(s: string)
  {
    IsBuildIdent(s) && !AllDigits(s)
  }

  predicate ValidIdent(id: Ident)
  {
    id.Alpha? ==> IsAlphanumeric(id.s)
  }

  /** The versions that have a textual form. */
  predicate WellFormed(v: Version)
  {
    && (forall i :: 0 <= i < |v.pre| ==> ValidIdent(v.pre[i]))
    && (forall i :: 0 <= i < |v.build| ==> IsBuildIdent(v.build[i]))
  }

  // ---------------------------------------------------------------- printing

  function IdentToString(id: Ident): string
  {
    match id
    case Num(n) => NatToString(n)
    case Alpha(s) => s
  }

  function IdentStrings(ids: seq<Ident>): seq<string>
  {
    seq(|ids|, i requires 0 <= i < |ids| => IdentToString(ids[i]))
  }

  function CoreString(v: Version): string
  {
    NatToString(v.major) + "." + NatToString(v.minor) + "." + NatToString(v.patch)
  }

  function PreString(pre: seq<Ident>): string
  {
    Join(IdentStrings(pre), '.')
  }

  /** `str(VersionInfo)`: the core, then `-PRE` when there is a pre-release, then
      `+BUILD` when there is build metadata. */
  function ToString(v: Version): (r: string)
    ensures CoreString(v) <= r
    ensures |r| == |CoreString(v)| <==> v.pre == [] && v.build == []
  {
    CoreString(v)
    + (if v.pre == [] then "" else "-" + PreString(v.pre))
    + (if v.build == [] then "" else "+" + Join(v.build, '.'))
  }

  // ---------------------------------------------------------------- parsing

  function ParseIdent(s: string): Option<Ident>
  {
    if IsNumeric(s) then Some(Num(DigitsValue(s)))
    else if IsAlphanumeric(s) then Some(Alpha(s))
    else None
  }

  function ParseIdents(parts: seq<string>): Option<seq<Ident>>
  {
    if |parts| == 0 then Some([])
    else match (ParseIdent(parts[0]), ParseIdents(parts[1..]))
      case (Some(id), Some(ids)) => Some([id] + ids)
      case _ => None
  }

  /** `MAJOR.MINOR.PATCH`: three numerals without leading zeros. */
  function ParseCore(core: string): Option<(nat, nat, nat)>
  {
    var nums := Split(core, '.');
    if |nums| == 3 && IsNumeric(nums[0]) && IsNumeric(nums[1]) && IsNumeric(nums[2])
    then Some((DigitsValue(nums[0]), DigitsValue(nums[1]), DigitsValue(nums[2])))
    else None
  }

  /** The text after the `-`, when there is one: dot-separated identifiers. */
  function ParsePre(pre: Option<string>): Option<seq<Ident>>
  {
    match pre
    case None => Some([])
    case Some(p) => ParseIdents(Split(p, '.'))
  }

  /** The text after the `+`, when there is one: dot-separated build identifiers. */
  function ParseBuild(build: Option<string>): Option<seq<string>>
  {
    match build
    case None => Some([])
    case Some(b) =>
      var parts := Split(b, '.');
      if forall i :: 0 <= i < |parts| ==> IsBuildIdent(parts[i]) then Some(parts) else None
  }

  /** `VersionInfo.parse`: the build metadata follows the first `+`, the pre-release
      the first `-` before it, and the core is three numerals without leading zeros.
      Anything else is the library's `ValueError` for the whole string. */
  function Parse(s: string): (r: Result<Version>)
    ensures r.Err? ==> r.error == InvalidVersion(s)
  {
    var (main, build) := CutAt(s, '+');
    var (core, pre) := CutAt(main, '-');
    match (ParseCore(core), ParsePre(pre), ParseBuild(build))
    case (Some((x, y, z)), Some(p), Some(b)) => Ok(Version(x, y, z, p, b))
    case _ => Err(InvalidVersion(s))
  }

  /** The optional texts `ToString` puts after `-` and after `+`. */
  function PreText(pre: seq<Ident>): Option<string>
  {
    if pre == [] then None else Some(PreString(pre))
  }

  function BuildText(build: seq<string>): Option<string>
  {
    if build == [] then None else Some(Join(build, '.'))
  }

  // ------------------------------------------------------ parse/print lemmas

  lemma IdentStringShape(id: Ident)
    requires ValidIdent(id)
    ensures |IdentToString(id)| > 0
    ensures '.' !in IdentToString(id) && '+' !in IdentToString(id)
  {
    match id
    case Num(n) => DigitsExclude(NatToString(n), '.'); DigitsExclude(NatToString(n), '+');
    case Alpha(s) =>
      assert forall i :: 0 <= i < |s| ==> s[i] != '.' && s[i] != '+';
  }

  lemma ParseIdentToString(id: Ident)
    requires ValidIdent(id)
    ensures ParseIdent(IdentToString(id)) == Some(id)
  {
    match id
    case Num(n) => DigitsValueOfNatToString(n);
    case Alpha(s) =>
  }

  lemma ParseIdentCanonical(s: string)
    requires ParseIdent(s).Some?
    ensures ValidIdent(ParseIdent(s).value) && IdentToString(ParseIdent(s).value) == s
  {
    if IsNumeric(s) {
      NatToStringOfValue(s);
    }
  }

  lemma {:induction false} ParseIdentsOfStrings(ids: seq<Ident>)
    requires forall i :: 0 <= i < |ids| ==> ValidIdent(ids[i])
    ensures ParseIdents(IdentStrings(ids)) == Some(ids)
  {
    if |ids| > 0 {
      assert IdentStrings(ids)[1..] == IdentStrings(ids[1..]);
      ParseIdentsOfStrings(ids[1..]);
      ParseIdentToString(ids[0]);
      assert ids == [ids[0]] + ids[1..];
    }
  }

  lemma {:induction false} ParseIdentsCanonical(parts: seq<string>)
    requires ParseIdents(parts).Some?
    ensures |ParseIdents(parts).value| == |parts|
    ensures forall i :: 0 <= i < |parts| ==> ValidIdent(ParseIdents(parts).value[i])
    ensures IdentStrings(ParseIdents(parts).value) == parts
  {
    if |parts| > 0 {
      ParseIdentsCanonical(parts[1..]);
      ParseIdentCanonical(parts[0]);
      var ids := ParseIdents(parts).value;
      assert ids[1..] == ParseIdents(parts[1..]).value;
      assert IdentStrings(ids)[1..] == IdentStrings(ids[1..]);
      assert parts == [parts[0]] + parts[1..];
    }
  }

  lemma CoreRoundTrip(v: Version)
    ensures '+' !in CoreString(v) && '-' !in CoreString(v)
    ensures ParseCore(CoreString(v)) == Some((v.major, v.minor, v.patch))
  {
    var a, b, c := NatToString(v.major), NatToString(v.minor), NatToString(v.patch);
    DigitsExclude(a, '+'); DigitsExclude(b, '+'); DigitsExclude(c, '+');
    DigitsExclude(a, '-'); DigitsExclude(b, '-'); DigitsExclude(c, '-');
    DigitsExclude(a, '.'); DigitsExclude(b, '.'); DigitsExclude(c, '.');
    Join3(a, b, c, '.');
    SplitJoin([a, b, c], '.');
    DigitsValueOfNatToString(v.major);
    DigitsValueOfNatToString(v.minor);
    DigitsValueOfNatToString(v.patch);
  }

  lemma CoreCanonical(core: string)
    requires ParseCore(core).Some?
    ensures var (x, y, z) := ParseCore(core).value;
      core == NatToString(x) + "." + NatToString(y) + "." + NatToString(z)
  {
    var nums := Split(core, '.');
    NatToStringOfValue(nums[0]);
    NatToStringOfValue(nums[1]);
    NatToStringOfValue(nums[2]);
    assert nums == [nums[0], nums[1], nums[2]];
    Join3(nums[0], nums[1], nums[2], '.');
  }

  lemma PreRoundTrip(pre: seq<Ident>)
    requires forall i :: 0 <= i < |pre| ==> ValidIdent(pre[i])
    ensures '+' !in PreString(pre)
    ensures ParsePre(PreText(pre)) == Some(pre)
  {
    forall i | 0 <= i < |pre|
      ensures '.' !in IdentStrings(pre)[i] && '+' !in IdentStrings(pre)[i]
    {
      IdentStringShape(pre[i]);
    }
    NotInJoin(IdentStrings(pre), '.', '+');
    if pre != [] {
      SplitJoin(IdentStrings(pre), '.');
      ParseIdentsOfStrings(pre);
    }
  }

  lemma PreCanonical(pre: Option<string>)
    requires ParsePre(pre).Some?
    ensures forall i :: 0 <= i < |ParsePre(pre).value| ==> ValidIdent(ParsePre(pre).value[i])
    ensures PreText(ParsePre(pre).value) == pre
  {
    if pre.Some? {
      ParseIdentsCanonical(Split(pre.value, '.'));
    }
  }

  lemma BuildRoundTrip(build: seq<string>)
    requires forall i :: 0 <= i < |build| ==> IsBuildIdent(build[i])
    ensures ParseBuild(BuildText(build)) == Some(build)
  {
    forall i | 0 <= i < |build| ensures '.' !in build[i] {
      var s := build[i];
      assert forall j :: 0 <= j < |s| ==> s[j] != '.';
    }
    if build != [] {
      SplitJoin(build, '.');
    }
  }

  lemma BuildCanonical(build: Option<string>)
    requires ParseBuild(build).Some?
    ensures forall i :: 0 <= i < |ParseBuild(build).value| ==> IsBuildIdent(ParseBuild(build).value[i])
    ensures BuildText(ParseBuild(build).value) == build
  {
  }

  /** Printing a well-formed version and parsing the text gives the version back. */
  lemma ParseToString(v: Version)
    requires WellFormed(v)
    ensures Parse(ToString(v)) == Ok(v)
  {
    var core := CoreString(v);
    var main := core + (if v.pre == [] then "" else "-" + PreString(v.pre));
    CoreRoundTrip(v);
    PreRoundTrip(v.pre);
    BuildRoundTrip(v.build);
    assert '+' !in main;
    if v.build == [] {
      assert ToString(v) == main;
    } else {
      assert ToString(v) == main + ['+'] + Join(v.build, '.');
      CutAtFirst(main, Join(v.build, '.'), '+');
    }
    assert CutAt(ToString(v), '+') == (main, BuildText(v.build));
    if v.pre == [] {
      assert main == core;
    } else {
      assert main == core + ['-'] + PreString(v.pre);
      CutAtFirst(core, PreString(v.pre), '-');
    }
    assert CutAt(main, '-') == (core, PreText(v.pre));
  }

  lemma PreStringCons(x: Ident, ids: seq<Ident>)
    requires ids != []
    ensures PreString([x] + ids) == IdentToString(x) + "." + PreString(ids)
  {
    assert IdentStrings([x] + ids) == [IdentToString(x)] + IdentStrings(ids);
    assert IdentStrings([x] + ids)[1..] == IdentStrings(ids);
  }

  /** The text of a release with a pre-release attached is the release's text, `-`
      and the pre-release's text. */
  lemma ToStringWithPre(base: Version, pre: seq<Ident>)
    requires base.pre == [] && base.build == [] && pre != []
    ensures ToString(base.(pre := pre)) == ToString(base) + "-" + PreString(pre)
  {
  }

  /** The same, for a string known to be the text of a version. */
  lemma ParsesAs(s: string, v: Version)
    requires WellFormed(v) && ToString(v) == s
    ensures Parse(s) == Ok(v)
  {
    ParseToString(v);
  }

  /** A parsed version is well formed and prints as the very string it came from:
      the grammar has exactly one spelling per version. */
  lemma ParseIsCanonical(s: string)
    requires Parse(s).Ok?
    ensures WellFormed(Parse(s).value)
    ensures ToString(Parse(s).value) == s
  {
    var v := Parse(s).value;
    var (main, build) := CutAt(s, '+');
    var (core, pre) := CutAt(main, '-');
    CoreCanonical(core);
    PreCanonical(pre);
    BuildCanonical(build);
    assert CoreString(v) == core;
    assert PreText(v.pre) == pre;
    assert BuildText(v.build) == build;
    PrintsAsCut(v, s, main, core, pre, build);
  }

  /** A version whose three parts print as the three pieces of a string cut at the
      first `+` and then at the first `-` prints as that string. */
  lemma PrintsAsCut(v: Version, s: string, main: string, core: string, pre: Option<string>, build: Option<string>)
    requires CutAt(s, '+') == (main, build) && CutAt(main, '-') == (core, pre)
    requires CoreString(v) == core && PreText(v.pre) == pre && BuildText(v.build) == build
    ensures ToString(v) == s
  {
    var head := CoreString(v) + (if v.pre == [] then "" else "-" + PreString(v.pre));
    assert main == head;
  }

  // ---------------------------------------------------------------- precedence

  function CompareIdent(x: Ident, y: Ident): int
  {
    match (x, y)
    case (Num(a), Num(b)) => Cmp(a, b)
    case (Num(_), Alpha(_)) => -1
    case (Alpha(_), Num(_)) => 1
    case (Alpha(a), Alpha(b)) => CompareText(a, b)
  }

  /** Identifier by identifier; when one list runs out first, it is the lower. */
  function CompareIdents(p: seq<Ident>, q: seq<Ident>): int
  {
    if |p| == 0 && |q| == 0 then 0
    else if |p| == 0 then -1
    else if |q| == 0 then 1
    else
      var c := CompareIdent(p[0], q[0]);
      if c != 0 then c else CompareIdents(p[1..], q[1..])
  }

  /** Pre-release precedence: no pre-release ranks above any pre-release. */
  function ComparePre(p: seq<Ident>, q: seq<Ident>): int
  {
    if p == [] && q == [] then 0
    else if p == [] then 1
    else if q == [] then -1
    else CompareIdents(p, q)
  }

  /** `VersionInfo.compare`: -1, 0 or 1 as `a` has lower, equal or higher precedence
      than `b`. */
  function Compare(a: Version, b: Version): (r: int)
    ensures r in {-1, 0, 1}
    ensures r == 0 ==> SameCore(a, b)
  {
    CompareIdentsRange(a.pre, b.pre);
    var c := Cmp(a.major, b.major);
    if c != 0 then c else
    var c := Cmp(a.minor, b.minor);
    if c != 0 then c else
    var c := Cmp(a.patch, b.patch);
    if c != 0 then c else
    ComparePre(a.pre, b.pre)
  }

  /** Equal precedence: everything but the build metadata agrees. */
  predicate SamePrecedence(a: Version, b: Version)
  {
    a.major == b.major && a.minor == b.minor && a.patch == b.patch && a.pre == b.pre
  }

  /** `semver.compare(s1, s2)`: parses `s1`, then `s2`, then compares. */
  function CompareStrings(s1: string, s2: string): (r: Result<int>)
    ensures r.Ok? <==> Parse(s1).Ok? && Parse(s2).Ok?
    ensures r.Ok? ==> r.value == Compare(Parse(s1).value, Parse(s2).value)
    ensures r.Err? ==> r.error == InvalidVersion(if Parse(s1).Err? then s1 else s2)
  {
    var v1 :- Parse(s1);
    var v2 :- Parse(s2);
    Ok(Compare(v1, v2))
  }

  // ------------------------------------------------ finalize and bump

  /** `finalize_version()`: the release the version belongs to. */
  function Finalize(v: Version): (r: Version)
    ensures r.major == v.major && r.minor == v.minor && r.patch == v.patch
    ensures r.pre == [] && r.build == []
    ensures Compare(r, v) == (if v.pre == [] then 0 else 1)
  {
    Version(v.major, v.minor, v.patch, [], [])
  }

  /** `bump_patch()`: the next patch release. */
  function BumpPatch(v: Version): (r: Version)
    ensures r.major == v.major && r.minor == v.minor && r.patch == v.patch + 1
    ensures r.pre == [] && r.build == []
    ensures Compare(r, v) == 1
  {
    Version(v.major, v.minor, v.patch + 1, [], [])
  }

  // ------------------------------------------------ precedence is a total order

  lemma CompareIdentAntisymmetric(x: Ident, y: Ident)
    ensures CompareIdent(x, y) == -CompareIdent(y, x)
  {
    if x.Alpha? && y.Alpha? {
      CompareTextAntisymmetric(x.s, y.s);
    }
  }

  lemma CompareIdentZero(x: Ident, y: Ident)
    ensures CompareIdent(x, y) == 0 <==> x == y
  {
    if x.Alpha? && y.Alpha? {
      CompareTextZero(x.s, y.s);
    }
  }

  lemma CompareIdentTransitive(x: Ident, y: Ident, z: Ident)
    requires CompareIdent(x, y) < 0 && CompareIdent(y, z) < 0
    ensures CompareIdent(x, z) < 0
  {
    if x.Alpha? && y.Alpha? && z.Alpha? {
      CompareTextTransitive(x.s, y.s, z.s);
    }
  }

  lemma {:induction false} CompareIdentsAntisymmetric(p: seq<Ident>, q: seq<Ident>)
    ensures CompareIdents(p, q) == -CompareIdents(q, p)
  {
    if |p| > 0 && |q| > 0 {
      CompareIdentAntisymmetric(p[0], q[0]);
      CompareIdentsAntisymmetric(p[1..], q[1..]);
    }
  }

  lemma {:induction false} CompareIdentsZero(p: seq<Ident>, q: seq<Ident>)
    ensures CompareIdents(p, q) == 0 <==> p == q
  {
    if |p| > 0 && |q| > 0 {
      CompareIdentZero(p[0], q[0]);
      CompareIdentsZero(p[1..], q[1..]);
      assert p == [p[0]] + p[1..] && q == [q[0]] + q[1..];
    }
  }

  lemma {:induction false} CompareIdentsTransitive(p: seq<Ident>, q: seq<Ident>, r: seq<Ident>)
    requires CompareIdents(p, q) < 0 && CompareIdents(q, r) < 0
    ensures CompareIdents(p, r) < 0
  {
    if |p| > 0 && |q| > 0 && |r| > 0 {
      CompareIdentZero(p[0], q[0]);
      CompareIdentZero(q[0], r[0]);
      if CompareIdent(p[0], q[0]) < 0 && CompareIdent(q[0], r[0]) < 0 {
        CompareIdentTransitive(p[0], q[0], r[0]);
      } else if CompareIdent(p[0], q[0]) == 0 && CompareIdent(q[0], r[0]) == 0 {
        CompareIdentsTransitive(p[1..], q[1..], r[1..]);
      }
    }
  }

  lemma ComparePreAntisymmetric(p: seq<Ident>, q: seq<Ident>)
    ensures ComparePre(p, q) == -ComparePre(q, p)
  {
    CompareIdentsAntisymmetric(p, q);
  }

  lemma ComparePreZero(p: seq<Ident>, q: seq<Ident>)
    ensures ComparePre(p, q) == 0 <==> p == q
  {
    CompareIdentsZero(p, q);
  }

  lemma ComparePreTransitive(p: seq<Ident>, q: seq<Ident>, r: seq<Ident>)
    requires ComparePre(p, q) < 0 && ComparePre(q, r) < 0
    ensures ComparePre(p, r) < 0
  {
    if p != [] && q != [] && r != [] {
      CompareIdentsTransitive(p, q, r);
    }
  }

  /** Precedence is antisymmetric: swapping the arguments negates the answer. */
  lemma CompareAntisymmetric(a: Version, b: Version)
    ensures Compare(a, b) == -Compare(b, a)
    ensures Compare(a, b) in {-1, 0, 1}
  {
    ComparePreAntisymmetric(a.pre, b.pre);
    CompareIdentsRange(a.pre, b.pre);
  }

  lemma {:induction false} CompareIdentsRange(p: seq<Ident>, q: seq<Ident>)
    ensures CompareIdents(p, q) in {-1, 0, 1}
  {
    if |p| > 0 && |q| > 0 {
      CompareIdentsRange(p[1..], q[1..]);
      if p[0].Alpha? && q[0].Alpha? {
        CompareTextRange(p[0].s, q[0].s);
      }
    }
  }

  /** Equal precedence (0) exactly when the versions differ at most in build metadata. */
  lemma CompareZero(a: Version, b: Version)
    ensures Compare(a, b) == 0 <==> SamePrecedence(a, b)
  {
    ComparePreZero(a.pre, b.pre);
  }

  /** Precedence is transitive, strictly so when either step is strict. */
  lemma CompareTransitive(a: Version, b: Version, c: Version)
    requires Compare(a, b) <= 0 && Compare(b, c) <= 0
    ensures Compare(a, c) <= 0
    ensures Compare(a, b) < 0 || Compare(b, c) < 0 ==> Compare(a, c) < 0
  {
    ComparePreZero(a.pre, b.pre);
    ComparePreZero(b.pre, c.pre);
    if ComparePre(a.pre, b.pre) < 0 && ComparePre(b.pre, c.pre) < 0 {
      ComparePreTransitive(a.pre, b.pre, c.pre);
    }
  }

  // ------------------------------------------------ the precedence rules of Semantic Versioning 2.0.0, section 11

  predicate SameCore(a: Version, b: Version)
  {
    a.major == b.major && a.minor == b.minor && a.patch == b.patch
  }

  /** Semantic Versioning 2.0.0, section 11.2: major, minor and patch decide, compared numerically in that order. */
  lemma CoreDecides(a: Version, b: Version)
    requires !SameCore(a, b)
    ensures Compare(a, b) == -1 <==>
      a.major < b.major
      || (a.major == b.major && a.minor < b.minor)
      || (a.major == b.major && a.minor == b.minor && a.patch < b.patch)
  {
  }

  /** Semantic Versioning 2.0.0, section 11.3: a pre-release ranks below the release it belongs to. */
  lemma PreReleaseBelowRelease(a: Version, b: Version)
    requires SameCore(a, b) && a.pre != [] && b.pre == []
    ensures Compare(a, b) == -1 && Compare(b, a) == 1
  {
  }

  /** Semantic Versioning 2.0.0, section 10: build metadata plays no part in precedence. */
  lemma BuildIgnored(a: Version, b: Version, x: seq<string>, y: seq<string>)
    ensures Compare(a.(build := x), b.(build := y)) == Compare(a, b)
  {
  }

  lemma {:induction false} FirstDifferenceDecides(p: seq<Ident>, x: Ident, r1: seq<Ident>, y: Ident, r2: seq<Ident>)
    requires x != y
    ensures CompareIdents(p + [x] + r1, p + [y] + r2) == CompareIdent(x, y)
  {
    CompareIdentZero(x, y);
    if |p| > 0 {
      CompareIdentZero(p[0], p[0]);
      assert (p + [x] + r1)[1..] == p[1..] + [x] + r1;
      assert (p + [y] + r2)[1..] == p[1..] + [y] + r2;
      FirstDifferenceDecides(p[1..], x, r1, y, r2);
    }
  }

  lemma {:induction false} PrefixIsLower(p: seq<Ident>, q: seq<Ident>)
    requires q != []
    ensures CompareIdents(p, p + q) == -1
  {
    if |p| > 0 {
      CompareIdentZero(p[0], p[0]);
      assert (p + q)[1..] == p[1..] + q;
      PrefixIsLower(p[1..], q);
    }
  }

  /** Semantic Versioning 2.0.0, section 11.4: between two pre-releases of the same release, the first
      identifier where they differ decides; numeric identifiers compare by value,
      alphanumeric ones in ASCII order, and a numeric one ranks below an
      alphanumeric one. */
  lemma PreReleaseFirstDifference(a: Version, b: Version, p: seq<Ident>, x: Ident, r1: seq<Ident>, y: Ident, r2: seq<Ident>)
    requires SameCore(a, b) && a.pre == p + [x] + r1 && b.pre == p + [y] + r2 && x != y
    ensures Compare(a, b) == CompareIdent(x, y)
    ensures x.Num? && y.Num? ==> (Compare(a, b) == -1 <==> x.n < y.n)
    ensures x.Num? && y.Alpha? ==> Compare(a, b) == -1
    ensures x.Alpha? && y.Alpha? ==> Compare(a, b) == CompareText(x.s, y.s)
  {
    FirstDifferenceDecides(p, x, r1, y, r2);
  }

  /** A pre-release tagged `pre` ranks below a pre-release of the same core whose
      first identifier is alphanumeric and sorts after `pre`. */
  lemma PreReleaseBehind(v: Version, d: Version, rest: seq<Ident>)
    requires SameCore(v, d) && v.pre == [Alpha("pre")] + rest
    requires d.pre != [] && d.pre[0].Alpha? && CompareText("pre", d.pre[0].s) < 0
    ensures Compare(v, d) == -1
  {
    CompareTextZero("pre", d.pre[0].s);
    CompareTextRange("pre", d.pre[0].s);
    assert v.pre == [] + [Alpha("pre")] + rest;
    assert d.pre == [] + [d.pre[0]] + d.pre[1..];
    PreReleaseFirstDifference(v, d, [], Alpha("pre"), rest, d.pre[0], d.pre[1..]);
  }

  /** Semantic Versioning 2.0.0, section 11.4.4: a longer list of pre-release identifiers ranks higher when all
      the identifiers before it are equal. */
  lemma LongerPreReleaseIsHigher(a: Version, b: Version, q: seq<Ident>)
    requires SameCore(a, b) && b.pre != [] && q != [] && a.pre == b.pre + q
    ensures Compare(a, b) == 1
  {
    PrefixIsLower(b.pre, q);
    CompareIdentsAntisymmetric(b.pre, a.pre);
  }
}
