# Semantic-version decisions of the chart deployment actions

The deployment workflows of `slateci/github-actions` make three decisions about a
Helm chart's `appVersion`, each in its own script:

- `scripts/semver-bump.py` picks the next version for a non-production namespace
  from the version currently deployed. It refuses `production`. In `development`,
  it returns the release the deployed version belongs to, bumped by one patch when
  the deployed version is already a release, with `-pre.<timestamp>` appended. In
  any other namespace, it returns the next patch release, with no suffix.
- `scripts/semver-compare.py` reports whether the version in the source's
  `Chart.yaml` is strictly ahead of the deployed one.
- `scripts/semver-health.py` is the same comparison used as a gate. When the source
  is not ahead, it raises an error whose message quotes both versions.

All three rely on the `semver` library: `VersionInfo.parse`, `str(...)`,
`semver.compare`, `finalize_version` and `bump_patch`. Those follow Semantic
Versioning 2.0.0, and they are modelled here as functions over values.

- `results.dfy`, module `Results`: `Option`, `Result` and the two errors a script
  can end with. `InvalidVersion` is the library's `ValueError` for a string that is
  not a version. `Raised` is an `Exception` raised by a script, with its message.
- `text.dfy`, module `Text`: decimal numerals, cutting and splitting strings, and
  Python's code-point order on strings, with its order lemmas.
- `semver.dfy`, module `SemVer`: the version record, the strict grammar, printing,
  and precedence. It proves the parse/print round trip and that precedence is a
  total preorder. It also proves the precedence rules of section 11 of Semantic
  Versioning 2.0.0.
- `semver_compare.dfy`, module `SemVerCompare`: the `ahead` answer of the compare
  script.
- `semver_health.dfy`, module `SemVerHealth`: the health gate and its message.
- `semver_bump.dfy`, module `SemVerBump`: the bump script.

Each script's inputs (the namespace, the deployed version that `helm list`
reports, the source version, and the formatted timestamp) are parameters. Each
script's output (`::set-output`, or the exception) is the function's result.

The development branch can emit a version that is behind the deployed one. This
happens when the deployed version is a pre-release whose first identifier sorts
after `pre`: for example, deployed `1.2.3-rc.1` gives `1.2.3-pre.<timestamp>`.
The compare script then reports that version as not ahead.
`SemVerBump.DevelopmentCanFallBehind` states this behaviour of the code as
written. It is kept rather than corrected, because a deployed `-pre.<timestamp>`
snapshot, which is what the branch is meant for, is handled correctly
(`SemVerBump.DevelopmentAfterEarlierSnapshot`).

## Model

| member | source | states |
|---|---|---|
| SemVer.Parse | scripts/semver-bump.py:70 | a string outside the version grammar is rejected, with an error that names the whole string |
| SemVer.ToString | scripts/semver-bump.py:79 | `str(VersionInfo)` starts with the `M.m.p` core and is exactly the core when there is no pre-release and no build; with `SemVer.ParseToString` and `SemVer.ParseIsCanonical` it is the inverse of `SemVer.Parse` |
| SemVer.ParseToString | scripts/semver-bump.py:73-74 | printing a well-formed version and parsing the text gives back the same version, so `str(finalized)` parses again |
| SemVer.ParseIsCanonical | scripts/semver-bump.py:70 | every accepted string parses to a well-formed version that prints back as exactly that string |
| SemVer.CompareStrings | scripts/semver-compare.py:69 | `semver.compare` answers only when both strings parse; the answer is the precedence of the parsed versions; otherwise the error names the first argument that fails, checked in argument order |
| SemVer.Compare | scripts/semver-compare.py:72 | the library's precedence is -1, 0 or 1, and 0 only between versions with the same major, minor and patch; `SemVer.CompareAntisymmetric`, `SemVer.CompareZero` and `SemVer.CompareTransitive` make it a total preorder |
| SemVer.CompareAntisymmetric | scripts/semver-compare.py:72 | precedence is -1, 0 or 1, and swapping the arguments negates it |
| SemVer.CompareZero | scripts/semver-compare.py:72 | precedence is 0 exactly when the versions differ at most in build metadata |
| SemVer.CompareTransitive | scripts/semver-compare.py:72 | precedence is transitive, and strictly so when either step is strict |
| SemVer.CoreDecides | scripts/semver-compare.py:72 | when major, minor or patch differ, they decide the order numerically, in that order |
| SemVer.PreReleaseBelowRelease | scripts/semver-compare.py:72 | a pre-release ranks below the release with the same major, minor and patch |
| SemVer.BuildIgnored | scripts/semver-compare.py:72 | replacing the build metadata of either version never changes the precedence |
| SemVer.PreReleaseFirstDifference | scripts/semver-compare.py:72 | between pre-releases of one release, the first differing identifier decides: numbers by value, numbers below words, words in code-point order |
| SemVer.LongerPreReleaseIsHigher | scripts/semver-compare.py:72 | a pre-release that extends another with more identifiers ranks higher |
| SemVer.PreReleaseBehind | scripts/semver-bump.py:79 | a `pre.`-tagged pre-release ranks below a pre-release of the same release whose first identifier is a word after `pre` |
| SemVer.Finalize | scripts/semver-bump.py:73 | `finalize_version` keeps major, minor and patch and drops the pre-release and build; the result ties with a release and ranks above a pre-release |
| SemVer.BumpPatch | scripts/semver-bump.py:84 | `bump_patch` keeps major and minor, adds one to the patch, drops pre-release and build, and ranks strictly above its input |
| SemVerCompare.Ahead | scripts/semver-compare.py:69-83 | `ahead` is defined exactly when both versions parse; it is true exactly when the source ranks strictly above the deployed version; an invalid deployed version is reported before an invalid source |
| SemVerCompare.AheadOfParsed | scripts/semver-compare.py:72 | for two versions that parse, the answer is whether the source's precedence is higher |
| SemVerCompare.AheadIrreflexive | scripts/semver-compare.py:72 | a valid version is never ahead of itself |
| SemVerCompare.AheadAsymmetric | scripts/semver-compare.py:72 | two versions are never ahead of each other |
| SemVerCompare.AheadTransitive | scripts/semver-compare.py:72 | being ahead is transitive |
| SemVerCompare.AheadTrichotomy | scripts/semver-compare.py:72 | for two valid versions, exactly one holds: one is ahead, the other is ahead, or they tie apart from build metadata |
| SemVerCompare.AheadIgnoresBuild | scripts/semver-compare.py:72 | changing the build metadata of either version never changes the answer |
| SemVerCompare.PreReleaseNotAhead | scripts/semver-compare.py:72 | a pre-release is not ahead of its release, and the release is ahead of it |
| SemVerCompare.ExampleAhead | scripts/semver-compare.py:72-83 | source 1.2.4 is ahead of deployed 1.2.3 |
| SemVerCompare.ExampleNotAhead | scripts/semver-compare.py:72-77 | source 1.2.9 is not ahead of deployed 1.3.0 |
| SemVerCompare.ExamplePreRelease | scripts/semver-compare.py:72-83 | 1.2.0-pre.1 is not ahead of 1.2.0, and 1.2.0 is ahead of 1.2.0-pre.1 |
| SemVerCompare.ExampleBuildOnly | scripts/semver-compare.py:72-77 | 1.0.0+a is not ahead of 1.0.0+b |
| SemVerHealth.Gate | scripts/semver-health.py:65-73 | the gate passes exactly when both versions parse and the source ranks strictly above the deployed version; otherwise it raises the not-ahead message or reports the invalid string, deployed version first |
| SemVerHealth.NotAheadMessage | scripts/semver-health.py:68-71 | the exception text contains the source and the deployed versions, each in double quotes |
| SemVerHealth.MessageQuotesBoth | scripts/semver-health.py:68-71 | the quoted source comes before the quoted deployed version in the message, and the two quotations do not overlap |
| SemVerHealth.IdenticalVersionsRaise | scripts/semver-health.py:67-72 | a valid version deployed again unchanged is refused with the not-ahead message |
| SemVerHealth.GateAgreesWithReport | scripts/semver-health.py:67 | the gate passes exactly when the compare script reports `ahead` as true, and both reject the same invalid string |
| SemVerHealth.PreReleaseOfReleaseRaises | scripts/semver-health.py:67-72 | a source that is a pre-release of the deployed release is refused |
| SemVerHealth.BuildOnlyDifferenceRaises | scripts/semver-health.py:67-72 | a source that differs from the deployed version only in build metadata is refused |
| SemVerHealth.ExampleSameVersion | scripts/semver-health.py:67-72 | source 2.0.0 over deployed 2.0.0 raises the message naming both |
| SemVerHealth.ExampleReleaseCandidate | scripts/semver-health.py:67-72 | source 2.0.0-rc.1 over deployed 2.0.0 raises |
| SemVerBump.Bump | scripts/semver-bump.py:43-88 | `production` is refused with its message, before the deployed version is parsed; elsewhere an invalid deployed version is the library's error, and a valid one always gives a version |
| SemVerBump.NextRelease | scripts/semver-bump.py:72-85 | the release the script moves to keeps major and minor, has no pre-release or build, and ranks strictly above the deployed version |
| SemVerBump.BumpIsNextRelease | scripts/semver-bump.py:70-88 | outside `production`, the output is the next release, with `-pre.<timestamp>` appended in `development` |
| SemVerBump.DevelopmentFromRelease | scripts/semver-bump.py:72-79 | in `development`, a deployed release (with or without build metadata) moves to the next patch |
| SemVerBump.DevelopmentFromPreRelease | scripts/semver-bump.py:72-79 | in `development`, a deployed pre-release keeps its major, minor and patch |
| SemVerBump.OtherNamespace | scripts/semver-bump.py:83-85 | in any other namespace, the output is the next patch release, even from a pre-release |
| SemVerBump.OtherNamespaceIsAhead | scripts/semver-bump.py:84-88 | outside `development`, the output parses to that release, the compare script reports it as ahead of the deployed version, and it passes the health gate |
| SemVerBump.DevelopmentOutputParses | scripts/semver-bump.py:77-79 | in `development`, with a timestamp that is a valid pre-release, the output parses as the next release with pre-release `pre` followed by the timestamp |
| SemVerBump.DevelopmentFromReleaseIsAhead | scripts/semver-bump.py:72-79 | in `development`, the output from a deployed release is ahead of it |
| SemVerBump.DevelopmentAfterEarlierSnapshot | scripts/semver-bump.py:72-79 | in `development`, from a deployed `-pre.<t0>` snapshot, a later numeric timestamp gives an output that is ahead |
| SemVerBump.DevelopmentCanFallBehind | scripts/semver-bump.py:72-79 | in `development`, from a deployed pre-release whose first identifier is a word after `pre`, the output is not ahead |
| SemVerBump.ExampleFallBehind | scripts/semver-bump.py:72-79 | deployed 1.2.3-rc.1 in `development` gives an output that is not ahead of it |
| SemVerBump.ExampleDevelopment | scripts/semver-bump.py:72-79 | deployed 1.0.5 in `development` gives `1.0.6-pre.` followed by the timestamp |
| SemVerBump.ExampleOtherNamespace | scripts/semver-bump.py:83-85 | deployed 1.2.3-rc.1 in another namespace gives 1.2.4 |

## Left out

- Running `helm list`, loading its YAML, and reading `app_version`: the deployed version is a parameter. A failing `helm` call and a release list that is missing or has the wrong shape are not modelled.
- Environment variables: the namespace, the source version and the timestamp format are parameters. A missing variable, which Python reads as `None`, is not modelled.
- `datetime.now()` and `strftime`: the formatted timestamp is a string parameter of `SemVerBump.Bump`. The lemmas about the output's precedence take it as a list of pre-release identifiers.
- Logging, and the `::set-output` lines written to standard output: the functions return the value those lines carry.
- The log-only comparison at scripts/semver-compare.py:69 and scripts/semver-health.py:65: only its effect is modelled, namely which invalid string is reported first.
- scripts/github-schema-validate.py and scripts/mailgun.py are not part of this model.
- SemVer.Parse: the library's regular expression ends in `$`, which also accepts one trailing newline, and its `\d` also matches non-ASCII digits. The model accepts only ASCII digits and no trailing newline.
- SemVer.Compare: the library breaks a tie between equal leading pre-release identifiers by comparing the lengths of the pre-release strings. The model compares the number of identifiers instead. For versions that parse, the two give the same answer.
- A YAML `app_version` that is not a string, such as a number, is not modelled: versions are strings throughout.
