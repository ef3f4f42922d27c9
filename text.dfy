/** Strings as the version grammar and the scripts' messages use them: decimal
    numerals, cutting at a separator, splitting and joining, substrings, and the
    ordering Python gives to `str` values. */
module Text {
  import opened Results

  /** Three-way comparison of two integers, -1, 0 or 1, as Python's `cmp` idiom. */
  function Cmp(a: int, b: int): int
  {
    if a < b then -1 else if a > b then 1 else 0
  }

  // ---------------------------------------------------------------- numerals

  predicate IsDigit(ch: char)
  {
    '0' <= ch <= '9'
  }

  predicate AllDigits(s: string)
  {
    forall i :: 0 <= i < |s| ==> IsDigit(s[i])
  }

  /** `0|[1-9][0-9]*`: a decimal numeral without leading zeros. */
  predicate IsNumeric(s: string)
  {
    |s| > 0 && AllDigits(s) && (|s| > 1 ==> s[0] != '0')
  }

  function DigitValue(ch: char): nat
    requires IsDigit(ch)
  {
    (ch as int - '0' as int) as nat
  }

  function DigitChar(d: nat): char
    requires d < 10
  {
    (d + '0' as int) as char
  }

  /** The decimal numeral of `n`, as Python's `%d` writes it. */
  function NatToString(n: nat): (s: string)
    ensures IsNumeric(s)
    ensures s[0] == '0' <==> n == 0
  {
    if n < 10 then [DigitChar(n)] else NatToString(n / 10) + [DigitChar(n % 10)]
  }

  /** The value of a string of decimal digits, as Python's `int` reads it. */
  function DigitsValue(s: string): nat
    requires AllDigits(s)
  {
    if |s| == 0 then 0 else 10 * DigitsValue(s[..|s| - 1]) + DigitValue(s[|s| - 1])
  }

  lemma {:induction false} DigitsValueOfNatToString(n: nat)
    ensures DigitsValue(NatToString(n)) == n
  {
    if n >= 10 {
      var a := NatToString(n / 10);
      var s := NatToString(n);
      assert s[..|s| - 1] == a;
      DigitsValueOfNatToString(n / 10);
    }
  }

  lemma {:induction false} PositiveValue(s: string)
    requires |s| > 0 && AllDigits(s) && s[0] != '0'
    ensures DigitsValue(s) > 0
  {
    if |s| > 1 {
      PositiveValue(s[..|s| - 1]);
    }
  }

  /** A numeral without leading zeros is the one `NatToString` writes for its value. */
  lemma {:induction false} NatToStringOfValue(s: string)
    requires IsNumeric(s)
    ensures NatToString(DigitsValue(s)) == s
  {
    var last := s[|s| - 1];
    if |s| == 1 {
      assert s == [last];
    } else {
      var a := s[..|s| - 1];
      PositiveValue(a);
      NatToStringOfValue(a);
      var v := DigitsValue(s);
      assert v / 10 == DigitsValue(a) && v % 10 == DigitValue(last);
      assert s == a + [last];
    }
  }

  lemma DigitsExclude(s: string, ch: char)
    requires AllDigits(s) && !IsDigit(ch)
    ensures ch !in s
  {
  }

  // ------------------------------------------------- cutting, splitting, joining

  /** Cuts `s` at the first occurrence of `sep`: the text before it and, when `sep`
      occurs, the text after it. */
  function CutAt(s: string, sep: char): (r: (string, Option<string>))
    ensures r.1.None? ==> r.0 == s && sep !in s
    ensures r.1.Some? ==> s == r.0 + [sep] + r.1.value && sep !in r.0
  {
    if |s| == 0 then ("", None)
    else if s[0] == sep then ("", Some(s[1..]))
    else
      var (h, t) := CutAt(s[1..], sep);
      ([s[0]] + h, t)
  }

  lemma {:induction false} CutAtFirst(h: string, t: string, sep: char)
    requires sep !in h
    ensures CutAt(h + [sep] + t, sep) == (h, Some(t))
  {
    if |h| > 0 {
      assert (h + [sep] + t)[1..] == h[1..] + [sep] + t;
      CutAtFirst(h[1..], t, sep);
      assert [h[0]] + h[1..] == h;
    }
  }

  /** Python's `sep.join(parts)`. */
  function Join(parts: seq<string>, sep: char): string
  {
    if |parts| == 0 then ""
    else if |parts| == 1 then parts[0]
    else parts[0] + [sep] + Join(parts[1..], sep)
  }

  /** Python's `s.split(sep)`: never empty, no part holds `sep`, and the parts
      joined again give back `s`. */
  function Split(s: string, sep: char): (parts: seq<string>)
    ensures |parts| > 0
    ensures forall i :: 0 <= i < |parts| ==> sep !in parts[i]
    ensures Join(parts, sep) == s
    decreases |s|
  {
    match CutAt(s, sep)
    case (h, None) => [s]
    case (h, Some(t)) =>
      var rest := Split(t, sep);
      assert ([h] + rest)[1..] == rest;
      [h] + rest
  }

  /** Splitting a join gives back the parts, when no part holds the separator. */
  lemma {:induction false} SplitJoin(parts: seq<string>, sep: char)
    requires |parts| > 0
    requires forall i :: 0 <= i < |parts| ==> sep !in parts[i]
    ensures Split(Join(parts, sep), sep) == parts
  {
    if |parts| > 1 {
      SplitJoin(parts[1..], sep);
      CutAtFirst(parts[0], Join(parts[1..], sep), sep);
      assert parts == [parts[0]] + parts[1..];
    }
  }

  lemma {:induction false} NotInJoin(parts: seq<string>, sep: char, ch: char)
    requires ch != sep
    requires forall i :: 0 <= i < |parts| ==> ch !in parts[i]
    ensures ch !in Join(parts, sep)
  {
    if |parts| > 1 {
      NotInJoin(parts[1..], sep, ch);
    }
  }

  lemma Join3(a: string, b: string, c: string, sep: char)
    ensures Join([a, b, c], sep) == a + [sep] + b + [sep] + c
  {
    assert [b, c][1..] == [c];
    assert Join([b, c], sep) == b + [sep] + c;
    assert [a, b, c][1..] == [b, c];
  }

  // ------------------------------------------------------------- substrings

  predicate OccursAt(s: string, sub: string, i: nat)
  {
    i + |sub| <= |s| && s[i..i + |sub|] == sub
  }

  lemma {:induction false} OccursInMiddle(a: string, b: string, c: string)
    ensures OccursAt(a + b + c, b, |a|)
  {
    assert (a + b + c)[|a|..|a| + |b|] == b;
  }

  /** Python's `sub in s`. */
  predicate Contains(s: string, sub: string)
  {
    exists i: nat | i <= |s| :: OccursAt(s, sub, i)
  }

  // ------------------------------------------------------ ordering of text

  /** Python's ordering of two `str` values: code point by code point, a proper
      prefix first. For the ASCII identifiers of a version this is ASCII order. */
  function CompareText(s: string, t: string): int
  {
    if |s| == 0 && |t| == 0 then 0
    else if |s| == 0 then -1
    else if |t| == 0 then 1
    else if s[0] != t[0] then Cmp(s[0] as int, t[0] as int)
    else CompareText(s[1..], t[1..])
  }

  lemma {:induction false} CompareTextRange(s: string, t: string)
    ensures CompareText(s, t) in {-1, 0, 1}
  {
    if |s| > 0 && |t| > 0 && s[0] == t[0] {
      CompareTextRange(s[1..], t[1..]);
    }
  }

  lemma {:induction false} CompareTextAntisymmetric(s: string, t: string)
    ensures CompareText(s, t) == -CompareText(t, s)
  {
    if |s| > 0 && |t| > 0 && s[0] == t[0] {
      CompareTextAntisymmetric(s[1..], t[1..]);
    }
  }

  lemma {:induction false} CompareTextZero(s: string, t: string)
    ensures CompareText(s, t) == 0 <==> s == t
  {
    if |s| > 0 && |t| > 0 && s[0] == t[0] {
      CompareTextZero(s[1..], t[1..]);
      assert s == [s[0]] + s[1..] && t == [t[0]] + t[1..];
    }
  }

  lemma {:induction false} CompareTextTransitive(s: string, t: string, u: string)
    requires CompareText(s, t) < 0 && CompareText(t, u) < 0
    ensures CompareText(s, u) < 0
  {
    if |s| > 0 && |t| > 0 && |u| > 0 && s[0] == t[0] && t[0] == u[0] {
      CompareTextTransitive(s[1..], t[1..], u[1..]);
    }
  }
}
