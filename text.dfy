/**
 * The two pieces of Go's standard library whose results the publisher depends on
 * and that can be stated exactly: `strings.Split` with a one-character separator
 * (used to find a path's extension) and `fmt`'s `%d` verb for integers (used to
 * build the tweet URL).
 */
module Text {

  /** The pieces of `s` between the occurrences of `sep`, as Go's `strings.Split(s, sep)`. */
  function Split(s: string, sep: char): (parts: seq<string>)
    ensures |parts| >= 1
    ensures forall i | 0 <= i < |parts| :: sep !in parts[i]
    ensures |parts| == 1 <==> sep !in s
    decreases |s|
  {
    if |s| == 0 then [""]
    else
      var rest := Split(s[1..], sep);
      assert forall c :: c in s <==> c == s[0] || c in s[1..];
      if s[0] == sep then [""] + rest
      else
        assert forall i | 1 <= i < |rest| :: rest[1..][i - 1] == rest[i];
        [[s[0]] + rest[0]] + rest[1..]
  }

  /** Go's `strings.Join(parts, sep)`: the pieces with `sep` between neighbours. */
  function Join(parts: seq<string>, sep: char): string
  {
    if |parts| == 0 then ""
    else if |parts| == 1 then parts[0]
    else parts[0] + [sep] + Join(parts[1..], sep)
  }

  /** Splitting loses nothing: joining the pieces back gives the original text. */
  lemma {:induction false} JoinSplit(s: string, sep: char)
    ensures Join(Split(s, sep), sep) == s
    decreases |s|
  {
    if |s| > 0 {
      var rest := Split(s[1..], sep);
      JoinSplit(s[1..], sep);
      if s[0] == sep {
        assert ([""] + rest)[1..] == rest;
      } else {
        var parts := [[s[0]] + rest[0]] + rest[1..];
        if |rest| > 1 {
          assert parts[1..] == rest[1..];
          assert Join(rest, sep) == rest[0] + [sep] + Join(rest[1..], sep);
        }
      }
    }
  }

  /**
   * `r` is what follows the last `sep` in `s`, or the whole of `s` when `sep`
   * does not occur in it.
   */
  ghost predicate IsLastField(r: string, s: string, sep: char)
  {
    && |r| <= |s|
    && s[|s| - |r|..] == r
    && sep !in r
    && (|r| < |s| ==> s[|s| - |r| - 1] == sep)
  }

  /** Putting a character in front of `t` keeps its last field, unless that field is all of `t`. */
  lemma LastFieldCons(r: string, t: string, c: char, sep: char)
    requires IsLastField(r, t, sep) && (|r| < |t| || c == sep)
    ensures IsLastField(r, [c] + t, sep)
  {
    var s := [c] + t;
    assert s[|s| - |r|..] == t[|t| - |r|..];
    if |r| < |t| {
      assert s[|s| - |r| - 1] == t[|t| - |r| - 1];
    }
  }

  /** The last piece `strings.Split` returns is the text after the last separator. */
  lemma {:induction false} SplitLastField(s: string, sep: char)
    ensures var parts := Split(s, sep); IsLastField(parts[|parts| - 1], s, sep)
    decreases |s|
  {
    if |s| == 0 {
      assert Split(s, sep) == [""];
    } else {
      SplitLastField(s[1..], sep);
      if s[0] == sep {
        SplitLastFieldAfterSep(s, sep);
      } else if |Split(s[1..], sep)| > 1 {
        SplitLastFieldBeforeSep(s, sep);
      } else {
        SplitLastFieldNoSep(s, sep);
      }
    }
  }

  lemma SplitLastFieldAfterSep(s: string, sep: char)
    requires |s| > 0 && s[0] == sep
    requires var rest := Split(s[1..], sep); IsLastField(rest[|rest| - 1], s[1..], sep)
    ensures var parts := Split(s, sep); IsLastField(parts[|parts| - 1], s, sep)
  {
    var t := s[1..];
    var rest := Split(t, sep);
    var parts := [""] + rest;
    assert Split(s, sep) == parts && parts[|parts| - 1] == rest[|rest| - 1];
    assert s == [s[0]] + t;
    LastFieldCons(rest[|rest| - 1], t, s[0], sep);
  }

  lemma SplitLastFieldBeforeSep(s: string, sep: char)
    requires |s| > 0 && s[0] != sep && |Split(s[1..], sep)| > 1
    requires var rest := Split(s[1..], sep); IsLastField(rest[|rest| - 1], s[1..], sep)
    ensures var parts := Split(s, sep); IsLastField(parts[|parts| - 1], s, sep)
  {
    var t := s[1..];
    var rest := Split(t, sep);
    var last := rest[|rest| - 1];
    var parts := [[s[0]] + rest[0]] + rest[1..];
    assert Split(s, sep) == parts && parts[|parts| - 1] == last;
    assert sep in t && t[0..] == t && t[|t| - |last|..] == last;
    assert s == [s[0]] + t;
    LastFieldCons(last, t, s[0], sep);
  }

  lemma SplitLastFieldNoSep(s: string, sep: char)
    requires |s| > 0 && s[0] != sep && |Split(s[1..], sep)| == 1
    requires var rest := Split(s[1..], sep); IsLastField(rest[|rest| - 1], s[1..], sep)
    ensures var parts := Split(s, sep); IsLastField(parts[|parts| - 1], s, sep)
  {
    var t := s[1..];
    var rest := Split(t, sep);
    assert Split(s, sep) == [[s[0]] + rest[0]];
    assert sep !in t;
    assert t[|t| - |t|..] == t;
    LastFieldUnique(rest[0], t, t, sep);
    assert s == [s[0]] + t;
    assert forall c | c in s :: c == s[0] || c in t;
    assert s[|s| - |s|..] == s;
  }

  /** The text after the last separator is determined by the text. */
  lemma LastFieldUnique(r1: string, r2: string, s: string, sep: char)
    requires IsLastField(r1, s, sep) && IsLastField(r2, s, sep)
    ensures r1 == r2
  {
  }

  predicate IsDigits(s: string)
  {
    forall i | 0 <= i < |s| :: '0' <= s[i] <= '9'
  }

  function DigitChar(d: nat): char
    requires d < 10
  {
    (('0' as int) + d) as char
  }

  /** The decimal numeral of `n`, most significant digit first. */
  function NatToString(n: nat): (s: string)
    ensures |s| >= 1 && IsDigits(s)
    ensures s[0] == '0' ==> n == 0
  {
    if n < 10 then [DigitChar(n)] else NatToString(n / 10) + [DigitChar(n % 10)]
  }

  /** The number a decimal numeral denotes. */
  function DigitsValue(s: string): nat
    requires IsDigits(s)
  {
    if |s| == 0 then 0
    else 10 * DigitsValue(s[..|s| - 1]) + ((s[|s| - 1] as int) - ('0' as int))
  }

  /** Reading back the numeral of `n` gives `n`. */
  lemma {:induction false} NatToStringRoundTrip(n: nat)
    ensures DigitsValue(NatToString(n)) == n
  {
    if n >= 10 {
      var s := NatToString(n);
      assert s[..|s| - 1] == NatToString(n / 10);
      NatToStringRoundTrip(n / 10);
    }
  }

  /** Go's `fmt.Sprintf("%d", n)`: a minus sign for negative numbers, then the digits of |n|. */
  function IntToString(n: int): string
  {
    if n < 0 then "-" + NatToString(-n) else NatToString(n)
  }

  /**
   * The form `%d` prints: digits only for a non-negative number, a minus sign and
   * digits for a negative one, and no leading zero except in "0" itself.
   */
  lemma IntToStringForm(n: int)
    ensures var s := IntToString(n);
      && (n >= 0 ==> |s| >= 1 && IsDigits(s) && (s[0] == '0' ==> n == 0))
      && (n < 0 ==> |s| >= 2 && s[0] == '-' && IsDigits(s[1..]) && s[1] != '0')
  {
    if n < 0 {
      assert IntToString(n)[1..] == NatToString(-n);
    }
  }

  /** The integer a numeral with an optional leading minus sign denotes (0 for any other text). */
  function ParseInt(s: string): int
  {
    if |s| > 0 && s[0] == '-' && IsDigits(s[1..]) then 0 - DigitsValue(s[1..]) as int
    else if IsDigits(s) then DigitsValue(s)
    else 0
  }

  /** Reading back the numeral of `n` gives `n`, so different integers print differently. */
  lemma IntToStringRoundTrip(n: int)
    ensures ParseInt(IntToString(n)) == n
  {
    if n < 0 {
      var s := IntToString(n);
      assert s[1..] == NatToString(-n);
      NatToStringRoundTrip(-n);
    } else {
      assert NatToString(n)[0] != '-';
      NatToStringRoundTrip(n);
    }
  }
}
