/** `Long.toString`: the decimal text of a Java `long`, with a leading `-` for
    negative values and no leading zeros. `ParseLong` is its inverse on that text. */
module Decimal {
  import opened Wrappers
  import opened Domain

  predicate IsDigit(ch: char) {
    '0' <= ch <= '9'
  }

  function DigitChar(d: nat): (ch: char)
    requires d < 10
    ensures IsDigit(ch)
    ensures DigitValue(ch) == d
  {
    "0123456789"[d]
  }

  function DigitValue(ch: char): nat
    requires IsDigit(ch)
  {
    (ch - '0') as nat
  }

  /** The decimal digits of `n`, most significant first. */
  function NatDigits(n: nat): (s: string)
    ensures |s| > 0
    ensures forall k :: 0 <= k < |s| ==> IsDigit(s[k])
    ensures s[0] == '0' ==> n == 0
    decreases n
  {
    if n < 10 then [DigitChar(n)] else NatDigits(n / 10) + [DigitChar(n % 10)]
  }

  /** The number a non-empty digit string denotes. */
  function DigitsValue(s: string): nat
    requires forall k :: 0 <= k < |s| ==> IsDigit(s[k])
  {
    if |s| == 0 then 0 else DigitsValue(s[..|s| - 1]) * 10 + DigitValue(s[|s| - 1])
  }

  function LongToString(n: Long): (s: string)
    ensures |s| > 0
    ensures s[0] == '-' <==> n < 0
  {
    if n < 0 then "-" + NatDigits(-(n as int)) else NatDigits(n)
  }

  /** Reads the text `LongToString` produces; `None` for anything else that is not
      an optional `-` followed by one or more digits. */
  function ParseLong(s: string): (r: Option<int>)
    ensures r.Some? ==> |s| > 0
  {
    if |s| > 0 && s[0] == '-' then
      var body := s[1..];
      if |body| > 0 && forall k :: 0 <= k < |body| ==> IsDigit(body[k])
      then Some(0 - DigitsValue(body)) else None
    else if |s| > 0 && forall k :: 0 <= k < |s| ==> IsDigit(s[k])
      then Some(DigitsValue(s)) else None
  }

  lemma {:induction false} DigitsRoundTrip(n: nat)
    ensures DigitsValue(NatDigits(n)) == n
    decreases n
  {
    if n >= 10 {
      var s := NatDigits(n);
      DigitsRoundTrip(n / 10);
      assert s[..|s| - 1] == NatDigits(n / 10);
    }
  }

  /** A non-empty digit string parses to the number it denotes. */
  lemma ParseDigits(s: string)
    requires |s| > 0 && forall k :: 0 <= k < |s| ==> IsDigit(s[k])
    ensures ParseLong(s) == Some(DigitsValue(s))
  {
    assert s[0] != '-';
  }

  /** A `-` followed by a non-empty digit string parses to the negated number. */
  lemma ParseNegated(s: string)
    requires |s| > 0 && forall k :: 0 <= k < |s| ==> IsDigit(s[k])
    ensures ParseLong("-" + s) == Some(0 - DigitsValue(s))
  {
    assert ("-" + s)[1..] == s;
  }

  /** Parsing the decimal text of a `long` gives the `long` back. */
  lemma LongRoundTrip(n: Long)
    ensures ParseLong(LongToString(n)) == Some(n)
  {
    var m: nat := if n < 0 then -(n as int) else n;
    DigitsRoundTrip(m);
    if n < 0 {
      ParseNegated(NatDigits(m));
    } else {
      ParseDigits(NatDigits(m));
    }
  }

  /** Distinct `long` values have distinct decimal texts. */
  lemma LongToStringInjective(a: Long, b: Long)
    ensures LongToString(a) == LongToString(b) ==> a == b
  {
    LongRoundTrip(a);
    LongRoundTrip(b);
  }
}
