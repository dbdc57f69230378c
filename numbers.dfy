/** Decimal integers: the `{year:d}` formatting used in URLs and Python's `int()` on a string. */
module Numbers {
  import opened Wrappers
  import opened Text

  predicate IsDigit(c: char) {
    '0' <= c <= '9'
  }

  predicate AllDigits(s: string) {
    forall i :: 0 <= i < |s| ==> IsDigit(s[i])
  }

  function DigitChar(d: nat): (c: char)
    requires d < 10
    ensures IsDigit(c)
  {
    ('0' as int + d) as char
  }

  /** The value of a string of decimal digits, most significant first. */
  function DigitsValue(s: string): nat
    requires AllDigits(s)
    decreases |s|
  {
    if |s| == 0 then 0 else DigitsValue(s[..|s| - 1]) * 10 + (s[|s| - 1] as int - '0' as int)
  }

  /** The shortest decimal spelling of `n`. */
  function NatToDigits(n: nat): (r: string)
    ensures |r| > 0 && AllDigits(r)
    decreases n
  {
    if n < 10 then [DigitChar(n)] else NatToDigits(n / 10) + [DigitChar(n % 10)]
  }

  lemma {:induction false} DigitsRoundTrip(n: nat)
    ensures DigitsValue(NatToDigits(n)) == n
    decreases n
  {
    if n >= 10 {
      DigitsRoundTrip(n / 10);
      var s := NatToDigits(n);
      assert s[..|s| - 1] == NatToDigits(n / 10);
    }
  }

  /** Python's `f"{i:d}"`. */
  function FormatInt(i: int): (r: string)
    ensures |r| > 0
  {
    if i < 0 then "-" + NatToDigits(-i) else NatToDigits(i)
  }

  /** The longest run of ASCII digits at the start of `s`. */
  function DigitPrefix(s: string): (r: string)
    ensures |r| <= |s| && r == s[..|r|] && AllDigits(r)
    ensures |r| == |s| || !IsDigit(s[|r|])
    decreases |s|
  {
    if |s| > 0 && IsDigit(s[0]) then [s[0]] + DigitPrefix(s[1..]) else []
  }

  lemma {:induction false} DigitPrefixOf(d: string, rest: string)
    requires AllDigits(d)
    requires rest == [] || !IsDigit(rest[0])
    ensures DigitPrefix(d + rest) == d
    decreases |d|
  {
    if d != [] {
      assert (d + rest)[1..] == d[1..] + rest;
      DigitPrefixOf(d[1..], rest);
    }
  }

  /** An unsigned decimal numeral: at least one ASCII digit and nothing else. */
  function ParseDigits(t: string): (r: Option<nat>)
    ensures r.Some? <==> |t| > 0 && AllDigits(t)
  {
    if |t| > 0 && AllDigits(t) then Some(DigitsValue(t)) else None
  }

  /** A numeral with an optional sign. */
  function ParseSigned(t: string): Option<int> {
    if |t| > 0 && (t[0] == '+' || t[0] == '-') then
      match ParseDigits(t[1..])
      case None => None
      case Some(v) => var n: int := v; Some(if t[0] == '-' then -n else n)
    else ParseDigits(t)
  }

  /** Python's `int(s)` on a `str`: surrounding whitespace, an optional sign and
      at least one ASCII digit; `None` where Python raises `ValueError`. */
  function ParseInt(s: string): Option<int> {
    ParseSigned(Strip(s, Whitespace))
  }

  lemma DigitNotSpace(c: char)
    requires IsDigit(c) || c == '-'
    ensures c !in Whitespace
  {
  }

  /** `{:d}` writes no whitespace character. */
  lemma FormatIntNoSpace(i: int)
    ensures forall k :: 0 <= k < |FormatInt(i)| ==> FormatInt(i)[k] !in Whitespace
  {
    var f := FormatInt(i);
    var d := NatToDigits(if i < 0 then -i else i);
    forall k | 0 <= k < |f|
      ensures f[k] !in Whitespace
    {
      if i < 0 && k > 0 {
        assert f[k] == d[k - 1];
      }
      DigitNotSpace(f[k]);
    }
  }

  /** In particular it writes neither a leading nor a trailing one. */
  lemma FormatIntEnds(i: int)
    ensures FormatInt(i)[0] !in Whitespace && FormatInt(i)[|FormatInt(i)| - 1] !in Whitespace
  {
    FormatIntNoSpace(i);
  }

  /** What `int()` looks at in what `{:d}` writes: a '-' and the digits of the
      magnitude for a negative number, the digits alone otherwise. */
  lemma FormattedFields(i: int)
    ensures i < 0 ==> FormatInt(i)[0] == '-' && |FormatInt(i)| > 1
                      && AllDigits(FormatInt(i)[1..]) && DigitsValue(FormatInt(i)[1..]) == -i
    ensures i >= 0 ==> IsDigit(FormatInt(i)[0]) && AllDigits(FormatInt(i)) && DigitsValue(FormatInt(i)) == i
  {
    var f := FormatInt(i);
    if i < 0 {
      DigitsRoundTrip(-i);
      assert f[1..] == NatToDigits(-i);
    } else {
      DigitsRoundTrip(i);
    }
  }

  /** `int()` reads back what `{:d}` writes. */
  lemma ReadsFormatted(i: int)
    ensures ParseInt(FormatInt(i)) == Some(i)
  {
    var f := FormatInt(i);
    FormatIntEnds(i);
    StripNothing(f, Whitespace);
    FormattedFields(i);
    if i < 0 {
      assert ParseDigits(f[1..]) == Some(-i);
    } else {
      assert ParseDigits(f) == Some(i);
    }
  }

  /** So it reads back what `{:d}` writes, whatever whitespace surrounds it. */
  lemma ParseFormatted(pre: string, i: int, post: string)
    requires forall k :: 0 <= k < |pre| ==> pre[k] in Whitespace
    requires forall k :: 0 <= k < |post| ==> post[k] in Whitespace
    ensures ParseInt(pre + FormatInt(i) + post) == Some(i)
  {
    FormatIntEnds(i);
    StripAround(pre, FormatInt(i), post, Whitespace);
    StripNothing(FormatInt(i), Whitespace);
    ReadsFormatted(i);
  }
}
