/** Decimal text for integers: `"%d" % n` and `int(text)` as the injection
    reader uses them (to build image-suffixed column names and to read its
    line and image arguments). */
module Decimal {
  import opened Wrappers

  predicate IsDigit(c: char) { '0' <= c <= '9' }

  predicate AllDigits(s: string) { forall k :: 0 <= k < |s| ==> IsDigit(s[k]) }

  function DigitChar(d: nat): (c: char)
    requires d < 10
    ensures IsDigit(c) && c as int - '0' as int == d
  {
    ('0' as int + d) as char
  }

  /** `"%d" % n` for `n >= 0`: the shortest decimal numeral of `n`. */
  function NatToString(n: nat): (s: string)
    ensures |s| >= 1 && AllDigits(s)
    ensures s[0] == '0' ==> n == 0
  {
    if n < 10 then [DigitChar(n)] else NatToString(n / 10) + [DigitChar(n % 10)]
  }

  /** `"%d" % i`: a minus sign before the numeral of a negative number. */
  function IntToString(i: int): (s: string)
    ensures |s| >= 1
    ensures s[0] == '-' <==> i < 0
  {
    if i < 0 then "-" + NatToString(-i) else NatToString(i)
  }

  /** The value of a string of decimal digits, most significant first. */
  function DigitsValue(s: string): nat
    requires AllDigits(s)
  {
    if s == [] then 0 else DigitsValue(s[..|s| - 1]) * 10 + (s[|s| - 1] as int - '0' as int)
  }

  /** An optional sign followed by at least one decimal digit. */
  predicate IsIntLiteral(s: string)
  {
    (|s| >= 1 && AllDigits(s)) || (|s| >= 2 && (s[0] == '-' || s[0] == '+') && AllDigits(s[1..]))
  }

  /** `int(text)`: an optional sign followed by at least one decimal digit;
      anything else is not an integer. */
  function ParseInt(s: string): (r: Option<int>)
    ensures r.Some? <==> IsIntLiteral(s)
    ensures r.Some? && IsDigit(s[0]) ==> r.value == DigitsValue(s)
    ensures r.Some? && s[0] == '+' ==> r.value == DigitsValue(s[1..])
    ensures r.Some? && s[0] == '-' ==> r.value == -(DigitsValue(s[1..]) as int)
  {
    if |s| >= 2 && (s[0] == '-' || s[0] == '+') && AllDigits(s[1..]) then
      var magnitude: int := DigitsValue(s[1..]);
      Some(if s[0] == '-' then -magnitude else magnitude)
    else if |s| >= 1 && AllDigits(s) then
      Some(DigitsValue(s))
    else
      None
  }

  /** Reading back a numeral gives the number it was written from. */
  lemma {:induction false} NatToStringValue(n: nat)
    ensures DigitsValue(NatToString(n)) == n
  {
    if n >= 10 {
      NatToStringValue(n / 10);
      var s := NatToString(n);
      assert s[..|s| - 1] == NatToString(n / 10);
    }
  }

  /** `int("%d" % i) == i` for every integer `i`. */
  lemma IntToStringRoundTrip(i: int)
    ensures ParseInt(IntToString(i)) == Some(i)
  {
    var s := IntToString(i);
    if i < 0 {
      NatToStringValue(-i);
      assert s[1..] == NatToString(-i);
    } else {
      NatToStringValue(i);
      assert !AllDigits(s[1..]) || s[0] != '-';
    }
  }

  /** Leading zeros do not change the value read: `int("0" + t) == int(t)`
      for a string of digits `t`. */
  lemma {:induction false} LeadingZeroIgnored(t: string)
    requires |t| >= 1 && AllDigits(t)
    ensures ParseInt("0" + t) == ParseInt(t)
  {
    ZeroPrefixValue(t);
  }

  lemma {:induction false} ZeroPrefixValue(t: string)
    requires AllDigits(t)
    ensures AllDigits("0" + t) && DigitsValue("0" + t) == DigitsValue(t)
  {
    var z := "0" + t;
    assert AllDigits(z) by {
      forall k | 0 <= k < |z| ensures IsDigit(z[k]) {
        if k > 0 {
          assert z[k] == t[k - 1];
        }
      }
    }
    if t != [] {
      ZeroPrefixValue(t[..|t| - 1]);
      assert z[..|z| - 1] == "0" + t[..|t| - 1];
      assert z[|z| - 1] == t[|t| - 1];
    }
  }
}
