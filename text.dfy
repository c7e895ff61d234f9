/** Decimal digits and the decimal rendering of integers, as JavaScript
    produces them for a template literal such as `${vehicle_id}`. */
module Text {
  import opened Outcomes

  predicate IsDigit(c: char) {
    '0' <= c <= '9'
  }

  predicate AllDigits(s: string) {
    forall i :: 0 <= i < |s| ==> IsDigit(s[i])
  }

  function DigitValue(c: char): (n: int)
    requires IsDigit(c)
    ensures 0 <= n <= 9
  {
    c as int - '0' as int
  }

  function DigitChar(n: int): (c: char)
    requires 0 <= n <= 9
    ensures IsDigit(c) && DigitValue(c) == n
  {
    ('0' as int + n) as char
  }

  /** The number a string of decimal digits denotes, most significant first. */
  function DigitsValue(s: string): (n: nat)
    requires AllDigits(s)
  {
    if s == [] then 0 else DigitsValue(s[..|s| - 1]) * 10 + DigitValue(s[|s| - 1])
  }

  /** The shortest decimal form of a natural number (no leading zeros). */
  function NatToString(n: nat): (s: string)
    ensures |s| > 0 && AllDigits(s)
    ensures |s| == 1 || s[0] != '0'
  {
    if n < 10 then [DigitChar(n)] else NatToString(n / 10) + [DigitChar(n % 10)]
  }

  /** JavaScript's rendering of an integral number: a minus sign for negatives. */
  function IntToString(i: int): (s: string)
  {
    if i < 0 then "-" + NatToString(-i) else NatToString(i)
  }

  /** Reads back what IntToString writes: an optional '-' followed by digits. */
  function ParseInt(s: string): (r: Option<int>)
  {
    if |s| > 1 && s[0] == '-' && AllDigits(s[1..]) then Some(-(DigitsValue(s[1..]) as int))
    else if |s| > 0 && AllDigits(s) then Some(DigitsValue(s) as int)
    else None
  }

  lemma DigitsValueSnoc(a: string, c: char)
    requires AllDigits(a) && IsDigit(c)
    ensures DigitsValue(a + [c]) == DigitsValue(a) * 10 + DigitValue(c)
  {
    assert (a + [c])[..|a|] == a;
  }

  /** Appending two digits shifts the value by a hundred. */
  lemma DigitsValuePair(a: string, b: string)
    requires AllDigits(a) && |b| == 2 && AllDigits(b)
    ensures DigitsValue(a + b) <= DigitsValue(a) * 100 + 99
    ensures DigitsValue(a + b) == DigitsValue(a) * 100 + DigitsValue(b)
  {
    assert a + b == (a + [b[0]]) + [b[1]];
    assert b == [] + [b[0]] + [b[1]];
    DigitsValueSnoc(a, b[0]);
    DigitsValueSnoc(a + [b[0]], b[1]);
    DigitsValueSnoc([], b[0]);
    DigitsValueSnoc([b[0]], b[1]);
    assert [] + [b[0]] == [b[0]];
  }

  lemma {:induction false} NatToStringValue(n: nat)
    ensures DigitsValue(NatToString(n)) == n
  {
    if n >= 10 {
      var s := NatToString(n / 10) + [DigitChar(n % 10)];
      assert s[..|s| - 1] == NatToString(n / 10);
      NatToStringValue(n / 10);
    }
  }

  /** The decimal text of an id identifies the id. */
  lemma IntToStringRoundTrip(i: int)
    ensures ParseInt(IntToString(i)) == Some(i)
  {
    if i < 0 {
      var s := IntToString(i);
      assert s[1..] == NatToString(-i);
      NatToStringValue(-i);
    } else {
      NatToStringValue(i);
      assert NatToString(i)[0] != '-';
    }
  }

  lemma IntToStringInjective(i: int, j: int)
    ensures IntToString(i) == IntToString(j) <==> i == j
  {
    IntToStringRoundTrip(i);
    IntToStringRoundTrip(j);
  }
}
