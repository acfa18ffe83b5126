/**
 * The "Svar%" display string: the response rate rounded to a whole percent
 * with Python's `round` (ties to the even neighbour), followed by " %".
 * The rate is taken as the exact rational 100 * responses / invited.
 */
module PercentFormat {
  import opened Wrappers

  function Abs(x: int): nat { if x < 0 then -x else x }

  /**
   * The integer nearest to n / d; of two equally near integers, the even one.
   */
  function RoundHalfEven(n: int, d: int): (q: int)
    requires d != 0
    ensures 2 * Abs(n - q * d) <= Abs(d)
    ensures 2 * Abs(n - q * d) == Abs(d) ==> q % 2 == 0
  {
    var nn := if d < 0 then -n else n;
    var dd := if d < 0 then -d else d;
    var f := nn / dd;
    var rem := nn % dd;
    assert nn == f * dd + rem && 0 <= rem < dd;
    assert n - f * d == (if d < 0 then -rem else rem);
    assert n - (f + 1) * d == (if d < 0 then dd - rem else rem - dd);
    if 2 * rem < dd then f
    else if 2 * rem > dd then f + 1
    else if f % 2 == 0 then f
    else f + 1
  }

  lemma MulAtLeast(a: nat, b: nat)
    requires a >= 1
    ensures a * b >= b
  {
    var c: nat := a - 1;
    assert c * b >= 0;
    assert a * b == c * b + b;
  }

  lemma AbsMul(m: int, d: int)
    ensures Abs(m * d) == Abs(m) * Abs(d)
  {
    if m < 0 && d < 0 {
      assert m * d == (-m) * (-d);
    } else if m < 0 {
      assert -(m * d) == (-m) * d;
    } else if d < 0 {
      assert -(m * d) == m * (-d);
    }
  }

  lemma MulAbsAtLeast(m: int, d: int)
    requires m != 0
    ensures Abs(m * d) >= Abs(d)
  {
    AbsMul(m, d);
    MulAtLeast(Abs(m), Abs(d));
  }

  /** No other integer is strictly nearer to n / d than RoundHalfEven(n, d). */
  lemma RoundHalfEvenNearest(n: int, d: int, p: int)
    requires d != 0
    ensures Abs(n - RoundHalfEven(n, d) * d) <= Abs(n - p * d)
  {
    var q := RoundHalfEven(n, d);
    if p != q {
      var t := (p - q) * d;
      MulAbsAtLeast(p - q, d);
      assert p * d == q * d + t;
    }
  }

  function DigitChar(d: int): char
    requires 0 <= d < 10
  {
    ('0' as int + d) as char
  }

  predicate IsDigit(c: char) { '0' <= c <= '9' }

  /** Decimal digits of `n`, without leading zeros. */
  function NatToString(n: nat): (s: string)
    ensures |s| > 0 && forall i :: 0 <= i < |s| ==> IsDigit(s[i])
    ensures |s| > 1 ==> s[0] != '0'
  {
    if n < 10 then [DigitChar(n)] else NatToString(n / 10) + [DigitChar(n % 10)]
  }

  /** Python's `str` of an int: a minus sign exactly for a negative number, then the digits without leading zeros. */
  function IntToString(i: int): (s: string)
    ensures |s| > 0 && (s[0] == '-' <==> i < 0)
    ensures var digits := if i < 0 then s[1..] else s;
      |digits| > 0 && (forall k :: 0 <= k < |digits| ==> IsDigit(digits[k])) &&
      (|digits| > 1 ==> digits[0] != '0')
  {
    if i < 0 then "-" + NatToString(-i) else NatToString(i)
  }

  /** The value of a string of decimal digits. */
  function ParseDigits(s: string): nat
    requires forall i :: 0 <= i < |s| ==> IsDigit(s[i])
  {
    if s == [] then 0
    else
      assert IsDigit(s[|s| - 1]);
      ParseDigits(s[..|s| - 1]) * 10 + (s[|s| - 1] as int - '0' as int)
  }

  /** Reads back what IntToString writes; anything else is None. */
  function ParseInt(s: string): Option<int>
  {
    if |s| > 1 && s[0] == '-' && forall i :: 1 <= i < |s| ==> IsDigit(s[i]) then Some(0 - ParseDigits(s[1..]) as int)
    else if |s| > 0 && forall i :: 0 <= i < |s| ==> IsDigit(s[i]) then Some(ParseDigits(s))
    else None
  }

  lemma {:induction false} NatToStringRoundTrip(n: nat)
    ensures ParseDigits(NatToString(n)) == n
  {
    if n >= 10 {
      NatToStringRoundTrip(n / 10);
      var s := NatToString(n);
      assert s[..|s| - 1] == NatToString(n / 10);
    }
  }

  /** IntToString loses nothing: parsing its output gives the integer back. */
  lemma IntToStringRoundTrip(i: int)
    ensures ParseInt(IntToString(i)) == Some(i)
  {
    if i < 0 {
      NatToStringRoundTrip(-i);
      assert IntToString(i)[1..] == NatToString(-i);
    } else {
      NatToStringRoundTrip(i);
    }
  }

  /**
   * The "Svar%" string for `responses` out of `invited`: empty when invited
   * is zero (so no division by zero), otherwise the rounded percentage
   * followed by " %".
   */
  function SvarPercent(responses: int, invited: int): (r: string)
    ensures invited == 0 <==> r == ""
    ensures invited != 0 ==>
      |r| > 2 && r[|r| - 2..] == " %" &&
      r[..|r| - 2] == IntToString(RoundHalfEven(100 * responses, invited)) &&
      ParseInt(r[..|r| - 2]) == Some(RoundHalfEven(100 * responses, invited))
  {
    if invited != 0 then
      var q := RoundHalfEven(100 * responses, invited);
      var digits := IntToString(q);
      IntToStringRoundTrip(q);
      assert (digits + " %")[..|digits|] == digits;
      digits + " %"
    else ""
  }

  /**
   * An exact tie: 23 of 40 is 57.5 %, which rounds half to even to 58. The
   * binary float quotient of `23 / 40 * 100` lies just below 57.5, so
   * Python's `round` gives 57 there.
   */
  lemma SvarPercentTie()
    ensures SvarPercent(23, 40) == "58 %"
  {
    assert RoundHalfEven(2300, 40) == 58;
  }

  lemma SvarPercentExample()
    ensures SvarPercent(37, 50) == "74 %"
    ensures SvarPercent(30, 40) == "75 %"
    ensures SvarPercent(12, 0) == ""
  {
    assert RoundHalfEven(3700, 50) == 74;
    assert RoundHalfEven(3000, 40) == 75;
    assert NatToString(74) == "74" && NatToString(75) == "75";
  }
}
