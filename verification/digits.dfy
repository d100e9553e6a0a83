/**
 * Decimal digits of integers: the `get_digits` helper of msg_to_geotiff.py,
 * Python's `str` of an integer, and Python's `int` of a plain decimal string.
 * `math.log10` is taken as exact.
 */
module Digits {
  import opened Wrappers

  function Pow10(k: nat): (p: nat)
    ensures p >= 1
  {
    if k == 0 then 1 else 10 * Pow10(k - 1)
  }

  lemma {:induction false} Pow10Monotonic(j: nat, k: nat)
    requires j <= k
    ensures Pow10(j) <= Pow10(k)
  {
    if j < k {
      Pow10Monotonic(j, k - 1);
    }
  }

  /**
   * `int(math.log10(n)) + 1` for a positive `n`: the number of decimal digits,
   * the `d` with 10^(d-1) <= n < 10^d.
   */
  function DigitCount(n: nat): (d: nat)
    requires n > 0
    ensures d >= 1
    ensures Pow10(d - 1) <= n < Pow10(d)
  {
    if n < 10 then 1 else 1 + DigitCount(n / 10)
  }

  /** The bounds 10^(d-1) <= n < 10^d determine the digit count. */
  lemma DigitCountUnique(n: nat, d: nat)
    requires d >= 1 && Pow10(d - 1) <= n < Pow10(d)
    ensures DigitCount(n) == d
  {
    var c := DigitCount(n);
    if c < d {
      Pow10Monotonic(c, d - 1);
    } else if c > d {
      Pow10Monotonic(d, c - 1);
    }
  }

  /**
   * `get_digits`: the digit count of an integer, where zero has one digit and
   * the minus sign of a negative number counts as one more digit.
   */
  function GetDigits(n: int): (d: nat)
    ensures d >= 1
    ensures n > 0 ==> Pow10(d - 1) <= n < Pow10(d)
    ensures n == 0 ==> d == 1
    ensures n < 0 ==> d >= 2 && Pow10(d - 2) <= -n < Pow10(d - 1)
  {
    if n > 0 then DigitCount(n)
    else if n == 0 then 1
    else DigitCount(-n) + 1
  }

  predicate IsDigit(c: char) {
    '0' <= c <= '9'
  }

  predicate AllDigits(s: string) {
    forall i :: 0 <= i < |s| ==> IsDigit(s[i])
  }

  function DigitChar(d: nat): (c: char)
    requires d < 10
    ensures IsDigit(c)
  {
    "0123456789"[d]
  }

  function DigitValue(c: char): (d: nat)
    requires IsDigit(c)
    ensures d < 10
  {
    (c - '0') as nat
  }

  lemma DigitRoundTrip(d: nat)
    requires d < 10
    ensures DigitValue(DigitChar(d)) == d
  {
  }

  /** Python's `str` of a natural number: its decimal digits, most significant first. */
  function NatToDecimal(n: nat): (s: string)
    ensures |s| >= 1 && AllDigits(s)
  {
    if n < 10 then [DigitChar(n)] else NatToDecimal(n / 10) + [DigitChar(n % 10)]
  }

  /** Python's `str` of an integer: a minus sign, if negative, then the digits. */
  function PyStr(n: int): (s: string)
    ensures |s| >= 1 && (s[0] == '-' <==> n < 0)
    ensures n >= 0 ==> AllDigits(s)
    ensures n < 0 ==> AllDigits(s[1..])
  {
    if n < 0 then "-" + NatToDecimal(-n) else NatToDecimal(n)
  }

  /** `get_digits(n)` is the length of `str(n)`: every character counts, the sign included. */
  lemma {:induction false} GetDigitsIsStrLength(n: int)
    ensures GetDigits(n) == |PyStr(n)|
  {
    if n < 0 {
      NatToDecimalLength(-n);
    } else if n > 0 {
      NatToDecimalLength(n);
    }
  }

  lemma {:induction false} NatToDecimalLength(n: nat)
    requires n > 0
    ensures |NatToDecimal(n)| == DigitCount(n)
  {
    if n >= 10 {
      NatToDecimalLength(n / 10);
    }
  }

  /** The value of a non-empty string of decimal digits, most significant first; it is zero exactly when every digit is `0`. */
  function ParseDigits(s: string): (n: nat)
    requires |s| >= 1 && AllDigits(s)
    ensures n == 0 <==> forall i :: 0 <= i < |s| ==> s[i] == '0'
  {
    if |s| == 1 then DigitValue(s[0])
    else 10 * ParseDigits(s[..|s| - 1]) + DigitValue(s[|s| - 1])
  }

  /** `k` digits are worth less than 10^k. */
  lemma {:induction false} ParseDigitsBound(s: string)
    requires |s| >= 1 && AllDigits(s)
    ensures ParseDigits(s) < Pow10(|s|)
  {
    if |s| > 1 {
      ParseDigitsBound(s[..|s| - 1]);
    }
  }

  /**
   * Python's `int` of a string, for an optional sign followed by decimal
   * digits; anything else raises, here `None`.
   */
  function ParseInt(s: string): (r: Option<int>)
    ensures r.Some? <==> (|s| >= 1 && AllDigits(s)) || (|s| >= 2 && (s[0] == '-' || s[0] == '+') && AllDigits(s[1..]))
    ensures r.Some? && s[0] == '-' ==> r.value <= 0
    ensures r.Some? && s[0] != '-' ==> r.value >= 0
  {
    if |s| >= 2 && (s[0] == '-' || s[0] == '+') && AllDigits(s[1..]) then
      Some(if s[0] == '-' then -(ParseDigits(s[1..]) as int) else ParseDigits(s[1..]))
    else if |s| >= 1 && AllDigits(s) then Some(ParseDigits(s))
    else None
  }

  /** Reading back the decimal digits of a natural number gives the number. */
  lemma {:induction false} ParseNatToDecimal(n: nat)
    ensures ParseDigits(NatToDecimal(n)) == n
  {
    if n >= 10 {
      var s := NatToDecimal(n);
      assert s[..|s| - 1] == NatToDecimal(n / 10);
      ParseNatToDecimal(n / 10);
      DigitRoundTrip(n % 10);
    } else {
      DigitRoundTrip(n);
    }
  }

  lemma ParseIntOfDigits(s: string)
    requires |s| >= 1 && AllDigits(s)
    ensures ParseInt(s) == Some(ParseDigits(s))
  {
    assert IsDigit(s[0]);
  }

  lemma ParseIntOfNegative(digits: string)
    requires |digits| >= 1 && AllDigits(digits)
    ensures ParseInt("-" + digits) == Some(-(ParseDigits(digits) as int))
  {
    var s := "-" + digits;
    assert s[0] == '-' && s[1..] == digits;
  }

  lemma ParseIntOfPlus(digits: string)
    requires |digits| >= 1 && AllDigits(digits)
    ensures ParseInt("+" + digits) == Some(ParseDigits(digits))
  {
    var s := "+" + digits;
    assert s[0] == '+' && s[1..] == digits;
  }

  /** `int(str(n)) == n` for every integer. */
  lemma ParseIntPyStr(n: int)
    ensures ParseInt(PyStr(n)) == Some(n)
  {
    if n < 0 {
      ParseIntPyStrNegative(n);
    } else {
      ParseIntPyStrNatural(n);
    }
  }

  lemma {:induction false} ParseIntPyStrNegative(n: int)
    requires n < 0
    ensures ParseInt(PyStr(n)) == Some(n)
  {
    var m: nat := -n;
    var digits := NatToDecimal(m);
    assert PyStr(n) == "-" + digits;
    assert ParseDigits(digits) == m by {
      ParseNatToDecimal(m);
    }
    assert ParseInt("-" + digits) == Some(-(ParseDigits(digits) as int)) by {
      ParseIntOfNegative(digits);
    }
  }

  lemma {:induction false} ParseIntPyStrNatural(n: nat)
    ensures ParseInt(PyStr(n)) == Some(n)
  {
    var digits := NatToDecimal(n);
    ParseNatToDecimal(n);
    ParseIntOfDigits(digits);
  }

  /** A parsed integer never has more digits, sign included, than the string it came from. */
  lemma ParseIntDigitsBound(s: string)
    requires ParseInt(s).Some?
    ensures GetDigits(ParseInt(s).value) <= |s|
  {
    var v := ParseInt(s).value;
    if v != 0 {
      var digits := if |s| >= 2 && (s[0] == '-' || s[0] == '+') && AllDigits(s[1..]) then s[1..] else s;
      var a := if v < 0 then -v else v;
      assert a == ParseDigits(digits);
      var c := DigitCount(a);
      ParseDigitsBound(digits);
      if c > |digits| {
        Pow10Monotonic(|digits|, c - 1);
      }
    }
  }

  /** The leading digit contributes its value times 10^(|s|-1). */
  lemma {:induction false} ParseDigitsHead(s: string)
    requires |s| >= 2 && AllDigits(s)
    ensures ParseDigits(s) == DigitValue(s[0]) * Pow10(|s| - 1) + ParseDigits(s[1..])
  {
    var n := |s|;
    var init := s[..n - 1];
    var tail := s[1..];
    var last := DigitValue(s[n - 1]);
    var lead := DigitValue(s[0]);
    assert ParseDigits(s) == 10 * ParseDigits(init) + last;
    if n == 2 {
      assert ParseDigits(tail) == last;
    } else {
      ParseDigitsHead(init);
      assert init[0] == s[0];
      assert init[1..] == tail[..n - 2];
      assert tail[n - 2] == s[n - 1];
      assert ParseDigits(tail) == 10 * ParseDigits(init[1..]) + last;
      var p := Pow10(n - 2);
      assert Pow10(n - 1) == 10 * p;
      ScaleByTen(lead, p);
    }
  }

  lemma ScaleByTen(a: nat, p: nat)
    ensures 10 * (a * p) == a * (10 * p)
  {
  }

  /** Digits with a non-zero lead are worth at least 10^(|s|-1). */
  lemma LeadingNonZero(s: string)
    requires |s| >= 2 && AllDigits(s) && s[0] != '0'
    ensures ParseDigits(s) >= Pow10(|s| - 1)
  {
    ParseDigitsHead(s);
    AtLeastOnce(DigitValue(s[0]), Pow10(|s| - 1));
  }

  /** A leading zero adds nothing to the value. */
  lemma LeadingZero(s: string)
    requires |s| >= 2 && AllDigits(s) && s[0] == '0'
    ensures ParseDigits(s) == ParseDigits(s[1..])
  {
    ParseDigitsHead(s);
    var d := DigitValue(s[0]);
    assert d == 0;
    ZeroTimes(d, Pow10(|s| - 1));
  }

  lemma ZeroTimes(d: nat, p: nat)
    requires d == 0
    ensures d * p == 0
  {
  }

  lemma AtLeastOnce(d: nat, p: nat)
    requires d >= 1
    ensures d * p >= p
  {
  }
}
