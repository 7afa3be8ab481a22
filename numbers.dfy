/**
 * Numbers as the filter sees them: the decimal strings that Python's float()
 * turns into numbers, the integers stored in the table's numeric columns, and
 * the decimal rendering of an integer that an f-string produces.
 */
module Numbers {
  import opened Wrappers

  /** The exact decimal number mantissa / 10^scale. */
  datatype Decimal = Decimal(mantissa: int, scale: nat)

  function Pow10(k: nat): (p: nat)
    ensures p >= 1
  {
    if k == 0 then 1 else 10 * Pow10(k - 1)
  }

  /** Numeric equality between a stored integer and a parsed decimal (pandas' `==`). */
  predicate EqualsInt(d: Decimal, v: int) {
    v * Pow10(d.scale) == d.mantissa
  }

  predicate IsDigit(c: char) {
    '0' <= c <= '9'
  }

  predicate AllDigits(s: string) {
    forall i :: 0 <= i < |s| ==> IsDigit(s[i])
  }

  function DigitValue(c: char): (d: nat)
    requires IsDigit(c)
    ensures d < 10
  {
    c as int - '0' as int
  }

  function DigitChar(d: nat): (c: char)
    requires d < 10
    ensures IsDigit(c) && DigitValue(c) == d
  {
    ('0' as int + d) as char
  }

  /** The value of a string of decimal digits, most significant first. */
  function DigitsValue(s: string): nat
    requires AllDigits(s)
  {
    if s == [] then 0 else 10 * DigitsValue(s[..|s| - 1]) + DigitValue(s[|s| - 1])
  }

  /** The shortest decimal rendering of a natural number. */
  function NatToString(n: nat): (s: string)
    ensures |s| > 0 && AllDigits(s)
  {
    if n < 10 then [DigitChar(n)] else NatToString(n / 10) + [DigitChar(n % 10)]
  }

  /** Python's str() of an int: a minus sign for negatives, then the digits. */
  function IntToString(i: int): string {
    if i < 0 then "-" + NatToString(-i) else NatToString(i)
  }

  /**
   * Reads an unsigned decimal literal left to right: `m` is the value of the
   * digits read so far, `scale` the number of them after the point, `dot`
   * whether the point was read and `digit` whether any digit was.
   */
  function Scan(s: string, m: nat, scale: nat, dot: bool, digit: bool): Option<Decimal> {
    if s == [] then
      if digit then Some(Decimal(m, scale)) else None
    else if IsDigit(s[0]) then
      Scan(s[1..], 10 * m + DigitValue(s[0]), if dot then scale + 1 else scale, dot, true)
    else if s[0] == '.' && !dot then
      Scan(s[1..], m, scale, true, digit)
    else
      None
  }

  /**
   * Python's float() on a plain decimal literal: an optional sign, digits, and
   * at most one decimal point, with at least one digit in all ("3", "-2",
   * "3.", ".5", "3.50"). Any other string makes float() raise, here None.
   */
  function ParseFloat(s: string): Option<Decimal> {
    if |s| > 0 && s[0] == '-' then
      match Scan(s[1..], 0, 0, false, false)
      case None => None
      case Some(d) => Some(Decimal(-d.mantissa, d.scale))
    else if |s| > 0 && s[0] == '+' then
      Scan(s[1..], 0, 0, false, false)
    else
      Scan(s, 0, 0, false, false)
  }

  /** Reading back the digits that NatToString writes gives the number. */
  lemma {:induction false} NatToStringRoundTrip(n: nat)
    ensures DigitsValue(NatToString(n)) == n
  {
    if n >= 10 {
      var s := NatToString(n);
      NatToStringRoundTrip(n / 10);
      assert s[..|s| - 1] == NatToString(n / 10);
    }
  }

  /** Scanning a run of digits before the point folds them into the mantissa. */
  lemma {:induction false} ScanDigits(ds: string, rest: string, m: nat, digit: bool)
    requires AllDigits(ds)
    ensures Scan(ds + rest, m, 0, false, digit) ==
      Scan(rest, m * Pow10(|ds|) + DigitsValue(ds), 0, false, digit || |ds| > 0)
  {
    if ds == [] {
      assert ds + rest == rest;
    } else {
      var init, last := ds[..|ds| - 1], ds[|ds| - 1];
      assert ds + rest == init + ([last] + rest);
      ScanDigits(init, [last] + rest, m, digit);
      var v := m * Pow10(|init|) + DigitsValue(init);
      assert ([last] + rest)[1..] == rest;
      calc {
        10 * v + DigitValue(last);
        m * (10 * Pow10(|init|)) + (10 * DigitsValue(init) + DigitValue(last));
        m * Pow10(|ds|) + DigitsValue(ds);
      }
    }
  }

  /**
   * float(str(n)) == n: the decimal rendering of an integer parses back to
   * exactly that integer. The answers "1" to "5" are the case n in 1..5.
   */
  lemma IntToStringParses(n: int)
    ensures ParseFloat(IntToString(n)) == Some(Decimal(n, 0))
  {
    var digits := NatToString(if n < 0 then -n else n);
    NatToStringRoundTrip(if n < 0 then -n else n);
    ScanDigits(digits, "", 0, false);
    assert digits + "" == digits;
    var s := IntToString(n);
    if n < 0 {
      assert s[0] == '-' && s[1..] == digits;
    } else {
      assert s == digits && IsDigit(s[0]);
    }
  }

  /**
   * A parsed number equals a stored integer exactly when it is whole and the
   * integer is its value: "3.0" equals 3, "3.5" equals no integer at all.
   */
  lemma EqualsIntIff(d: Decimal, v: int)
    ensures EqualsInt(d, v) <==>
      d.mantissa % Pow10(d.scale) == 0 && v == d.mantissa / Pow10(d.scale)
  {
    var p := Pow10(d.scale);
    if EqualsInt(d, v) {
      DivModOfMultiple(v, p);
    }
  }

  lemma DivModOfMultiple(v: int, p: int)
    requires p >= 1
    ensures (v * p) % p == 0 && (v * p) / p == v
  {
    var q, r := (v * p) / p, (v * p) % p;
    assert v * p == p * q + r && 0 <= r < p;
    assert p * (v - q) == r;
    if v - q >= 1 {
      MulAtLeast(p, v - q);
    } else if v - q <= -1 {
      MulAtLeast(p, q - v);
    }
  }

  lemma MulAtLeast(p: int, k: int)
    requires p >= 1 && k >= 1
    ensures p * k >= p
  {
    assert p * k == p + p * (k - 1);
  }
}
