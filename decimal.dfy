/** Decimal text of numbers: std::to_string for int and float, and the
    prefix parsers behind std::stoi, std::stof and `istream >> int`. */
module Decimal {
  import opened Wrappers
  import opened Text

  function DigitValue(c: char): nat
    requires IsDigit(c)
  {
    (c as int) - ('0' as int)
  }

  function DigitChar(d: nat): (c: char)
    requires d < 10
    ensures IsDigit(c) && DigitValue(c) == d
  {
    ('0' as int + d) as char
  }

  function Pow10(k: nat): (p: nat)
    ensures p >= 1
  {
    if k == 0 then 1 else 10 * Pow10(k - 1)
  }

  /** The value of a string of decimal digits (most significant first). */
  function DigitsValue(s: string): nat
    requires AllDigits(s)
  {
    if |s| == 0 then 0 else 10 * DigitsValue(s[..|s| - 1]) + DigitValue(s[|s| - 1])
  }

  /** std::to_string of a non-negative integer: no leading zero, at least one digit. */
  function NatToDecimal(n: nat): (s: string)
    ensures |s| > 0 && AllDigits(s)
    ensures |s| > 1 ==> s[0] != '0'
  {
    if n < 10 then [DigitChar(n)] else NatToDecimal(n / 10) + [DigitChar(n % 10)]
  }

  /** std::to_string of an int. */
  function IntToDecimal(i: int): (s: string)
    ensures |s| > 0 && (IsDigit(s[0]) || s[0] == '-')
  {
    if i < 0 then "-" + NatToDecimal(-i) else NatToDecimal(i)
  }

  /** `w` digits holding `n` modulo 10^w, zero padded on the left. */
  function PadDigits(n: nat, w: nat): (s: string)
    ensures |s| == w && AllDigits(s)
  {
    if w == 0 then "" else PadDigits(n / 10, w - 1) + [DigitChar(n % 10)]
  }

  const MICRO: nat := 1000000

  /** The value `v` rounded to six decimals (half away from zero), as "%f" prints it. */
  function Rounded(v: real): real {
    Micros(v < 0.0, Scaled(Magnitude(v)))
  }

  function Magnitude(v: real): (m: real)
    ensures m >= 0.0 && (m == v || m == -v)
  {
    if v < 0.0 then -v else v
  }

  /** round(x * 10^6) for a non-negative x */
  function Scaled(x: real): nat
    requires x >= 0.0
  {
    (x * 1000000.0 + 0.5).Floor
  }

  /** `q` millionths, negative when `neg` holds. */
  function Micros(neg: bool, q: nat): real {
    if neg then -(q as real / 1000000.0) else q as real / 1000000.0
  }

  /** std::to_string of a float: "%f", six digits after the point.
      (The rounding of binary floats is not modelled; the value is a real.) */
  function FixedText(v: real): (s: string)
    ensures |s| > 0 && (IsDigit(s[0]) || s[0] == '-')
  {
    MicrosText(v < 0.0, Scaled(Magnitude(v)))
  }

  /** The "%f" text of `q` millionths, with a minus sign when `neg` holds. */
  function MicrosText(neg: bool, q: nat): (s: string)
    ensures |s| > 0 && (IsDigit(s[0]) || s[0] == '-')
  {
    if neg then "-" + MicrosDigits(q) else MicrosDigits(q)
  }

  function MicrosDigits(q: nat): (s: string)
    ensures |s| > 0 && IsDigit(s[0])
  {
    NatToDecimal(q / MICRO) + "." + PadDigits(q % MICRO, 6)
  }

  /** The text left after skipping leading `isspace` characters. */
  function SkipSpaces(s: string): (r: string)
    ensures |r| <= |s|
    ensures |r| > 0 ==> !IsSpace(r[0])
  {
    if |s| > 0 && IsSpace(s[0]) then SkipSpaces(s[1..]) else s
  }

  /** The length of the run of digits that starts `s`. */
  function DigitRun(s: string): (n: nat)
    ensures n <= |s| && AllDigits(s[..n])
    ensures n < |s| ==> !IsDigit(s[n])
  {
    if |s| > 0 && IsDigit(s[0]) then
      var n := 1 + DigitRun(s[1..]);
      assert s[..n] == [s[0]] + s[1..][..n - 1];
      n
    else 0
  }

  /** Whether a leading sign makes the number negative, and the text after the sign. */
  function Unsigned(t: string): (bool, string) {
    if |t| > 0 && (t[0] == '-' || t[0] == '+') then (t[0] == '-', t[1..]) else (false, t)
  }

  /** std::stoi (a decimal prefix: spaces, an optional sign, at least one digit).
      None is the invalid_argument exception; `istream >> int` stores 0 instead. */
  function ParseInt(s: string): Option<int> {
    var t := Unsigned(SkipSpaces(s));
    match UnsignedInt(t.1)
    case None => None
    case Some(v) => Some(if t.0 then -v else v)
  }

  /** The digits that start `u`. */
  function UnsignedInt(u: string): Option<int> {
    var k := DigitRun(u);
    if k == 0 then None else Some(DigitsValue(u[..k]) as int)
  }

  /** std::stof (a decimal prefix: spaces, an optional sign, digits, an optional
      point and digits, at least one digit in all).  None is the invalid_argument
      exception.  Exponents, hexadecimal, "inf" and "nan" are not modelled. */
  function ParseFloat(s: string): Option<real> {
    var t := Unsigned(SkipSpaces(s));
    Negated(t.0, UnsignedFloat(t.1))
  }

  /** The value read after the sign, negated after a minus sign. */
  function Negated(neg: bool, o: Option<real>): Option<real> {
    if o.Some? && neg then Some(-o.value) else o
  }

  /** The digits, optional point and digits that start `u`. */
  function UnsignedFloat(u: string): Option<real> {
    var a := DigitRun(u);
    var rest := u[a..];
    var frac := if |rest| > 0 && rest[0] == '.' then rest[1..] else "";
    var b := DigitRun(frac);
    if a + b == 0 then None
    else if b == 0 then Some(DigitsValue(u[..a]) as real)
    else Some(DigitsValue(u[..a]) as real + Fraction(frac[..b]))
  }

  /** The value of the digits after a decimal point. */
  function Fraction(d: string): real
    requires AllDigits(d)
  {
    Tenths(DigitsValue(d) as real, |d|)
  }

  /** `x` divided by ten `k` times. */
  function Tenths(x: real, k: nat): real {
    if k == 0 then x else Tenths(x, k - 1) / 10.0
  }

  lemma {:induction false} TenthsIsQuotient(x: real, k: nat)
    ensures Tenths(x, k) == x / Pow10(k) as real
  {
    if k > 0 {
      TenthsIsQuotient(x, k - 1);
      assert Pow10(k) as real == 10.0 * Pow10(k - 1) as real;
    }
  }

  // ----- round trips -----

  lemma {:induction false} DigitsOfNat(n: nat)
    ensures DigitsValue(NatToDecimal(n)) == n
  {
    if n >= 10 {
      var s := NatToDecimal(n);
      assert s[..|s| - 1] == NatToDecimal(n / 10);
      DigitsOfNat(n / 10);
    }
  }

  lemma {:induction false} DigitsOfPad(n: nat, w: nat)
    requires n < Pow10(w)
    ensures DigitsValue(PadDigits(n, w)) == n
  {
    if w > 0 {
      var s := PadDigits(n, w);
      assert s[..|s| - 1] == PadDigits(n / 10, w - 1);
      assert n / 10 < Pow10(w - 1);
      DigitsOfPad(n / 10, w - 1);
    }
  }

  /** A digit run followed by a non-digit is read whole. */
  lemma {:induction false} DigitRunOf(d: string, r: string)
    requires AllDigits(d)
    requires |r| == 0 || !IsDigit(r[0])
    ensures DigitRun(d + r) == |d| && (d + r)[..|d|] == d
  {
    if |d| > 0 {
      assert (d + r)[1..] == d[1..] + r;
      DigitRunOf(d[1..], r);
    }
  }

  /** std::stoi reads back what std::to_string wrote, whatever non-digit follows. */
  lemma ParseIntOfDecimal(i: int, r: string)
    requires |r| == 0 || !IsDigit(r[0])
    ensures ParseInt(IntToDecimal(i) + r) == Some(i)
  {
    if i < 0 {
      ParseIntOfNegativeDecimal(i, r);
    } else {
      ParseIntOfNatDecimal(i, r);
    }
  }

  lemma ParseIntOfNatDecimal(n: nat, r: string)
    requires |r| == 0 || !IsDigit(r[0])
    ensures ParseInt(IntToDecimal(n) + r) == Some(n)
  {
    var d := NatToDecimal(n);
    assert UnsignedInt(d + r) == Some(n) by { UnsignedDigits(d, r); DigitsOfNat(n); }
    PlainText(d + r);
  }

  lemma ParseIntOfNegativeDecimal(i: int, r: string)
    requires i < 0
    requires |r| == 0 || !IsDigit(r[0])
    ensures ParseInt(IntToDecimal(i) + r) == Some(i)
  {
    var n: nat := -i;
    var d := NatToDecimal(n);
    assert UnsignedInt(d + r) == Some(n) by { UnsignedDigits(d, r); DigitsOfNat(n); }
    Regroup("-", d, r);
    MinusText(d + r);
  }

  lemma UnsignedDigits(d: string, r: string)
    requires |d| > 0 && AllDigits(d)
    requires |r| == 0 || !IsDigit(r[0])
    ensures UnsignedInt(d + r) == Some(DigitsValue(d) as int)
  {
    DigitRunOf(d, r);
  }

  lemma Regroup(a: string, b: string, c: string)
    ensures (a + b) + c == a + (b + c)
  {
  }

  /** Text that starts with a digit is read without a sign. */
  lemma PlainText(u: string)
    requires |u| > 0 && IsDigit(u[0])
    ensures Unsigned(SkipSpaces(u)) == (false, u)
  {
  }

  /** A minus sign before a digit is read as the sign. */
  lemma MinusText(u: string)
    requires |u| > 0 && IsDigit(u[0])
    ensures Unsigned(SkipSpaces("-" + u)) == (true, u)
  {
    var s := "-" + u;
    assert s[0] == '-' && s[1..] == u;
    assert SkipSpaces(s) == s;
  }

  /** std::stof reads an integer's decimal text as that integer. */
  lemma ParseFloatOfDecimal(i: int, r: string)
    requires |r| == 0 || (!IsDigit(r[0]) && r[0] != '.')
    ensures ParseFloat(IntToDecimal(i) + r) == Some(i as real)
  {
    if i < 0 {
      ParseFloatOfNegativeDecimal(i, r);
    } else {
      ParseFloatOfNatDecimal(i, r);
    }
  }

  lemma ParseFloatOfNatDecimal(n: nat, r: string)
    requires |r| == 0 || (!IsDigit(r[0]) && r[0] != '.')
    ensures ParseFloat(IntToDecimal(n) + r) == Some(n as real)
  {
    var d := NatToDecimal(n);
    assert UnsignedFloat(d + r) == Some(n as real) by { UnsignedInteger(d, r); DigitsOfNat(n); }
    ParseFloatOfPositive(d + r, n as real);
  }

  lemma ParseFloatOfNegativeDecimal(i: int, r: string)
    requires i < 0
    requires |r| == 0 || (!IsDigit(r[0]) && r[0] != '.')
    ensures ParseFloat(IntToDecimal(i) + r) == Some(i as real)
  {
    var n: nat := -i;
    var d := NatToDecimal(n);
    assert UnsignedFloat(d + r) == Some(n as real) by { UnsignedInteger(d, r); DigitsOfNat(n); }
    Regroup("-", d, r);
    ParseFloatOfNegative(d + r, n as real);
  }

  /** std::stof reads the number that starts with a digit. */
  lemma ParseFloatOfPositive(u: string, v: real)
    requires |u| > 0 && IsDigit(u[0]) && UnsignedFloat(u) == Some(v)
    ensures ParseFloat(u) == Some(v)
  {
    PlainText(u);
  }

  lemma ParseFloatAfterMinus(s: string, u: string, v: real)
    requires s == "-" + u
    requires |u| > 0 && IsDigit(u[0]) && UnsignedFloat(u) == Some(v)
    ensures ParseFloat(s) == Some(-v)
  {
    ParseFloatOfNegative(u, v);
  }

  /** std::stof negates the number after a minus sign. */
  lemma ParseFloatOfNegative(u: string, v: real)
    requires |u| > 0 && IsDigit(u[0]) && UnsignedFloat(u) == Some(v)
    ensures ParseFloat("-" + u) == Some(-v)
  {
    MinusText(u);
  }

  lemma UnsignedInteger(d: string, r: string)
    requires |d| > 0 && AllDigits(d)
    requires |r| == 0 || (!IsDigit(r[0]) && r[0] != '.')
    ensures UnsignedFloat(d + r) == Some(DigitsValue(d) as real)
  {
    var u := d + r;
    DigitRunOf(d, r);
    assert u[|d|..] == r;
  }

  /** std::stof reads back the "%f" text of a value: the value rounded to six decimals. */
  lemma ParseFloatOfFixed(v: real, r: string)
    requires |r| == 0 || !IsDigit(r[0])
    ensures ParseFloat(FixedText(v) + r) == Some(Rounded(v))
  {
    ParseFloatOfMicros(v < 0.0, Scaled(Magnitude(v)), r);
  }

  lemma ParseFloatOfMicros(neg: bool, q: nat, r: string)
    requires |r| == 0 || !IsDigit(r[0])
    ensures ParseFloat(MicrosText(neg, q) + r) == Some(Micros(neg, q))
  {
    if neg {
      ParseFloatOfNegativeMicros(neg, q, r);
    } else {
      ParseFloatOfPositiveMicros(neg, q, r);
    }
  }

  lemma ParseFloatOfPositiveMicros(neg: bool, q: nat, r: string)
    requires !neg && (|r| == 0 || !IsDigit(r[0]))
    ensures ParseFloat(MicrosText(neg, q) + r) == Some(Micros(neg, q))
  {
    UnsignedMicros(q, r);
    ParseFloatOfPositive(MicrosDigits(q) + r, q as real / 1000000.0);
  }

  lemma ParseFloatOfNegativeMicros(neg: bool, q: nat, r: string)
    requires neg && (|r| == 0 || !IsDigit(r[0]))
    ensures ParseFloat(MicrosText(neg, q) + r) == Some(Micros(neg, q))
  {
    var u := MicrosDigits(q) + r;
    UnsignedMicros(q, r);
    Regroup("-", MicrosDigits(q), r);
    ParseFloatAfterMinus(MicrosText(true, q) + r, u, q as real / 1000000.0);
  }

  lemma UnsignedMicros(q: nat, r: string)
    requires |r| == 0 || !IsDigit(r[0])
    ensures UnsignedFloat(MicrosDigits(q) + r) == Some(q as real / 1000000.0)
  {
    var ip := NatToDecimal(q / MICRO);
    var fp := PadDigits(q % MICRO, 6);
    Regroup(ip + ".", fp, r);
    Regroup(ip, ".", fp + r);
    UnsignedPointed(ip, fp, r);
    MicrosValue(q);
  }

  /** Digits, a point, at least one digit and then a non-digit. */
  lemma UnsignedPointed(ip: string, fp: string, r: string)
    requires |ip| > 0 && AllDigits(ip) && |fp| > 0 && AllDigits(fp)
    requires |r| == 0 || !IsDigit(r[0])
    ensures UnsignedFloat(ip + ("." + (fp + r))) == Some(DigitsValue(ip) as real + Fraction(fp))
  {
    var frac := fp + r;
    var u := ip + ("." + frac);
    assert DigitRun(u) == |ip| && u[..|ip|] == ip && u[|ip|..] == "." + frac by {
      DigitRunOf(ip, "." + frac);
    }
    assert DigitRun(frac) == |fp| && frac[..|fp|] == fp by {
      DigitRunOf(fp, r);
    }
    UnsignedFloatOf(u, ip, frac, fp);
  }

  lemma UnsignedFloatOf(u: string, ip: string, frac: string, fp: string)
    requires DigitRun(u) == |ip| && u[..|ip|] == ip && u[|ip|..] == "." + frac
    requires DigitRun(frac) == |fp| && frac[..|fp|] == fp && |fp| > 0
    ensures AllDigits(fp)
    ensures UnsignedFloat(u) == Some(DigitsValue(ip) as real + Fraction(fp))
  {
    assert ("." + frac)[1..] == frac;
  }

  /** The two parts of the "%f" text add up to the value. */
  lemma MicrosValue(q: nat)
    ensures DigitsValue(NatToDecimal(q / MICRO)) as real + Fraction(PadDigits(q % MICRO, 6))
         == q as real / 1000000.0
  {
    DigitsOfNat(q / MICRO);
    assert Pow10(6) == MICRO;
    DigitsOfPad(q % MICRO, 6);
    TenthsIsQuotient((q % MICRO) as real, 6);
    SplitMicro(q);
  }

  lemma SplitMicro(q: nat)
    ensures (q / MICRO) as real + (q % MICRO) as real / 1000000.0 == q as real / 1000000.0
  {
    var a, b := q / MICRO, q % MICRO;
    assert q == MICRO * a + b;
    assert (q as real) == 1000000.0 * (a as real) + (b as real);
  }

  /** The rounding of "%f" moves a value by at most half a millionth. */
  lemma RoundedIsClose(v: real)
    ensures -0.0000005 <= Rounded(v) - v <= 0.0000005
  {
    var x := Magnitude(v);
    var y := x * 1000000.0 + 0.5;
    var q := Scaled(x);
    assert q as real <= y < q as real + 1.0;
    assert x * 1000000.0 - 0.5 < q as real <= x * 1000000.0 + 0.5;
  }
}
