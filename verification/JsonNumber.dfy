/** Numbers: what a number is printed as, what a text is read as, and what is left of a number
    that was printed. Numbers are reals: that a decimal number is rounded to the nearest
    `double` is not part of this model. */
module JsonNumber {
  import opened Text

  const MILLION: nat := 1000000

  // ----- printing

  /** Whether a number equals its conversion to `int`. */
  predicate IsInt(x: real) {
    x == x.Floor as real && -0x8000_0000 <= x.Floor < 0x8000_0000
  }

  function Abs(x: real): (y: real)
    ensures y >= 0.0
  {
    if x < 0.0 then -x else x
  }

  /** The nearest integer; of two the even one. */
  function Nearest(x: real): (n: nat)
    requires x >= 0.0
    ensures n as real - 0.5 <= x <= n as real + 0.5
    ensures x - n as real == 0.5 || n as real - x == 0.5 ==> n % 2 == 0
  {
    var n, part := x.Floor, x - x.Floor as real;
    if part < 0.5 || (part == 0.5 && n % 2 == 0) then n else n + 1
  }

  /** The millionths `%f` prints. */
  function Micros(x: real): nat {
    Nearest(Abs(x) * 1000000.0)
  }

  /** The last `count` decimal digits of `k`. */
  function LastDigits(k: nat, count: nat): (s: string)
    ensures |s| == count && AllDigits(s, 10)
  {
    if count == 0 then "" else LastDigits(k / 10, count - 1) + [('0' as int + k % 10) as char]
  }

  /** `%f`. */
  function PrintFixed(x: real): string {
    (if x < 0.0 then "-" else "") + Decimal(Micros(x) / MILLION) + "." + LastDigits(Micros(x) % MILLION, 6)
  }

  /** `%d` for a number of type `int`, `%f` for any other. */
  function PrintNumber(x: real): string {
    if IsInt(x) then PrintInt(x.Floor) else PrintFixed(x)
  }

  // ----- reading

  /** Digits of the whole part, then of the fraction behind a point. */
  function WholeLength(u: string): (n: nat)
    ensures n <= |u|
  {
    DigitRun(u, 10)
  }

  function FractionLength(u: string): (n: nat)
    ensures At(u, WholeLength(u)) == '.' ==> WholeLength(u) + 1 + n <= |u|
  {
    var n := WholeLength(u);
    if At(u, n) == '.' then DigitRun(u[n + 1..], 10) else 0
  }

  /** Where the digits and the point end; nothing is taken without a digit. */
  function MantissaLength(u: string): (n: nat)
    ensures n <= |u|
  {
    var n, f := WholeLength(u), FractionLength(u);
    if n + f == 0 then 0 else if At(u, n) == '.' then n + 1 + f else n
  }

  /** An exponent counts only if it has digits. */
  function ExponentLength(t: string): (n: nat)
    ensures n <= |t|
  {
    if At(t, 0) != 'e' && At(t, 0) != 'E' then 0
    else
      var k := if At(t, 1) == '+' || At(t, 1) == '-' then 2 else 1;
      var d := DigitRun(t[k..], 10);
      if d == 0 then 0 else k + d
  }

  function ExponentOf(t: string): int
  {
    var n := ExponentLength(t);
    if n == 0 then 0
    else if t[1] == '-' then 0 - ValueIn(t[2..n], 10)
    else if t[1] == '+' then ValueIn(t[2..n], 10)
    else ValueIn(t[1..n], 10)
  }

  function Scaled(x: real, exponent: int): real
    decreases if exponent < 0 then -exponent else exponent
  {
    if exponent == 0 then x
    else if exponent > 0 then Scaled(x * 10.0, exponent - 1)
    else Scaled(x / 10.0, exponent + 1)
  }

  /** A hexadecimal digit follows `0x`, perhaps behind a point. */
  predicate StartsHex(u: string) {
    && At(u, 0) == '0' && (At(u, 1) == 'x' || At(u, 1) == 'X')
    && (DigitOf(At(u, 2)) < 16 || (At(u, 2) == '.' && DigitOf(At(u, 3)) < 16))
  }

  function SignLength(s: string): (n: nat)
    ensures n <= |s|
  {
    if s != "" && s[0] == '-' then 1 else 0
  }

  /** Where `strtod` stops. Of a hexadecimal number only the start is taken here: it is
      refused by `IsDecimal` whatever comes after its `x`. */
  function NumberLength(s: string): (n: nat)
    ensures n <= |s|
  {
    var sign := SignLength(s);
    var u := s[sign..];
    var n := MantissaLength(u);
    if StartsHex(u) then sign + 2
    else if n == 0 then 0
    else sign + n + ExponentLength(u[n..])
  }

  /** The decimal number a text without sign starts with. */
  function Magnitude(u: string): real {
    var n, f, m := WholeLength(u), FractionLength(u), MantissaLength(u);
    var digits := if f == 0 then u[..n] else u[..n] + u[n + 1..n + 1 + f];
    Scaled(ValueIn(digits, 10) as real, ExponentOf(u[m..]) - f)
  }

  /** The value `strtod` gives; without a number it is 0. */
  function NumberOf(s: string): real {
    if NumberLength(s) == 0 then 0.0
    else if SignLength(s) == 1 then -Magnitude(s[1..])
    else Magnitude(s)
  }

  /** `is_decimal`: no superfluous leading zero and no hexadecimal marker. */
  predicate IsDecimal(t: string) {
    && !(|t| > 1 && t[0] == '0' && t[1] != '.')
    && !(|t| > 2 && t[0] == '-' && t[1] == '0' && t[2] != '.')
    && 'x' !in t && 'X' !in t
  }

  // ----- reading what was printed

  /** No character that would make a number longer. */
  predicate EndsNumber(rest: string) {
    rest == "" || (DigitOf(rest[0]) >= 10 && rest[0] !in ".eExX")
  }

  /** What is left of a number after it was printed: six decimals. */
  function Rounded(x: real): real {
    if IsInt(x) then x
    else if x < 0.0 then -(Micros(x) as real / 1000000.0)
    else Micros(x) as real / 1000000.0
  }

  /** A multiple of one millionth. */
  predicate IsMicro(x: real) {
    x * 1000000.0 == (x * 1000000.0).Floor as real
  }

  /** Printing moves a number by at most half a millionth, and not at all exactly if it is a
      multiple of one millionth; what was read back does not move again. */
  lemma RoundedExactly(x: real)
    ensures Rounded(x) == x <==> IsMicro(x)
    ensures -0.0000005 <= Rounded(x) - x <= 0.0000005
    ensures Rounded(Rounded(x)) == Rounded(x)
  {
    RoundedIsNear(x);
    RoundedIsMicro(x);
    if IsMicro(x) {
      MicroStays(x);
    }
    MicroStays(Rounded(x));
  }

  lemma RoundedIsNear(x: real)
    ensures -0.0000005 <= Rounded(x) - x <= 0.0000005
  {
  }

  lemma RoundedIsMicro(x: real)
    ensures IsMicro(Rounded(x))
  {
    var m: int := Micros(x);
    if IsInt(x) {
      IntegerIsMicro(x.Floor * 1000000, x);
    } else if x < 0.0 {
      IntegerIsMicro(-m, Rounded(x));
    } else {
      IntegerIsMicro(m, Rounded(x));
    }
  }

  lemma IntegerIsMicro(k: int, x: real)
    requires x * 1000000.0 == k as real
    ensures IsMicro(x)
  {
  }

  lemma NearestOfInteger(k: nat)
    ensures Nearest(k as real) == k
  {
  }

  lemma MicroStays(x: real)
    requires IsMicro(x)
    ensures Rounded(x) == x
  {
    hide Nearest;
    var k := (x * 1000000.0).Floor;
    if x < 0.0 {
      assert Abs(x) * 1000000.0 == (0 - k) as real;
      NearestOfInteger(0 - k);
    } else {
      NearestOfInteger(k);
    }
  }

  lemma OneMoreLastDigit(w: string, k: nat, count: nat)
    ensures ValueIn(w + LastDigits(k, count + 1), 10) == 10 * ValueIn(w + LastDigits(k / 10, count), 10) + k % 10
  {
    var s := w + LastDigits(k, count + 1);
    assert s[..|s| - 1] == w + LastDigits(k / 10, count);
  }

  lemma SixMoreDigits(w: string, k: nat)
    requires k < MILLION
    ensures ValueIn(w + LastDigits(k, 6), 10) == 1000000 * ValueIn(w, 10) + k
  {
    hide ValueIn, LastDigits;
    OneMoreLastDigit(w, k, 5);
    OneMoreLastDigit(w, k / 10, 4);
    OneMoreLastDigit(w, k / 10 / 10, 3);
    OneMoreLastDigit(w, k / 10 / 10 / 10, 2);
    OneMoreLastDigit(w, k / 10 / 10 / 10 / 10, 1);
    OneMoreLastDigit(w, k / 10 / 10 / 10 / 10 / 10, 0);
    NoLastDigits(w, k / 10 / 10 / 10 / 10 / 10 / 10);
  }

  lemma NoLastDigits(w: string, k: nat)
    ensures w + LastDigits(k, 0) == w
  {
  }

  lemma ScaledToMillionths(v: real)
    ensures Scaled(v, -6) == v / 1000000.0 && Scaled(v, 0) == v
  {
    assert Scaled(v, -6) == Scaled(v / 10.0, -5) == Scaled(v / 10.0 / 10.0, -4);
    assert Scaled(v / 10.0 / 10.0, -4) == Scaled(v / 10.0 / 10.0 / 10.0 / 10.0, -2);
  }

  /** A number of type `int` is printed as the integer it is, any other with a point; a
      minus sign stands before a number below 0 and no other. */
  lemma PrintedForm(x: real)
    ensures '.' !in PrintNumber(x) <==> x == x.Floor as real && -2147483648.0 <= x <= 2147483647.0
    ensures '.' !in PrintNumber(x) ==> PrintNumber(x) == PrintInt(x.Floor)
    ensures PrintNumber(x)[..1] == "-" <==> x < 0.0
  {
    hide LastDigits, Nearest, Decimal;
    if IsInt(x) {
      var n: int := x.Floor;
      AllDigitsHavePoint(Decimal(if n < 0 then 0 - n else n));
    } else {
      var w := Decimal(Micros(x) / MILLION);
      AllDigitsHavePoint(w);
      assert "." + LastDigits(Micros(x) % MILLION, 6) == PrintNumber(x)[|PrintNumber(x)| - 7..];
    }
  }

  lemma AllDigitsHavePoint(s: string)
    requires AllDigits(s, 10) && s != ""
    ensures '.' !in s && s[0] != '-'
  {
  }

  function PowerOfTen(n: nat): real {
    if n == 0 then 1.0 else 10.0 * PowerOfTen(n - 1)
  }

  /** An exponent multiplies with a power of ten or divides by it. */
  lemma {:induction false} ScaledIs(x: real, n: nat)
    ensures Scaled(x, n) == x * PowerOfTen(n) && Scaled(x, 0 - n) * PowerOfTen(n) == x
    decreases n
  {
    if n > 0 {
      ScaledIs(x * 10.0, n - 1);
      ScaledIs(x / 10.0, n - 1);
      assert (x * 10.0) * PowerOfTen(n - 1) == x * (10.0 * PowerOfTen(n - 1));
      assert Scaled(x, 0 - n) == Scaled(x / 10.0, 0 - (n - 1));
      TenTimes(Scaled(x, 0 - n), PowerOfTen(n - 1));
    }
  }

  lemma TenTimes(y: real, p: real)
    ensures y * (10.0 * p) == 10.0 * (y * p)
  {
  }

  // ----- numerals

  datatype Exponent = NoExponent | Exponent(marker: char, sign: string, digits: string)

  /** A decimal number as it may be written: a sign, digits, a point, more digits and an
      exponent. */
  datatype Numeral = Numeral(negative: bool, whole: string, point: bool, fraction: string, exponent: Exponent)

  function ExponentText(e: Exponent): string {
    if e.NoExponent? then "" else [e.marker] + e.sign + e.digits
  }

  function ExponentValue(e: Exponent): int {
    if e.NoExponent? then 0
    else if e.sign == "-" then 0 - ValueIn(e.digits, 10)
    else ValueIn(e.digits, 10)
  }

  predicate LegalExponent(e: Exponent) {
    e.Exponent? ==>
      && (e.marker == 'e' || e.marker == 'E') && (e.sign == "" || e.sign == "-" || e.sign == "+")
      && e.digits != "" && AllDigits(e.digits, 10)
  }

  function UnsignedText(n: Numeral): string {
    n.whole + (if n.point then "." else "") + n.fraction + ExponentText(n.exponent)
  }

  function NumeralText(n: Numeral): string {
    if n.negative then "-" + UnsignedText(n) else UnsignedText(n)
  }

  function NumeralValue(n: Numeral): real {
    var x := Scaled(ValueIn(n.whole + n.fraction, 10) as real, ExponentValue(n.exponent) - |n.fraction|);
    if n.negative then -x else x
  }

  /** At least one digit, and before the point only behind a sign none; a leading zero stands
      alone or before a point. */
  predicate LegalNumeral(n: Numeral) {
    && AllDigits(n.whole, 10) && AllDigits(n.fraction, 10) && n.whole + n.fraction != ""
    && (n.fraction != "" ==> n.point) && (!n.negative ==> n.whole != "")
    && LegalExponent(n.exponent)
    && (n.whole != "" && n.whole[0] == '0' ==> |n.whole| == 1 && (n.point || n.exponent.NoExponent?))
  }

  // ----- reading a numeral

  lemma EndIsNoDigit(rest: string)
    requires EndsNumber(rest)
    ensures EndsDigits(rest, 10) && ExponentLength(rest) == 0 && ExponentOf(rest) == 0
    ensures At(rest, 0) !in ".eExX"
  {
  }

  lemma InFour(c: char, x: string, y: string, z: string)
    ensures var t, k := [c] + x + y + z, 1 + |x|;
      && t[0] == c && |t| >= k + |y| && t[k..] == y + z && t[k..k + |y|] == y
      && (if x != "" then t[1] == x[0] else y != "" ==> t[1] == y[0])
  {
  }

  lemma ExponentParts(e: Exponent, rest: string)
    requires LegalExponent(e) && e.Exponent? && EndsDigits(rest, 10)
    ensures var t := ExponentText(e) + rest; var k := 1 + |e.sign|;
      && t[0] == e.marker && |t| >= k + |e.digits| && DigitRun(t[k..], 10) == |e.digits|
      && t[k..k + |e.digits|] == e.digits
      && (e.sign == "" ==> '0' <= t[1] <= '9') && (e.sign != "" ==> t[1] == e.sign[0])
  {
    hide EndsDigits, DigitRun;
    InFour(e.marker, e.sign, e.digits, rest);
    DigitRunOf(e.digits, rest, 10);
    DigitIsNoSign(e.digits[0]);
  }

  lemma ExponentTextLength(e: Exponent)
    requires e.Exponent?
    ensures |ExponentText(e)| == 1 + |e.sign| + |e.digits|
  {
  }

  /** A text whose exponent is found where it should be. */
  lemma ExponentAt(t: string, e: Exponent)
    requires LegalExponent(e) && e.Exponent?
    requires var k := 1 + |e.sign|;
      && |t| >= k + |e.digits| && t[0] == e.marker && DigitRun(t[k..], 10) == |e.digits|
      && t[k..k + |e.digits|] == e.digits
      && (e.sign == "" ==> '0' <= t[1] <= '9') && (e.sign != "" ==> t[1] == e.sign[0])
    ensures ExponentLength(t) == 1 + |e.sign| + |e.digits| && ExponentOf(t) == ExponentValue(e)
    ensures EndsDigits(t, 10) && At(t, 0) !in ".xX"
  {
    hide ValueIn, DigitRun, AllDigits;
  }

  lemma ExponentRead(e: Exponent, rest: string)
    requires LegalExponent(e) && EndsNumber(rest)
    ensures var t := ExponentText(e) + rest;
      && ExponentLength(t) == |ExponentText(e)| && ExponentOf(t) == ExponentValue(e)
      && EndsDigits(t, 10) && At(t, 0) !in ".xX"
  {
    hide EndsNumber, ValueIn, DigitRun, AllDigits;
    EndIsNoDigit(rest);
    if e.Exponent? {
      hide ExponentText, ExponentLength, ExponentOf, ExponentValue, EndsDigits;
      ExponentParts(e, rest);
      ExponentTextLength(e);
      ExponentAt(ExponentText(e) + rest, e);
    } else {
      assert ExponentText(e) + rest == rest;
    }
  }

  /** Where the parts of an unsigned numeral end. */
  lemma LengthsRead(w: string, point: bool, f: string, t: string)
    requires AllDigits(w, 10) && AllDigits(f, 10) && w + f != "" && (f != "" ==> point)
    requires EndsDigits(t, 10) && At(t, 0) != '.'
    ensures var u := w + (if point then "." else "") + f + t; var n := |w| + (if point then 1 + |f| else 0);
      && WholeLength(u) == |w| && FractionLength(u) == |f| && MantissaLength(u) == n
      && n <= |u| && u[..|w|] == w && u[n..] == t && (f != "" ==> u[|w| + 1..|w| + 1 + |f|] == f)
  {
    hide EndsDigits, AllDigits, DigitRun;
    var u := w + (if point then "." else "") + f + t;
    if point {
      assert u == w + ("." + (f + t));
      PointEndsDigits(f + t);
      DigitRunOf(w, "." + (f + t), 10);
      assert u[|w|] == '.' && u[|w| + 1..] == f + t;
      DigitRunOf(f, t, 10);
    } else {
      assert u == w + t;
      DigitRunOf(w, t, 10);
      assert At(u, |w|) == At(t, 0);
    }
  }

  lemma PointEndsDigits(x: string)
    ensures EndsDigits("." + x, 10)
  {
  }

  lemma NoHex(w: string, t: string)
    requires AllDigits(w, 10) && (w == "" ==> t != "" && t[0] == '.')
    requires |w| == 1 ==> At(t, 0) !in "xX"
    ensures !StartsHex(w + t) && SignLength(w + t) == 0
  {
    var u := w + t;
    if w != "" {
      DigitIsNoSign(w[0]);
      if |w| > 1 {
        DigitIsNoSign(w[1]);
        assert At(u, 1) == w[1];
      } else {
        assert At(u, 1) == At(t, 0);
      }
    }
  }

  lemma MagnitudeOf(u: string, w: string, f: string, m: nat, e: int)
    requires WholeLength(u) == |w| && FractionLength(u) == |f| && MantissaLength(u) == m <= |u|
    requires |w| <= |u| && u[..|w|] == w && ExponentOf(u[m..]) == e
    requires f != "" ==> |w| + 1 + |f| <= |u| && u[|w| + 1..|w| + 1 + |f|] == f
    ensures Magnitude(u) == Scaled(ValueIn(w + f, 10) as real, e - |f|)
  {
    hide ValueIn, ExponentOf, Scaled, WholeLength, FractionLength, MantissaLength;
    assert f == "" ==> w + f == w;
  }

  /** The text of an unsigned numeral, with what follows the fraction taken together. */
  lemma UnsignedParts(n: Numeral, rest: string)
    ensures var t := ExponentText(n.exponent) + rest; var dot := if n.point then "." else "";
      && UnsignedText(n) + rest == n.whole + dot + n.fraction + t == n.whole + (dot + n.fraction + t)
      && |UnsignedText(n)| == |n.whole| + |dot| + |n.fraction| + |ExponentText(n.exponent)|
      && (dot == "" && n.fraction == "" ==> dot + n.fraction + t == t)
  {
  }

  lemma UnsignedIsNotHex(n: Numeral, rest: string)
    requires LegalNumeral(n)
    requires At(ExponentText(n.exponent) + rest, 0) !in ".xX"
    ensures var u := UnsignedText(n) + rest; !StartsHex(u) && SignLength(u) == 0
  {
    hide StartsHex, SignLength, LegalExponent, UnsignedText, ExponentText, AllDigits;
    var dot := if n.point then "." else "";
    var x := dot + n.fraction + (ExponentText(n.exponent) + rest);
    UnsignedParts(n, rest);
    if n.point {
      assert x[0] == '.';
    }
    NoHex(n.whole, x);
  }

  lemma UnsignedRead(n: Numeral, rest: string)
    requires LegalNumeral(n) && EndsNumber(rest)
    ensures var t := UnsignedText(n); var u := t + rest; var m := MantissaLength(u);
      && !StartsHex(u) && SignLength(u) == 0 && 0 < m <= |u| && m + ExponentLength(u[m..]) == |t|
      && Magnitude(u) == Scaled(ValueIn(n.whole + n.fraction, 10) as real, ExponentValue(n.exponent) - |n.fraction|)
  {
    hide ValueIn, ExponentOf, ExponentLength, ExponentText, ExponentValue, Scaled, EndsNumber, EndsDigits, AllDigits,
      WholeLength, FractionLength, MantissaLength, Magnitude, StartsHex, SignLength, LegalExponent, UnsignedText;
    var t, u := ExponentText(n.exponent) + rest, UnsignedText(n) + rest;
    UnsignedParts(n, rest);
    ExponentRead(n.exponent, rest);
    LengthsRead(n.whole, n.point, n.fraction, t);
    UnsignedIsNotHex(n, rest);
    MagnitudeOf(u, n.whole, n.fraction, MantissaLength(u), ExponentValue(n.exponent));
  }

  predicate DigitsOrPoint(s: string) {
    forall i :: 0 <= i < |s| ==> '0' <= s[i] <= '9' || s[i] == '.'
  }

  lemma AllDigitsArePlain(s: string)
    requires AllDigits(s, 10)
    ensures DigitsOrPoint(s)
  {
    forall i | 0 <= i < |s| ensures '0' <= s[i] <= '9' {
      DigitIsNoSign(s[i]);
    }
  }

  /** Digits, points, exponent markers and signs. */
  predicate Numeric(s: string) {
    forall i :: 0 <= i < |s| ==> '0' <= s[i] <= '9' || s[i] in ".eE+-"
  }

  lemma NumeralIsNumeric(n: Numeral)
    requires LegalNumeral(n)
    ensures Numeric(UnsignedText(n))
  {
    AllDigitsArePlain(n.whole);
    AllDigitsArePlain(n.fraction);
    if n.exponent.Exponent? {
      AllDigitsArePlain(n.exponent.digits);
    }
  }

  lemma LeadingZero(n: Numeral)
    requires LegalNumeral(n)
    ensures var u := UnsignedText(n); u != "" && u[0] != '-' && (u[0] == '0' && |u| > 1 ==> u[1] == '.')
  {
    hide LegalExponent, AllDigits;
    var u := UnsignedText(n);
    if n.whole == "" {
      assert u[0] == '.';
    } else if n.whole[0] == '0' {
      assert |n.whole| == 1 && u[0] == '0';
      if n.point {
        assert u[1] == '.';
      } else {
        assert ExponentText(n.exponent) == "" && n.fraction == "";
      }
    } else {
      FirstIsDigit(n.whole);
      assert u[0] == n.whole[0];
    }
  }

  lemma FirstIsDigit(w: string)
    requires w != "" && AllDigits(w, 10)
    ensures '0' <= w[0] <= '9'
  {
    DigitIsNoSign(w[0]);
  }

  lemma NumeralIsDecimal(n: Numeral)
    requires LegalNumeral(n)
    ensures IsDecimal(NumeralText(n))
  {
    hide LegalNumeral, UnsignedText;
    NumeralIsNumeric(n);
    LeadingZero(n);
    var u := UnsignedText(n);
    var s := "-" + u;
    assert forall i :: 0 <= i < |u| ==> s[i + 1] == u[i];
  }

  lemma SignedRead(t: string, rest: string)
    requires t != "" && !StartsHex(t + rest) && SignLength(t + rest) == 0
    requires var m := MantissaLength(t + rest); m > 0 && m + ExponentLength((t + rest)[m..]) == |t|
    ensures NumberLength(t + rest) == |t| && NumberOf(t + rest) == Magnitude(t + rest)
    ensures var s := "-" + t + rest; NumberLength(s) == 1 + |t| && NumberOf(s) == -Magnitude(t + rest)
  {
    hide StartsHex, MantissaLength, Magnitude, ExponentLength;
    var u, s := t + rest, "-" + t + rest;
    assert u[0..] == u && s[1..] == u;
  }

  /** Reading a numeral takes all of its text and gives its value. */
  lemma NumeralRead(n: Numeral, rest: string)
    requires LegalNumeral(n) && EndsNumber(rest)
    ensures var t := NumeralText(n);
      NumberLength(t + rest) == |t| && IsDecimal(t) && NumberOf(t + rest) == NumeralValue(n)
  {
    hide NumberLength, NumberOf, IsDecimal, EndsNumber, StartsHex, Magnitude, MantissaLength, ExponentLength,
      UnsignedText, LegalNumeral, ExponentValue, Scaled, ValueIn;
    NumeralIsDecimal(n);
    UnsignedRead(n, rest);
    SignedRead(UnsignedText(n), rest);
  }

  lemma ExponentFound(t: string) returns (e: Exponent)
    ensures LegalExponent(e) && t[..ExponentLength(t)] == ExponentText(e) && ExponentOf(t) == ExponentValue(e)
  {
    hide ValueIn, DigitRun;
    var n := ExponentLength(t);
    if n == 0 {
      e := NoExponent;
    } else {
      var k := if At(t, 1) == '+' || At(t, 1) == '-' then 2 else 1;
      e := Exponent(t[0], t[1..k], t[k..n]);
      assert t[k..n] == t[k..][..n - k];
      InThree(t, k, n);
    }
  }

  lemma InThree(t: string, k: nat, n: nat)
    requires 1 <= k <= n <= |t|
    ensures t[..n] == [t[0]] + t[1..k] + t[k..n]
  {
  }

  /** A text put together from its parts. */
  lemma TextOfParts(u: string, i: nat, m: nat, k: nat, point: bool)
    requires i <= m <= k <= |u| && if point then i < m && u[i] == '.' else m == i
    ensures u[..k] == u[..i] + (if point then "." else "") + (if point then u[i + 1..m] else "") + u[m..k]
  {
    assert u[..k] == u[..i] + u[i..m] + u[m..k];
    if point {
      assert u[i..m] == "." + u[i + 1..m];
    }
  }

  lemma FractionFound(u: string)
    requires MantissaLength(u) > 0
    ensures var i, f, m := WholeLength(u), FractionLength(u), MantissaLength(u);
      && AllDigits(u[..i], 10) && AllDigits("", 10) && i <= m <= |u| && i + f > 0
      && (At(u, i) == '.' ==> m == i + 1 + f && u[i] == '.' && AllDigits(u[i + 1..m], 10))
      && (At(u, i) != '.' ==> m == i && f == 0)
  {
    var i, f, m := WholeLength(u), FractionLength(u), MantissaLength(u);
    if At(u, i) == '.' {
      assert u[i + 1..m] == u[i + 1..][..f];
    }
  }

  /** The numeral an unsigned text starts with. */
  lemma UnsignedFound(u: string, negative: bool) returns (n: Numeral)
    requires MantissaLength(u) > 0
    ensures n.negative == negative && n.whole == u[..WholeLength(u)] && AllDigits(n.whole, 10)
      && AllDigits(n.fraction, 10)
    ensures n.whole + n.fraction != "" && (n.fraction != "" ==> n.point) && LegalExponent(n.exponent)
    ensures var m := MantissaLength(u); u[..m + ExponentLength(u[m..])] == UnsignedText(n)
    ensures n.point <==> At(u, WholeLength(u)) == '.'
    ensures Magnitude(u) == Scaled(ValueIn(n.whole + n.fraction, 10) as real, ExponentValue(n.exponent) - |n.fraction|)
  {
    hide ValueIn, ExponentLength, ExponentOf, ExponentText, ExponentValue, Scaled, LegalExponent, AllDigits, Magnitude,
      WholeLength, FractionLength, MantissaLength;
    var i, m := WholeLength(u), MantissaLength(u);
    var k := m + ExponentLength(u[m..]);
    var e := ExponentFound(u[m..]);
    var point := At(u, i) == '.';
    FractionFound(u);
    n := Numeral(negative, u[..i], point, if point then u[i + 1..m] else "", e);
    assert |n.whole| + |n.fraction| > 0;
    MagnitudeOf(u, n.whole, n.fraction, m, ExponentValue(e));
    assert u[m..k] == u[m..][..k - m];
    TextOfParts(u, i, m, k, point);
  }

  lemma HexIsNotDecimal(s: string)
    requires StartsHex(s[SignLength(s)..])
    ensures !IsDecimal(s[..NumberLength(s)])
  {
    var sign := SignLength(s);
    assert s[..NumberLength(s)][sign + 1] == s[sign..][1];
  }

  /** How the text of an unsigned numeral starts. */
  lemma UnsignedStart(n: Numeral)
    requires AllDigits(n.whole, 10) && n.whole + n.fraction != "" && (n.fraction != "" ==> n.point)
      && LegalExponent(n.exponent)
    ensures var v := UnsignedText(n);
      && v != "" && (if n.whole == "" then v[0] == '.' else v[0] == n.whole[0])
      && (|n.whole| > 1 ==> |v| > 1 && v[1] != '.')
      && (|n.whole| == 1 && !n.point && n.exponent.Exponent? ==> |v| > 1 && v[1] != '.')
  {
    var v := UnsignedText(n);
    if |n.whole| > 1 {
      DigitIsNoSign(n.whole[1]);
      assert v[1] == n.whole[1];
    } else if |n.whole| == 1 && !n.point && n.exponent.Exponent? {
      assert v == n.whole + ExponentText(n.exponent);
    }
  }

  lemma DecimalStart(v: string, negative: bool)
    requires v != "" && IsDecimal(if negative then "-" + v else v)
    ensures v[0] == '0' && |v| > 1 ==> v[1] == '.'
  {
    var t := "-" + v;
    assert t[1] == v[0] && (|v| > 1 ==> t[2] == v[1]);
  }

  /** Whatever is read as a number and passes `IsDecimal` is a numeral. */
  lemma NumeralFound(s: string) returns (n: Numeral)
    requires NumberLength(s) > 0 && IsDecimal(s[..NumberLength(s)])
    requires s[0] == '-' || '0' <= s[0] <= '9'
    ensures LegalNumeral(n) && s[..NumberLength(s)] == NumeralText(n) && NumberOf(s) == NumeralValue(n)
  {
    hide ExponentLength, Magnitude, LegalExponent, Scaled, ExponentText, ExponentValue, AllDigits, ValueIn, IsDecimal,
      StartsHex, MantissaLength, WholeLength, UnsignedText;
    var u := s[SignLength(s)..];
    if StartsHex(u) {
      HexIsNotDecimal(s);
      assert false;
    }
    n := UnsignedFound(u, SignLength(s) == 1);
    var v := UnsignedText(n);
    SignApart(s, |v|);
    UnsignedStart(n);
    DecimalStart(v, n.negative);
  }

  lemma SignApart(s: string, m: nat)
    requires SignLength(s) + m <= |s|
    ensures var v := s[SignLength(s)..][..m];
      && s[..SignLength(s) + m] == (if SignLength(s) == 1 then "-" + v else v)
      && (SignLength(s) == 0 && m > 0 ==> v[0] == s[0])
      && (SignLength(s) == 0 ==> s[0..] == s)
  {
  }

  /** The numeral a number is printed as. */
  function PrintedNumeral(x: real): Numeral {
    if IsInt(x) then Numeral(x < 0.0, Decimal(if x.Floor < 0 then 0 - x.Floor else x.Floor), false, "", NoExponent)
    else Numeral(x < 0.0, Decimal(Micros(x) / MILLION), true, LastDigits(Micros(x) % MILLION, 6), NoExponent)
  }

  lemma PrintedNumeralText(x: real)
    ensures LegalNumeral(PrintedNumeral(x)) && NumeralText(PrintedNumeral(x)) == PrintNumber(x)
  {
    hide ValueIn, Decimal, LastDigits, Nearest, Scaled, Rounded, NumeralValue;
    if IsInt(x) {
      var m := if x.Floor < 0 then 0 - x.Floor else x.Floor;
      assert Decimal(m) + "" == Decimal(m) && Decimal(m) + "" + "" + "" == Decimal(m);
    } else {
      var m := Micros(x);
      var w, f := Decimal(m / MILLION), LastDigits(m % MILLION, 6);
      assert "-" + w + "." + f == "-" + (w + "." + f + "") && "" + w + "." + f == w + "." + f + "";
    }
  }

  lemma PrintedNumeralWorth(x: real)
    ensures NumeralValue(PrintedNumeral(x)) == Rounded(x)
  {
    hide ValueIn, Decimal, LastDigits, Nearest, Scaled, NumeralText, PrintNumber;
    if IsInt(x) {
      var m := if x.Floor < 0 then 0 - x.Floor else x.Floor;
      DecimalValue(m);
      ScaledToMillionths(m as real);
      assert Decimal(m) + "" == Decimal(m);
    } else {
      var m := Micros(x);
      DecimalValue(m / MILLION);
      SixMoreDigits(Decimal(m / MILLION), m % MILLION);
      ScaledToMillionths(m as real);
    }
  }

  /** Reading a printed number takes its text and gives the number, rounded to six decimals. */
  lemma PrintedNumberRead(x: real, rest: string)
    requires EndsNumber(rest)
    ensures var t := PrintNumber(x);
      NumberLength(t + rest) == |t| && IsDecimal(t) && NumberOf(t + rest) == Rounded(x)
  {
    PrintedNumeralText(x);
    PrintedNumeralWorth(x);
    NumeralRead(PrintedNumeral(x), rest);
  }

  /** A printed number starts like one. */
  lemma NumberStart(x: real)
    ensures PrintNumber(x) != "" && PrintNumber(x)[0] in "-0123456789"
  {
    hide Nearest, LastDigits;
    var m := if IsInt(x) then if x.Floor < 0 then 0 - x.Floor else x.Floor else Micros(x) / MILLION;
    DigitIsNoSign(Decimal(m)[0]);
  }
}
