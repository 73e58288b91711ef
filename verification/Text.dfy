/** Characters, decimal text and number reading shared by the other modules.

    A C string is a `string` without NUL characters; every character stands for one
    byte. Reading at or past the end of a C string yields the terminating NUL. */
module Text {
  datatype Option<+T> = None | Some(value: T)

  /** The character at index `i`, or the terminating NUL. */
  function At(s: string, i: nat): char {
    if i < |s| then s[i] else '\0'
  }

  /** The C string held by a buffer: everything before the first NUL. */
  function CString(s: string): (r: string)
    ensures '\0' !in r
    ensures r <= s && (|r| < |s| ==> s[|r|] == '\0')
    ensures '\0' !in s ==> r == s
  {
    if s == "" || s[0] == '\0' then "" else [s[0]] + CString(s[1..])
  }

  /** `isspace` in the C locale: blank, \t, \n, \v, \f and \r. */
  predicate IsSpace(c: char) {
    c == ' ' || '\t' <= c <= '\r'
  }

  /** The value of `c` as a digit of a base up to 36, or 99. */
  function DigitOf(c: char): nat {
    if '0' <= c <= '9' then c as int - '0' as int
    else if 'a' <= c <= 'z' then c as int - 'a' as int + 10
    else if 'A' <= c <= 'Z' then c as int - 'A' as int + 10
    else 99
  }

  /** The length of the longest prefix of digits. */
  function DigitRun(s: string, base: nat): (n: nat)
    ensures n <= |s|
    ensures AllDigits(s[..n], base) && EndsDigits(s[n..], base)
  {
    if s == "" || DigitOf(s[0]) >= base then 0 else 1 + DigitRun(s[1..], base)
  }

  /** `v` moved one digit to the left in base 8, 10 or 16. */
  function Shifted(v: nat, base: nat): nat {
    if base == 16 then 16 * v else if base == 8 then 8 * v else 10 * v
  }

  predicate AllDigits(s: string, base: nat) {
    forall i :: 0 <= i < |s| ==> DigitOf(s[i]) < base
  }

  /** No digit continues a number here. */
  predicate EndsDigits(s: string, base: nat) {
    s == "" || DigitOf(s[0]) >= base
  }

  function ValueIn(s: string, base: nat): nat {
    if s == "" then 0 else Shifted(ValueIn(s[..|s| - 1], base), base) + DigitOf(s[|s| - 1])
  }

  /** Decimal digits of a natural number, without leading zeros. */
  function Decimal(n: nat): (s: string)
    ensures 1 <= |s| && AllDigits(s, 10)
    ensures s[0] == '0' <==> n == 0
    ensures n == 0 ==> |s| == 1
  {
    if n < 10 then [('0' as int + n) as char]
    else Decimal(n / 10) + [('0' as int + n % 10) as char]
  }

  /** What `printf("%d")` prints. */
  function PrintInt(n: int): string {
    if n < 0 then "-" + Decimal(-n) else Decimal(n)
  }

  lemma {:induction false} DecimalValue(n: nat)
    ensures ValueIn(Decimal(n), 10) == n
  {
    if n >= 10 {
      DecimalValue(n / 10);
      assert Decimal(n)[..|Decimal(n)| - 1] == Decimal(n / 10);
    } else {
      assert Decimal(n)[..0] == "";
    }
  }

  /** Decimal text is read back up to the first character that is no digit. */
  lemma {:induction false} DigitRunOf(ds: string, rest: string, base: nat)
    requires AllDigits(ds, base) && EndsDigits(rest, base)
    ensures DigitRun(ds + rest, base) == |ds|
    ensures (ds + rest)[..|ds|] == ds && (ds + rest)[|ds|..] == rest
  {
    if ds == "" {
      assert ds + rest == rest;
    } else {
      assert (ds + rest)[1..] == ds[1..] + rest;
      DigitRunOf(ds[1..], rest, base);
    }
  }

  function SkipSpaces(s: string): (r: string)
    ensures |r| <= |s|
    ensures r != "" ==> !IsSpace(r[0])
  {
    if s != "" && IsSpace(s[0]) then SkipSpaces(s[1..]) else s
  }

  const LLONG_MAX := 0x7fff_ffff_ffff_ffff

  /** Digits of one base, taken up to the first other character: the value, if it fits
      a `long long` and is followed by white space or the end of the string. */
  function ReadDigits(s: string, base: nat, negative: bool): Option<int> {
    var n := DigitRun(s, base);
    var v := if negative then 0 - ValueIn(s[..n], base) else ValueIn(s[..n], base);
    if n == 0 || v > LLONG_MAX || v < -LLONG_MAX - 1 then None
    else if n < |s| && !IsSpace(s[n]) then None
    else Some(v)
  }

  predicate HasHexPrefix(s: string) {
    |s| >= 3 && s[0] == '0' && (s[1] == 'x' || s[1] == 'X') && DigitOf(s[2]) < 16
  }

  /** `iw_util_strtoll`: the number a C string starts with, in base 10, 16 or (for base
      0) the base its prefix announces. */
  function StrToLL(s: string, base: nat): Option<int> {
    var t := SkipSpaces(s);
    var negative := t != "" && t[0] == '-';
    var u := if t != "" && (t[0] == '-' || t[0] == '+') then t[1..] else t;
    if (base == 16 || base == 0) && HasHexPrefix(u) then ReadDigits(u[2..], 16, negative)
    else if base == 0 then ReadDigits(u, if u != "" && u[0] == '0' then 8 else 10, negative)
    else ReadDigits(u, base, negative)
  }

  lemma ReadDigitsOf(ds: string, rest: string, negative: bool)
    requires ds != "" && AllDigits(ds, 10)
    requires ValueIn(ds, 10) <= if negative then LLONG_MAX + 1 else LLONG_MAX
    requires EndsDigits(rest, 10) && (rest == "" || IsSpace(rest[0]))
    ensures ReadDigits(ds + rest, 10, negative)
         == Some(if negative then 0 - ValueIn(ds, 10) else ValueIn(ds, 10))
  {
    DigitRunOf(ds, rest, 10);
    assert rest != "" ==> (ds + rest)[|ds|] == rest[0];
  }

  lemma DigitIsNoSign(c: char)
    requires DigitOf(c) < 10
    ensures '0' <= c <= '9' && !IsSpace(c) && c != '-' && c != '+'
  {
  }

  lemma SignedText(ds: string, rest: string)
    requires ds != "" && AllDigits(ds, 10)
    ensures StrToLL(ds + rest, 10) == ReadDigits(ds + rest, 10, false)
    ensures StrToLL("-" + ds + rest, 10) == ReadDigits(ds + rest, 10, true)
  {
    var t := ds + rest;
    assert t[0] == ds[0];
    DigitIsNoSign(t[0]);
    var u := "-" + ds + rest;
    assert u[0] == '-' && SkipSpaces(u) == u;
    assert u[1..] == t && SkipSpaces(t) == t;
  }

  /** Reading undoes printing, whatever follows the number. */
  lemma StrToLLOfPrintInt(n: int, rest: string)
    requires -LLONG_MAX - 1 <= n <= LLONG_MAX
    requires rest == "" || IsSpace(rest[0])
    ensures StrToLL(PrintInt(n) + rest, 10) == Some(n)
  {
    hide StrToLL, ReadDigits, ValueIn, Decimal;
    var m := if n < 0 then 0 - n else n;
    DecimalValue(m);
    ReadDigitsOf(Decimal(m), rest, n < 0);
    SignedText(Decimal(m), rest);
  }

  // ----- characters and digits, by what they are

  lemma SpacesAre(c: char)
    ensures IsSpace(c) <==> c in {' ', '\t', '\n', '\U{0B}', '\U{0C}', '\r'}
  {
  }

  const LOWER_DIGITS := "0123456789abcdef"
  const UPPER_DIGITS := "0123456789ABCDEF"

  /** The sixteen digits in either case, and no other character has a value below 16. */
  lemma DigitsAre(c: char)
    ensures forall n :: 0 <= n < 16 ==> DigitOf(LOWER_DIGITS[n]) == n && DigitOf(UPPER_DIGITS[n]) == n
    ensures DigitOf(c) < 16 ==> c == LOWER_DIGITS[DigitOf(c)] || c == UPPER_DIGITS[DigitOf(c)]
  {
  }

  /** A number written in base 8, 10 or 16, without leading zeros. */
  function Written(n: nat, base: nat): (s: string)
    requires base == 8 || base == 10 || base == 16
    ensures s != "" && AllDigits(s, base)
    decreases n
  {
    var q := if base == 16 then n / 16 else if base == 8 then n / 8 else n / 10;
    var r := if base == 16 then n % 16 else if base == 8 then n % 8 else n % 10;
    assert DigitOf(LOWER_DIGITS[r]) < base by { DigitsAre('0'); }
    if q == 0 then [LOWER_DIGITS[r]] else Written(q, base) + [LOWER_DIGITS[r]]
  }

  lemma WrittenStep(n: nat, base: nat)
    requires base == 8 || base == 10 || base == 16
    ensures var q := if base == 16 then n / 16 else if base == 8 then n / 8 else n / 10;
      var s := Written(n, base);
      && n == Shifted(q, base) + DigitOf(s[|s| - 1])
      && s[..|s| - 1] == (if q == 0 then "" else Written(q, base))
  {
    DigitsAre('0');
  }

  /** What a number is written as has its value, in each of these bases. */
  lemma {:induction false} WrittenValue(n: nat, base: nat)
    requires base == 8 || base == 10 || base == 16
    ensures ValueIn(Written(n, base), base) == n
    decreases n
  {
    hide Written, DigitOf, Shifted;
    WrittenStep(n, base);
    var q := if base == 16 then n / 16 else if base == 8 then n / 8 else n / 10;
    if q > 0 {
      WrittenValue(q, base);
    }
  }

  predicate AllSpace(w: string) {
    forall i :: 0 <= i < |w| ==> IsSpace(w[i])
  }

  predicate IsSign(sign: string) {
    sign == "" || sign == "-" || sign == "+"
  }

  /** The prefixes a base announces itself by: none for 10, `0x` for 16; with base 0 also
      none and a leading zero for 8. */
  predicate Announces(base: nat, prefix: string, ds: string, used: nat)
    requires ds != ""
  {
    || (base != 0 && used == base && prefix == "")
    || ((base == 16 || base == 0) && used == 16 && (prefix == "0x" || prefix == "0X"))
    || (base == 0 && used == 10 && prefix == "" && ds[0] != '0')
    || (base == 0 && used == 8 && prefix == "" && ds[0] == '0')
  }

  /** Behind blanks and a sign the digits are read to their end. The result is their value
      if it is a `long long` and nothing but white space follows at once. */
  lemma NumbersAreRead(w: string, sign: string, prefix: string, ds: string, rest: string, base: nat, used: nat)
    requires base == 0 || base == 10 || base == 16
    requires AllSpace(w) && IsSign(sign) && ds != "" && AllDigits(ds, used) && EndsDigits(rest, used)
    requires Announces(base, prefix, ds, used) && (used != 16 || prefix != "" || !HasHexPrefix(ds + rest))
    requires used == 8 ==> !HasHexPrefix(ds + rest)
    ensures var v := if sign == "-" then 0 - ValueIn(ds, used) else ValueIn(ds, used);
      StrToLL(w + (sign + (prefix + (ds + rest))), base)
      == if -0x8000_0000_0000_0000 <= v < 0x8000_0000_0000_0000
            && (rest == "" || rest[0] in {' ', '\t', '\n', '\U{0B}', '\U{0C}', '\r'})
         then Some(v) else None
  {
    hide ValueIn, HasHexPrefix, ReadDigits, IsSpace, AllDigits, EndsDigits;
    var u := prefix + (ds + rest);
    SignSkipped(w, sign, u, prefix, ds, rest, used);
    DigitsRead(ds, rest, used, sign == "-");
    BaseChosen(prefix, ds, rest, base, used);
  }

  lemma SignSkipped(w: string, sign: string, u: string, prefix: string, ds: string, rest: string, used: nat)
    requires AllSpace(w) && IsSign(sign) && u == prefix + (ds + rest) && used <= 16
    requires ds != "" && AllDigits(ds, used) && (prefix == "" || prefix == "0x" || prefix == "0X")
    ensures var t := SkipSpaces(w + (sign + u));
      && t == sign + u && t != "" && (t[0] == '-' <==> sign == "-") && (t[0] == '+' <==> sign == "+")
      && (if sign == "" then t == u else t[1..] == u)
  {
    SkipBlank(w, sign + u);
    assert prefix == "" ==> u[0] == ds[0];
    assert DigitOf(u[0]) < 16;
    assert sign == "" ==> sign + u == u;
  }

  lemma {:induction false} SkipBlank(w: string, x: string)
    requires AllSpace(w)
    ensures SkipSpaces(w + x) == SkipSpaces(x)
    decreases |w|
  {
    if w == "" {
      assert w + x == x;
    } else {
      assert (w + x)[1..] == w[1..] + x;
      SkipBlank(w[1..], x);
    }
  }

  lemma DigitsRead(ds: string, rest: string, used: nat, negative: bool)
    requires ds != "" && AllDigits(ds, used) && EndsDigits(rest, used)
    ensures var v := if negative then 0 - ValueIn(ds, used) else ValueIn(ds, used);
      ReadDigits(ds + rest, used, negative)
      == if -0x8000_0000_0000_0000 <= v < 0x8000_0000_0000_0000
            && (rest == "" || rest[0] in {' ', '\t', '\n', '\U{0B}', '\U{0C}', '\r'})
         then Some(v) else None
  {
    hide ValueIn, EndsDigits, AllDigits;
    DigitRunOf(ds, rest, used);
    if rest != "" {
      SpacesAre(rest[0]);
      assert (ds + rest)[|ds|] == rest[0];
    }
  }

  lemma BaseChosen(prefix: string, ds: string, rest: string, base: nat, used: nat)
    requires base == 0 || base == 10 || base == 16
    requires ds != "" && AllDigits(ds, used)
    requires Announces(base, prefix, ds, used) && (used != 16 || prefix != "" || !HasHexPrefix(ds + rest))
    requires used == 8 ==> !HasHexPrefix(ds + rest)
    ensures var u := prefix + (ds + rest);
      if (base == 16 || base == 0) && HasHexPrefix(u) then used == 16 && u[2..] == ds + rest
      else u == ds + rest && used == (if base != 0 then base else if u[0] == '0' then 8 else 10)
  {
    var u := prefix + (ds + rest);
    if prefix != "" {
      assert u[2] == ds[0] && u[2..] == ds + rest;
    } else {
      assert u == ds + rest && u[0] == ds[0];
      DigitsAre(ds[0]);
    }
  }

  /** Without a digit nothing is read. */
  lemma NothingIsRead(w: string, sign: string, rest: string, base: nat)
    requires AllSpace(w) && IsSign(sign) && (base == 0 || base == 10 || base == 16)
    requires rest == "" || (DigitOf(rest[0]) >= 16 && rest[0] != '-' && rest[0] != '+' && !IsSpace(rest[0]))
    ensures StrToLL(w + (sign + rest), base) == None
  {
    SkipBlank(w, sign + rest);
    assert SkipSpaces(sign + rest) == sign + rest;
    assert sign == "" ==> sign + rest == rest;
    assert sign != "" ==> (sign + rest)[1..] == rest;
  }
}
