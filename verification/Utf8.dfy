/** UTF-16 escapes and UTF-8 sequences (RFC 3629, section 3), one character per byte. */
module Utf8 {
  import opened Text

  predicate IsHexAt(t: string, i: nat) {
    i < |t| && DigitOf(t[i]) < 16
  }

  /** `is_utf16_hex`: four hexadecimal digits, looked at in order. */
  predicate IsHex4(t: string, i: nat) {
    IsHexAt(t, i) && IsHexAt(t, i + 1) && IsHexAt(t, i + 2) && IsHexAt(t, i + 3)
  }

  function Hex4(t: string, i: nat): (u: nat)
    requires IsHex4(t, i)
    ensures u < 0x1_0000
  {
    4096 * DigitOf(t[i]) + 256 * DigitOf(t[i + 1]) + 16 * DigitOf(t[i + 2]) + DigitOf(t[i + 3])
  }

  predicate IsLead(u: nat) { 0xD800 <= u <= 0xDBFF }

  predicate IsTrail(u: nat) { 0xDC00 <= u <= 0xDFFF }

  predicate IsScalar(cp: nat) {
    cp <= 0x10FFFF && !IsLead(cp) && !IsTrail(cp)
  }

  /** The code point of a surrogate pair. */
  function Combine(lead: nat, trail: nat): (cp: nat)
    requires IsLead(lead) && IsTrail(trail)
    ensures 0x1_0000 <= cp <= 0x10FFFF
  {
    (lead - 0xD800) * 1024 + (trail - 0xDC00) + 0x1_0000
  }

  function Bytes2(x: nat, y: nat): (s: string)
    requires x < 32 && y < 64
    ensures |s| == 2
  {
    [(0xC0 + x) as char, (0x80 + y) as char]
  }

  function Bytes3(x: nat, y: nat, z: nat): (s: string)
    requires x < 16 && y < 64 && z < 64
    ensures |s| == 3
  {
    [(0xE0 + x) as char, (0x80 + y) as char, (0x80 + z) as char]
  }

  function Bytes4(w: nat, x: nat, y: nat, z: nat): (s: string)
    requires w < 8 && x < 64 && y < 64 && z < 64
    ensures |s| == 4
  {
    [(0xF0 + w) as char, (0x80 + x) as char, (0x80 + y) as char, (0x80 + z) as char]
  }

  /** The bytes stored for a code point; masks and shifts are written as remainders and
      quotients. */
  function Encode(cp: nat): (s: string)
    requires cp <= 0x10FFFF
    ensures 1 <= |s| <= 4
  {
    if cp < 0x80 then [cp as char]
    else if cp < 0x800 then Bytes2(cp / 64 % 32, cp % 64)
    else if cp < 0x1_0000 then Bytes3(cp / 4096 % 16, cp / 64 % 64, cp % 64)
    else Bytes4(cp / 262144 % 8, cp / 4096 % 64, cp / 64 % 64, cp % 64)
  }

  datatype Escape = Refused | Decoded(bytes: string, length: nat)

  /** `parse_utf_16`: the escape whose `u` starts `t`, and how much of `t` it takes. */
  function ParseUtf16(t: string): (e: Escape)
    ensures e.Decoded? ==> 5 <= e.length <= |t|
  {
    if !IsHex4(t, 1) then Refused
    else
      var u := Hex4(t, 1);
      if !IsLead(u) && !IsTrail(u) then Decoded(Encode(u), 5)
      else if IsTrail(u) then Refused
      else if At(t, 5) == '\\' && At(t, 6) == 'u' && IsHex4(t, 7) && IsTrail(Hex4(t, 7)) then
        Decoded(Encode(Combine(u, Hex4(t, 7))), 11)
      else Refused
  }

  /** A continuation byte, `10xxxxxx`. */
  predicate IsCont(s: string, i: nat) {
    i < |s| && 0x80 <= s[i] as int < 0xC0
  }

  /** `num_bytes_in_utf8_sequence`. */
  function SequenceLength(c: char): nat {
    var b := c as int;
    if b == 0xC0 || b == 0xC1 || b > 0xF4 || 0x80 <= b < 0xC0 then 0
    else if b < 0x80 then 1
    else if b < 0xE0 then 2
    else if b < 0xF0 then 3
    else 4
  }

  datatype Sequence = Invalid | Sequence(cp: nat, length: nat)

  /** The code point gathered from the first sequence of `s`, before it is judged. */
  function Gather(s: string): Sequence
    requires s != ""
  {
    var n := SequenceLength(s[0]);
    var b := s[0] as int;
    if n == 1 then Sequence(b, 1)
    else if n == 2 && IsCont(s, 1) then Sequence(b % 32 * 64 + s[1] as int % 64, 2)
    else if n == 3 && IsCont(s, 1) && IsCont(s, 2) then
      Sequence(b % 16 * 4096 + s[1] as int % 64 * 64 + s[2] as int % 64, 3)
    else if n == 4 && IsCont(s, 1) && IsCont(s, 2) && IsCont(s, 3) then
      Sequence(b % 8 * 262144 + s[1] as int % 64 * 4096 + s[2] as int % 64 * 64 + s[3] as int % 64, 4)
    else Invalid
  }

  /** `verify_utf8_sequence`: refuses overlong forms, surrogates and large values. */
  function Verify(s: string): Sequence
    requires s != ""
  {
    match Gather(s)
    case Invalid => Invalid
    case Sequence(cp, n) =>
      if (cp < 0x80 && n > 1) || (cp < 0x800 && n > 2) || (cp < 0x1_0000 && n > 3) then Invalid
      else if cp > 0x10FFFF || 0xD800 <= cp <= 0xDFFF then Invalid
      else Sequence(cp, n)
  }

  lemma Gather1(b: nat, rest: string)
    requires b < 0x80
    ensures Gather([b as char] + rest) == Sequence(b, 1)
  {
  }

  lemma Gather2(x: nat, y: nat, rest: string)
    requires 2 <= x < 32 && y < 64
    ensures Gather(Bytes2(x, y) + rest) == Sequence(x * 64 + y, 2)
  {
    var s := Bytes2(x, y) + rest;
    assert s[0] as int == 0xC0 + x && s[1] as int == 0x80 + y;
  }

  lemma Gather3(x: nat, y: nat, z: nat, rest: string)
    requires x < 16 && y < 64 && z < 64
    ensures Gather(Bytes3(x, y, z) + rest) == Sequence(x * 4096 + y * 64 + z, 3)
  {
    var s := Bytes3(x, y, z) + rest;
    assert s[0] as int == 0xE0 + x && s[1] as int == 0x80 + y && s[2] as int == 0x80 + z;
  }

  lemma Gather4(w: nat, x: nat, y: nat, z: nat, rest: string)
    requires w < 5 && x < 64 && y < 64 && z < 64
    ensures Gather(Bytes4(w, x, y, z) + rest) == Sequence(w * 262144 + x * 4096 + y * 64 + z, 4)
  {
    var s := Bytes4(w, x, y, z) + rest;
    assert s[0] as int == 0xF0 + w && s[1] as int == 0x80 + x;
    assert s[2] as int == 0x80 + y && s[3] as int == 0x80 + z;
  }

  lemma Base64Digits(cp: nat)
    requires cp <= 0x10FFFF
    ensures cp < 0x800 ==> cp / 64 < 32
    ensures cp < 0x1_0000 ==> cp / 4096 < 16
    ensures cp / 262144 < 5
    ensures cp == cp / 4096 * 4096 + cp / 64 % 64 * 64 + cp % 64
    ensures cp / 4096 == cp / 262144 * 64 + cp / 4096 % 64
  {
  }

  lemma SmallRemainder(x: nat, n: nat)
    requires x < n
    ensures x % n == x
  {
  }

  /** A scalar value's bytes verify as one sequence for that value, whatever follows. */
  lemma VerifyEncoded(cp: nat, rest: string)
    requires IsScalar(cp)
    ensures Verify(Encode(cp) + rest) == Sequence(cp, |Encode(cp)|)
  {
    hide Gather, Bytes2, Bytes3, Bytes4;
    Base64Digits(cp);
    if cp >= 0x1_0000 {
      SmallRemainder(cp / 262144, 8);
      Gather4(cp / 262144 % 8, cp / 4096 % 64, cp / 64 % 64, cp % 64, rest);
    } else if cp >= 0x800 {
      SmallRemainder(cp / 4096, 16);
      Gather3(cp / 4096 % 16, cp / 64 % 64, cp % 64, rest);
    } else if cp >= 0x80 {
      SmallRemainder(cp / 64, 32);
      Gather2(cp / 64 % 32, cp % 64, rest);
    } else {
      Gather1(cp, rest);
    }
  }

  /** A verified sequence is the only, shortest, form of a scalar value. */
  lemma VerifiedIsEncoded(s: string)
    requires s != "" && Verify(s).Sequence?
    ensures
      var q := Verify(s);
      IsScalar(q.cp) && Encode(q.cp) <= s && |Encode(q.cp)| == q.length
  {
    var q := Verify(s);
    if q.length == 2 {
      Quotients2(s[0] as int % 32, s[1] as int % 64);
    } else if q.length == 3 {
      Ungathered3(s);
    } else if q.length == 4 {
      Ungathered4(s);
    }
  }

  lemma Ungathered3(s: string)
    requires s != "" && Gather(s).Sequence? && Gather(s).length == 3 && 0x800 <= Gather(s).cp
    ensures Gather(s).cp <= 0xFFFF && Encode(Gather(s).cp) <= s
  {
    Quotients3(s[0] as int % 16, s[1] as int % 64, s[2] as int % 64);
  }

  lemma Ungathered4(s: string)
    requires s != "" && Gather(s).Sequence? && Gather(s).length == 4 && 0x1_0000 <= Gather(s).cp <= 0x10FFFF
    ensures Encode(Gather(s).cp) <= s
  {
    Quotients4(s[0] as int % 8, s[1] as int % 64, s[2] as int % 64, s[3] as int % 64);
  }

  lemma Quotients2(x: nat, y: nat)
    requires x < 32 && y < 64
    ensures
      var cp := x * 64 + y;
      cp / 64 % 32 == x && cp % 64 == y
  {
  }

  lemma Quotients3(x: nat, y: nat, z: nat)
    requires x < 16 && y < 64 && z < 64
    ensures
      var cp := x * 4096 + y * 64 + z;
      cp / 4096 % 16 == x && cp / 64 % 64 == y && cp % 64 == z
  {
  }

  lemma Quotients4(w: nat, x: nat, y: nat, z: nat)
    requires w < 8 && x < 64 && y < 64 && z < 64
    ensures
      var cp := w * 262144 + x * 4096 + y * 64 + z;
      cp / 262144 % 8 == w && cp / 4096 % 64 == x && cp / 64 % 64 == y && cp % 64 == z
  {
    var high := w * 64 + x;
    var cp := w * 262144 + x * 4096 + y * 64 + z;
    assert cp == high * 4096 + y * 64 + z;
    assert cp / 4096 == high && cp / 262144 == w;
    assert cp / 64 == high * 64 + y;
  }

  /** An escape or surrogate pair is accepted exactly when it names a scalar value, and
      its bytes then verify as one sequence for that value. */
  lemma EscapeIsUtf8(t: string, rest: string)
    ensures ParseUtf16(t).Decoded? <==>
            && IsHex4(t, 1)
            && (IsScalar(Hex4(t, 1))
                || (IsLead(Hex4(t, 1)) && At(t, 5) == '\\' && At(t, 6) == 'u'
                    && IsHex4(t, 7) && IsTrail(Hex4(t, 7))))
    ensures ParseUtf16(t).Decoded? ==>
            var cp := if IsLead(Hex4(t, 1)) then Combine(Hex4(t, 1), Hex4(t, 7)) else Hex4(t, 1);
            var bytes := ParseUtf16(t).bytes;
            Verify(bytes + rest) == Sequence(cp, |bytes|)
  {
    if ParseUtf16(t).Decoded? {
      var cp := if IsLead(Hex4(t, 1)) then Combine(Hex4(t, 1), Hex4(t, 7)) else Hex4(t, 1);
      VerifyEncoded(cp, rest);
    }
  }

  // ----- escapes as they are written

  /** Four hexadecimal digits. */
  function HexText(u: nat): (d: string)
    requires u < 0x1_0000
    ensures |d| == 4
  {
    [LOWER_DIGITS[u / 16 / 16 / 16], LOWER_DIGITS[u / 16 / 16 % 16], LOWER_DIGITS[u / 16 % 16], LOWER_DIGITS[u % 16]]
  }

  lemma HexTextDigits(u: nat)
    requires u < 0x1_0000
    ensures var d := HexText(u);
      && DigitOf(d[0]) == u / 16 / 16 / 16 && DigitOf(d[1]) == u / 16 / 16 % 16
      && DigitOf(d[2]) == u / 16 % 16 && DigitOf(d[3]) == u % 16
  {
    DigitsAre('0');
    hide DigitOf;
  }

  lemma HexTextRead(u: nat, t: string, i: nat)
    requires u < 0x1_0000 && i + 4 <= |t| && t[i..i + 4] == HexText(u)
    ensures IsHex4(t, i) && Hex4(t, i) == u
  {
    hide DigitOf, HexText;
    HexTextDigits(u);
    var d := HexText(u);
    assert d[0] == t[i] && d[1] == t[i + 1] && d[2] == t[i + 2] && d[3] == t[i + 3];
  }

  /** The two halves of a code point beyond the first 65536 (section 3 of RFC 2781). */
  function LeadOf(cp: nat): nat
    requires 0x1_0000 <= cp <= 0x10FFFF
  {
    0xD800 + (cp - 0x1_0000) / 1024
  }

  function TrailOf(cp: nat): nat
    requires 0x1_0000 <= cp <= 0x10FFFF
  {
    0xDC00 + (cp - 0x1_0000) % 1024
  }

  lemma CombineHalves(cp: nat)
    requires 0x1_0000 <= cp <= 0x10FFFF
    ensures IsLead(LeadOf(cp)) && IsTrail(TrailOf(cp)) && Combine(LeadOf(cp), TrailOf(cp)) == cp
  {
  }

  /** Every scalar value is read from its escape: four digits, or two times four for one
      beyond the first 65536. */
  lemma EscapeRead(cp: nat, rest: string)
    requires cp < 0xD800 || 0xE000 <= cp <= 0x10FFFF
    ensures cp < 0x1_0000 ==> ParseUtf16("u" + HexText(cp) + rest) == Decoded(Encode(cp), 5)
    ensures cp >= 0x1_0000 ==>
              ParseUtf16("u" + HexText(LeadOf(cp)) + "\\u" + HexText(TrailOf(cp)) + rest) == Decoded(Encode(cp), 11)
  {
    hide HexText, Encode, Combine, IsHex4, Hex4, LeadOf, TrailOf;
    if cp < 0x1_0000 {
      var t := "u" + HexText(cp) + rest;
      assert t[1..5] == HexText(cp);
      HexTextRead(cp, t, 1);
    } else {
      CombineHalves(cp);
      var t := "u" + HexText(LeadOf(cp)) + "\\u" + HexText(TrailOf(cp)) + rest;
      assert t[1..5] == HexText(LeadOf(cp)) && t[5] == '\\' && t[6] == 'u' && t[7..11] == HexText(TrailOf(cp));
      HexTextRead(LeadOf(cp), t, 1);
      HexTextRead(TrailOf(cp), t, 7);
    }
  }

  /** U+1F600 escaped, and its four bytes (section 3 of RFC 3629). */
  lemma PairExample()
    ensures ParseUtf16("ud83d\\ude00") == Decoded(['\U{F0}', '\U{9F}', '\U{98}', '\U{80}'], 11)
  {
    hide ParseUtf16, HexText, Encode;
    EscapeRead(0x1F600, "");
    PairWritten();
    assert LeadOf(0x1F600) == 0xD83D && TrailOf(0x1F600) == 0xDE00;
    assert "u" + "d83d" + "\\u" + "de00" + "" == "ud83d\\ude00";
  }

  lemma PairWritten()
    ensures HexText(0xD83D) == "d83d" && HexText(0xDE00) == "de00"
    ensures Encode(0x1F600) == ['\U{F0}', '\U{9F}', '\U{98}', '\U{80}']
  {
  }

  /** `is_valid_utf8`. */
  function IsValid(s: string): bool {
    s == "" || (Verify(s).Sequence? && Verify(s).length <= |s| && IsValid(s[Verify(s).length..]))
  }

  predicate AllScalar(cps: seq<nat>) {
    forall i :: 0 <= i < |cps| ==> IsScalar(cps[i])
  }

  function EncodeAll(cps: seq<nat>): string
    requires AllScalar(cps)
  {
    if cps == [] then "" else assert IsScalar(cps[0]); Encode(cps[0]) + EncodeAll(cps[1..])
  }

  /** Valid strings are exactly the encodings of sequences of scalar values. */
  lemma {:induction false} ValidOfEncoding(cps: seq<nat>)
    requires AllScalar(cps)
    ensures IsValid(EncodeAll(cps))
  {
    if cps != [] {
      VerifyEncoded(cps[0], EncodeAll(cps[1..]));
      assert EncodeAll(cps)[|Encode(cps[0])|..] == EncodeAll(cps[1..]);
      ValidOfEncoding(cps[1..]);
    }
  }

  lemma {:induction false} EncodingOfValid(s: string) returns (cps: seq<nat>)
    requires IsValid(s)
    ensures AllScalar(cps) && EncodeAll(cps) == s
  {
    if s == "" {
      cps := [];
    } else {
      VerifiedIsEncoded(s);
      var q := Verify(s);
      var tail := EncodingOfValid(s[q.length..]);
      cps := [q.cp] + tail;
      assert cps[1..] == tail;
    }
  }
}
