/** Query strings: decoding percent-encoded text, and splitting it into parameters. */
module WebForm {
  import opened Collections
  import opened Text
  import opened WebParse

  // ----- decoding

  function Prepend(c: char, rest: Option<string>): Option<string> {
    if rest.None? then None else Some([c] + rest.value)
  }

  /** A `long long` assigned to a `char`. */
  function ByteOf(v: int): char {
    (v % 256) as char
  }

  /** What the two characters after a percent sign are read as. */
  function EscapedByte(b: string, at: nat): Option<char> {
    var v := StrToLL(CString([At(b, at + 1), At(b, at + 2)]), 16);
    if v.None? then None else Some(ByteOf(v.value))
  }

  /** The bytes the loop of `iw_web_req_urldecode` copies from `at` on, unless it gives up. */
  function DecodeFrom(b: string, at: nat, end: nat): (r: Option<string>)
    requires end <= |b|
    ensures at <= end && r.Some? ==> |r.value| <= end - at
    decreases end - at
  {
    if at >= end then Some("")
    else if b[at] == '%' then
      var c := EscapedByte(b, at);
      if c.None? then None else Prepend(c.value, DecodeFrom(b, at + 3, end))
    else Prepend(if b[at] == '+' then ' ' else b[at], DecodeFrom(b, at + 1, end))
  }

  /** The C string that results, or null. */
  function UrlDecode(b: string, index: Index): Option<string>
    requires Within(b, index)
  {
    var s := DecodeFrom(b, index.start, index.start + index.len);
    if s.None? then None else Some(CString(s.value))
  }

  function After(done: string, rest: Option<string>): Option<string> {
    if rest.None? then None else Some(done + rest.value)
  }

  lemma AfterNothing(rest: Option<string>, done: string)
    ensures After("", rest) == rest && After(done, Some("")) == Some(done)
  {
    if rest.Some? {
      assert "" + rest.value == rest.value;
    }
    assert done + "" == done;
  }

  lemma AfterPrepend(done: string, c: char, rest: Option<string>)
    ensures After(done, Prepend(c, rest)) == After(done + [c], rest)
  {
    if rest.Some? {
      assert done + ([c] + rest.value) == (done + [c]) + rest.value;
    }
  }

  /** `iw_web_req_urldecode`: never writes beyond the `len + 1` bytes it allocates. */
  method DecodeInto(b: string, index: Index) returns (ok: bool, copy: array<char>, copied: nat)
    requires Within(b, index)
    ensures fresh(copy) && copied < copy.Length == index.len + 1
    ensures ok ==> copy[copied] == '\0' && Some(copy[..copied]) == DecodeFrom(b, index.start, index.start + index.len)
    ensures !ok ==> DecodeFrom(b, index.start, index.start + index.len) == None
  {
    hide EscapedByte;
    copy := new char[index.len + 1];
    copied := 0;
    var at, end := index.start, index.start + index.len;
    assert copy[..0] == "";
    AfterNothing(DecodeFrom(b, at, end), "");
    while at < end
      invariant index.start <= at && copied + index.start <= at && copied <= index.len
      invariant DecodeFrom(b, index.start, end) == After(copy[..copied], DecodeFrom(b, at, end))
      decreases end - at
    {
      ghost var done := copy[..copied];
      if b[at] == '%' {
        var c := EscapedByte(b, at);
        if c.None? {
          return false, copy, 0;
        }
        AfterPrepend(done, c.value, DecodeFrom(b, at + 3, end));
        copy[copied] := c.value;
        at := at + 3;
      } else if b[at] == '+' {
        AfterPrepend(done, ' ', DecodeFrom(b, at + 1, end));
        copy[copied] := ' ';
        at := at + 1;
      } else {
        AfterPrepend(done, b[at], DecodeFrom(b, at + 1, end));
        copy[copied] := b[at];
        at := at + 1;
      }
      copied := copied + 1;
      assert copy[..copied] == done + [copy[copied - 1]];
    }
    ghost var all := copy[..copied];
    AfterNothing(None, all);
    copy[copied] := '\0';
    assert copy[..copied] == all;
    ok := true;
  }

  /** Decoding looks at most two characters beyond the text. */
  lemma {:induction false} DecodeInPrefix(p: string, b: string, at: nat, end: nat)
    requires p <= b && end + 2 <= |p|
    ensures DecodeFrom(b, at, end) == DecodeFrom(p, at, end)
    decreases end - at
  {
    hide StrToLL, CString;
    if at < end {
      DecodeInPrefix(p, b, if b[at] == '%' then at + 3 else at + 1, end);
    }
  }

  // ----- splitting

  datatype Param = Param(name: Option<string>, value: Option<string>)

  /** The parameters of the text from `offset` to `end`; `None` where the code passes on a
      null pointer it then follows. `point` is the parse point of the request. */
  function QueryFrom(b: string, end: nat, point: nat, offset: nat): Option<seq<Param>>
    requires end <= |b|
    decreases |b| - offset
  {
    var name := ReadTo(b[..end], offset, "=", false);
    if name.None? then Some([])
    else
      var value := ReadTo(b[..end], name.value.next, "&", false);
      if value.Some? then
        Adding(Param(UrlDecode(b, name.value.index), UrlDecode(b, value.value.index)),
          QueryFrom(b, end, point, value.value.next))
      else if name.value.next < point then
        Adding(Param(UrlDecode(b, name.value.index), UrlDecode(b, Index(name.value.next, end - name.value.next))),
               QueryFrom(b, end, point, name.value.next))
      else None
  }

  function Adding(param: Param, rest: Option<seq<Param>>): Option<seq<Param>> {
    if rest.None? then None else Some([param] + rest.value)
  }

  function Joined(done: seq<Param>, rest: Option<seq<Param>>): Option<seq<Param>> {
    if rest.None? then None else Some(done + rest.value)
  }

  lemma JoinedNothing(rest: Option<seq<Param>>)
    ensures Joined([], rest) == rest
  {
    if rest.Some? {
      assert [] + rest.value == rest.value;
    }
  }

  lemma JoinedAdding(done: seq<Param>, param: Param, rest: Option<seq<Param>>)
    ensures Joined(done, Adding(param, rest)) == Joined(done + [param], rest)
  {
    if rest.Some? {
      assert done + ([param] + rest.value) == (done + [param]) + rest.value;
    }
  }

  /** `iw_web_req_add_parameter`, as far as the strings go. */
  method MakeParameter(b: string, name: Index, value: Index) returns (param: Param)
    requires Within(b, name) && Within(b, value)
    ensures param == Param(UrlDecode(b, name), UrlDecode(b, value))
  {
    hide DecodeFrom, CString;
    var ok, copy, n := DecodeInto(b, name);
    var decodedName := if ok then Some(CString(copy[..n])) else None;
    ok, copy, n := DecodeInto(b, value);
    var decodedValue := if ok then Some(CString(copy[..n])) else None;
    param := Param(decodedName, decodedValue);
  }

  /** `iw_web_req_parse_query`. The offset grows in every turn, so the loop ends. */
  method ParseQuery(b: string, start: nat, end: nat, point: nat) returns (crashed: bool, params: seq<Param>)
    requires end <= |b|
    ensures crashed <==> QueryFrom(b, end, point, start).None?
    ensures !crashed ==> params == QueryFrom(b, end, point, start).value
  {
    hide ReadTo, UrlDecode;
    params := [];
    ghost var from := start;
    var matched: bool, offset: nat, name: Index;
    matched, offset, name := ReadToToken(b[..end], start, "=", false);
    assert Joined([], QueryFrom(b, end, point, start)) == QueryFrom(b, end, point, start) by {
      JoinedNothing(QueryFrom(b, end, point, start));
    }
    while matched
      invariant matched <==> ReadTo(b[..end], from, "=", false).Some?
      invariant matched ==> Read(offset, name) == ReadTo(b[..end], from, "=", false).value
      invariant QueryFrom(b, end, point, start) == Joined(params, QueryFrom(b, end, point, from))
      decreases |b| - from
    {
      ReadToBounds(b, end, from, "=");
      var value;
      var found, next;
      found, next, value := ReadToToken(b[..end], offset, "&", false);
      if !found && offset >= point {
        return true, params;
      }
      if !found {
        value := Index(offset, end - offset);
      } else {
        ReadToBounds(b, end, offset, "&");
        offset := next;
      }
      var param := MakeParameter(b, name, value);
      JoinedAdding(params, param, QueryFrom(b, end, point, offset));
      params := params + [param];
      from := offset;
      matched, offset, name := ReadToToken(b[..end], offset, "=", false);
    }
    crashed := false;
  }

  lemma ReadToBounds(b: string, end: nat, from: nat, token: string)
    requires end <= |b| && token != "" && ReadTo(b[..end], from, token, false).Some?
    ensures var r := ReadTo(b[..end], from, token, false).value; from < r.next <= end && Within(b, r.index)
  {
  }

  // ----- encoded forms

  /** Characters that may stand for themselves in a form. */
  predicate Literal(c: char) {
    c != '%' && c != '+' && c != '&' && c != '='
  }

  predicate HexPair(high: char, low: char, c: char) {
    DigitOf(high) < 16 && DigitOf(low) < 16 && 16 * DigitOf(high) + DigitOf(low) == c as int
  }

  /** `e` is an encoding of `s`: each character as itself, as a plus sign if it is a blank,
      or as a percent sign and two hexadecimal digits (section 2.1 of RFC 3986). */
  predicate Encodes(e: string, s: string)
    decreases |s|
  {
    if s == "" then e == ""
    else
      || (e != "" && Literal(e[0]) && e[0] == s[0] && Encodes(e[1..], s[1..]))
      || (e != "" && e[0] == '+' && s[0] == ' ' && Encodes(e[1..], s[1..]))
      || (|e| >= 3 && e[0] == '%' && HexPair(e[1], e[2], s[0]) && Encodes(e[3..], s[1..]))
  }

  function HexDigit(d: nat): char
    requires d < 16
  {
    if d < 10 then ('0' as int + d) as char else ('A' as int + d - 10) as char
  }

  predicate Unreserved(c: char) {
    '0' <= c <= '9' || 'a' <= c <= 'z' || 'A' <= c <= 'Z' || c in {'-', '.', '_', '~'}
  }

  /** Percent-encoding of everything that is not unreserved (section 2.3 of RFC 3986). */
  function PercentEncode(s: string): string
    requires forall i :: 0 <= i < |s| ==> s[i] as int < 256
  {
    if s == "" then ""
    else if Unreserved(s[0]) then [s[0]] + PercentEncode(s[1..])
    else ['%', HexDigit(s[0] as int / 16), HexDigit(s[0] as int % 16)] + PercentEncode(s[1..])
  }

  lemma {:induction false} PercentEncodes(s: string)
    requires forall i :: 0 <= i < |s| ==> s[i] as int < 256
    ensures Encodes(PercentEncode(s), s)
  {
    if s != "" {
      PercentEncodes(s[1..]);
      var e := PercentEncode(s);
      if Unreserved(s[0]) {
        assert e[0] == s[0] && e[1..] == PercentEncode(s[1..]);
      } else {
        var n := s[0] as int;
        assert HexPair(HexDigit(n / 16), HexDigit(n % 16), s[0]);
        assert e[0] == '%' && e[1] == HexDigit(n / 16) && e[2] == HexDigit(n % 16);
        assert e[3..] == PercentEncode(s[1..]);
      }
    }
  }

  lemma TwoDigits(high: char, low: char)
    requires DigitOf(high) < 16 && DigitOf(low) < 16
    ensures StrToLL([high, low], 16) == Some(16 * DigitOf(high) + DigitOf(low))
  {
    var s := [high, low];
    assert !IsSpace(high) && high != '-' && high != '+';
    assert !HasHexPrefix(s) && SkipSpaces(s) == s;
    DigitRunOf(s, "", 16);
    assert s + "" == s && s[..2] == s && s[..1] == [high] && s[..1][..0] == "";
    assert ValueIn(s, 16) == 16 * ValueIn([high], 16) + DigitOf(low);
    assert ValueIn([high], 16) == 16 * ValueIn("", 16) + DigitOf(high) by {
      assert [high][..0] == "";
    }
  }

  lemma OneDigit(w: string, sign: string, d: char, rest: string)
    requires AllSpace(w) && IsSign(sign) && DigitOf(d) < 16
    requires rest == "" || (IsSpace(rest[0]) && DigitOf(rest[0]) >= 16)
    ensures StrToLL(w + (sign + ("" + ([d] + rest))), 16)
      == Some(if sign == "-" then 0 - DigitOf(d) else DigitOf(d))
  {
    hide StrToLL;
    assert !HasHexPrefix([d] + rest);
    NumbersAreRead(w, sign, "", [d], rest, 16, 16);
    assert ValueIn([d], 16) == DigitOf(d) by {
      assert [d][..0] == "";
    }
  }

  lemma DigitThen(d: char, x: char)
    requires DigitOf(d) < 16 && DigitOf(x) >= 16 && !IsSpace(x)
    ensures StrToLL([d, x], 16) == None
  {
    assert !HasHexPrefix([d, x]);
    NumbersAreRead("", "", "", [d], [x], 16, 16);
    assert "" + ("" + ("" + ([d] + [x]))) == [d, x];
  }

  /** What two characters after a percent sign are read as: two digits as a byte; a single digit
      behind a blank or a sign, or before a blank or the end, as its value, a minus counting down
      from 256; anything else as an error. */
  lemma EscapesRead(b: string, at: nat)
    requires at + 2 < |b|
    ensures
      var h, l := b[at + 1], b[at + 2];
      var r := EscapedByte(b, at);
      if DigitOf(h) < 16 && DigitOf(l) < 16 then r == Some((16 * DigitOf(h) + DigitOf(l)) as char)
      else if DigitOf(h) < 16 && (l == '\0' || IsSpace(l)) then r == Some(DigitOf(h) as char)
      else if (IsSpace(h) || h == '+') && DigitOf(l) < 16 then r == Some(DigitOf(l) as char)
      else if h == '-' && DigitOf(l) < 16 then
        r == Some((if DigitOf(l) == 0 then 0 else 256 - DigitOf(l)) as char)
      else r == None
  {
    hide StrToLL;
    var h, l := b[at + 1], b[at + 2];
    EscapeText(h, l);
    if DigitOf(h) < 16 {
      if DigitOf(l) < 16 {
        TwoDigits(h, l);
      } else if l == '\0' {
        OneDigit("", "", h, "");
        assert "" + ("" + ("" + ([h] + ""))) == [h];
      } else if IsSpace(l) {
        OneDigit("", "", h, [l]);
        assert "" + ("" + ("" + ([h] + [l]))) == [h, l];
      } else {
        DigitThen(h, l);
      }
    } else if DigitOf(l) < 16 {
      SecondDigit(h, l);
    } else {
      NoDigit(h, l);
    }
  }

  lemma EscapeText(h: char, l: char)
    ensures CString([h, l]) == if h == '\0' then "" else if l == '\0' then [h] else [h, l]
  {
    assert [h, l][1..] == [l] && [l][1..] == "";
    assert CString([l]) == if l == '\0' then "" else [l];
  }

  lemma SecondDigit(h: char, l: char)
    requires DigitOf(h) >= 16 && DigitOf(l) < 16
    ensures StrToLL(CString([h, l]), 16) ==
      if IsSpace(h) || h == '+' then Some(DigitOf(l)) else if h == '-' then Some(0 - DigitOf(l)) else None
  {
    hide StrToLL;
    EscapeText(h, l);
    if IsSpace(h) {
      OneDigit([h], "", l, "");
      assert [h] + ("" + ("" + ([l] + ""))) == [h, l];
    } else if h == '+' || h == '-' {
      OneDigit("", [h], l, "");
      assert "" + ([h] + ("" + ([l] + ""))) == [h, l];
    } else {
      var t := CString([h, l]);
      NothingIsRead("", "", t, 16);
      assert "" + ("" + t) == t;
    }
  }

  lemma NoDigit(h: char, l: char)
    requires DigitOf(h) >= 16 && DigitOf(l) >= 16
    ensures StrToLL(CString([h, l]), 16) == None
  {
    EscapeText(h, l);
    var t := CString([h, l]);
    assert t != "" ==> SkipSpaces(t) == if IsSpace(t[0]) then SkipSpaces(t[1..]) else t;
    assert |t| == 2 ==> SkipSpaces(t[1..]) == if IsSpace(l) then SkipSpaces(t[1..][1..]) else [l];
  }

  /** An escaped NUL ends the decoded text. */
  lemma NulCuts(b: string, index: Index, text: string, rest: string)
    requires Within(b, index) && '\0' !in text
    requires DecodeFrom(b, index.start, index.start + index.len) == Some(text + "\0" + rest)
    ensures UrlDecode(b, index) == Some(text)
  {
    hide DecodeFrom, CString;
    CStringEnds(text, rest);
  }

  lemma {:induction false} CStringEnds(text: string, rest: string)
    requires '\0' !in text
    ensures CString(text + "\0" + rest) == text
  {
    var t := text + "\0" + rest;
    if text != "" {
      assert t[0] == text[0] && t[1..] == text[1..] + "\0" + rest;
      CStringEnds(text[1..], rest);
    }
  }

  lemma EscapedPair(b: string, at: nat, c: char)
    requires at + 2 < |b| && HexPair(b[at + 1], b[at + 2], c) && c as int < 256
    ensures EscapedByte(b, at) == Some(c)
  {
    hide StrToLL;
    var s := [b[at + 1], b[at + 2]];
    assert '\0' !in s;
    TwoDigits(b[at + 1], b[at + 2]);
  }

  /** Decoding undoes encoding, wherever in a buffer the text stands. */
  lemma {:induction false} DecodeEncoded(b: string, at: nat, e: string, s: string)
    requires at + |e| <= |b| && b[at..at + |e|] == e && Encodes(e, s)
    requires forall i :: 0 <= i < |s| ==> s[i] as int < 256
    ensures DecodeFrom(b, at, at + |e|) == Some(s)
    decreases |s|
  {
    hide EscapedByte;
    if s != "" {
      assert e[0] == b[at];
      assert s == [s[0]] + s[1..];
      if e[0] == '%' {
        assert e[1] == b[at + 1] && e[2] == b[at + 2];
        EscapedPair(b, at, s[0]);
        assert b[at + 3..at + |e|] == e[3..];
        DecodeEncoded(b, at + 3, e[3..], s[1..]);
      } else {
        assert b[at + 1..at + |e|] == e[1..];
        DecodeEncoded(b, at + 1, e[1..], s[1..]);
      }
    }
  }

  lemma {:induction false} EncodedPlain(e: string, s: string)
    requires Encodes(e, s)
    ensures forall i :: 0 <= i < |e| ==> e[i] != '=' && e[i] != '&'
    decreases |s|
  {
    if s != "" {
      if e[0] == '%' {
        EncodedPlain(e[3..], s[1..]);
        assert forall i :: 3 <= i < |e| ==> e[i] == e[3..][i - 3];
      } else {
        EncodedPlain(e[1..], s[1..]);
        assert forall i :: 1 <= i < |e| ==> e[i] == e[1..][i - 1];
      }
    }
  }

  /** A field as it is sent, and what it stands for. */
  datatype Field = Field(name: string, value: string)

  predicate IsText(s: string) {
    '\0' !in s && forall i :: 0 <= i < |s| ==> s[i] as int < 256
  }

  predicate EncodesField(e: Field, f: Field) {
    Encodes(e.name, f.name) && Encodes(e.value, f.value) && IsText(f.name) && IsText(f.value)
  }

  ghost predicate EncodesAll(es: seq<Field>, fs: seq<Field>) {
    |es| == |fs| && forall i :: 0 <= i < |es| ==> EncodesField(es[i], fs[i])
  }

  /** The fields joined with `=` and `&`. */
  function FormText(es: seq<Field>): string {
    if es == [] then ""
    else es[0].name + "=" + es[0].value + if |es| == 1 then "" else "&" + FormText(es[1..])
  }

  function ParamsOf(fs: seq<Field>): seq<Param> {
    if fs == [] then [] else [Param(Some(fs[0].name), Some(fs[0].value))] + ParamsOf(fs[1..])
  }

  lemma DecodeField(b: string, at: nat, e: string, s: string)
    requires at + |e| <= |b| && b[at..at + |e|] == e && Encodes(e, s) && IsText(s)
    ensures UrlDecode(b, Index(at, |e|)) == Some(s)
  {
    DecodeEncoded(b, at, e, s);
  }

  lemma FourParts(t: string, x: string, c: char, y: string, z: string)
    requires t == x + [c] + y + z
    ensures |t| == |x| + 1 + |y| + |z|
    ensures t[..|x|] == x && t[|x|] == c && t[|x| + 1..|x| + 1 + |y|] == y && t[|x| + 1 + |y|..] == z
  {
  }

  lemma FieldChars(b: string, at: nat, end: nat, e: Field, rest: string)
    requires at <= end <= |b| && b[at..end] == e.name + "=" + e.value + rest
    ensures var o := at + |e.name| + 1;
      && o + |e.value| + |rest| == end
      && b[at..at + |e.name|] == e.name && b[at + |e.name|] == '='
      && b[o..o + |e.value|] == e.value && b[o + |e.value|..end] == rest
  {
    var t := b[at..end];
    FourParts(t, e.name, '=', e.value, rest);
    var o := |e.name| + 1;
    SliceOfSlice(b, at, end, 0, |e.name|);
    SliceOfSlice(b, at, end, o, o + |e.value|);
    SliceOfSlice(b, at, end, o + |e.value|, |t|);
  }

  lemma SliceLacks(b: string, from: nat, x: string, end: nat, c: char)
    requires from + |x| <= end <= |b| && b[from..from + |x|] == x && forall i :: 0 <= i < |x| ==> x[i] != c
    ensures forall k :: from <= k < from + |x| ==> b[..end][k] != c
  {
    forall k | from <= k < from + |x| ensures b[..end][k] != c {
      assert x[k - from] == b[k];
    }
  }

  /** A field and what follows it, in place. */
  lemma FieldInPlace(b: string, at: nat, end: nat, e: Field, rest: string)
    requires at <= end <= |b| && b[at..end] == e.name + "=" + e.value + rest
    requires forall i :: 0 <= i < |e.name| ==> e.name[i] != '='
    requires forall i :: 0 <= i < |e.value| ==> e.value[i] != '&' && e.value[i] != '='
    ensures var o := at + |e.name| + 1;
      && o + |e.value| + |rest| == end
      && b[at..at + |e.name|] == e.name && b[o..o + |e.value|] == e.value && b[o + |e.value|..end] == rest
      && ReadTo(b[..end], at, "=", false) == Some(Read(o, Index(at, |e.name|)))
      && (rest == "" ==> ReadTo(b[..end], o, "&", false) == None && ReadTo(b[..end], o, "=", false) == None)
      && (rest != "" && rest[0] == '&' ==>
            ReadTo(b[..end], o, "&", false) == Some(Read(o + |e.value| + 1, Index(o, |e.value|))))
  {
    hide ReadTo;
    FieldChars(b, at, end, e, rest);
    var c, o := b[..end], at + |e.name| + 1;
    SliceLacks(b, at, e.name, end, '=');
    SliceLacks(b, o, e.value, end, '=');
    SliceLacks(b, o, e.value, end, '&');
    ReadToChar(c, at, '=', false, o - 1);
    if rest == "" {
      ReadToNothing(c, o, '&', false);
      ReadToNothing(c, o, '=', false);
    } else if rest[0] == '&' {
      assert c[o + |e.value|] == b[o + |e.value|..end][0];
      ReadToChar(c, o, '&', false, o + |e.value|);
    }
  }

  /** What a query is split into, whatever it holds: the name is what comes before the first equal
      sign, the value what comes before the next ampersand, and the rest is split likewise. A last
      value reaches to the end, and is then split as a query of its own. */
  lemma QueryParts(b: string, at: nat, end: nat, point: nat, name: string, value: string, rest: string)
    requires at <= end <= |b| && b[at..end] == name + "=" + value + rest
    requires (forall i :: 0 <= i < |name| ==> name[i] != '=') && (forall i :: 0 <= i < |value| ==> value[i] != '&')
    requires rest == "" || rest[0] == '&'
    ensures
      var o := at + |name| + 1;
      && o + |value| + |rest| == end
      && var param := Param(UrlDecode(b, Index(at, |name|)), UrlDecode(b, Index(o, |value|)));
        QueryFrom(b, end, point, at) ==
          if rest != "" then Adding(param, QueryFrom(b, end, point, o + |value| + 1))
          else if o < point then Adding(param, QueryFrom(b, end, point, o))
          else None
  {
    hide ReadTo, UrlDecode;
    FieldChars(b, at, end, Field(name, value), rest);
    var c, o := b[..end], at + |name| + 1;
    SliceLacks(b, at, name, end, '=');
    SliceLacks(b, o, value, end, '&');
    ReadToChar(c, at, '=', false, o - 1);
    if rest == "" {
      ReadToNothing(c, o, '&', false);
    } else {
      assert c[o + |value|] == b[o + |value|..end][0];
      ReadToChar(c, o, '&', false, o + |value|);
    }
  }

  /** So a query of three letters with two equal signs between them has two parameters. */
  lemma SplitAgain(x: char, y: char, z: char)
    requires Unreserved(x) && Unreserved(y) && Unreserved(z)
    ensures QueryFrom([x, '=', y, '=', z], 5, 5, 0)
      == Some([Param(Some([x]), UrlDecode([x, '=', y, '=', z], Index(2, 3))), Param(Some([y]), Some([z]))])
  {
    hide QueryFrom, UrlDecode;
    var b := [x, '=', y, '=', z];
    assert b[0..5] == [x] + "=" + [y, '=', z] + "" && b[2..5] == [y] + "=" + [z] + "";
    QueryParts(b, 0, 5, 5, [x], [y, '=', z], "");
    QueryParts(b, 2, 5, 5, [y], [z], "");
    QueryWithoutEqualSign(b, 4, 5, 5);
    LetterDecoded(b, 0);
    LetterDecoded(b, 2);
    LetterDecoded(b, 4);
    var param := Param(Some([y]), Some([z]));
    var first := Param(Some([x]), UrlDecode(b, Index(2, 3)));
    assert [param] + [] == [param] && [first] + [param] == [first, param];
    assert |[x]| == |[y]| == |[z]| == 1 && |[y, '=', z]| == 3;
    assert QueryFrom(b, 5, 5, 2) == Adding(param, Some([]));
  }

  lemma LetterDecoded(b: string, at: nat)
    requires at < |b| && Unreserved(b[at])
    ensures UrlDecode(b, Index(at, 1)) == Some([b[at]])
  {
    assert Encodes([b[at]][1..], [b[at]][1..]);
    DecodeField(b, at, [b[at]], [b[at]]);
  }

  lemma QueryWithoutEqualSign(b: string, at: nat, end: nat, point: nat)
    requires at <= end <= |b| && forall k :: at <= k < end ==> b[k] != '='
    ensures QueryFrom(b, end, point, at) == Some([])
  {
    hide ReadTo;
    ReadToNothing(b[..end], at, '=', false);
  }

  /** What is read of the first field, and where the next one starts. */
  lemma FirstFieldRead(b: string, start: nat, end: nat, es: seq<Field>, fs: seq<Field>)
    requires start <= end <= |b| && es != [] && b[start..end] == FormText(es) && EncodesAll(es, fs)
    ensures |fs| == |es|
    ensures var o := start + |es[0].name| + 1; var next := o + |es[0].value|;
      && next <= end && (|es| == 1 <==> next == end)
      && ReadTo(b[..end], start, "=", false) == Some(Read(o, Index(start, |es[0].name|)))
      && ReadTo(b[..end], o, "&", false) == (if |es| == 1 then None else Some(Read(next + 1, Index(o, |es[0].value|))))
      && (|es| == 1 ==> ReadTo(b[..end], o, "=", false) == None)
      && (|es| > 1 ==> next < end && b[next + 1..end] == FormText(es[1..]))
      && UrlDecode(b, Index(start, |es[0].name|)) == Some(fs[0].name)
      && UrlDecode(b, Index(o, |es[0].value|)) == Some(fs[0].value)
  {
    hide ReadTo, UrlDecode, EncodesAll, Encodes, EncodesField, FormText, RestText, IsText;
    FirstEncoded(es, fs);
    var e, f := es[0], fs[0];
    FieldPlain(e, f);
    FormTextParts(es);
    var rest := RestText(es);
    RestTextParts(es);
    var o := start + |e.name| + 1;
    FieldInPlace(b, start, end, e, rest);
    DecodeField(b, start, e.name, f.name);
    DecodeField(b, o, e.value, f.value);
    if |es| > 1 {
      assert b[o + |e.value| + 1..end] == b[o + |e.value|..end][1..];
    }
  }

  lemma FieldPlain(e: Field, f: Field)
    requires EncodesField(e, f)
    ensures Encodes(e.name, f.name) && Encodes(e.value, f.value) && IsText(f.name) && IsText(f.value)
    ensures forall i :: 0 <= i < |e.name| ==> e.name[i] != '='
    ensures forall i :: 0 <= i < |e.value| ==> e.value[i] != '&' && e.value[i] != '='
  {
    EncodedPlain(e.name, f.name);
    EncodedPlain(e.value, f.value);
  }

  function RestText(es: seq<Field>): string
    requires es != []
  {
    if |es| == 1 then "" else "&" + FormText(es[1..])
  }

  lemma FormTextParts(es: seq<Field>)
    requires es != []
    ensures FormText(es) == es[0].name + "=" + es[0].value + RestText(es)
  {
  }

  lemma RestTextParts(es: seq<Field>)
    requires es != []
    ensures |es| == 1 <==> RestText(es) == ""
    ensures |es| > 1 ==> RestText(es)[0] == '&' && RestText(es)[1..] == FormText(es[1..])
  {
  }

  /** Query parsing undoes form encoding, except that it follows a null pointer exactly if
      the last value is empty and the text ends where the request does. */
  lemma {:induction false} QueryOfForm(b: string, start: nat, end: nat, point: nat, es: seq<Field>, fs: seq<Field>)
    requires start <= end <= |b| && end <= point && b[start..end] == FormText(es) && EncodesAll(es, fs)
    ensures QueryFrom(b, end, point, start) ==
            if es != [] && es[|es| - 1].value == "" && end == point then None else Some(ParamsOf(fs))
    decreases |es|
  {
    hide ReadTo, UrlDecode, EncodesAll, Encodes, EncodesField, FormText;
    if es == [] {
      NoFieldsText();
      ReadToNothing(b[..end], start, '=', false);
      SameCount(es, fs);
    } else {
      FirstFieldRead(b, start, end, es, fs);
      var next := start + |es[0].name| + 1 + |es[0].value|;
      if |es| == 1 {
        OneParam(fs);
      } else {
        FirstEncoded(es, fs);
        QueryOfForm(b, next + 1, end, point, es[1..], fs[1..]);
      }
    }
  }

  lemma NoFieldsText()
    ensures FormText([]) == ""
  {
  }

  lemma OneParam(fs: seq<Field>)
    requires |fs| == 1
    ensures Adding(Param(Some(fs[0].name), Some(fs[0].value)), Some([])) == Some(ParamsOf(fs))
  {
    assert fs[1..] == [];
  }

  lemma SameCount(es: seq<Field>, fs: seq<Field>)
    requires EncodesAll(es, fs)
    ensures |es| == |fs|
  {
  }

  lemma FirstEncoded(es: seq<Field>, fs: seq<Field>)
    requires es != [] && EncodesAll(es, fs)
    ensures |fs| == |es| && EncodesField(es[0], fs[0]) && EncodesAll(es[1..], fs[1..])
  {
  }

  /** For any text that is parsed up to the parse point, the null pointer is followed
      exactly if the text ends in an equal sign. */
  lemma {:induction false} QueryCrashesExactly(b: string, end: nat, offset: nat)
    requires offset <= end <= |b|
    ensures QueryFrom(b, end, end, offset).None? <==> offset < end && b[end - 1] == '='
    decreases end - offset
  {
    hide ReadTo, UrlDecode;
    var c := b[..end];
    LastEqualSign(b, end, offset);
    var name := ReadTo(c, offset, "=", false);
    if name.Some? {
      var o := name.value.next;
      var value := ReadTo(c, o, "&", false);
      if value.Some? {
        LastNotAmpersand(b, end, o);
        QueryCrashesExactly(b, end, value.value.next);
      } else if o < end {
        QueryCrashesExactly(b, end, o);
      }
    }
  }

  lemma LastEqualSign(b: string, end: nat, offset: nat)
    requires offset <= end <= |b|
    ensures var r := ReadTo(b[..end], offset, "=", false);
      && (r.Some? ==> offset < r.value.next <= end && b[r.value.next - 1] == '=')
      && (offset < end && b[end - 1] == '=' ==> r.Some?)
  {
    hide Find, MatchAt, TrimmedIndex;
    var c := b[..end];
    FindExactly(c, offset, "=");
    if Find(c, offset, "=").Some? {
      MatchChar(c, Find(c, offset, "=").value, '=');
    } else if offset < end {
      MatchChar(c, end - 1, '=');
    }
  }

  lemma LastNotAmpersand(b: string, end: nat, offset: nat)
    requires offset <= end <= |b| && ReadTo(b[..end], offset, "&", false).Some?
    ensures var r := ReadTo(b[..end], offset, "&", false).value;
      offset < r.next <= end && b[r.next - 1] == '&'
  {
    hide Find, MatchAt, TrimmedIndex;
    FindExactly(b[..end], offset, "&");
    MatchChar(b[..end], Find(b[..end], offset, "&").value, '&');
  }

  /** Query parsing looks at most two characters beyond the text. */
  lemma {:induction false} QueryInPrefix(p: string, b: string, end: nat, point: nat, offset: nat)
    requires p <= b && end + 2 <= |p|
    ensures QueryFrom(b, end, point, offset) == QueryFrom(p, end, point, offset)
    decreases |b| - offset
  {
    hide DecodeFrom, CString, Find;
    assert b[..end] == p[..end];
    var name := ReadTo(b[..end], offset, "=", false);
    if name.Some? {
      ReadToBounds(b, end, offset, "=");
      var o, n := name.value.next, name.value.index;
      DecodeInPrefix(p, b, n.start, n.start + n.len);
      DecodeInPrefix(p, b, o, end);
      var value := ReadTo(b[..end], o, "&", false);
      if value.Some? {
        ReadToBounds(b, end, o, "&");
        DecodeInPrefix(p, b, value.value.index.start, value.value.index.start + value.value.index.len);
        QueryInPrefix(p, b, end, point, value.value.next);
      } else {
        QueryInPrefix(p, b, end, point, o);
      }
    }
  }

  /** Parsing stops short of the parse point: no null pointer then. */
  lemma {:induction false} NoCrashBefore(b: string, end: nat, point: nat, offset: nat)
    requires end <= |b| && end < point
    ensures QueryFrom(b, end, point, offset).Some?
    decreases |b| - offset
  {
    hide ReadTo, UrlDecode;
    var name := ReadTo(b[..end], offset, "=", false);
    if name.Some? {
      ReadToBounds(b, end, offset, "=");
      var value := ReadTo(b[..end], name.value.next, "&", false);
      if value.Some? {
        ReadToBounds(b, end, name.value.next, "&");
        NoCrashBefore(b, end, point, value.value.next);
      } else {
        NoCrashBefore(b, end, point, name.value.next);
      }
    }
  }
}
