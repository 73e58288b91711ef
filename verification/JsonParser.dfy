/** The parser as it runs: a cursor over the text, loops, and a buffer for decoded
    strings. Every method computes what `JsonParse` says, reads no character beyond a
    string's closing quote while decoding it, and stays inside its buffer. */
module JsonParser {
  import opened Text
  import opened JsonNumber
  import opened JsonValue
  import opened JsonParse
  import Utf8

  lemma Suffix(text: string, pos: nat)
    requires pos < |text|
    ensures
      var t := text[pos..];
      && t != "" && t[0] == text[pos] && t[1..] == text[pos + 1..]
      && (|t| >= 2 ==> t[1] == text[pos + 1] && t[2..] == text[pos + 2..])
  {
  }

  lemma SpacesStep(text: string, pos: nat)
    requires pos <= |text|
    ensures SkipSpaces(text[pos..])
         == if pos < |text| && IsSpace(text[pos]) then SkipSpaces(text[pos + 1..]) else text[pos..]
  {
    if pos < |text| {
      Suffix(text, pos);
    }
  }

  /** The macro `SKIP_WHITESPACES`. */
  method SkipWhitespace(text: string, pos: nat) returns (pos': nat)
    requires pos <= |text|
    ensures pos <= pos' <= |text| && text[pos'..] == SkipSpaces(text[pos..])
  {
    hide SkipSpaces;
    pos' := pos;
    while IsSpace(At(text, pos'))
      invariant pos <= pos' <= |text| && SkipSpaces(text[pos'..]) == SkipSpaces(text[pos..])
      decreases |text| - pos'
    {
      SpacesStep(text, pos');
      pos' := pos' + 1;
    }
    SpacesStep(text, pos');
  }

  /** The region between quotes together with the closing quote, which ends it. */
  predicate EndsAtQuote(t: string) {
    if t == "" then false
    else if t[0] == '\"' then |t| == 1
    else if t[0] == '\\' then |t| >= 3 && EndsAtQuote(t[2..])
    else EndsAtQuote(t[1..])
  }

  lemma {:induction false} QuotedRegion(s: string)
    requires AfterQuote(s) != ""
    ensures EndsAtQuote(s[..|s| - |AfterQuote(s)|])
  {
    hide AfterQuote, EndsAtQuote;
    QuoteStep(s, 0);
    var n := |s| - |AfterQuote(s)|;
    RegionStep(s[..n]);
    if s[0] == '\"' {
    } else if s[0] == '\\' {
      QuotedRegion(s[2..]);
      assert s[..n][2..] == s[2..][..n - 2];
    } else {
      QuotedRegion(s[1..]);
      assert s[..n][1..] == s[1..][..n - 1];
    }
  }

  lemma RegionStep(t: string)
    ensures EndsAtQuote(t)
       <==> t != "" && (if t[0] == '\"' then |t| == 1
                        else if t[0] == '\\' then |t| >= 3 && EndsAtQuote(t[2..])
                        else EndsAtQuote(t[1..]))
  {
  }

  lemma QuoteStep(text: string, pos: nat)
    requires pos <= |text|
    ensures
      var r := AfterQuote(text[pos..]);
      if pos == |text| then r == ""
      else if text[pos] == '\"' then r == text[pos + 1..]
      else if text[pos] != '\\' then r == AfterQuote(text[pos + 1..])
      else if pos + 1 == |text| then r == ""
      else r == AfterQuote(text[pos + 2..])
  {
    if pos < |text| {
      Suffix(text, pos);
    }
  }

  lemma {:induction false} EndsWithQuote(t: string)
    requires EndsAtQuote(t)
    ensures |t| > 0 && t[|t| - 1] == '\"'
  {
    if t[0] == '\\' {
      EndsWithQuote(t[2..]);
    } else if t[0] != '\"' {
      EndsWithQuote(t[1..]);
    }
  }

  /** `skip_quotes` from the opening quote on. */
  method SkipQuotes(text: string, pos: nat) returns (pos': nat)
    requires pos < |text|
    ensures pos < pos' <= |text| && text[pos'..] == AfterQuote(text[pos + 1..])
  {
    hide AfterQuote;
    pos' := pos + 1;
    while pos' < |text| && text[pos'] != '\"'
      invariant pos < pos' <= |text| && AfterQuote(text[pos'..]) == AfterQuote(text[pos + 1..])
    {
      QuoteStep(text, pos');
      if text[pos'] == '\\' {
        pos' := pos' + 1;
        if pos' == |text| {
          return;
        }
      }
      pos' := pos' + 1;
    }
    QuoteStep(text, pos');
    if pos' < |text| {
      pos' := pos' + 1;
    }
  }

  predicate IsHexDigit(c: char) { DigitOf(c) < 16 }

  /** `is_utf16_hex`: stops at the first character that is no digit, at the latest at the
      closing quote. */
  predicate IsUtf16Hex(input: string, i: nat)
    requires i < |input| && input[|input| - 1] == '\"'
  {
    IsHexDigit(input[i]) && IsHexDigit(input[i + 1]) && IsHexDigit(input[i + 2]) && IsHexDigit(input[i + 3])
  }

  lemma HexIsHex4(input: string, i: nat)
    requires i < |input| && input[|input| - 1] == '\"'
    ensures IsUtf16Hex(input, i) <==> Utf8.IsHex4(input, i)
    ensures IsUtf16Hex(input, i) ==> i + 4 < |input|
  {
  }

  /** `parse_utf_16` at the `u` of an escape: stores the decoded bytes and moves on. */
  method DecodeUtf16(input: string, i: nat, output: array<char>, j: nat) returns (ok: bool, i': nat, j': nat)
    requires i < |input| && input[i] == 'u' && input[|input| - 1] == '\"'
    requires j < i && |input| <= output.Length
    modifies output
    ensures
      var e := Utf8.ParseUtf16(input[i..]);
      && ok == e.Decoded?
      && (ok ==> i' == i + e.length && j' == j + |e.bytes| && j' < i' < |input|
                 && output[..j'] == old(output[..j]) + e.bytes)
  {
    ok, i', j' := false, i, j;
    HexAfter(input, i, 1);
    if !IsUtf16Hex(input, i + 1) {
      return;
    }
    var cp := Utf8.Hex4(input, i + 1);
    i' := i + 5;
    if Utf8.IsTrail(cp) {
      return;
    }
    if Utf8.IsLead(cp) {
      if input[i'] != '\\' || input[i' + 1] != 'u' {
        return;
      }
      HexAfter(input, i, 7);
      if !IsUtf16Hex(input, i' + 2) || !Utf8.IsTrail(Utf8.Hex4(input, i' + 2)) {
        return;
      }
      cp := Utf8.Combine(cp, Utf8.Hex4(input, i' + 2));
      i' := i' + 6;
    }
    j' := StoreBytes(Utf8.Encode(cp), output, j);
    ok := true;
  }

  lemma HexAfter(input: string, i: nat, k: nat)
    requires i + k < |input| && input[|input| - 1] == '\"'
    ensures IsUtf16Hex(input, i + k) <==> Utf8.IsHex4(input[i..], k)
    ensures IsUtf16Hex(input, i + k) ==> i + k + 4 < |input| && Utf8.Hex4(input, i + k) == Utf8.Hex4(input[i..], k)
  {
    HexIsHex4(input, i + k);
  }

  method StoreBytes(bytes: string, output: array<char>, j: nat) returns (j': nat)
    requires j + |bytes| <= output.Length
    modifies output
    ensures j' == j + |bytes| && output[..j'] == old(output[..j]) + bytes
  {
    j' := j;
    while j' < j + |bytes|
      invariant j <= j' <= j + |bytes|
      invariant output[..j'] == old(output[..j]) + bytes[..j' - j]
    {
      output[j'] := bytes[j' - j];
      j' := j' + 1;
    }
  }

  /** How decoding goes on after the character or escape at `i`. */
  lemma DecodeStep(input: string, i: nat)
    requires i < |input|
    ensures
      var r := Decode(input[i..]);
      if i + 1 == |input| then r == Some("")
      else if input[i] == '\\' then
        if input[i + 1] == 'u' then
          var e := Utf8.ParseUtf16(input[i + 1..]);
          r == if e.Refused? then None else Prepend(e.bytes, Decode(input[i + 1 + e.length..]))
        else
          var c := Unescape(input[i + 1]);
          r == if c.None? then None else Prepend([c.value], Decode(input[i + 2..]))
      else r == if input[i] < ' ' then None else Prepend([input[i]], Decode(input[i + 1..]))
  {
    hide Utf8.ParseUtf16;
    Suffix(input, i);
    if i + 1 < |input| && input[i] == '\\' && input[i + 1] == 'u' {
      var e := Utf8.ParseUtf16(input[i + 1..]);
      if e.Decoded? {
        assert input[i..][1 + e.length..] == input[i + 1 + e.length..];
      }
    }
  }

  lemma PrependPrepend(a: string, b: string, r: Option<string>)
    ensures Prepend(a, Prepend(b, r)) == Prepend(a + b, r)
  {
    if r.Some? {
      assert a + b + r.value == a + (b + r.value);
    }
  }

  /** An accepted escape holds no quote, so the region still ends at the same quote. */
  lemma RegionAfterEscape(input: string, i: nat)
    requires i + 1 < |input| && EndsAtQuote(input[i..]) && input[i] == '\\' && input[i + 1] == 'u'
    requires Utf8.ParseUtf16(input[i + 1..]).Decoded?
    ensures
      var n := Utf8.ParseUtf16(input[i + 1..]).length;
      i + 1 + n < |input| && EndsAtQuote(input[i + 1 + n..])
  {
    var t := input[i + 1..];
    RegionAt(input, i);
    assert t[1..] == input[i + 2..];
    FourHex(t, 1);
    if Utf8.ParseUtf16(t).length == 11 {
      RegionAt(input, i + 6);
      assert t[7..] == input[i + 8..];
      FourHex(t, 7);
    }
  }

  lemma RegionAt(input: string, i: nat)
    requires i < |input| && EndsAtQuote(input[i..])
    ensures input[i] == '\\' ==> i + 2 < |input| && EndsAtQuote(input[i + 2..])
    ensures input[i] != '\\' && i + 1 < |input| ==> EndsAtQuote(input[i + 1..])
    ensures input[i] == '\"' <==> i + 1 == |input|
  {
    hide EndsAtQuote;
    Suffix(input, i);
    RegionStep(input[i..]);
    if i + 1 == |input| {
      EndsWithQuote(input[i..]);
    }
  }

  lemma FourHex(t: string, k: nat)
    requires Utf8.IsHex4(t, k) && EndsAtQuote(t[k..])
    ensures k + 4 < |t| && EndsAtQuote(t[k + 4..])
  {
    RegionAt(t, k);
    RegionAt(t, k + 1);
    RegionAt(t, k + 2);
    RegionAt(t, k + 3);
  }

  /** `process_string`: `input` is the region between the quotes with the closing quote.
      All reads fall inside it and all writes inside a buffer of its size. */
  method ProcessString(input: string) returns (r: Option<string>)
    requires EndsAtQuote(input)
    ensures r == Decode(input)
  {
    hide EndsAtQuote, Decode, Unescape, Utf8.ParseUtf16, Prepend;
    EndsWithQuote(input);
    var length := |input| - 1;
    var output := new char[length + 1];
    var i, j := 0, 0;
    assert input[0..] == input;
    PrependNothing(Decode(input));
    while i < length
      invariant 0 <= j <= i <= length && EndsAtQuote(input[i..])
      invariant Prepend(output[..j], Decode(input[i..])) == Decode(input)
    {
      ghost var done := output[..j];
      RegionAt(input, i);
      DecodeStep(input, i);
      PrependFails(done);
      if input[i] == '\\' {
        if input[i + 1] == 'u' {
          EndsWithQuote(input[i..]);
          ghost var e := Utf8.ParseUtf16(input[i + 1..]);
          var ok, i', j' := DecodeUtf16(input, i + 1, output, j);
          if !ok {
            return None;
          }
          RegionAfterEscape(input, i);
          PrependPrepend(done, e.bytes, Decode(input[i'..]));
          i, j := i', j';
        } else {
          var c := Unescape(input[i + 1]);
          if c.None? {
            return None;
          }
          PrependPrepend(done, [c.value], Decode(input[i + 2..]));
          output[j] := c.value;
          assert output[..j + 1] == done + [c.value];
          i, j := i + 2, j + 1;
        }
      } else if input[i] < ' ' {
        return None;
      } else {
        PrependPrepend(done, [input[i]], Decode(input[i + 1..]));
        output[j] := input[i];
        assert output[..j + 1] == done + [input[i]];
        i, j := i + 1, j + 1;
      }
    }
    ghost var done := output[..j];
    DecodeStep(input, i);
    PrependEnd(done);
    output[j] := '\0';
    r := Some(output[..j]);
    assert output[..j] == done;
  }

  lemma PrependNothing(r: Option<string>)
    ensures Prepend("", r) == r
  {
    if r.Some? {
      assert "" + r.value == r.value;
    }
  }

  lemma PrependFails(s: string)
    ensures Prepend(s, None) == None
  {
  }

  lemma PrependEnd(s: string)
    ensures Prepend(s, Some("")) == Some(s)
  {
    assert s + "" == s;
  }

  /** `get_quoted_string`. */
  method GetQuotedString(text: string, pos: nat) returns (q: Option<string>, pos': nat)
    requires pos < |text|
    ensures
      var spec := QuotedString(text[pos..]);
      && (q.None? <==> spec.BadQuote?)
      && (q.Some? ==> pos < pos' <= |text| && spec == Quoted(q.value, text[pos'..]))
  {
    hide AfterQuote, Decode, EndsAtQuote;
    ghost var s := text[pos..];
    Suffix(text, pos);
    pos' := SkipQuotes(text, pos);
    if pos' == |text| {
      return None, pos';
    }
    assert |s| - |AfterQuote(s[1..])| == pos' - pos;
    assert s[1..pos' - pos] == text[pos + 1..pos'] == text[pos + 1..][..pos' - pos - 1];
    QuotedRegion(text[pos + 1..]);
    var decoded := ProcessString(text[pos + 1..pos']);
    if decoded.None? {
      return None, pos';
    }
    q := Some(CString(decoded.value));
  }

  /** A method's answer agrees with what the specification says of the text left. */
  ghost predicate Agrees(r: Parsed, text: string, ok: bool, v: Value, pos: nat) {
    if ok then pos <= |text| && r == Ok(v, text[pos..]) else r == Fail
  }

  /** `parse_number_value`; `strtod` is represented by where it stops and the number it gives. */
  method ParseNumberValue(text: string, pos: nat) returns (ok: bool, v: Value, pos': nat)
    requires pos <= |text|
    ensures Agrees(ParseNumber(text[pos..]), text, ok, v, pos')
  {
    hide NumberOf, NumberLength, IsDecimal;
    var end := pos + NumberLength(text[pos..]);
    assert text[pos..end] == text[pos..][..end - pos] && text[end..] == text[pos..][end - pos..];
    ok, v, pos' := IsDecimal(text[pos..end]), Number(NumberOf(text[pos..])), end;
  }

  /** `parse_boolean_value` and `parse_null_value`. */
  method ParseLiteralValue(text: string, pos: nat) returns (ok: bool, v: Value, pos': nat)
    requires pos <= |text|
    ensures Agrees(ParseLiteral(text[pos..]), text, ok, v, pos')
  {
    var t := text[pos..];
    if "true" <= t {
      ok, v, pos' := true, Boolean(true), pos + 4;
    } else if "false" <= t {
      ok, v, pos' := true, Boolean(false), pos + 5;
    } else if "null" <= t {
      ok, v, pos' := true, Null, pos + 4;
    } else {
      ok, v, pos' := false, Null, pos;
    }
  }

  method ParseStringValue(text: string, pos: nat) returns (ok: bool, v: Value, pos': nat)
    requires pos < |text|
    ensures Agrees(ParseQuoted(text[pos..]), text, ok, v, pos')
  {
    var q;
    q, pos' := GetQuotedString(text, pos);
    if q.None? {
      return false, Null, pos';
    }
    ok, v := true, String(q.value);
  }

  /** `parse_value`. */
  method ParseValueAt(text: string, pos: nat, nesting: nat) returns (ok: bool, v: Value, pos': nat)
    requires pos <= |text|
    ensures Agrees(ParseValue(text[pos..], nesting), text, ok, v, pos')
    decreases |text| - pos, 1
  {
    hide ParseObject, ParseArray, QuotedString, ParseLiteral, ParseNumber, SkipSpaces;
    ok, v, pos' := false, Null, pos;
    if nesting > MAX_NESTING {
      return;
    }
    pos' := SkipWhitespace(text, pos);
    if pos' == |text| {
      return;
    }
    Suffix(text, pos');
    var c := text[pos'];
    if c == '{' {
      ok, v, pos' := ParseObjectAt(text, pos', nesting + 1);
    } else if c == '[' {
      ok, v, pos' := ParseArrayAt(text, pos', nesting + 1);
    } else if c == '\"' {
      ok, v, pos' := ParseStringValue(text, pos');
    } else if c == 'f' || c == 't' || c == 'n' {
      ok, v, pos' := ParseLiteralValue(text, pos');
    } else if c == '-' || '0' <= c <= '9' {
      ok, v, pos' := ParseNumberValue(text, pos');
    }
  }

  /** What the text left says after the cursor has moved on. */
  lemma Onward(text: string, pos: nat)
    requires pos <= |text|
    ensures At(text[pos..], 0) == At(text, pos)
    ensures (text[pos..] == "" <==> pos == |text|)
    ensures pos < |text| ==> text[pos..][1..] == text[pos + 1..]
  {
  }

  /** How a turn of a parsing loop ends. */
  datatype Turn = Failed | Last | More

  /** One turn of the loop in `parse_array_value`. */
  method ArrayTurn(text: string, pos: nat, nesting: nat, items: seq<Value>, capacity: nat)
    returns (turn: Turn, items': seq<Value>, capacity': nat, pos': nat)
    requires pos < |text|
    ensures pos' <= |text|
    ensures
      var r := ParseItems(text[pos..], nesting, items, capacity);
      match turn
      case Failed => r == Fail
      case Last => r == FinishArray(text[pos'..], items')
      case More => pos < pos' && r == ParseItems(text[pos'..], nesting, items', capacity')
    decreases |text| - pos, 2
  {
    hide ParseValue, ParseItems, SkipSpaces, FinishArray, Room;
    ItemsTurn(text[pos..], nesting, items, capacity);
    turn, items', capacity' := Failed, items, capacity;
    var ok, v, p := ParseValueAt(text, pos, nesting);
    if !ok {
      return turn, items', capacity', pos;
    }
    var room := Room(|items|, capacity, ARRAY_MAX_CAPACITY);
    if room.None? {
      return turn, items', capacity', pos;
    }
    items', capacity' := items + [v], room.value;
    pos' := SkipWhitespace(text, p);
    Onward(text, pos');
    if At(text, pos') != ',' {
      return Last, items', capacity', pos';
    }
    pos' := SkipWhitespace(text, pos' + 1);
    turn := More;
  }

  /** `parse_array_value`. */
  method ParseArrayAt(text: string, pos: nat, nesting: nat) returns (ok: bool, v: Value, pos': nat)
    requires pos < |text|
    ensures Agrees(ParseArray(text[pos..], nesting), text, ok, v, pos')
    decreases |text| - pos, 0
  {
    hide ParseItems, SkipSpaces, FinishArray;
    ghost var goal := ParseArray(text[pos..], nesting);
    Onward(text, pos);
    pos' := SkipWhitespace(text, pos + 1);
    Onward(text, pos');
    if At(text, pos') == ']' {
      return true, Array([]), pos' + 1;
    }
    var items, capacity, turn := [], 0, More;
    while pos' < |text| && turn == More
      invariant (turn == More ==> pos < pos') && pos' <= |text| && turn != Failed
      invariant goal == if turn == More then ParseItems(text[pos'..], nesting, items, capacity)
                        else FinishArray(text[pos'..], items)
      decreases turn == More, |text| - pos'
    {
      turn, items, capacity, pos' := ArrayTurn(text, pos', nesting, items, capacity);
      if turn == Failed {
        return false, Null, pos';
      }
    }
    if turn == More {
      ItemsEnd(text[pos'..], nesting, items, capacity);
    }
    ok, v, pos' := FinishArrayAt(text, pos', items);
  }

  lemma ItemsEnd(s: string, nesting: nat, items: seq<Value>, capacity: nat)
    requires s == ""
    ensures ParseItems(s, nesting, items, capacity) == FinishArray(s, items)
  {
  }

  method FinishArrayAt(text: string, pos: nat, items: seq<Value>) returns (ok: bool, v: Value, pos': nat)
    requires pos <= |text|
    ensures Agrees(FinishArray(text[pos..], items), text, ok, v, pos')
  {
    hide SkipSpaces;
    pos' := SkipWhitespace(text, pos);
    Onward(text, pos');
    ok := At(text, pos') == ']' && |items| > 0;
    v := Array(items);
    if ok {
      pos' := pos' + 1;
    }
  }

  /** One turn of the loop in `parse_object_value`. */
  method ObjectTurn(text: string, pos: nat, nesting: nat, o: Value) returns (turn: Turn, o': Value, pos': nat)
    requires pos < |text| && o.Object?
    ensures pos' <= |text| && o'.Object?
    ensures
      var r := ParseMembers(text[pos..], nesting, o);
      match turn
      case Failed => r == Fail
      case Last => r == FinishObject(text[pos'..], o')
      case More => pos < pos' && r == ParseMembers(text[pos'..], nesting, o')
    decreases |text| - pos, 2
  {
    hide ParseValue, ParseMembers, SkipSpaces, FinishObject, ObjectAdd, QuotedString;
    ghost var r := ParseMembers(text[pos..], nesting, o);
    MembersTurn(text[pos..], nesting, o);
    turn, o' := Failed, o;
    var key, ok, v;
    key, pos' := GetQuotedString(text, pos);
    if key.None? {
      assert r == Fail;
      return turn, o', pos;
    }
    pos' := SkipWhitespace(text, pos');
    Onward(text, pos');
    if At(text, pos') != ':' {
      assert r == Fail;
      return;
    }
    ghost var p := ParseValue(text[pos' + 1..], nesting);
    ok, v, pos' := ParseValueAt(text, pos' + 1, nesting);
    if !ok {
      assert r == Fail;
      return turn, o', pos;
    }
    assert p == Ok(v, text[pos'..]);
    var add := ObjectAdd(o, key.value, v);
    if !add.ok {
      assert r == Fail;
      return;
    }
    o' := add.target;
    pos' := SkipWhitespace(text, pos');
    ghost var t := SkipSpaces(p.rest);
    assert r == if At(t, 0) == ',' then ParseMembers(SkipSpaces(t[1..]), nesting, o') else FinishObject(t, o');
    assert t == text[pos'..];
    Onward(text, pos');
    if At(text, pos') != ',' {
      return Last, o', pos';
    }
    assert t[1..] == text[pos' + 1..];
    ghost var left := SkipSpaces(t[1..]);
    pos' := SkipWhitespace(text, pos' + 1);
    assert left == text[pos'..];
    turn := More;
  }

  /** `parse_object_value`. */
  method ParseObjectAt(text: string, pos: nat, nesting: nat) returns (ok: bool, v: Value, pos': nat)
    requires pos < |text|
    ensures Agrees(ParseObject(text[pos..], nesting), text, ok, v, pos')
    decreases |text| - pos, 0
  {
    hide ParseMembers, SkipSpaces, FinishObject;
    ghost var goal := ParseObject(text[pos..], nesting);
    Onward(text, pos);
    pos' := SkipWhitespace(text, pos + 1);
    Onward(text, pos');
    if At(text, pos') == '}' {
      return true, EmptyObject, pos' + 1;
    }
    var o, turn := EmptyObject, More;
    while pos' < |text| && turn == More
      invariant (turn == More ==> pos < pos') && pos' <= |text| && turn != Failed && o.Object?
      invariant goal == if turn == More then ParseMembers(text[pos'..], nesting, o)
                        else FinishObject(text[pos'..], o)
      decreases turn == More, |text| - pos'
    {
      turn, o, pos' := ObjectTurn(text, pos', nesting, o);
      if turn == Failed {
        return false, Null, pos';
      }
    }
    if turn == More {
      MembersEnd(text[pos'..], nesting, o);
    }
    ok, v, pos' := FinishObjectAt(text, pos', o);
  }

  lemma MembersEnd(s: string, nesting: nat, o: Value)
    requires s == "" && o.Object?
    ensures ParseMembers(s, nesting, o) == FinishObject(s, o)
  {
  }

  method FinishObjectAt(text: string, pos: nat, o: Value) returns (ok: bool, v: Value, pos': nat)
    requires pos <= |text| && o.Object?
    ensures Agrees(FinishObject(text[pos..], o), text, ok, v, pos')
  {
    hide SkipSpaces;
    pos' := SkipWhitespace(text, pos);
    Onward(text, pos');
    ok := At(text, pos') == '}' && |o.members| > 0;
    v := Object(o.members, |o.members|);
    if ok {
      pos' := pos' + 1;
    }
  }

  /** `json_parse_string`. */
  method ParseJson(text: string) returns (ok: bool, v: Value)
    requires '\0' !in text
    ensures ok <==> ParseText(text).Ok?
    ensures ok ==> v == ParseText(text).value
  {
    hide ParseValue, SkipSpaces;
    var pos := SkipWhitespace(text, 0);
    assert text[0..] == text;
    Onward(text, pos);
    if At(text, pos) != '{' && At(text, pos) != '[' {
      return false, Null;
    }
    assert text[pos..] == SkipSpaces(text) && SkipSpaces(text[pos..]) == text[pos..] by { SpacesStep(text, pos); }
    ok, v, pos := ParseValueAt(text, pos, 0);
  }
}
