/** What the parser produces: values within its own limits, which print and parse back to
    themselves. */
module JsonReparse {
  import opened Text
  import opened JsonNumber
  import opened JsonValue
  import opened JsonParse
  import JsonEquality
  import JsonPrint
  import JsonRoundTrip
  import Utf8

  /** Nesting, counts, unique names and trimmed capacities, as every accepted text yields them. */
  ghost predicate Tidy(v: Value, depth: nat) {
    && depth <= MAX_NESTING
    && match v
       case Array(items) => |items| <= ARRAY_MAX_CAPACITY && forall i :: 0 <= i < |items| ==> Tidy(items[i], depth + 1)
       case Object(ms, capacity) =>
         && UniqueNames(ms) && |ms| <= OBJECT_MAX_CAPACITY && capacity == |ms|
         && forall i :: 0 <= i < |ms| ==> Tidy(ms[i].value, depth + 1)
       case _ => true
  }

  ghost predicate TidyItems(items: seq<Value>, depth: nat) {
    forall i :: 0 <= i < |items| ==> Tidy(items[i], depth)
  }

  ghost predicate TidyMembers(ms: seq<Member>, depth: nat) {
    UniqueNames(ms) && forall i :: 0 <= i < |ms| ==> Tidy(ms[i].value, depth)
  }

  /** An object under construction. */
  ghost predicate Growing(o: Value, depth: nat) {
    o.Object? && TidyMembers(o.members, depth)
    && OnLadder(o.capacity) && |o.members| <= o.capacity <= OBJECT_MAX_CAPACITY
  }

  lemma {:induction false} ParsedIsTidy(s: string, nesting: nat)
    ensures ParseValue(s, nesting).Ok? ==> Tidy(ParseValue(s, nesting).value, nesting)
    decreases |s|, 3
  {
    hide QuotedString, ParseNumber, ParseLiteral, ParseArray, ParseObject, SkipSpaces;
    if nesting <= MAX_NESTING {
      var t := SkipSpaces(s);
      ScalarsAreTidy(t, nesting);
      if t != "" && t[0] == '{' {
        ParsedObjectIsTidy(t, nesting + 1);
      } else if t != "" && t[0] == '[' {
        ParsedArrayIsTidy(t, nesting + 1);
      }
    }
  }

  lemma ScalarsAreTidy(t: string, depth: nat)
    requires depth <= MAX_NESTING
    ensures ParseQuoted(t).Ok? ==> Tidy(ParseQuoted(t).value, depth)
    ensures ParseLiteral(t).Ok? ==> Tidy(ParseLiteral(t).value, depth)
    ensures ParseNumber(t).Ok? ==> Tidy(ParseNumber(t).value, depth)
  {
    hide QuotedString, NumberLength, NumberOf, IsDecimal;
  }

  lemma {:induction false} ParsedArrayIsTidy(s: string, nesting: nat)
    requires s != "" && 0 < nesting <= MAX_NESTING + 1
    ensures ParseArray(s, nesting).Ok? ==> Tidy(ParseArray(s, nesting).value, nesting - 1)
    decreases |s|, 0
  {
    hide ParseItems, SkipSpaces;
    var t := SkipSpaces(s[1..]);
    ParsedItemsAreTidy(t, nesting, [], 0);
  }

  lemma {:induction false} ParsedItemsAreTidy(s: string, nesting: nat, items: seq<Value>, capacity: nat)
    requires 0 < nesting <= MAX_NESTING + 1 && TidyItems(items, nesting)
    requires OnLadder(capacity) && |items| <= capacity <= ARRAY_MAX_CAPACITY
    ensures ParseItems(s, nesting, items, capacity).Ok?
      ==> Tidy(ParseItems(s, nesting, items, capacity).value, nesting - 1)
    decreases |s|, 4
  {
    hide ParseValue, ParseItems, SkipSpaces, OnLadder, Room, Tidy;
    FinishedArrayIsTidy(s, nesting, items);
    if s == "" {
      ItemsAtEnd(nesting, items, capacity);
    } else {
      ItemsTurn(s, nesting, items, capacity);
      ParsedIsTidy(s, nesting);
      RoomOnLadder(|items|, capacity, ARRAY_MAX_CAPACITY);
      var p := ParseValue(s, nesting);
      if p.Ok? && Room(|items|, capacity, ARRAY_MAX_CAPACITY).Some? {
        var t := SkipSpaces(p.rest);
        FinishedArrayIsTidy(t, nesting, items + [p.value]);
        if At(t, 0) == ',' {
          ParsedItemsAreTidy(SkipSpaces(t[1..]), nesting, items + [p.value],
            Room(|items|, capacity, ARRAY_MAX_CAPACITY).value);
        }
      }
    }
  }

  lemma ItemsAtEnd(nesting: nat, items: seq<Value>, capacity: nat)
    ensures ParseItems("", nesting, items, capacity) == FinishArray("", items)
  {
  }

  lemma FinishedArrayIsTidy(s: string, nesting: nat, items: seq<Value>)
    requires 0 < nesting <= MAX_NESTING + 1 && TidyItems(items, nesting) && |items| <= ARRAY_MAX_CAPACITY
    ensures FinishArray(s, items).Ok? ==> Tidy(FinishArray(s, items).value, nesting - 1)
  {
  }

  lemma {:induction false} ParsedObjectIsTidy(s: string, nesting: nat)
    requires s != "" && 0 < nesting <= MAX_NESTING + 1
    ensures ParseObject(s, nesting).Ok? ==> Tidy(ParseObject(s, nesting).value, nesting - 1)
    decreases |s|, 0
  {
    hide ParseMembers, SkipSpaces;
    var t := SkipSpaces(s[1..]);
    ParsedMembersAreTidy(t, nesting, EmptyObject);
  }

  lemma {:induction false} ParsedMembersAreTidy(s: string, nesting: nat, o: Value)
    requires 0 < nesting <= MAX_NESTING + 1 && Growing(o, nesting)
    ensures ParseMembers(s, nesting, o).Ok? ==> Tidy(ParseMembers(s, nesting, o).value, nesting - 1)
    decreases |s|, 4
  {
    hide ParseValue, ParseMembers, SkipSpaces, Growing, ObjectAdd, QuotedString, Tidy, FinishObject;
    GrowingIsObject(o, nesting);
    FinishedObjectIsTidy(s, nesting, o);
    if s == "" {
      MembersAtEnd(nesting, o);
    } else {
      MembersTurn(s, nesting, o);
      var q := QuotedString(s);
      if q.Quoted? && At(SkipSpaces(q.rest), 0) == ':' {
        QuotedIsShorter(s);
        var x := SkipSpaces(q.rest)[1..];
        ParsedIsTidy(x, nesting);
        var p := ParseValue(x, nesting);
        if p.Ok? && ObjectAdd(o, q.text, p.value).ok {
          var t, target := SkipSpaces(p.rest), ObjectAdd(o, q.text, p.value).target;
          AddKeepsGrowing(o, q.text, p.value, nesting);
          FinishedObjectIsTidy(t, nesting, target);
          if At(t, 0) == ',' {
            ParsedMembersAreTidy(SkipSpaces(t[1..]), nesting, target);
          }
        }
      }
    }
  }

  lemma GrowingIsObject(o: Value, nesting: nat)
    requires Growing(o, nesting)
    ensures o.Object?
  {
  }

  lemma QuotedIsShorter(s: string)
    requires QuotedString(s).Quoted?
    ensures |QuotedString(s).rest| < |s|
  {
  }

  lemma MembersAtEnd(nesting: nat, o: Value)
    requires o.Object?
    ensures ParseMembers("", nesting, o) == FinishObject("", o)
  {
  }

  lemma FinishedObjectIsTidy(s: string, nesting: nat, o: Value)
    requires 0 < nesting <= MAX_NESTING + 1 && Growing(o, nesting)
    ensures FinishObject(s, o).Ok? ==> Tidy(FinishObject(s, o).value, nesting - 1)
  {
    hide OnLadder, SkipSpaces;
  }

  lemma AddKeepsGrowing(o: Value, name: string, value: Value, depth: nat)
    requires Growing(o, depth) && Tidy(value, depth) && ObjectAdd(o, name, value).ok
    ensures Growing(ObjectAdd(o, name, value).target, depth)
  {
    hide OnLadder, Room, Tidy;
    RoomOnLadder(|o.members|, o.capacity, OBJECT_MAX_CAPACITY);
    var k := Find(o.members, name);
    assert k == |o.members|;
  }

  // ----- printing and parsing again

  /** No string or name holds a character the parser takes only in escaped form but the
      serializer prints as it is. */
  ghost predicate AllPrintable(v: Value) {
    match v
    case String(s) => JsonRoundTrip.PrintableText(s)
    case Array(items) => forall i :: 0 <= i < |items| ==> AllPrintable(items[i])
    case Object(ms, _) =>
      forall i :: 0 <= i < |ms| ==> JsonRoundTrip.PrintableText(ms[i].name) && AllPrintable(ms[i].value)
    case _ => true
  }

  lemma {:induction false} TidyIsReadable(v: Value, depth: nat)
    requires Tidy(v, depth)
    ensures WellNamed(v) && Trim(v) == v
    ensures JsonRoundTrip.Readable(v, depth) <==> AllPrintable(v)
    decreases v
  {
    hide JsonRoundTrip.PrintableText;
    match v
    case Array(items) =>
      forall i | 0 <= i < |items|
        ensures WellNamed(items[i]) && Trim(items[i]) == items[i]
        ensures JsonRoundTrip.Readable(items[i], depth + 1) <==> AllPrintable(items[i]) {
        TidyIsReadable(items[i], depth + 1);
      }
      assert TrimItems(items) == items;
    case Object(ms, _) =>
      forall i | 0 <= i < |ms|
        ensures WellNamed(ms[i].value) && Trim(ms[i].value) == ms[i].value
        ensures JsonRoundTrip.Readable(ms[i].value, depth + 1) <==> AllPrintable(ms[i].value) {
        TidyIsReadable(ms[i].value, depth + 1);
      }
      assert TrimMembers(ms) == ms;
    case _ =>
  }

  /** Whatever text is accepted: printing what was parsed and parsing that again succeeds
      exactly if all its strings are printable. It then gives an equal value, the very same
      exactly if its numbers have at most six decimals. */
  lemma Reparse(s: string, pretty: bool)
    requires ParseText(s).Ok?
    ensures var v := ParseText(s).value;
      var again := ParseText(JsonPrint.Print(v, 0, pretty));
      && (again.Ok? <==> AllPrintable(v))
      && (again.Ok? ==> again.rest == "" && JsonEquality.Equals(again.value, v))
      && (again == Ok(v, "") <==> AllPrintable(v) && JsonRoundTrip.AllMicro(v))
  {
    hide ParseValue, JsonPrint.Print, SkipSpaces, Tidy, AllPrintable, WellNamed, JsonRoundTrip.Readable,
      JsonRoundTrip.AllMicro, JsonRoundTrip.Reread, JsonEquality.Equals;
    var t := SkipSpaces(s);
    SkippedTwice(s);
    ParsedIsTidy(t, 0);
    TopIsContainer(t);
    var v := ParseText(s).value;
    TidyIsReadable(v, 0);
    hide ParseText;
    JsonRoundTrip.RoundTrip(v, pretty, "");
    JsonRoundTrip.RereadExactly(v);
    JsonEquality.RereadIsEqual(v);
    assert JsonPrint.Print(v, 0, pretty) + "" == JsonPrint.Print(v, 0, pretty);
  }

  lemma SkippedTwice(s: string)
    ensures SkipSpaces(SkipSpaces(s)) == SkipSpaces(s)
  {
  }

  lemma TopIsContainer(t: string)
    requires (At(t, 0) == '{' || At(t, 0) == '[') && SkipSpaces(t) == t && ParseValue(t, 0).Ok?
    ensures ParseValue(t, 0).value.Array? || ParseValue(t, 0).value.Object?
  {
    hide QuotedString, ParseItems, ParseMembers;
    ItemsGiveArray(SkipSpaces(t[1..]), 1, [], 0);
    MembersGiveObject(SkipSpaces(t[1..]), 1, EmptyObject);
  }

  lemma {:induction false} ItemsGiveArray(s: string, nesting: nat, items: seq<Value>, capacity: nat)
    ensures ParseItems(s, nesting, items, capacity).Ok? ==> ParseItems(s, nesting, items, capacity).value.Array?
    decreases |s|
  {
    hide ParseValue, ParseItems, SkipSpaces, Room;
    if s == "" {
      ItemsAtEnd(nesting, items, capacity);
    } else {
      ItemsTurn(s, nesting, items, capacity);
      var p := ParseValue(s, nesting);
      if p.Ok? && Room(|items|, capacity, ARRAY_MAX_CAPACITY).Some? && At(SkipSpaces(p.rest), 0) == ',' {
        ItemsGiveArray(SkipSpaces(SkipSpaces(p.rest)[1..]), nesting, items + [p.value],
          Room(|items|, capacity, ARRAY_MAX_CAPACITY).value);
      }
    }
  }

  lemma {:induction false} MembersGiveObject(s: string, nesting: nat, o: Value)
    requires o.Object?
    ensures ParseMembers(s, nesting, o).Ok? ==> ParseMembers(s, nesting, o).value.Object?
    decreases |s|
  {
    hide ParseValue, ParseMembers, SkipSpaces, ObjectAdd, QuotedString;
    if s == "" {
      MembersAtEnd(nesting, o);
    } else {
      MembersTurn(s, nesting, o);
      var q := QuotedString(s);
      if q.Quoted? && At(SkipSpaces(q.rest), 0) == ':' {
        QuotedIsShorter(s);
        var p := ParseValue(SkipSpaces(q.rest)[1..], nesting);
        if p.Ok? && ObjectAdd(o, q.text, p.value).ok && At(SkipSpaces(p.rest), 0) == ',' {
          MembersGiveObject(SkipSpaces(SkipSpaces(p.rest)[1..]), nesting, ObjectAdd(o, q.text, p.value).target);
        }
      }
    }
  }

  // ----- a text whose value is not reparsed

  const CONTROL := "\U{01}"

  lemma ControlDecoded()
    ensures Decode("\\u0001\"") == Some(CONTROL)
  {
    assert "\\u0001\""[1..] == "u0001\"" && "\\u0001\""[6..] == "\"";
    assert Utf8.ParseUtf16("u0001\"") == Utf8.Decoded(CONTROL, 5);
    assert Decode("\"") == Some("") && CONTROL + "" == CONTROL;
  }

  lemma ControlQuoted()
    ensures QuotedString("\"\\u0001\"]") == Quoted(CONTROL, "]")
  {
    hide Decode;
    assert AfterQuote("\\u0001\"]") == "]" by {
      assert "\\u0001\"]"[2..] == "0001\"]" && "0001\"]"[1..] == "001\"]" && "001\"]"[1..] == "01\"]";
      assert "01\"]"[1..] == "1\"]" && "1\"]"[1..] == "\"]" && "\"]"[1..] == "]";
      assert AfterQuote("\"]") == "]";
      assert AfterQuote("01\"]") == "]";
    }
    assert "\"\\u0001\"]"[1..] == "\\u0001\"]";
    assert "\"\\u0001\"]"[1..8] == "\\u0001\"";
    ControlDecoded();
    assert '\0' !in CONTROL;
  }

  lemma ControlParsed()
    ensures ParseText("[\"\\u0001\"]") == Ok(Array([String(CONTROL)]), "")
  {
    hide QuotedString, ParseItems;
    var inner := "\"\\u0001\"]";
    assert "[\"\\u0001\"]"[1..] == inner;
    ControlQuoted();
    assert ParseValue(inner, 1) == Ok(String(CONTROL), "]");
    ItemsTurn(inner, 1, [], 0);
    assert FinishArray("]", [String(CONTROL)]) == Ok(Array([String(CONTROL)]), "");
    assert [] + [String(CONTROL)] == [String(CONTROL)];
  }

  /** The escaped control character is accepted; printed it is not escaped, and refused. */
  lemma ControlNotReparsed(pretty: bool)
    ensures var v := Array([String(CONTROL)]);
      && ParseText("[\"\\u0001\"]") == Ok(v, "")
      && ParseText(JsonPrint.Print(v, 0, pretty)) == Fail
  {
    hide ParseText, JsonPrint.Print;
    ControlParsed();
    Reparse("[\"\\u0001\"]", pretty);
    assert CONTROL[0] == '\U{01}';
    assert !AllPrintable(String(CONTROL));
    assert [String(CONTROL)][0] == String(CONTROL);
  }
}
