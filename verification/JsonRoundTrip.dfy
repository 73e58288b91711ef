/** Parsing what the serializer printed: the exact condition under which it succeeds, and
    that it then gives back the value. */
module JsonRoundTrip {
  import opened Text
  import opened JsonNumber
  import opened JsonValue
  import opened JsonPrint
  import opened JsonParse

  /** The parser takes control characters only in escaped form, and the serializer escapes
      only these five. */
  predicate PrintableText(s: string) {
    forall i :: 0 <= i < |s| ==> s[i] >= ' ' || s[i] in {'\U{08}', '\U{0C}', '\n', '\r', '\t'}
  }

  /** The values whose text can be read back at a depth below the root: nesting, counts
      and characters stay within the parser's limits. */
  ghost predicate Readable(v: Value, depth: nat) {
    && depth <= MAX_NESTING
    && match v
       case String(s) => PrintableText(s)
       case Array(items) =>
         |items| <= ARRAY_MAX_CAPACITY && forall i :: 0 <= i < |items| ==> Readable(items[i], depth + 1)
       case Object(ms, _) =>
         && |ms| <= OBJECT_MAX_CAPACITY
         && forall i :: 0 <= i < |ms| ==> PrintableText(ms[i].name) && Readable(ms[i].value, depth + 1)
       case _ => true
  }

  /** What reading a printed value gives: capacities are trimmed, numbers rounded to six
      decimals. */
  function Reread(v: Value): (t: Value)
    ensures v.Object? ==> t.Object? && |t.members| == |v.members| == t.capacity
    ensures v.Array? ==> t.Array? && |t.items| == |v.items|
    decreases v, 0
  {
    match v
    case Number(x) => Number(Rounded(x))
    case Array(items) => Array(RereadItems(items))
    case Object(ms, _) => Object(RereadMembers(ms), |ms|)
    case _ => v
  }

  function RereadItems(items: seq<Value>): (r: seq<Value>)
    ensures |r| == |items|
    ensures forall i :: 0 <= i < |r| ==> r[i] == Reread(items[i])
    decreases items, 1
  {
    if items == [] then [] else [Reread(items[0])] + RereadItems(items[1..])
  }

  function RereadMembers(ms: seq<Member>): (r: seq<Member>)
    ensures |r| == |ms|
    ensures forall i :: 0 <= i < |r| ==> r[i] == Member(ms[i].name, Reread(ms[i].value))
    decreases ms, 1
  {
    if ms == [] then [] else [Member(ms[0].name, Reread(ms[0].value))] + RereadMembers(ms[1..])
  }

  // ----- strings

  lemma AfterQuoteStep(c: char, tail: string)
    ensures AfterQuote(EscapeChar(c) + tail) == AfterQuote(tail)
  {
    hide EscapeChar;
    var e := EscapeChar(c);
    assert (e + tail)[|e|..] == tail && (e + tail)[0] == e[0];
  }

  lemma {:induction false} AfterQuoteOfEscape(s: string, rest: string)
    ensures AfterQuote(Escape(s) + "\"" + rest) == rest
  {
    if s == "" {
      assert (Escape(s) + "\"" + rest)[1..] == rest;
    } else {
      var tail := Escape(s[1..]) + "\"" + rest;
      assert Escape(s) + "\"" + rest == EscapeChar(s[0]) + tail;
      AfterQuoteStep(s[0], tail);
      AfterQuoteOfEscape(s[1..], rest);
    }
  }

  lemma DecodeStep(c: char, tail: string)
    requires tail != ""
    ensures Decode(EscapeChar(c) + tail) == if PrintableText([c]) then Prepend([c], Decode(tail)) else None
  {
    var e := EscapeChar(c);
    assert (e + tail)[|e|..] == tail;
    assert PrintableText([c]) <==> c >= ' ' || c in {'\U{08}', '\U{0C}', '\n', '\r', '\t'} by {
      assert [c][0] == c;
    }
  }

  lemma {:induction false} DecodeOfEscape(s: string)
    ensures Decode(Escape(s) + "\"") == if PrintableText(s) then Some(s) else None
  {
    if s == "" {
    } else {
      var tail := Escape(s[1..]) + "\"";
      assert Escape(s) + "\"" == EscapeChar(s[0]) + tail;
      DecodeStep(s[0], tail);
      DecodeOfEscape(s[1..]);
      assert s == [s[0]] + s[1..];
      assert PrintableText(s) <==> PrintableText([s[0]]) && PrintableText(s[1..]);
    }
  }

  lemma QuotedParts(e: string, rest: string)
    ensures
      var t := "\"" + e + "\"" + rest;
      t != "" && t[1..] == e + "\"" + rest && |t| - |rest| == |e| + 2 && t[1..|e| + 2] == e + "\""
  {
  }

  lemma PrintableHasNoNul(s: string)
    ensures PrintableText(s) ==> '\0' !in s
  {
  }

  /** A printed string is read back unless it holds a character the parser refuses. */
  lemma QuotedOfPrint(s: string, rest: string)
    requires rest != ""
    ensures QuotedString(PrintString(s) + rest) == if PrintableText(s) then Quoted(s, rest) else BadQuote
  {
    hide Escape, AfterQuote, Decode, PrintableText;
    var t := PrintString(s) + rest;
    QuotedParts(Escape(s), rest);
    AfterQuoteOfEscape(s, rest);
    DecodeOfEscape(s);
    assert PrintableText(s) ==> CString(s) == s by { PrintableHasNoNul(s); }
  }

  // ----- numbers

  lemma NumberOfPrint(x: real, rest: string)
    requires EndsNumber(rest)
    ensures ParseNumber(PrintNumber(x) + rest) == Ok(Number(Rounded(x)), rest)
  {
    hide NumberLength, NumberOf, IsDecimal, PrintNumber, EndsNumber, Rounded;
    PrintedNumberRead(x, rest);
    var t := PrintNumber(x);
    assert (t + rest)[..|t|] == t && (t + rest)[|t|..] == rest;
  }

  // ----- white space

  /** The next element starts after the comma and the line break, if there is one. */
  lemma SeparatorSkipped(i: nat, count: nat, pretty: bool, x: string)
    requires i < count
    ensures
      var t := SkipSpaces(Separator(i, count, pretty) + x);
      if i + 1 < count then At(t, 0) == ',' && SkipSpaces(t[1..]) == SkipSpaces(x) else t == SkipSpaces(x)
  {
    var s := Separator(i, count, pretty) + x;
    var w := if pretty then "\n" else "";
    if i + 1 < count {
      assert s == "," + (w + x);
      CommaKept(w + x);
      SkipBlank(w, x);
    } else {
      SkipBlank(Separator(i, count, pretty), x);
    }
  }

  lemma CommaKept(x: string)
    ensures SkipSpaces("," + x) == "," + x && ("," + x)[1..] == x
  {
  }

  /** What stands between the last element and the text after the closing bracket. */
  function Tail(count: nat, level: nat, pretty: bool, close: char, rest: string): string {
    Closing(count, level, pretty) + [close] + rest
  }

  lemma TailStart(count: nat, level: nat, pretty: bool, close: char, rest: string)
    requires close == ']' || close == '}'
    ensures
      var t := Tail(count, level, pretty, close, rest);
      t != "" && EndsNumber(t)
  {
  }

  lemma TailSkipped(count: nat, level: nat, pretty: bool, close: char, rest: string)
    requires !IsSpace(close)
    ensures SkipSpaces(Tail(count, level, pretty, close, rest)) == [close] + rest
  {
    assert Tail(count, level, pretty, close, rest) == Closing(count, level, pretty) + ([close] + rest);
    SkipBlank(Closing(count, level, pretty), [close] + rest);
  }

  /** A value's text starts with a character that is no white space and closes nothing. */
  lemma PrintStart(v: Value, level: nat, pretty: bool)
    ensures
      var t := Print(v, level, pretty);
      t != "" && !IsSpace(t[0]) && t[0] != ']' && t[0] != '}'
  {
    match v
    case Number(x) => NumberStart(x);
    case _ =>
  }

  lemma ParseAfterBlank(w: string, x: string, nesting: nat)
    requires forall i :: 0 <= i < |w| ==> IsSpace(w[i])
    ensures ParseValue(w + x, nesting) == ParseValue(x, nesting)
  {
    hide ParseObject, ParseArray, QuotedString, ParseLiteral, ParseNumber, SkipSpaces;
    SkipBlank(w, x);
  }

  /** Which parser a text is handed to. */
  lemma ParseDispatch(t: string, nesting: nat)
    requires t != "" && !IsSpace(t[0]) && nesting <= MAX_NESTING
    ensures t[0] == '{' ==> ParseValue(t, nesting) == ParseObject(t, nesting + 1)
    ensures t[0] == '[' ==> ParseValue(t, nesting) == ParseArray(t, nesting + 1)
    ensures t[0] == '\"' ==> ParseValue(t, nesting) == ParseQuoted(t)
    ensures t[0] in "ftn" ==> ParseValue(t, nesting) == ParseLiteral(t)
    ensures t[0] in "-0123456789" ==> ParseValue(t, nesting) == ParseNumber(t)
  {
    hide ParseObject, ParseArray, QuotedString, ParseLiteral, ParseNumber;
    assert SkipSpaces(t) == t;
  }

  lemma LiteralOfPrint(v: Value, level: nat, pretty: bool, rest: string)
    requires v.Null? || v.Boolean?
    ensures
      var t := Print(v, level, pretty) + rest;
      ParseLiteral(t) == Ok(v, rest) && t[0] in "ftn"
  {
    var t := Print(v, level, pretty);
    assert (t + rest)[|t|..] == rest && t <= t + rest && (t + rest)[0] == t[0];
  }

  // ----- values

  /** A printed value parses, followed by the text that came after it, exactly when it is
      readable at this depth; what is read is the value, with trimmed capacities. */
  lemma {:induction false} ParsePrinted(v: Value, level: nat, pretty: bool, depth: nat, rest: string)
    requires WellNamed(v) && EndsNumber(rest) && rest != ""
    ensures ParseValue(Print(v, level, pretty) + rest, depth)
         == if Readable(v, depth) then Ok(Reread(v), rest) else Fail
    decreases v, 0
  {
    hide ParseValue, ParseObject, ParseArray, QuotedString, ParseLiteral, ParseNumber, PrintString, PrintItems,
      PrintMembers;
    var t := Print(v, level, pretty) + rest;
    if depth <= MAX_NESTING {
      PrintStart(v, level, pretty);
      ParseDispatch(t, depth);
      match v
      case Number(x) =>
        NumberOfPrint(x, rest);
        NumberStart(x);
        assert t[0] == PrintNumber(x)[0];
      case String(s) =>
        assert t[0] == '\"' by { PrintedStringStart(s, rest); }
        QuotedOfPrint(s, rest);
      case Array(items) =>
        assert t[0] == '[';
        ParsePrintedArray(items, level, pretty, depth, rest);
      case Object(ms, c) =>
        assert t[0] == '{';
        ParsePrintedObject(ms, c, level, pretty, depth, rest);
      case _ => LiteralOfPrint(v, level, pretty, rest);
    } else {
      TooDeep(t, depth);
    }
  }

  lemma TooDeep(t: string, nesting: nat)
    requires nesting > MAX_NESTING
    ensures ParseValue(t, nesting) == Fail
  {
  }

  lemma PrintedStringStart(s: string, rest: string)
    ensures (PrintString(s) + rest)[0] == '\"'
  {
  }

  // ----- arrays

  /** The text from element `i` on, up to and beyond the closing bracket. */
  function ItemsText(items: seq<Value>, i: nat, level: nat, pretty: bool, rest: string): string
    requires i <= |items|
  {
    PrintItems(items, i, level, pretty) + Tail(|items|, level, pretty, ']', rest)
  }

  /** What follows element `i`. */
  function AfterItem(items: seq<Value>, i: nat, level: nat, pretty: bool, rest: string): string
    requires i < |items|
  {
    Separator(i, |items|, pretty) + ItemsText(items, i + 1, level, pretty, rest)
  }

  function ItemText(items: seq<Value>, i: nat, level: nat, pretty: bool, rest: string): string
    requires i < |items|
  {
    Print(items[i], level + 1, pretty) + AfterItem(items, i, level, pretty, rest)
  }

  lemma Nothing(s: string)
    ensures "" + s == s
  {
  }

  lemma FourParts(w: string, p: string, q: string, r: string, t: string)
    ensures w + p + q + r + t == w + (p + (q + (r + t)))
  {
  }

  lemma ItemsStart(items: seq<Value>, i: nat, level: nat, pretty: bool, rest: string)
    requires i < |items|
    ensures
      var s := ItemText(items, i, level, pretty, rest);
      SkipSpaces(ItemsText(items, i, level, pretty, rest)) == s && s != "" && s[0] != ']'
  {
    hide Print, PrintItems, Separator, Tail;
    var p := Print(items[i], level + 1, pretty);
    var s := ItemText(items, i, level, pretty, rest);
    var w := if pretty then Indent(level + 1) else "";
    PrintStart(items[i], level + 1, pretty);
    assert SkipSpaces(s) == s;
    ItemStep("", items, i, level, pretty);
    Nothing(PrintItems(items, i, level, pretty));
    Nothing(w);
    FourParts(w, p, Separator(i, |items|, pretty), PrintItems(items, i + 1, level, pretty),
              Tail(|items|, level, pretty, ']', rest));
    SkipBlank(w, s);
  }

  lemma ItemsEnd(items: seq<Value>, level: nat, pretty: bool, rest: string)
    ensures ItemsText(items, |items|, level, pretty, rest) == Tail(|items|, level, pretty, ']', rest)
    ensures SkipSpaces(ItemsText(items, |items|, level, pretty, rest)) == "]" + rest
  {
    hide Print, Tail;
    Nothing(Tail(|items|, level, pretty, ']', rest));
    TailSkipped(|items|, level, pretty, ']', rest);
  }

  /** After an element come a comma and the next one, or the closing bracket. */
  lemma AfterItemSkipped(items: seq<Value>, i: nat, level: nat, pretty: bool, rest: string)
    requires i < |items|
    ensures
      var t := SkipSpaces(AfterItem(items, i, level, pretty, rest));
      if i + 1 < |items|
      then At(t, 0) == ',' && SkipSpaces(t[1..]) == SkipSpaces(ItemsText(items, i + 1, level, pretty, rest))
      else t == "]" + rest
  {
    hide Separator, ItemsText, SkipSpaces;
    SeparatorSkipped(i, |items|, pretty, ItemsText(items, i + 1, level, pretty, rest));
    ItemsEnd(items, level, pretty, rest);
  }

  lemma AfterItemEndsNumber(items: seq<Value>, i: nat, level: nat, pretty: bool, rest: string)
    requires i < |items|
    ensures
      var r := AfterItem(items, i, level, pretty, rest);
      r != "" && EndsNumber(r)
  {
    hide ItemsText;
    ItemsEnd(items, level, pretty, rest);
    TailStart(|items|, level, pretty, ']', rest);
  }

  lemma FinishedArray(items: seq<Value>, rest: string)
    requires items != []
    ensures FinishArray("]" + rest, items) == Ok(Array(items), rest)
    ensures At("]" + rest, 0) == ']' && ("]" + rest)[1..] == rest
  {
    assert SkipSpaces("]" + rest) == "]" + rest;
  }

  lemma TakeOneMore<T>(s: seq<T>, i: nat)
    requires i < |s|
    ensures s[..i] + [s[i]] == s[..i + 1]
    ensures i + 1 == |s| ==> s[..i + 1] == s
  {
  }

  lemma ItemParsed(items: seq<Value>, i: nat, capacity: nat, level: nat, pretty: bool, depth: nat, rest: string)
    requires i < |items| && OnLadder(capacity) && i <= capacity <= ARRAY_MAX_CAPACITY
    requires ParseValue(ItemText(items, i, level, pretty, rest), depth)
          == if Readable(items[i], depth) then Ok(Reread(items[i]), AfterItem(items, i, level, pretty, rest)) else Fail
    ensures
      var all := RereadItems(items);
      var parsed := ParseItems(ItemText(items, i, level, pretty, rest), depth, all[..i], capacity);
      if !Readable(items[i], depth) || i >= ARRAY_MAX_CAPACITY then parsed == Fail
      else if i + 1 == |items| then parsed == Ok(Array(all), rest)
      else
        var room := Room(i, capacity, ARRAY_MAX_CAPACITY);
        && room.Some? && OnLadder(room.value) && i < room.value <= ARRAY_MAX_CAPACITY
        && parsed == ParseItems(ItemText(items, i + 1, level, pretty, rest), depth, all[..i + 1], room.value)
  {
    hide ItemText, ItemsText, AfterItem, ParseValue, ParseItems, FinishArray, Room, OnLadder, Readable, SkipSpaces,
      Reread, RereadItems;
    var all := RereadItems(items);
    ItemsStart(items, i, level, pretty, rest);
    ItemsTurn(ItemText(items, i, level, pretty, rest), depth, all[..i], capacity);
    RoomOnLadder(i, capacity, ARRAY_MAX_CAPACITY);
    AfterItemSkipped(items, i, level, pretty, rest);
    TakeOneMore(all, i);
    if i + 1 < |items| {
      ItemsStart(items, i + 1, level, pretty, rest);
    } else {
      FinishedArray(all, rest);
    }
  }

  ghost predicate AllReadable(items: seq<Value>, i: nat, depth: nat) {
    |items| <= ARRAY_MAX_CAPACITY && forall j :: i <= j < |items| ==> Readable(items[j], depth)
  }

  lemma AllReadableStep(items: seq<Value>, i: nat, depth: nat)
    requires i < |items|
    ensures AllReadable(items, i, depth) <==> Readable(items[i], depth) && AllReadable(items, i + 1, depth)
    ensures i + 1 == |items| ==> (AllReadable(items, i + 1, depth) <==> |items| <= ARRAY_MAX_CAPACITY)
    ensures i >= ARRAY_MAX_CAPACITY ==> !AllReadable(items, i + 1, depth)
  {
    hide Readable;
  }

  lemma {:induction false} ParsePrintedItems(items: seq<Value>, i: nat, capacity: nat,
                                             level: nat, pretty: bool, depth: nat, rest: string)
    requires i < |items| && forall j :: 0 <= j < |items| ==> WellNamed(items[j])
    requires OnLadder(capacity) && i <= capacity <= ARRAY_MAX_CAPACITY
    ensures ParseItems(ItemText(items, i, level, pretty, rest), depth, RereadItems(items)[..i], capacity)
         == if AllReadable(items, i, depth) then Ok(Array(RereadItems(items)), rest) else Fail
    decreases items, 1, |items| - i
  {
    hide Print, ItemsText, AfterItem, ParseValue, ParseItems, Room, OnLadder, Readable, AllReadable, WellNamed,
      SkipSpaces, Reread, RereadItems;
    AllReadableStep(items, i, depth);
    AfterItemEndsNumber(items, i, level, pretty, rest);
    ParsePrinted(items[i], level + 1, pretty, depth, AfterItem(items, i, level, pretty, rest));
    ItemParsed(items, i, capacity, level, pretty, depth, rest);
    if Readable(items[i], depth) && i < ARRAY_MAX_CAPACITY && i + 1 < |items| {
      var c := Room(i, capacity, ARRAY_MAX_CAPACITY).value;
      ParsePrintedItems(items, i + 1, c, level, pretty, depth, rest);
    }
  }

  lemma ArrayText(items: seq<Value>, level: nat, pretty: bool, rest: string)
    ensures
      var s := Print(Array(items), level, pretty) + rest;
      s != "" && SkipSpaces(s[1..]) == SkipSpaces(ItemsText(items, 0, level, pretty, rest))
  {
    hide PrintItems;
    var s := Print(Array(items), level, pretty) + rest;
    assert s[1..] == Opening(|items|, pretty) + ItemsText(items, 0, level, pretty, rest);
    SkipBlank(Opening(|items|, pretty), ItemsText(items, 0, level, pretty, rest));
  }

  lemma ArrayStart(s: string, nesting: nat)
    requires s != ""
    ensures
      var t := SkipSpaces(s[1..]);
      ParseArray(s, nesting) == if At(t, 0) == ']' then Ok(Array([]), t[1..]) else ParseItems(t, nesting, [], 0)
  {
    hide ParseItems, SkipSpaces;
  }

  lemma ReadableArray(items: seq<Value>, depth: nat)
    requires depth <= MAX_NESTING
    ensures Readable(Array(items), depth) <==> AllReadable(items, 0, depth + 1)
    ensures Reread(Array(items)) == Array(RereadItems(items))
    ensures items == [] ==> AllReadable(items, 0, depth + 1) && RereadItems(items) == []
    ensures RereadItems(items)[..0] == []
  {
  }

  lemma {:induction false} ParsePrintedArray(items: seq<Value>, level: nat, pretty: bool, depth: nat, rest: string)
    requires depth <= MAX_NESTING
    requires forall i :: 0 <= i < |items| ==> WellNamed(items[i])
    ensures ParseArray(Print(Array(items), level, pretty) + rest, depth + 1)
         == if Readable(Array(items), depth) then Ok(Reread(Array(items)), rest) else Fail
    decreases items, 2
  {
    hide Print, ItemText, ItemsText, ParseItems, ParseArray, SkipSpaces, WellNamed, Reread, RereadItems, Readable,
      AllReadable;
    ReadableArray(items, depth);
    ArrayText(items, level, pretty, rest);
    ArrayStart(Print(Array(items), level, pretty) + rest, depth + 1);
    if items == [] {
      ItemsEnd(items, level, pretty, rest);
      FinishedArray([Null], rest);
    } else {
      ItemsStart(items, 0, level, pretty, rest);
      ParsePrintedItems(items, 0, 0, level, pretty, depth + 1, rest);
    }
  }

  // ----- objects

  function MembersText(ms: seq<Member>, i: nat, level: nat, pretty: bool, rest: string): string
    requires i <= |ms|
  {
    PrintMembers(ms, i, level, pretty) + Tail(|ms|, level, pretty, '}', rest)
  }

  /** What follows member `i`. */
  function AfterMember(ms: seq<Member>, i: nat, level: nat, pretty: bool, rest: string): string
    requires i < |ms|
  {
    Separator(i, |ms|, pretty) + MembersText(ms, i + 1, level, pretty, rest)
  }

  /** What follows the colon of member `i`. */
  function AfterColon(ms: seq<Member>, i: nat, level: nat, pretty: bool, rest: string): string
    requires i < |ms|
  {
    (if pretty then " " else "") + (Print(ms[i].value, level + 1, pretty) + AfterMember(ms, i, level, pretty, rest))
  }

  function MemberText(ms: seq<Member>, i: nat, level: nat, pretty: bool, rest: string): string
    requires i < |ms|
  {
    PrintString(ms[i].name) + (":" + AfterColon(ms, i, level, pretty, rest))
  }

  lemma SevenParts(w: string, n: string, b: string, p: string, q: string, r: string, t: string)
    ensures w + n + ":" + b + p + q + r + t == w + (n + (":" + (b + (p + (q + (r + t))))))
  {
  }

  lemma MembersStart(ms: seq<Member>, i: nat, level: nat, pretty: bool, rest: string)
    requires i < |ms| && UniqueNames(ms)
    ensures
      var s := MemberText(ms, i, level, pretty, rest);
      SkipSpaces(MembersText(ms, i, level, pretty, rest)) == s && s != "" && s[0] != '}'
  {
    hide Print, PrintMembers, Separator, Tail, Escape;
    var w, b := if pretty then Indent(level + 1) else "", if pretty then " " else "";
    var s := MemberText(ms, i, level, pretty, rest);
    FindUnique(ms, i);
    MemberStep("", ms, i, level, pretty);
    Nothing(PrintMembers(ms, i, level, pretty));
    Nothing(MemberHead(ms[i].name, level, pretty));
    SevenParts(w, PrintString(ms[i].name), b, Print(ms[i].value, level + 1, pretty), Separator(i, |ms|, pretty),
               PrintMembers(ms, i + 1, level, pretty), Tail(|ms|, level, pretty, '}', rest));
    assert SkipSpaces(s) == s;
    SkipBlank(w, s);
  }

  lemma MembersEnd(ms: seq<Member>, level: nat, pretty: bool, rest: string)
    ensures MembersText(ms, |ms|, level, pretty, rest) == Tail(|ms|, level, pretty, '}', rest)
    ensures SkipSpaces(MembersText(ms, |ms|, level, pretty, rest)) == "}" + rest
  {
    hide Print, Tail;
    Nothing(Tail(|ms|, level, pretty, '}', rest));
    TailSkipped(|ms|, level, pretty, '}', rest);
  }

  lemma AfterMemberSkipped(ms: seq<Member>, i: nat, level: nat, pretty: bool, rest: string)
    requires i < |ms|
    ensures
      var t := SkipSpaces(AfterMember(ms, i, level, pretty, rest));
      if i + 1 < |ms|
      then At(t, 0) == ',' && SkipSpaces(t[1..]) == SkipSpaces(MembersText(ms, i + 1, level, pretty, rest))
      else t == "}" + rest
  {
    hide Separator, MembersText, SkipSpaces;
    SeparatorSkipped(i, |ms|, pretty, MembersText(ms, i + 1, level, pretty, rest));
    MembersEnd(ms, level, pretty, rest);
  }

  lemma AfterMemberEndsNumber(ms: seq<Member>, i: nat, level: nat, pretty: bool, rest: string)
    requires i < |ms|
    ensures
      var r := AfterMember(ms, i, level, pretty, rest);
      r != "" && EndsNumber(r)
  {
    hide MembersText;
    MembersEnd(ms, level, pretty, rest);
    TailStart(|ms|, level, pretty, '}', rest);
  }

  lemma ColonKept(x: string)
    ensures
      var t := ":" + x;
      SkipSpaces(t) == t && At(t, 0) == ':' && t[1..] == x
  {
  }

  lemma AfterColonParsed(ms: seq<Member>, i: nat, level: nat, pretty: bool, rest: string, depth: nat)
    requires i < |ms|
    ensures
      var t := ":" + AfterColon(ms, i, level, pretty, rest);
      && SkipSpaces(t) == t && At(t, 0) == ':' && t[1..] == AfterColon(ms, i, level, pretty, rest)
      && ParseValue(t[1..], depth)
         == ParseValue(Print(ms[i].value, level + 1, pretty) + AfterMember(ms, i, level, pretty, rest), depth)
  {
    hide Print, AfterMember, ParseValue, SkipSpaces;
    var x := Print(ms[i].value, level + 1, pretty) + AfterMember(ms, i, level, pretty, rest);
    ParseAfterBlank(if pretty then " " else "", x, depth);
    ColonKept(AfterColon(ms, i, level, pretty, rest));
  }

  lemma FinishedObject(o: Value, rest: string)
    requires o.Object? && o.members != []
    ensures FinishObject("}" + rest, o) == Ok(Object(o.members, |o.members|), rest)
    ensures At("}" + rest, 0) == '}' && ("}" + rest)[1..] == rest
  {
    assert SkipSpaces("}" + rest) == "}" + rest;
  }

  lemma NameIsNew(ms: seq<Member>, all: seq<Member>, i: nat)
    requires i < |ms| == |all| && UniqueNames(ms)
    requires forall j :: 0 <= j < |ms| ==> all[j].name == ms[j].name
    ensures Get(all[..i], ms[i].name).None?
  {
    assert forall j :: 0 <= j < i ==> all[..i][j].name == ms[j].name;
  }

  /** Adding the next member of a list with unique names fails only for want of room. */
  lemma NextMemberAdded(ms: seq<Member>, i: nat, capacity: nat)
    requires i < |ms| && UniqueNames(ms)
    requires OnLadder(capacity) && i <= capacity <= OBJECT_MAX_CAPACITY
    ensures
      var all := RereadMembers(ms);
      var add := ObjectAdd(Object(all[..i], capacity), ms[i].name, Reread(ms[i].value));
      if i >= OBJECT_MAX_CAPACITY then !add.ok
      else
        var c := add.target.capacity;
        add.ok && add.target == Object(all[..i + 1], c) && OnLadder(c) && i < c <= OBJECT_MAX_CAPACITY
  {
    hide Reread, RereadMembers, OnLadder, Room, Get;
    var all := RereadMembers(ms);
    RoomOnLadder(i, capacity, OBJECT_MAX_CAPACITY);
    NameIsNew(ms, all, i);
    TakeOneMore(all, i);
  }

  lemma MemberParsed(ms: seq<Member>, i: nat, capacity: nat, level: nat, pretty: bool, depth: nat, rest: string)
    requires i < |ms| && UniqueNames(ms) && OnLadder(capacity) && i <= capacity <= OBJECT_MAX_CAPACITY
    requires ParseValue(Print(ms[i].value, level + 1, pretty) + AfterMember(ms, i, level, pretty, rest), depth)
          == if Readable(ms[i].value, depth)
             then Ok(Reread(ms[i].value), AfterMember(ms, i, level, pretty, rest)) else Fail
    ensures
      var all := RereadMembers(ms);
      var parsed := ParseMembers(MemberText(ms, i, level, pretty, rest), depth, Object(all[..i], capacity));
      if !PrintableText(ms[i].name) || !Readable(ms[i].value, depth) || i >= OBJECT_MAX_CAPACITY then parsed == Fail
      else if i + 1 == |ms| then parsed == Ok(Object(all, |ms|), rest)
      else
        var c := ObjectAdd(Object(all[..i], capacity), ms[i].name, Reread(ms[i].value)).target.capacity;
        && OnLadder(c) && i < c <= OBJECT_MAX_CAPACITY
        && parsed == ParseMembers(MemberText(ms, i + 1, level, pretty, rest), depth, Object(all[..i + 1], c))
  {
    hide MembersText, AfterMember, AfterColon, Print, PrintString, QuotedString, ParseValue, ParseMembers,
      FinishObject, ObjectAdd, OnLadder, Readable, PrintableText, SkipSpaces, Reread, RereadMembers;
    var all := RereadMembers(ms);
    MembersStart(ms, i, level, pretty, rest);
    QuotedOfPrint(ms[i].name, ":" + AfterColon(ms, i, level, pretty, rest));
    AfterColonParsed(ms, i, level, pretty, rest, depth);
    MembersTurn(MemberText(ms, i, level, pretty, rest), depth, Object(all[..i], capacity));
    AfterMemberSkipped(ms, i, level, pretty, rest);
    NextMemberAdded(ms, i, capacity);
    TakeOneMore(all, i);
    if i + 1 < |ms| {
      MembersStart(ms, i + 1, level, pretty, rest);
    } else if i < OBJECT_MAX_CAPACITY {
      FinishedObject(ObjectAdd(Object(all[..i], capacity), ms[i].name, Reread(ms[i].value)).target, rest);
    }
  }

  ghost predicate AllMembersReadable(ms: seq<Member>, i: nat, depth: nat) {
    && |ms| <= OBJECT_MAX_CAPACITY
    && forall j :: i <= j < |ms| ==> PrintableText(ms[j].name) && Readable(ms[j].value, depth)
  }

  lemma AllMembersReadableStep(ms: seq<Member>, i: nat, depth: nat)
    requires i < |ms|
    ensures AllMembersReadable(ms, i, depth)
       <==> PrintableText(ms[i].name) && Readable(ms[i].value, depth) && AllMembersReadable(ms, i + 1, depth)
    ensures i + 1 == |ms| ==> (AllMembersReadable(ms, i + 1, depth) <==> |ms| <= OBJECT_MAX_CAPACITY)
    ensures i >= OBJECT_MAX_CAPACITY ==> !AllMembersReadable(ms, i + 1, depth)
  {
    hide Readable, PrintableText;
  }

  lemma {:induction false} ParsePrintedMembers(ms: seq<Member>, i: nat, capacity: nat,
                                               level: nat, pretty: bool, depth: nat, rest: string)
    requires i < |ms| && UniqueNames(ms) && forall j :: 0 <= j < |ms| ==> WellNamed(ms[j].value)
    requires OnLadder(capacity) && i <= capacity <= OBJECT_MAX_CAPACITY
    ensures ParseMembers(MemberText(ms, i, level, pretty, rest), depth, Object(RereadMembers(ms)[..i], capacity))
         == if AllMembersReadable(ms, i, depth) then Ok(Object(RereadMembers(ms), |ms|), rest) else Fail
    decreases ms, 1, |ms| - i
  {
    hide Print, MemberText, AfterMember, ParseValue, ParseMembers, ObjectAdd, OnLadder, Readable, AllMembersReadable,
      WellNamed, PrintableText, Reread, RereadMembers;
    AllMembersReadableStep(ms, i, depth);
    AfterMemberEndsNumber(ms, i, level, pretty, rest);
    ParsePrinted(ms[i].value, level + 1, pretty, depth, AfterMember(ms, i, level, pretty, rest));
    MemberParsed(ms, i, capacity, level, pretty, depth, rest);
    if PrintableText(ms[i].name) && Readable(ms[i].value, depth) && i < OBJECT_MAX_CAPACITY && i + 1 < |ms| {
      var c := ObjectAdd(Object(RereadMembers(ms)[..i], capacity), ms[i].name, Reread(ms[i].value)).target.capacity;
      ParsePrintedMembers(ms, i + 1, c, level, pretty, depth, rest);
    }
  }

  lemma ObjectText(ms: seq<Member>, c: nat, level: nat, pretty: bool, rest: string)
    ensures
      var s := Print(Object(ms, c), level, pretty) + rest;
      s != "" && SkipSpaces(s[1..]) == SkipSpaces(MembersText(ms, 0, level, pretty, rest))
  {
    hide PrintMembers;
    var s := Print(Object(ms, c), level, pretty) + rest;
    assert s[1..] == Opening(|ms|, pretty) + MembersText(ms, 0, level, pretty, rest);
    SkipBlank(Opening(|ms|, pretty), MembersText(ms, 0, level, pretty, rest));
  }

  lemma ObjectStart(s: string, nesting: nat)
    requires s != ""
    ensures
      var t := SkipSpaces(s[1..]);
      ParseObject(s, nesting)
      == if At(t, 0) == '}' then Ok(EmptyObject, t[1..]) else ParseMembers(t, nesting, EmptyObject)
  {
    hide ParseMembers, SkipSpaces;
  }

  lemma ReadableObject(ms: seq<Member>, c: nat, depth: nat)
    requires depth <= MAX_NESTING
    ensures Readable(Object(ms, c), depth) <==> AllMembersReadable(ms, 0, depth + 1)
    ensures Reread(Object(ms, c)) == Object(RereadMembers(ms), |ms|)
    ensures ms == [] ==> AllMembersReadable(ms, 0, depth + 1) && RereadMembers(ms) == []
    ensures RereadMembers(ms)[..0] == []
  {
  }

  lemma {:induction false} ParsePrintedObject(ms: seq<Member>, c: nat, level: nat, pretty: bool, depth: nat,
        rest: string)
    requires depth <= MAX_NESTING
    requires UniqueNames(ms) && forall i :: 0 <= i < |ms| ==> WellNamed(ms[i].value)
    ensures ParseObject(Print(Object(ms, c), level, pretty) + rest, depth + 1)
         == if Readable(Object(ms, c), depth) then Ok(Reread(Object(ms, c)), rest) else Fail
    decreases ms, 2
  {
    hide Print, MemberText, MembersText, ParseMembers, ParseObject, SkipSpaces, WellNamed, Reread, RereadMembers,
      Readable, AllMembersReadable;
    ReadableObject(ms, c, depth);
    ObjectText(ms, c, level, pretty, rest);
    ObjectStart(Print(Object(ms, c), level, pretty) + rest, depth + 1);
    if ms == [] {
      MembersEnd(ms, level, pretty, rest);
      FinishedObject(Object([Member("", Null)], 1), rest);
    } else {
      MembersStart(ms, 0, level, pretty, rest);
      ParsePrintedMembers(ms, 0, 0, level, pretty, depth + 1, rest);
    }
  }

  // ----- whole texts

  /** Parsing the compact or pretty text of an object or array gives back the value, with
      trimmed capacities, exactly when the value is within the parser's limits; otherwise
      parsing fails. Text after the value is not looked at. */
  lemma RoundTrip(v: Value, pretty: bool, rest: string)
    requires WellNamed(v) && (v.Array? || v.Object?)
    ensures ParseText(Print(v, 0, pretty) + rest) == if Readable(v, 0) then Ok(Reread(v), rest) else Fail
  {
    hide Print, ParseValue, ParseArray, ParseObject, Readable, SkipSpaces, WellNamed, Reread;
    var t := Print(v, 0, pretty) + rest;
    ContainerStart(v, 0, pretty);
    TextStart(v, pretty, rest);
    ParseDispatch(t, 0);
    assert ParseText(t) == ParseValue(t, 0);
    WellNamedChildren(v);
    if v.Array? {
      ParsePrintedArray(v.items, 0, pretty, 0, rest);
      assert v == Array(v.items);
    } else {
      ParsePrintedObject(v.members, v.capacity, 0, pretty, 0, rest);
      assert v == Object(v.members, v.capacity);
    }
  }

  lemma WellNamedChildren(v: Value)
    requires WellNamed(v)
    ensures v.Array? ==> forall i :: 0 <= i < |v.items| ==> WellNamed(v.items[i])
    ensures v.Object? ==> UniqueNames(v.members) && forall i :: 0 <= i < |v.members| ==> WellNamed(v.members[i].value)
  {
  }

  lemma ContainerStart(v: Value, level: nat, pretty: bool)
    ensures
      var t := Print(v, level, pretty);
      && (v.Array? <==> t[0] == '[') && (v.Object? <==> t[0] == '{')
      && t != "" && !IsSpace(t[0])
  {
    PrintStart(v, level, pretty);
    if v.Number? {
      NumberStart(v.x);
    }
  }

  lemma TextStart(v: Value, pretty: bool, rest: string)
    ensures
      var t := Print(v, 0, pretty) + rest;
      t != "" && SkipSpaces(t) == t && t[0] == Print(v, 0, pretty)[0]
  {
    PrintStart(v, 0, pretty);
  }

  /** Any other value is refused at the top, whatever its text. */
  lemma ScalarsRefused(v: Value, pretty: bool, rest: string)
    requires !v.Array? && !v.Object?
    ensures ParseText(Print(v, 0, pretty) + rest) == Fail
  {
    hide Print, SkipSpaces;
    ContainerStart(v, 0, pretty);
    TextStart(v, pretty, rest);
  }

  // ----- what is read back

  /** All numbers are multiples of one millionth, as integers are. */
  ghost predicate AllMicro(v: Value) {
    match v
    case Number(x) => IsMicro(x)
    case Array(items) => forall i :: 0 <= i < |items| ==> AllMicro(items[i])
    case Object(ms, _) => forall i :: 0 <= i < |ms| ==> AllMicro(ms[i].value)
    case _ => true
  }

  /** Besides the capacities nothing is lost, exactly if all numbers are multiples of one
      millionth. */
  lemma {:induction false} RereadExactly(v: Value)
    ensures Reread(v) == Trim(v) <==> AllMicro(v)
    decreases v
  {
    hide Rounded, IsMicro;
    match v
    case Number(x) => RoundedExactly(x);
    case Array(items) =>
      forall i | 0 <= i < |items| ensures Reread(items[i]) == Trim(items[i]) <==> AllMicro(items[i]) {
        RereadExactly(items[i]);
      }
      var r, t := RereadItems(items), TrimItems(items);
      assert r == t <==> forall i :: 0 <= i < |items| ==> r[i] == t[i];
    case Object(ms, _) =>
      forall i | 0 <= i < |ms| ensures Reread(ms[i].value) == Trim(ms[i].value) <==> AllMicro(ms[i].value) {
        RereadExactly(ms[i].value);
      }
      var r, t := RereadMembers(ms), TrimMembers(ms);
      assert r == t <==> forall i :: 0 <= i < |ms| ==> r[i] == t[i];
    case _ =>
  }

  /** What was read back is within the same limits, and reads back as it is. */
  lemma {:induction false} RereadStays(v: Value, depth: nat)
    requires WellNamed(v)
    ensures Reread(Reread(v)) == Reread(v) && WellNamed(Reread(v))
    ensures Readable(Reread(v), depth) <==> Readable(v, depth)
    decreases v
  {
    hide Rounded, PrintableText;
    match v
    case Number(x) => RoundedExactly(x);
    case Array(items) =>
      var r := RereadItems(items);
      forall i | 0 <= i < |items|
        ensures Reread(r[i]) == r[i] && WellNamed(r[i])
          && (Readable(r[i], depth + 1) <==> Readable(items[i], depth + 1)) {
        RereadStays(items[i], depth + 1);
      }
      assert RereadItems(r) == r;
    case Object(ms, _) =>
      var r := RereadMembers(ms);
      forall i | 0 <= i < |ms|
        ensures Reread(r[i].value) == r[i].value && WellNamed(r[i].value)
        ensures Readable(r[i].value, depth + 1) <==> Readable(ms[i].value, depth + 1) {
        RereadStays(ms[i].value, depth + 1);
      }
      assert RereadMembers(r) == r;
    case _ =>
  }

  /** A value comes back as it was, capacities aside, exactly if it is within the limits and
      its numbers have at most six decimals. */
  lemma RoundTripExactly(v: Value, pretty: bool, rest: string)
    requires WellNamed(v) && (v.Array? || v.Object?)
    ensures ParseText(Print(v, 0, pretty) + rest) == Ok(Trim(v), rest) <==> Readable(v, 0) && AllMicro(v)
  {
    hide Print, ParseText, Readable, WellNamed, Trim, Reread, AllMicro;
    RoundTrip(v, pretty, rest);
    RereadExactly(v);
  }

  /** A ten-millionth comes back as 0. */
  lemma SmallNumberIsLost(pretty: bool)
    ensures ParseText(Print(Array([Number(0.0000001)]), 0, pretty)) == Ok(Array([Number(0.0)]), "")
  {
    hide Print, ParseText;
    var v := Array([Number(0.0000001)]);
    assert Micros(0.0000001) == 0;
    assert RereadItems([Number(0.0000001)]) == [Number(0.0)];
    RoundTrip(v, pretty, "");
    assert Print(v, 0, pretty) + "" == Print(v, 0, pretty);
  }

  /** The second time nothing changes any more. */
  lemma SecondRoundTrip(v: Value, pretty: bool, rest: string)
    requires WellNamed(v) && (v.Array? || v.Object?) && Readable(v, 0)
    ensures ParseText(Print(Reread(v), 0, pretty) + rest) == Ok(Reread(v), rest)
  {
    hide Print, ParseText, Readable, WellNamed;
    RereadStays(v, 0);
    RoundTrip(Reread(v), pretty, rest);
  }

  /** Nothing is lost by trimming: it changes no text. */
  lemma {:induction false} TrimKeepsText(v: Value, level: nat, pretty: bool)
    ensures Print(Trim(v), level, pretty) == Print(v, level, pretty)
    decreases v, 0
  {
    match v
    case Array(items) =>
      ItemsKeepText(items, 0, level, pretty);
    case Object(ms, _) =>
      MembersKeepText(ms, 0, level, pretty);
    case _ =>
  }

  lemma {:induction false} ItemsKeepText(items: seq<Value>, i: nat, level: nat, pretty: bool)
    requires i <= |items|
    ensures PrintItems(TrimItems(items), i, level, pretty) == PrintItems(items, i, level, pretty)
    decreases items, 1, |items| - i
  {
    if i < |items| {
      TrimKeepsText(items[i], level + 1, pretty);
      ItemsKeepText(items, i + 1, level, pretty);
    }
  }

  lemma {:induction false} MembersKeepText(ms: seq<Member>, i: nat, level: nat, pretty: bool)
    requires i <= |ms|
    ensures PrintMembers(TrimMembers(ms), i, level, pretty) == PrintMembers(ms, i, level, pretty)
    decreases ms, 1, |ms| - i
  {
    if i < |ms| {
      FindTrimmed(ms, ms[i].name);
      TrimKeepsText(ms[Find(ms, ms[i].name)].value, level + 1, pretty);
      MembersKeepText(ms, i + 1, level, pretty);
    }
  }

  lemma FindTrimmed(ms: seq<Member>, name: string)
    ensures Find(TrimMembers(ms), name) == Find(ms, name)
  {
    var j, k := Find(TrimMembers(ms), name), Find(ms, name);
    assert j < |ms| ==> ms[j].name == name;
    assert k < |ms| ==> TrimMembers(ms)[k].name == name;
  }

  // ----- printed text is a C string

  predicate NoNul(s: string) {
    '\0' !in s
  }

  lemma {:induction false} EscapeHasNoNul(s: string)
    requires NoNul(s)
    ensures NoNul(Escape(s))
  {
    if s != "" {
      EscapeHasNoNul(s[1..]);
    }
  }

  lemma NumberHasNoNul(x: real)
    ensures NoNul(PrintNumber(x))
  {
    hide Nearest;
    if IsInt(x) {
      AllDigitsArePlain(Decimal(if x.Floor < 0 then 0 - x.Floor else x.Floor));
    } else {
      AllDigitsArePlain(Decimal(Micros(x) / MILLION));
      AllDigitsArePlain(LastDigits(Micros(x) % MILLION, 6));
    }
  }

  lemma FrameHasNoNul(count: nat, i: nat, level: nat, pretty: bool)
    ensures NoNul(Opening(count, pretty)) && NoNul(Closing(count, level, pretty)) && NoNul(Separator(i, count, pretty))
    ensures NoNul(Indent(level))
  {
  }

  /** All names and strings are C strings. */
  ghost predicate CStrings(v: Value) {
    match v
    case String(s) => NoNul(s)
    case Array(items) => forall i :: 0 <= i < |items| ==> CStrings(items[i])
    case Object(ms, _) => forall i :: 0 <= i < |ms| ==> NoNul(ms[i].name) && CStrings(ms[i].value)
    case _ => true
  }

  /** The text of such a value is one too. */
  lemma {:induction false} PrintedHasNoNul(v: Value, level: nat, pretty: bool)
    requires CStrings(v)
    ensures NoNul(Print(v, level, pretty))
    decreases v, 0, 0
  {
    hide Escape, PrintItems, PrintMembers, Closing, Opening, Decimal;
    match v
    case Null =>
    case Boolean(b) =>
    case Number(x) => NumberHasNoNul(x);
    case String(s) => EscapeHasNoNul(s);
    case Array(items) =>
      FrameHasNoNul(|items|, 0, level, pretty);
      ItemsHaveNoNul(items, 0, level, pretty);
    case Object(ms, _) =>
      FrameHasNoNul(|ms|, 0, level, pretty);
      MembersHaveNoNul(ms, 0, level, pretty);
  }

  lemma {:induction false} ItemsHaveNoNul(items: seq<Value>, i: nat, level: nat, pretty: bool)
    requires i <= |items| && forall k :: 0 <= k < |items| ==> CStrings(items[k])
    ensures NoNul(PrintItems(items, i, level, pretty))
    decreases items, 1, |items| - i
  {
    hide CStrings, Print, Indent, Separator;
    if i < |items| {
      FrameHasNoNul(|items|, i, level + 1, pretty);
      PrintedHasNoNul(items[i], level + 1, pretty);
      ItemsHaveNoNul(items, i + 1, level, pretty);
    }
  }

  lemma {:induction false} MembersHaveNoNul(ms: seq<Member>, i: nat, level: nat, pretty: bool)
    requires i <= |ms|
    requires forall k :: 0 <= k < |ms| ==> NoNul(ms[k].name) && CStrings(ms[k].value)
    ensures NoNul(PrintMembers(ms, i, level, pretty))
    decreases ms, 1, |ms| - i
  {
    hide CStrings, Print, Indent, Separator, Escape;
    if i < |ms| {
      FrameHasNoNul(|ms|, i, level + 1, pretty);
      EscapeHasNoNul(ms[i].name);
      PrintedHasNoNul(ms[Find(ms, ms[i].name)].value, level + 1, pretty);
      MembersHaveNoNul(ms, i + 1, level, pretty);
    }
  }
}
