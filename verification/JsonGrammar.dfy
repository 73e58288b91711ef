/** What texts the parser accepts, said without the parser: texts are the writings of trees,
    which keep every blank, escape and digit, and each tree has a value. */
module JsonGrammar {
  import opened Collections
  import opened Text
  import opened JsonNumber
  import opened JsonValue
  import opened JsonParse
  import JsonRoundTrip
  import Utf8

  // ----- strings

  /** What stands between quotes: characters, one-letter escapes, escaped code points and
      escaped surrogate pairs. */
  datatype Unit = Plain(c: char) | Short(c: char) | Hex(digits: string) | Pair(lead: string, trail: string)

  predicate FourHex(d: string) {
    |d| == 4 && AllDigits(d, 16)
  }

  predicate LegalUnit(u: Unit) {
    match u
    case Plain(c) => c >= ' ' && c != '\"' && c != '\\'
    case Short(c) => Unescape(c).Some?
    case Hex(d) => FourHex(d) && Utf8.IsScalar(ValueIn(d, 16))
    case Pair(d, e) => FourHex(d) && FourHex(e) && Utf8.IsLead(ValueIn(d, 16)) && Utf8.IsTrail(ValueIn(e, 16))
  }

  function UnitText(u: Unit): (t: string)
    ensures t != ""
  {
    match u
    case Plain(c) => [c]
    case Short(c) => ['\\', c]
    case Hex(d) => "\\u" + d
    case Pair(d, e) => "\\u" + d + "\\u" + e
  }

  /** The bytes a unit stands for. */
  function UnitBytes(u: Unit): string
    requires LegalUnit(u)
  {
    match u
    case Plain(c) => [c]
    case Short(c) => [Unescape(c).value]
    case Hex(d) => Utf8.Encode(ValueIn(d, 16))
    case Pair(d, e) => Utf8.Encode(Utf8.Combine(ValueIn(d, 16), ValueIn(e, 16)))
  }

  predicate LegalUnits(us: seq<Unit>) {
    forall i :: 0 <= i < |us| ==> LegalUnit(us[i])
  }

  function UnitsText(us: seq<Unit>): string {
    if us == [] then "" else UnitText(us[0]) + UnitsText(us[1..])
  }

  function UnitsBytes(us: seq<Unit>): string
    requires LegalUnits(us)
  {
    if us == [] then "" else UnitBytes(us[0]) + UnitsBytes(us[1..])
  }

  lemma HexValue(t: string, i: nat, d: string)
    requires FourHex(d) && i + 4 <= |t| && t[i..i + 4] == d
    ensures Utf8.IsHex4(t, i) && Utf8.Hex4(t, i) == ValueIn(d, 16)
  {
    assert d[0] == t[i] && d[1] == t[i + 1] && d[2] == t[i + 2] && d[3] == t[i + 3];
    FourDigits(d);
  }

  lemma FourDigits(d: string)
    requires FourHex(d)
    ensures ValueIn(d, 16) == 4096 * DigitOf(d[0]) + 256 * DigitOf(d[1]) + 16 * DigitOf(d[2]) + DigitOf(d[3])
  {
    var c := d[..3];
    var b := c[..2];
    var a := b[..1];
    assert ValueIn(d, 16) == 16 * ValueIn(c, 16) + DigitOf(d[3]);
    assert ValueIn(c, 16) == 16 * ValueIn(b, 16) + DigitOf(d[2]);
    assert ValueIn(b, 16) == 16 * ValueIn(a, 16) + DigitOf(d[1]);
    assert a[..0] == "" && ValueIn(a, 16) == DigitOf(d[0]);
  }

  /** Hexadecimal digits end no quoted text. */
  lemma {:induction false} DigitsSkipped(d: string, tail: string)
    requires AllDigits(d, 16)
    ensures AfterQuote(d + tail) == AfterQuote(tail)
    decreases |d|
  {
    if d == "" {
      assert d + tail == tail;
    } else {
      assert (d + tail)[0] == d[0] && (d + tail)[1..] == d[1..] + tail;
      DigitsSkipped(d[1..], tail);
    }
  }

  lemma EscapeSkipped(d: string, tail: string)
    requires AllDigits(d, 16)
    ensures AfterQuote("\\u" + d + tail) == AfterQuote(tail)
  {
    var t := "\\u" + d + tail;
    assert t[0] == '\\' && t[2..] == d + tail;
    DigitsSkipped(d, tail);
  }

  lemma UnitSkipped(u: Unit, tail: string)
    requires LegalUnit(u)
    ensures AfterQuote(UnitText(u) + tail) == AfterQuote(tail)
  {
    hide Utf8.IsScalar, ValueIn;
    match u
    case Plain(c) => assert ([c] + tail)[1..] == tail;
    case Short(c) => assert (['\\', c] + tail)[2..] == tail;
    case Hex(d) => EscapeSkipped(d, tail);
    case Pair(d, e) =>
      assert "\\u" + d + "\\u" + e + tail == "\\u" + d + ("\\u" + e + tail);
      EscapeSkipped(d, "\\u" + e + tail);
      EscapeSkipped(e, tail);
  }

  /** The eight one-letter escapes (section 7 of RFC 8259). */
  lemma EscapesAre(c: char, d: char)
    ensures Unescape(c) == Some(d) <==>
              (c, d) in {('\"', '\"'), ('\\', '\\'), ('/', '/'), ('b', '\U{08}'), ('f', '\U{0C}'), ('n', '\U{0A}'),
                         ('r', '\U{0D}'), ('t', '\U{09}')}
  {
  }

  /** The unit that writes a scalar value as an escape. */
  function EscapeUnit(cp: nat): Unit
    requires cp <= 0x10FFFF
  {
    if cp < 0x1_0000 then Hex(Utf8.HexText(cp)) else Pair(Utf8.HexText(Utf8.LeadOf(cp)), Utf8.HexText(Utf8.TrailOf(cp)))
  }

  /** It is legal and stands for the bytes of the scalar value. */
  lemma EscapeUnitRead(cp: nat)
    requires cp < 0xD800 || 0xE000 <= cp <= 0x10FFFF
    ensures LegalUnit(EscapeUnit(cp)) && UnitBytes(EscapeUnit(cp)) == Utf8.Encode(cp)
  {
    hide ValueIn, Utf8.HexText, Utf8.Encode, Utf8.Combine, Utf8.LeadOf, Utf8.TrailOf, FourHex;
    if cp < 0x1_0000 {
      HexTextValue(cp);
    } else {
      Utf8.CombineHalves(cp);
      HexTextValue(Utf8.LeadOf(cp));
      HexTextValue(Utf8.TrailOf(cp));
    }
  }

  lemma HexTextValue(u: nat)
    requires u < 0x1_0000
    ensures FourHex(Utf8.HexText(u)) && ValueIn(Utf8.HexText(u), 16) == u
  {
    hide Utf8.HexText, ValueIn;
    var d := Utf8.HexText(u);
    assert d[0..4] == d;
    Utf8.HexTextRead(u, d, 0);
    FourDigits(d);
  }

  lemma HexDecoded(d: string, tail: string)
    requires FourHex(d) && Utf8.IsScalar(ValueIn(d, 16)) && tail != ""
    ensures Decode("\\u" + d + tail) == Prepend(Utf8.Encode(ValueIn(d, 16)), Decode(tail))
  {
    hide ValueIn, Utf8.Encode;
    var t := "\\u" + d + tail;
    assert t[1..][1..5] == d && t[6..] == tail;
    HexValue(t[1..], 1, d);
  }

  lemma PairDecoded(d: string, e: string, tail: string)
    requires FourHex(d) && FourHex(e) && Utf8.IsLead(ValueIn(d, 16)) && Utf8.IsTrail(ValueIn(e, 16)) && tail != ""
    ensures Decode("\\u" + d + "\\u" + e + tail)
         == Prepend(Utf8.Encode(Utf8.Combine(ValueIn(d, 16), ValueIn(e, 16))), Decode(tail))
  {
    hide ValueIn, Utf8.Encode, Utf8.Combine;
    var t := "\\u" + d + "\\u" + e + tail;
    assert t[1..][1..5] == d && t[1..][7..11] == e && t[12..] == tail;
    assert t[1..][5] == '\\' && t[1..][6] == 'u';
    HexValue(t[1..], 1, d);
    HexValue(t[1..], 7, e);
  }

  lemma UnitDecoded(u: Unit, tail: string)
    requires LegalUnit(u) && tail != ""
    ensures Decode(UnitText(u) + tail) == Prepend(UnitBytes(u), Decode(tail))
  {
    hide ValueIn, Utf8.Encode, Utf8.Combine, Utf8.ParseUtf16, FourHex;
    match u
    case Plain(c) => assert ([c] + tail)[1..] == tail;
    case Short(c) => assert (['\\', c] + tail)[2..] == tail;
    case Hex(d) => HexDecoded(d, tail);
    case Pair(d, e) => PairDecoded(d, e, tail);
  }

  /** Between quotes, units are found and decoded. */
  lemma {:induction false} UnitsRead(us: seq<Unit>, rest: string)
    requires LegalUnits(us)
    ensures AfterQuote(UnitsText(us) + "\"" + rest) == rest
    ensures Decode(UnitsText(us) + "\"") == Some(UnitsBytes(us))
    decreases |us|
  {
    hide UnitText, UnitBytes, LegalUnit;
    if us == [] {
      assert "" + "\"" + rest == "\"" + rest && ("\"" + rest)[1..] == rest;
    } else {
      var tail := UnitsText(us[1..]) + "\"";
      UnitsRead(us[1..], rest);
      assert LegalUnit(us[0]);
      UnitSkipped(us[0], tail + rest);
      UnitDecoded(us[0], tail);
      assert UnitsText(us) + "\"" + rest == UnitText(us[0]) + (tail + rest);
      assert UnitsText(us) + "\"" == UnitText(us[0]) + tail;
    }
  }

  /** `x` up to the closing quote. */
  function Inside(x: string): string
  {
    x[..|x| - |AfterQuote(x)|]
  }

  /** Whatever is decoded is made of units. */
  lemma {:induction false} UnitsFound(x: string) returns (us: seq<Unit>)
    requires AfterQuote(x) != "" && Decode(Inside(x)).Some?
    ensures LegalUnits(us) && x == UnitsText(us) + "\"" + AfterQuote(x) && Decode(Inside(x)) == Some(UnitsBytes(us))
    decreases |x|
  {
    hide UnitText, UnitBytes, LegalUnit, Decode, UnitsText, UnitsBytes;
    if x[0] == '\"' {
      us := [];
      QuoteAlone(x);
    } else {
      var u := UnitFound(x);
      var y := x[|UnitText(u)|..];
      UnitSkipped(u, y);
      assert x == UnitText(u) + y;
      InsideAfter(UnitText(u), y);
      UnitDecoded(u, Inside(y));
      DecodedTail(UnitBytes(u), Decode(Inside(y)));
      var rest := UnitsFound(y);
      us := [u] + rest;
      UnitsCons(u, rest, AfterQuote(x));
    }
  }

  lemma QuoteAlone(x: string)
    requires x != "" && x[0] == '\"'
    ensures x == UnitsText([]) + "\"" + AfterQuote(x) && Decode(Inside(x)) == Some(UnitsBytes([]))
  {
    assert x == "" + "\"" + x[1..];
    assert Inside(x) == "\"";
  }

  lemma InsideAfter(t: string, y: string)
    requires AfterQuote(t + y) == AfterQuote(y) && AfterQuote(y) != ""
    ensures Inside(t + y) == t + Inside(y) && Inside(y) != ""
  {
  }

  lemma DecodedTail(bytes: string, r: Option<string>)
    requires Prepend(bytes, r).Some?
    ensures r.Some? && Prepend(bytes, r).value == bytes + r.value
  {
  }

  lemma UnitsCons(u: Unit, us: seq<Unit>, rest: string)
    requires LegalUnit(u) && LegalUnits(us)
    ensures LegalUnits([u] + us) && UnitsBytes([u] + us) == UnitBytes(u) + UnitsBytes(us)
    ensures UnitsText([u] + us) + "\"" + rest == UnitText(u) + (UnitsText(us) + "\"" + rest)
  {
    assert ([u] + us)[1..] == us;
  }

  /** The first unit. */
  lemma UnitFound(x: string) returns (u: Unit)
    requires AfterQuote(x) != "" && Decode(Inside(x)).Some? && x[0] != '\"'
    ensures LegalUnit(u) && UnitText(u) <= x
  {
    hide ValueIn, Utf8.Encode, Utf8.Combine;
    var t := Inside(x);
    if x[0] != '\\' {
      assert |t| >= 2 && t[0] == x[0];
      u := Plain(x[0]);
    } else {
      assert |t| >= 3 && t[0] == x[0] && t[1] == x[1];
      if x[1] == 'u' {
        u := HexFound(x, t);
      } else {
        u := Short(x[1]);
      }
    }
  }

  lemma HexFound(x: string, t: string) returns (u: Unit)
    requires t <= x && |t| >= 3 && t[0] == '\\' && t[1] == 'u' && Utf8.ParseUtf16(t[1..]).Decoded?
    ensures LegalUnit(u) && UnitText(u) <= x
  {
    hide ValueIn, Utf8.Encode, Utf8.Combine, FourHex;
    EscapeTaken(t);
    var d := t[2..6];
    EscapeText(t, 0, d);
    if Utf8.IsLead(ValueIn(d, 16)) {
      EscapeText(t, 6, t[8..12]);
      u := Pair(d, t[8..12]);
      PairText(x, t);
    } else {
      u := Hex(d);
      assert x[..6] == t[0..6];
    }
  }

  /** What `ParseUtf16` has found where it decodes. */
  lemma EscapeTaken(t: string)
    requires |t| >= 3 && Utf8.ParseUtf16(t[1..]).Decoded?
    ensures |t| >= 6 && FourHex(t[2..6])
    ensures var u := ValueIn(t[2..6], 16);
      if Utf8.IsLead(u) then
        && |t| >= 12 && t[6] == '\\' && t[7] == 'u' && FourHex(t[8..12]) && Utf8.IsTrail(ValueIn(t[8..12], 16))
      else Utf8.IsScalar(u)
  {
    hide ValueIn, Utf8.Encode, Utf8.Combine, FourHex, Utf8.IsHex4, Utf8.Hex4;
    assert Utf8.IsHex4(t[1..], 1);
    HexLength(t[1..], 1);
    FourFound(t[1..], 1, t[2..6]);
    if Utf8.IsLead(ValueIn(t[2..6], 16)) {
      HexLength(t[1..], 7);
      FourFound(t[1..], 7, t[8..12]);
    }
  }

  lemma HexLength(t: string, i: nat)
    requires Utf8.IsHex4(t, i)
    ensures i + 4 <= |t|
  {
  }

  lemma PairText(x: string, t: string)
    requires t <= x && |t| >= 12
    ensures x[..12] == t[0..6] + t[6..12]
  {
  }

  lemma FourFound(t: string, i: nat, d: string)
    requires Utf8.IsHex4(t, i) && d == t[i..i + 4]
    ensures FourHex(d) && Utf8.Hex4(t, i) == ValueIn(d, 16)
  {
    HexValue(t, i, d);
  }

  lemma EscapeText(t: string, i: nat, d: string)
    requires i + 6 <= |t| && t[i] == '\\' && t[i + 1] == 'u' && d == t[i + 2..i + 6]
    ensures t[i..i + 6] == "\\u" + d
  {
  }

  /** A quoted text: its first character is not looked at. */
  lemma QuotedRead(first: char, us: seq<Unit>, rest: string)
    requires LegalUnits(us) && rest != ""
    ensures QuotedString([first] + UnitsText(us) + "\"" + rest) == Quoted(CString(UnitsBytes(us)), rest)
  {
    hide UnitsText, UnitsBytes, AfterQuote, Decode, LegalUnit;
    var s := [first] + UnitsText(us) + "\"" + rest;
    UnitsRead(us, rest);
    assert s[1..] == UnitsText(us) + "\"" + rest;
    assert s[1..|s| - |rest|] == UnitsText(us) + "\"";
  }

  lemma QuotedFound(s: string) returns (us: seq<Unit>)
    requires QuotedString(s).Quoted?
    ensures LegalUnits(us) && QuotedString(s).rest != ""
    ensures s == [s[0]] + UnitsText(us) + "\"" + QuotedString(s).rest && QuotedString(s).text == CString(UnitsBytes(us))
  {
    hide UnitsText, UnitsBytes, AfterQuote, Decode, LegalUnit;
    assert s[1..|s| - |AfterQuote(s[1..])|] == Inside(s[1..]);
    us := UnitsFound(s[1..]);
    assert s == [s[0]] + s[1..];
  }

  // ----- trees

  datatype Tree =
    | Word(word: string)
    | Figure(numeral: Numeral)
    | Quote(units: seq<Unit>)
    | Brackets(space: string, items: seq<Item>)
    | Braces(space: string, fields: seq<Field>)

  datatype Item = Item(before: string, tree: Tree, after: string)

  /** The first character of a name may be anything: it is skipped unseen. */
  datatype Field = Field(before: string, first: char, name: seq<Unit>, gap: string, value: Item)

  function Write(tree: Tree): string
    decreases tree, 0
  {
    match tree
    case Word(w) => w
    case Figure(n) => NumeralText(n)
    case Quote(us) => "\"" + UnitsText(us) + "\""
    case Brackets(space, items) => "[" + space + WriteItems(items) + "]"
    case Braces(space, fields) => "{" + space + WriteFields(fields) + "}"
  }

  function WriteItem(item: Item): string
    decreases item, 1
  {
    item.before + Write(item.tree) + item.after
  }

  function WriteItems(items: seq<Item>): string
    decreases items, 2
  {
    if items == [] then ""
    else WriteItem(items[0]) + (if |items| == 1 then "" else "," + WriteItems(items[1..]))
  }

  function WriteField(field: Field): string
    decreases field, 1
  {
    field.before + [field.first] + UnitsText(field.name) + "\"" + field.gap + ":" + WriteItem(field.value)
  }

  function WriteFields(fields: seq<Field>): string
    decreases fields, 2
  {
    if fields == [] then ""
    else WriteField(fields[0]) + (if |fields| == 1 then "" else "," + WriteFields(fields[1..]))
  }

  function WordValue(w: string): Value {
    if w == "true" then Boolean(true) else if w == "false" then Boolean(false) else Null
  }

  ghost function NameOf(field: Field): string {
    if LegalUnits(field.name) then CString(UnitsBytes(field.name)) else ""
  }

  /** Nesting and counts within the limits, blanks where blanks are, and different names in
      each object; in particular a `}` where the first name starts closes the object. */
  ghost predicate Legal(tree: Tree, depth: nat)
    decreases tree
  {
    && depth <= MAX_NESTING
    && match tree
       case Word(w) => w == "true" || w == "false" || w == "null"
       case Figure(n) => LegalNumeral(n)
       case Quote(us) => LegalUnits(us)
       case Brackets(space, items) =>
         && AllSpace(space) && |items| <= ARRAY_MAX_CAPACITY
         && forall i :: 0 <= i < |items| ==>
              AllSpace(items[i].before) && AllSpace(items[i].after) && Legal(items[i].tree, depth + 1)
       case Braces(space, fields) =>
         && AllSpace(space) && |fields| <= OBJECT_MAX_CAPACITY && (fields != [] ==> fields[0].first != '}')
         && (forall i :: 0 <= i < |fields| ==> LegalName(fields[i]) && Legal(fields[i].value.tree, depth + 1))
         && forall i, j :: 0 <= i < j < |fields| ==> NameOf(fields[i]) != NameOf(fields[j])
  }

  predicate LegalName(field: Field) {
    && AllSpace(field.before) && !IsSpace(field.first) && LegalUnits(field.name) && AllSpace(field.gap)
    && AllSpace(field.value.before) && AllSpace(field.value.after)
  }

  ghost predicate LegalItems(items: seq<Item>, depth: nat) {
    forall i :: 0 <= i < |items| ==>
      AllSpace(items[i].before) && AllSpace(items[i].after) && Legal(items[i].tree, depth)
  }

  ghost predicate LegalFields(fields: seq<Field>, depth: nat) {
    forall i :: 0 <= i < |fields| ==> LegalName(fields[i]) && Legal(fields[i].value.tree, depth)
  }

  /** What a tree stands for. */
  ghost function Worth(tree: Tree): Value
    decreases tree, 0
  {
    match tree
    case Word(w) => WordValue(w)
    case Figure(n) => Number(NumeralValue(n))
    case Quote(us) => String(if LegalUnits(us) then CString(UnitsBytes(us)) else "")
    case Brackets(_, items) => Array(ItemsWorth(items))
    case Braces(_, fields) => Object(FieldsWorth(fields), |fields|)
  }

  ghost function ItemsWorth(items: seq<Item>): (r: seq<Value>)
    ensures |r| == |items|
    decreases items, 1
  {
    if items == [] then [] else [Worth(items[0].tree)] + ItemsWorth(items[1..])
  }

  ghost function FieldsWorth(fields: seq<Field>): (r: seq<Member>)
    ensures |r| == |fields|
    ensures forall i :: 0 <= i < |r| ==> r[i].name == NameOf(fields[i])
    decreases fields, 1
  {
    if fields == [] then []
    else [Member(NameOf(fields[0]), Worth(fields[0].value.tree))] + FieldsWorth(fields[1..])
  }

  // ----- every legal tree is read

  /** How the writing of a value starts. */
  lemma WriteStart(tree: Tree, depth: nat)
    requires Legal(tree, depth)
    ensures var t := Write(tree);
      && t != "" && !IsSpace(t[0]) && t[0] != ']' && t[0] != '}' && t[0] != ','
      && (tree.Word? ==> t[0] in "ftn") && (tree.Figure? ==> t[0] in "-0123456789") && (tree.Quote? ==> t[0] == '\"')
      && (tree.Brackets? ==> t[0] == '[') && (tree.Braces? ==> t[0] == '{')
  {
    hide UnitsText, WriteItems, WriteFields;
    if tree.Figure? {
      NumeralStart(tree.numeral);
    }
  }

  lemma NumeralStart(n: Numeral)
    requires LegalNumeral(n)
    ensures NumeralText(n) != "" && NumeralText(n)[0] in "-0123456789"
  {
    if !n.negative {
      DigitIsNoSign(n.whole[0]);
      assert NumeralText(n)[0] == n.whole[0];
    }
  }

  lemma FigureRead(n: Numeral, rest: string)
    requires LegalNumeral(n) && EndsNumber(rest)
    ensures ParseNumber(NumeralText(n) + rest) == Ok(Number(NumeralValue(n)), rest)
  {
    hide NumberLength, NumberOf, IsDecimal, EndsNumber, NumeralText, NumeralValue;
    NumeralRead(n, rest);
    var t := NumeralText(n);
    assert (t + rest)[..|t|] == t && (t + rest)[|t|..] == rest;
  }

  lemma WordRead(w: string, rest: string)
    requires w == "true" || w == "false" || w == "null"
    ensures ParseLiteral(w + rest) == Ok(WordValue(w), rest)
  {
    assert (w + rest)[|w|..] == rest && w <= w + rest && (w + rest)[0] == w[0];
  }

  lemma QuoteRead(us: seq<Unit>, rest: string)
    requires LegalUnits(us) && rest != ""
    ensures ParseQuoted("\"" + UnitsText(us) + "\"" + rest) == Ok(String(CString(UnitsBytes(us))), rest)
  {
    hide QuotedString, UnitsText, UnitsBytes;
    QuotedRead('\"', us, rest);
    assert "\"" == ['\"'];
  }

  /** A legal tree is read from its writing, whatever follows that continues no number. */
  lemma {:induction false} TreeRead(tree: Tree, depth: nat, rest: string)
    requires Legal(tree, depth) && EndsNumber(rest) && rest != ""
    ensures ParseValue(Write(tree) + rest, depth) == Ok(Worth(tree), rest)
    decreases tree, 3
  {
    hide ParseValue, ParseArray, ParseObject, ParseQuoted, ParseLiteral, ParseNumber, UnitsText, UnitsBytes,
      WriteItems, WriteFields, NumeralText, NumeralValue, EndsNumber, LegalNumeral;
    var t := Write(tree) + rest;
    WriteStart(tree, depth);
    assert t[0] == Write(tree)[0];
    JsonRoundTrip.ParseDispatch(t, depth);
    match tree
    case Word(w) => WordRead(w, rest);
    case Figure(n) => FigureRead(n, rest);
    case Quote(us) => QuoteRead(us, rest);
    case Brackets(space, items) => BracketsRead(space, items, depth, rest);
    case Braces(space, fields) => BracesRead(space, fields, depth, rest);
  }

  lemma BlankKept(w: string, x: string, nesting: nat)
    requires AllSpace(w)
    ensures SkipSpaces(w + x) == SkipSpaces(x) && ParseValue(w + x, nesting) == ParseValue(x, nesting)
  {
    hide ParseValue, SkipSpaces;
    SkipBlank(w, x);
    JsonRoundTrip.ParseAfterBlank(w, x, nesting);
  }

  lemma NoBlank(x: string)
    requires x != "" && !IsSpace(x[0])
    ensures SkipSpaces(x) == x
  {
  }

  /** What follows the first item. */
  function AfterFirst(items: seq<Item>, rest: string): string
    requires items != []
  {
    More(|items| == 1, WriteItems(items[1..])) + "]" + rest
  }

  /** What stands between the first element and the closing bracket. */
  function More(last: bool, text: string): string {
    if last then "" else "," + text
  }

  lemma MoreText(last: bool, text: string, close: string, rest: string)
    requires close != ""
    ensures var x := More(last, text) + close + rest;
      x != "" && (if last then x == close + rest else x == "," + (text + close + rest) && x[1..] == text + close + rest)
  {
    if last {
      assert "" + close + rest == close + rest;
    } else {
      assert "," + text + close + rest == "," + (text + close + rest);
    }
  }

  lemma ItemParts(a: string, w: string, b: string, more: string, close: string, rest: string)
    ensures a + w + b + more + close + rest == a + (w + (b + (more + close + rest)))
  {
  }

  lemma ItemsParts(items: seq<Item>, rest: string)
    requires items != []
    ensures var x := AfterFirst(items, rest); var i := items[0];
      && WriteItems(items) + "]" + rest == i.before + (Write(i.tree) + (i.after + x))
      && x != "" && (|items| == 1 ==> x == "]" + rest)
      && (|items| > 1 ==> x == "," + (WriteItems(items[1..]) + "]" + rest))
      && (|items| > 1 ==> x[1..] == WriteItems(items[1..]) + "]" + rest)
  {
    hide Write, More;
    var i := items[0];
    ItemsStep(items);
    hide WriteItems;
    MoreText(|items| == 1, WriteItems(items[1..]), "]", rest);
    ItemParts(i.before, Write(i.tree), i.after, More(|items| == 1, WriteItems(items[1..])), "]", rest);
  }

  lemma ItemsStep(items: seq<Item>)
    requires items != []
    ensures WriteItems(items)
      == items[0].before + Write(items[0].tree) + items[0].after + More(|items| == 1, WriteItems(items[1..]))
  {
    hide Write;
  }

  lemma EndsAfterBlank(w: string, x: string)
    requires AllSpace(w) && x != "" && (x[0] == ',' || x[0] == ']' || x[0] == '}')
    ensures EndsNumber(w + x) && w + x != "" && SkipSpaces(w + x) == x
  {
    SkipBlank(w, x);
  }

  /** One item, given that its value is read. */
  lemma ItemRead(items: seq<Item>, depth: nat, done: seq<Value>, capacity: nat, rest: string)
    requires items != [] && LegalItems(items, depth) && |done| + |items| <= ARRAY_MAX_CAPACITY
    requires OnLadder(capacity) && |done| <= capacity <= ARRAY_MAX_CAPACITY
    requires var i, x := items[0], AfterFirst(items, rest);
      ParseValue(Write(i.tree) + (i.after + x), depth) == Ok(Worth(i.tree), i.after + x)
    ensures var room, now := Room(|done|, capacity, ARRAY_MAX_CAPACITY), done + [Worth(items[0].tree)];
      && room.Some? && OnLadder(room.value) && |now| <= room.value <= ARRAY_MAX_CAPACITY
      && ParseItems(SkipSpaces(WriteItems(items) + "]" + rest), depth, done, capacity)
         == (if |items| == 1 then FinishArray("]" + rest, now)
             else ParseItems(SkipSpaces(WriteItems(items[1..]) + "]" + rest), depth, now, room.value))
  {
    hide ParseValue, ParseItems, Write, WriteItems, Worth, SkipSpaces, OnLadder, Room, Legal, FinishArray, AfterFirst,
      EndsNumber;
    var i, x := items[0], AfterFirst(items, rest);
    ItemsParts(items, rest);
    assert Legal(i.tree, depth);
    WriteStart(i.tree, depth);
    var t := Write(i.tree) + (i.after + x);
    BlankKept(i.before, t, depth);
    NoBlank(t);
    EndsAfterBlank(i.after, x);
    ItemsTurn(t, depth, done, capacity);
    RoomOnLadder(|done|, capacity, ARRAY_MAX_CAPACITY);
  }

  lemma AfterItemEnds(items: seq<Item>, depth: nat, rest: string)
    requires items != [] && LegalItems(items, depth)
    ensures var t := items[0].after + AfterFirst(items, rest); EndsNumber(t) && t != ""
  {
    hide EndsNumber, Legal, WriteItems;
    MoreText(|items| == 1, WriteItems(items[1..]), "]", rest);
    EndsAfterBlank(items[0].after, AfterFirst(items, rest));
  }

  lemma {:induction false} ItemsRead(items: seq<Item>, depth: nat, done: seq<Value>, capacity: nat, rest: string)
    requires items != [] && LegalItems(items, depth) && |done| + |items| <= ARRAY_MAX_CAPACITY
    requires OnLadder(capacity) && |done| <= capacity <= ARRAY_MAX_CAPACITY
    ensures ParseItems(SkipSpaces(WriteItems(items) + "]" + rest), depth, done, capacity)
      == Ok(Array(done + ItemsWorth(items)), rest)
    decreases items, 2
  {
    hide ParseValue, ParseItems, Write, WriteItems, Worth, SkipSpaces, EndsNumber, OnLadder, Room, Legal, FinishArray,
      AfterFirst;
    var i := items[0];
    assert Legal(i.tree, depth);
    AfterItemEnds(items, depth, rest);
    TreeRead(i.tree, depth, i.after + AfterFirst(items, rest));
    ItemRead(items, depth, done, capacity, rest);
    var now := done + [Worth(i.tree)];
    ItemsWorthStep(done, items);
    hide ItemsWorth;
    if |items| == 1 {
      JsonRoundTrip.FinishedArray(now, rest);
    } else {
      ItemsRead(items[1..], depth, now, Room(|done|, capacity, ARRAY_MAX_CAPACITY).value, rest);
    }
  }

  lemma ItemsWorthStep(done: seq<Value>, items: seq<Item>)
    requires items != []
    ensures var now := done + [Worth(items[0].tree)];
      && done + ItemsWorth(items) == now + ItemsWorth(items[1..])
      && (|items| == 1 ==> done + ItemsWorth(items) == now)
  {
    FirstItemWorth(items);
    hide Worth, ItemsWorth;
    OneMore(done, Worth(items[0].tree), ItemsWorth(items[1..]));
  }

  lemma FirstItemWorth(items: seq<Item>)
    requires items != []
    ensures ItemsWorth(items) == [Worth(items[0].tree)] + ItemsWorth(items[1..])
  {
    hide Worth;
  }

  lemma {:induction false} BracketsRead(space: string, items: seq<Item>, depth: nat, rest: string)
    requires Legal(Brackets(space, items), depth)
    ensures ParseArray(Write(Brackets(space, items)) + rest, depth + 1) == Ok(Worth(Brackets(space, items)), rest)
    decreases items, 3
  {
    hide ParseItems, WriteItems, SkipSpaces, Worth, ParseArray;
    var s := Write(Brackets(space, items)) + rest;
    var inner := WriteItems(items) + "]" + rest;
    assert s[1..] == space + inner;
    SkipBlank(space, inner);
    JsonRoundTrip.ArrayStart(s, depth + 1);
    BracketsWorth(space, items);
    if items == [] {
      NothingWritten();
      NoBlank("]" + rest);
      assert inner == "]" + rest && inner[1..] == rest;
    } else {
      ItemsStart(items, depth + 1, rest);
      ItemsRead(items, depth + 1, [], 0, rest);
      assert [] + ItemsWorth(items) == ItemsWorth(items);
    }
  }

  lemma NothingWritten()
    ensures WriteItems([]) == "" && WriteFields([]) == ""
  {
  }

  lemma BracketsWorth(space: string, items: seq<Item>)
    ensures Worth(Brackets(space, items)) == Array(ItemsWorth(items))
    ensures items == [] ==> ItemsWorth(items) == []
  {
    hide FieldsWorth, ItemsWorth, NameOf, UnitsBytes, NumeralValue;
  }

  /** The text of items does not start with a closing bracket. */
  lemma ItemsStart(items: seq<Item>, depth: nat, rest: string)
    requires items != [] && LegalItems(items, depth)
    ensures var t := SkipSpaces(WriteItems(items) + "]" + rest); t != "" && t[0] != ']'
  {
    hide WriteItems, Write, SkipSpaces, Legal, AfterFirst;
    var i, x := items[0], AfterFirst(items, rest);
    ItemsParts(items, rest);
    assert Legal(i.tree, depth);
    WriteStart(i.tree, depth);
    var t := Write(i.tree) + (i.after + x);
    SkipBlank(i.before, t);
    NoBlank(t);
  }

  // ----- fields

  function AfterField(fields: seq<Field>, rest: string): string
    requires fields != []
  {
    More(|fields| == 1, WriteFields(fields[1..])) + "}" + rest
  }

  /** What follows the closing quote of a name. */
  function AfterName(f: Field, x: string): string {
    f.gap + (":" + (f.value.before + (Write(f.value.tree) + (f.value.after + x))))
  }

  lemma FieldParts(a: string, b: string, c: string, d: string, e: string, f: string, g: string, more: string,
        rest: string)
    ensures a + b + c + "\"" + d + ":" + (e + f + g) + more + "}" + rest
         == a + (b + c + "\"" + (d + (":" + (e + (f + (g + (more + "}" + rest)))))))
  {
    ItemParts(e, f, g, more, "}", rest);
    NameParts(a, b, c, d, e + f + g, more + "}" + rest);
    assert e + f + g + (more + "}" + rest) == e + (f + (g + (more + "}" + rest)));
  }

  lemma NameParts(a: string, b: string, c: string, d: string, v: string, x: string)
    ensures a + b + c + "\"" + d + ":" + v + x == a + (b + c + "\"" + (d + (":" + (v + x))))
  {
  }

  lemma FieldsParts(fields: seq<Field>, rest: string)
    requires fields != []
    ensures var x := AfterField(fields, rest); var f := fields[0];
      && WriteFields(fields) + "}" + rest == f.before + ([f.first] + UnitsText(f.name) + "\"" + AfterName(f, x))
      && x != "" && (|fields| == 1 ==> x == "}" + rest)
      && (|fields| > 1 ==> x == "," + (WriteFields(fields[1..]) + "}" + rest))
      && (|fields| > 1 ==> x[1..] == WriteFields(fields[1..]) + "}" + rest)
  {
    hide Write, UnitsText, More;
    var f := fields[0];
    FieldsStep(fields);
    hide WriteFields;
    var more := More(|fields| == 1, WriteFields(fields[1..]));
    MoreText(|fields| == 1, WriteFields(fields[1..]), "}", rest);
    FieldParts(f.before, [f.first], UnitsText(f.name), f.gap, f.value.before, Write(f.value.tree), f.value.after, more,
      rest);
  }

  lemma FieldsStep(fields: seq<Field>)
    requires fields != []
    ensures var f := fields[0];
      WriteFields(fields) == f.before + [f.first] + UnitsText(f.name) + "\"" + f.gap + ":"
        + (f.value.before + Write(f.value.tree) + f.value.after) + More(|fields| == 1, WriteFields(fields[1..]))
  {
    FieldText(fields[0]);
    FirstField(fields);
    hide Write, UnitsText, WriteFields, WriteField, More;
  }

  lemma FirstField(fields: seq<Field>)
    requires fields != []
    ensures WriteFields(fields) == WriteField(fields[0]) + More(|fields| == 1, WriteFields(fields[1..]))
  {
    hide WriteField;
  }

  lemma FieldText(f: Field)
    ensures WriteField(f) == f.before + [f.first] + UnitsText(f.name) + "\"" + f.gap + ":"
        + (f.value.before + Write(f.value.tree) + f.value.after)
  {
    hide Write, UnitsText;
  }

  lemma ColonFound(f: Field, x: string, depth: nat)
    requires LegalName(f) && Legal(f.value.tree, depth)
    ensures var t := SkipSpaces(AfterName(f, x));
      && At(t, 0) == ':' && AfterName(f, x) != ""
      && ParseValue(t[1..], depth) == ParseValue(Write(f.value.tree) + (f.value.after + x), depth)
  {
    hide Write, ParseValue, SkipSpaces, LegalUnits, Legal;
    var y := f.value.before + (Write(f.value.tree) + (f.value.after + x));
    SkipBlank(f.gap, ":" + y);
    NoBlank(":" + y);
    assert (":" + y)[1..] == y;
    BlankKept(f.value.before, Write(f.value.tree) + (f.value.after + x), depth);
  }

  ghost predicate NewNames(done: seq<Member>, fields: seq<Field>) {
    && (forall i, j :: 0 <= i < |done| && 0 <= j < |fields| ==> done[i].name != NameOf(fields[j]))
    && forall i, j :: 0 <= i < j < |fields| ==> NameOf(fields[i]) != NameOf(fields[j])
  }

  lemma FieldAdded(done: seq<Member>, capacity: nat, fields: seq<Field>, value: Value)
    requires fields != [] && NewNames(done, fields) && |done| + |fields| <= OBJECT_MAX_CAPACITY
    requires OnLadder(capacity) && |done| <= capacity <= OBJECT_MAX_CAPACITY
    ensures var add := ObjectAdd(Object(done, capacity), NameOf(fields[0]), value);
      var now := done + [Member(NameOf(fields[0]), value)];
      && add.ok && add.target == Object(now, add.target.capacity) && NewNames(now, fields[1..])
      && OnLadder(add.target.capacity) && |now| <= add.target.capacity <= OBJECT_MAX_CAPACITY
  {
    hide OnLadder, Room, NameOf;
    RoomOnLadder(|done|, capacity, OBJECT_MAX_CAPACITY);
    assert Find(done, NameOf(fields[0])) == |done|;
  }

  /** One field, given that its value is read. */
  lemma FieldRead(fields: seq<Field>, depth: nat, done: seq<Member>, capacity: nat, rest: string)
    requires fields != [] && LegalFields(fields, depth) && NewNames(done, fields)
      && |done| + |fields| <= OBJECT_MAX_CAPACITY
    requires OnLadder(capacity) && |done| <= capacity <= OBJECT_MAX_CAPACITY
    requires var v, x := fields[0].value, AfterField(fields, rest);
      ParseValue(Write(v.tree) + (v.after + x), depth) == Ok(Worth(v.tree), v.after + x)
    ensures var o := ObjectAdd(Object(done, capacity), NameOf(fields[0]), Worth(fields[0].value.tree)).target;
      ParseMembers(SkipSpaces(WriteFields(fields) + "}" + rest), depth, Object(done, capacity))
      == if |fields| == 1 then FinishObject("}" + rest, o)
         else ParseMembers(SkipSpaces(WriteFields(fields[1..]) + "}" + rest), depth, o)
  {
    hide ParseValue, ParseMembers, Write, WriteFields, Worth, SkipSpaces, EndsNumber, OnLadder, ObjectAdd, Legal,
      FinishObject, AfterField, AfterName, QuotedString, UnitsText, UnitsBytes, NewNames, LegalUnit;
    var f, x := fields[0], AfterField(fields, rest);
    FieldsParts(fields, rest);
    assert LegalName(f) && Legal(f.value.tree, depth);
    var t := [f.first] + UnitsText(f.name) + "\"" + AfterName(f, x);
    SkipBlank(f.before, t);
    NoBlank(t);
    ColonFound(f, x, depth);
    QuotedRead(f.first, f.name, AfterName(f, x));
    EndsAfterBlank(f.value.after, x);
    MembersTurn(t, depth, Object(done, capacity));
    FieldAdded(done, capacity, fields, Worth(f.value.tree));
  }

  lemma AfterFieldEnds(fields: seq<Field>, depth: nat, rest: string)
    requires fields != [] && LegalFields(fields, depth)
    ensures var t := fields[0].value.after + AfterField(fields, rest); EndsNumber(t) && t != ""
  {
    hide EndsNumber, Legal, WriteFields, LegalUnits;
    assert LegalName(fields[0]);
    MoreText(|fields| == 1, WriteFields(fields[1..]), "}", rest);
    EndsAfterBlank(fields[0].value.after, AfterField(fields, rest));
  }

  lemma {:induction false} FieldsRead(fields: seq<Field>, depth: nat, done: seq<Member>, capacity: nat, rest: string)
    requires fields != [] && LegalFields(fields, depth) && NewNames(done, fields)
      && |done| + |fields| <= OBJECT_MAX_CAPACITY
    requires OnLadder(capacity) && |done| <= capacity <= OBJECT_MAX_CAPACITY
    ensures ParseMembers(SkipSpaces(WriteFields(fields) + "}" + rest), depth, Object(done, capacity))
         == Ok(Object(done + FieldsWorth(fields), |done| + |fields|), rest)
    decreases fields, 2
  {
    hide ParseValue, ParseMembers, Write, WriteFields, Worth, SkipSpaces, EndsNumber, OnLadder, ObjectAdd, Legal,
      FinishObject, AfterField, NewNames, LegalName, NameOf;
    var f := fields[0];
    assert Legal(f.value.tree, depth);
    AfterFieldEnds(fields, depth, rest);
    TreeRead(f.value.tree, depth, f.value.after + AfterField(fields, rest));
    FieldRead(fields, depth, done, capacity, rest);
    FieldAdded(done, capacity, fields, Worth(f.value.tree));
    var now := done + [Member(NameOf(f), Worth(f.value.tree))];
    var target := ObjectAdd(Object(done, capacity), NameOf(f), Worth(f.value.tree)).target;
    FieldsWorthStep(done, fields);
    hide FieldsWorth;
    if |fields| == 1 {
      JsonRoundTrip.FinishedObject(target, rest);
    } else {
      FieldsRead(fields[1..], depth, now, target.capacity, rest);
    }
  }

  lemma FieldsWorthStep(done: seq<Member>, fields: seq<Field>)
    requires fields != []
    ensures var now := done + [Member(NameOf(fields[0]), Worth(fields[0].value.tree))];
      && done + FieldsWorth(fields) == now + FieldsWorth(fields[1..])
      && (|fields| == 1 ==> done + FieldsWorth(fields) == now)
  {
    FirstWorth(fields);
    hide Worth, NameOf, FieldsWorth;
    OneMore(done, Member(NameOf(fields[0]), Worth(fields[0].value.tree)), FieldsWorth(fields[1..]));
  }

  lemma FirstWorth(fields: seq<Field>)
    requires fields != []
    ensures FieldsWorth(fields) == [Member(NameOf(fields[0]), Worth(fields[0].value.tree))] + FieldsWorth(fields[1..])
  {
    hide Worth, NameOf;
  }

  lemma {:induction false} BracesRead(space: string, fields: seq<Field>, depth: nat, rest: string)
    requires Legal(Braces(space, fields), depth)
    ensures ParseObject(Write(Braces(space, fields)) + rest, depth + 1) == Ok(Worth(Braces(space, fields)), rest)
    decreases fields, 3
  {
    hide ParseMembers, WriteFields, SkipSpaces, Worth, ParseObject, NameOf, LegalName;
    var s := Write(Braces(space, fields)) + rest;
    var inner := WriteFields(fields) + "}" + rest;
    assert s[1..] == space + inner;
    SkipBlank(space, inner);
    JsonRoundTrip.ObjectStart(s, depth + 1);
    BracesWorth(space, fields);
    if fields == [] {
      NothingWritten();
      NoBlank("}" + rest);
      assert inner == "}" + rest && inner[1..] == rest;
    } else {
      FieldsStart(fields, depth + 1, rest);
      FieldsRead(fields, depth + 1, [], 0, rest);
      assert [] + FieldsWorth(fields) == FieldsWorth(fields);
    }
  }

  lemma BracesWorth(space: string, fields: seq<Field>)
    ensures Worth(Braces(space, fields)) == Object(FieldsWorth(fields), |fields|)
    ensures fields == [] ==> FieldsWorth(fields) == []
  {
    hide FieldsWorth, ItemsWorth, NameOf, UnitsBytes, NumeralValue;
  }

  lemma FieldsStart(fields: seq<Field>, depth: nat, rest: string)
    requires fields != [] && LegalFields(fields, depth) && fields[0].first != '}'
    ensures var t := SkipSpaces(WriteFields(fields) + "}" + rest); t != "" && t[0] != '}'
  {
    hide WriteFields, SkipSpaces, Legal, AfterField, AfterName, UnitsText;
    var f, x := fields[0], AfterField(fields, rest);
    FieldsParts(fields, rest);
    var t := [f.first] + UnitsText(f.name) + "\"" + AfterName(f, x);
    SkipBlank(f.before, t);
    NoBlank(t);
  }

  // ----- whatever is accepted is the writing of a legal tree

  /** The blanks a text starts with. */
  function Lead(s: string): string {
    s[..|s| - |SkipSpaces(s)|]
  }

  lemma LeadApart(s: string)
    ensures AllSpace(Lead(s)) && s == Lead(s) + SkipSpaces(s)
  {
    hide SkipSpaces;
    BlanksSkipped(s);
    InTwo(s, |s| - |SkipSpaces(s)|);
  }

  lemma InTwo(s: string, k: nat)
    requires k <= |s|
    ensures s == s[..k] + s[k..]
  {
  }

  lemma {:induction false} BlanksSkipped(s: string)
    ensures var k := |s| - |SkipSpaces(s)|;
      SkipSpaces(s) == s[k..] && forall i :: 0 <= i < k ==> IsSpace(s[i])
    decreases |s|
  {
    if s != "" && IsSpace(s[0]) {
      BlanksSkipped(s[1..]);
      var k := |s| - |SkipSpaces(s)|;
      assert s[1..][k - 1..] == s[k..];
      forall i | 0 <= i < k ensures IsSpace(s[i]) {
        assert i > 0 ==> s[1..][i - 1] == s[i];
      }
    }
  }

  lemma FigureFound(t: string) returns (n: Numeral)
    requires ParseNumber(t).Ok? && t != "" && (t[0] == '-' || '0' <= t[0] <= '9') && At(ParseNumber(t).rest, 0) != '-'
    ensures LegalNumeral(n) && t == NumeralText(n) + ParseNumber(t).rest
      && ParseNumber(t).value == Number(NumeralValue(n))
  {
    hide NumeralText, NumeralValue, IsDecimal, LegalNumeral, NumberOf;
    DigitsAreRead(t);
    hide NumberLength;
    n := NumeralFound(t);
    assert t == t[..NumberLength(t)] + t[NumberLength(t)..];
  }

  lemma DigitsAreRead(t: string)
    requires t != "" && (t[0] == '-' || '0' <= t[0] <= '9')
    ensures NumberLength(t) == 0 ==> t[0] == '-' && t[0..] == t
  {
    if t[0] != '-' {
      assert t[0..] == t;
      assert WholeLength(t) > 0;
    }
  }

  lemma WordFound(t: string) returns (w: string)
    requires ParseLiteral(t).Ok?
    ensures (w == "true" || w == "false" || w == "null")
    ensures t == w + ParseLiteral(t).rest && ParseLiteral(t).value == WordValue(w)
  {
    w := if "true" <= t then "true" else if "false" <= t then "false" else "null";
    assert t == t[..|w|] + t[|w|..];
  }

  lemma QuoteFound(t: string) returns (us: seq<Unit>)
    requires ParseQuoted(t).Ok? && t != "" && t[0] == '\"'
    ensures LegalUnits(us) && t == "\"" + UnitsText(us) + "\"" + ParseQuoted(t).rest
    ensures ParseQuoted(t).value == String(CString(UnitsBytes(us)))
  {
    hide UnitsText, UnitsBytes, QuotedString;
    us := QuotedFound(t);
    assert [t[0]] == "\"";
  }

  lemma WriteQuote(us: seq<Unit>, depth: nat)
    requires LegalUnits(us) && depth <= MAX_NESTING
    ensures Legal(Quote(us), depth) && Write(Quote(us)) == "\"" + UnitsText(us) + "\""
    ensures Worth(Quote(us)) == String(CString(UnitsBytes(us)))
  {
  }

  lemma Dispatched(s: string, depth: nat)
    requires ParseValue(s, depth).Ok?
    ensures var t := SkipSpaces(s);
      && depth <= MAX_NESTING && t != "" && !IsSpace(t[0]) && |t| <= |s| && ParseValue(s, depth) == ParseValue(t, depth)
      && (t[0] == '{' || t[0] == '[' || t[0] == '\"' || t[0] in "ftn" || t[0] in "-0123456789")
  {
    hide ParseArray, ParseObject, ParseQuoted, ParseLiteral, ParseNumber;
    NoBlank(SkipSpaces(s));
  }

  /** Whatever is accepted is the writing of a legal tree; only a minus sign without digits,
      which is taken for 0 and left standing, is not. */
  lemma {:induction false} TreeFound(s: string, depth: nat) returns (tree: Tree)
    requires ParseValue(s, depth).Ok? && At(ParseValue(s, depth).rest, 0) != '-'
    ensures var p := ParseValue(s, depth);
      Legal(tree, depth) && SkipSpaces(s) == Write(tree) + p.rest && Worth(tree) == p.value
    decreases |s|, 3
  {
    hide ParseValue, ParseArray, ParseObject, ParseQuoted, ParseLiteral, ParseNumber, SkipSpaces, UnitsText,
      UnitsBytes, NumeralText, NumeralValue, LegalNumeral, LegalUnit;
    Dispatched(s, depth);
    var t := SkipSpaces(s);
    JsonRoundTrip.ParseDispatch(t, depth);
    if t[0] == '{' {
      tree := BracesFound(t, depth);
    } else if t[0] == '[' {
      tree := BracketsFound(t, depth);
    } else if t[0] == '\"' {
      var us := QuoteFound(t);
      WriteQuote(us, depth);
      tree := Quote(us);
    } else if t[0] in "ftn" {
      var w := WordFound(t);
      tree := Word(w);
    } else {
      var n := FigureFound(t);
      tree := Figure(n);
    }
  }

  lemma {:induction false} BracketsFound(t: string, depth: nat) returns (tree: Tree)
    requires t != "" && t[0] == '[' && depth <= MAX_NESTING && ParseArray(t, depth + 1).Ok?
    ensures var p := ParseArray(t, depth + 1);
      tree.Brackets? && Legal(tree, depth) && t == Write(tree) + p.rest && Worth(tree) == p.value
    decreases |t|, 2
  {
    hide ParseArray, ParseItems, SkipSpaces, WriteItems, ItemsWorth;
    JsonRoundTrip.ArrayStart(t, depth + 1);
    LeadApart(t[1..]);
    var x := SkipSpaces(t[1..]);
    if At(x, 0) == ']' {
      tree := Brackets(Lead(t[1..]), []);
      NothingWritten();
      BracketsWorth(Lead(t[1..]), []);
      BracketsText(t, Lead(t[1..]), "", x[1..]);
      OnlyBracket(x);
    } else {
      var items := ItemsFound(x, depth + 1, [], 0);
      tree := Brackets(Lead(t[1..]), items);
      BracketsWorth(Lead(t[1..]), items);
      BracketsText(t, Lead(t[1..]), WriteItems(items), ParseArray(t, depth + 1).rest);
      assert [] + ItemsWorth(items) == ItemsWorth(items);
    }
  }

  lemma OnlyBracket(x: string)
    ensures At(x, 0) == ']' ==> "" + "]" + x[1..] == x
  {
  }

  lemma BracketsText(t: string, space: string, inner: string, rest: string)
    requires t != "" && t[0] == '['
    ensures t[1..] == space + (inner + "]" + rest) ==> t == "[" + space + inner + "]" + rest
  {
    if t[1..] == space + (inner + "]" + rest) {
      assert t == "[" + t[1..];
      assert "[" + (space + (inner + "]" + rest)) == "[" + space + inner + "]" + rest;
    }
  }

  /** One turn of the loop: an item, and what follows it. */
  lemma {:induction false} ItemFound(s: string, depth: nat, done: seq<Value>, capacity: nat)
    returns (item: Item, t: string)
    requires ParseItems(s, depth, done, capacity).Ok?
    requires OnLadder(capacity) && |done| <= capacity <= ARRAY_MAX_CAPACITY
    ensures AllSpace(item.before) && AllSpace(item.after) && Legal(item.tree, depth) && |done| < ARRAY_MAX_CAPACITY
    ensures s == item.before + Write(item.tree) + item.after + t && |t| <= |s|
    ensures var p, now := ParseItems(s, depth, done, capacity), done + [Worth(item.tree)];
      if At(t, 0) == ',' then
        var c := Room(|done|, capacity, ARRAY_MAX_CAPACITY).value;
        p == ParseItems(SkipSpaces(t[1..]), depth, now, c) && OnLadder(c) && |now| <= c <= ARRAY_MAX_CAPACITY
      else t == "]" + p.rest && p.value == Array(now)
    ensures Room(|done|, capacity, ARRAY_MAX_CAPACITY).Some?
    decreases |s|, 4
  {
    hide ParseValue, ParseItems, SkipSpaces, OnLadder, Room, Legal, Write, Worth, FinishArray, AllSpace;
    NoItemsLeft(depth, done, capacity);
    ItemsTurn(s, depth, done, capacity);
    RoomOnLadder(|done|, capacity, ARRAY_MAX_CAPACITY);
    var p := ParseValue(s, depth);
    t := SkipSpaces(p.rest);
    LeadApart(s);
    LeadApart(p.rest);
    BlankOrNot(p.rest);
    NoBlankTwice(p.rest);
    if At(t, 0) != ',' {
      FinishedText(t, done + [p.value]);
    }
    var tree := TreeFound(s, depth);
    item := Item(Lead(s), tree, Lead(p.rest));
    ItemChain(s, item, p.rest, t);
  }

  lemma NoBlankTwice(s: string)
    ensures SkipSpaces(SkipSpaces(s)) == SkipSpaces(s)
  {
  }

  lemma ItemChain(s: string, item: Item, r: string, t: string)
    requires s == item.before + (Write(item.tree) + r) && r == item.after + t
    ensures s == item.before + Write(item.tree) + item.after + t
  {
    hide Write;
  }

  lemma {:induction false} ItemsFound(s: string, depth: nat, done: seq<Value>, capacity: nat) returns (items: seq<Item>)
    requires ParseItems(s, depth, done, capacity).Ok?
    requires OnLadder(capacity) && |done| <= capacity <= ARRAY_MAX_CAPACITY
    ensures var p := ParseItems(s, depth, done, capacity);
      && items != [] && LegalItems(items, depth) && |done| + |items| <= ARRAY_MAX_CAPACITY
      && s == WriteItems(items) + "]" + p.rest && p.value == Array(done + ItemsWorth(items))
    decreases |s|, 5
  {
    hide ParseItems, SkipSpaces, OnLadder, Room, Legal, Write, WriteItems, Worth, ItemsWorth, LegalItems, AllSpace;
    var item, t := ItemFound(s, depth, done, capacity);
    var rest := ParseItems(s, depth, done, capacity).rest;
    var text := item.before + Write(item.tree) + item.after;
    if At(t, 0) == ',' {
      LeadApart(t[1..]);
      var now := done + [Worth(item.tree)];
      var more := ItemsFound(SkipSpaces(t[1..]), depth, now, Room(|done|, capacity, ARRAY_MAX_CAPACITY).value);
      var next := more[0 := more[0].(before := Lead(t[1..]) + more[0].before)];
      Widened(more, Lead(t[1..]), depth);
      items := [item] + next;
      ItemsPut(item, next, depth);
      TextGoesOn(s, text, t, Lead(t[1..]), WriteItems(more), "]", rest);
      assert done + ([Worth(item.tree)] + ItemsWorth(next)) == now + ItemsWorth(more);
    } else {
      items := [item];
      ItemAlone(item, depth);
      assert text + ("]" + rest) == text + "]" + rest;
    }
  }

  lemma TextGoesOn(s: string, text: string, t: string, w: string, more: string, close: string, rest: string)
    requires s == text + t && t != "" && t[0] == ',' && t[1..] == w + (more + close + rest)
    ensures s == text + ("," + (w + more)) + close + rest
  {
    assert t == "," + t[1..];
    assert "," + (w + (more + close + rest)) == ("," + (w + more)) + close + rest;
  }

  lemma NoItemsLeft(depth: nat, done: seq<Value>, capacity: nat)
    ensures ParseItems("", depth, done, capacity) == Fail
  {
  }

  /** Text that goes on with a comma or a bracket after blanks does not start with a minus sign. */
  lemma BlankOrNot(x: string)
    ensures var t := SkipSpaces(x);
      At(t, 0) == ',' || At(t, 0) == ']' || At(t, 0) == '}' || At(t, 0) == ':' ==> At(x, 0) != '-'
  {
  }

  lemma FinishedText(t: string, items: seq<Value>)
    requires FinishArray(t, items).Ok? && SkipSpaces(t) == t
    ensures At(t, 0) == ']' && t == "]" + FinishArray(t, items).rest && FinishArray(t, items).value == Array(items)
  {
  }

  lemma ItemAlone(item: Item, depth: nat)
    requires AllSpace(item.before) && AllSpace(item.after) && Legal(item.tree, depth)
    ensures LegalItems([item], depth) && WriteItems([item]) == item.before + Write(item.tree) + item.after
    ensures ItemsWorth([item]) == [Worth(item.tree)]
  {
    hide Write, Legal, Worth;
    var x := item.before + Write(item.tree) + item.after;
    assert x + "" == x && [item][1..] == [];
  }

  lemma ItemsPut(item: Item, items: seq<Item>, depth: nat)
    requires AllSpace(item.before) && AllSpace(item.after) && Legal(item.tree, depth) && items != []
      && LegalItems(items, depth)
    ensures LegalItems([item] + items, depth)
    ensures WriteItems([item] + items) == item.before + Write(item.tree) + item.after + ("," + WriteItems(items))
    ensures ItemsWorth([item] + items) == [Worth(item.tree)] + ItemsWorth(items)
  {
    hide Write, Legal, Worth;
    assert ([item] + items)[1..] == items;
  }

  /** More blanks before the first item. */
  lemma Widened(items: seq<Item>, w: string, depth: nat)
    requires items != [] && LegalItems(items, depth) && AllSpace(w)
    ensures var next := items[0 := items[0].(before := w + items[0].before)];
      LegalItems(next, depth) && WriteItems(next) == w + WriteItems(items) && ItemsWorth(next) == ItemsWorth(items)
  {
    hide Write, Legal, Worth, More;
    var next := items[0 := items[0].(before := w + items[0].before)];
    assert next[1..] == items[1..];
    ItemsStep(items);
    ItemsStep(next);
    var i := items[0];
    hide WriteItems;
    WidenedText(w, i.before, Write(i.tree), i.after, More(|items| == 1, WriteItems(items[1..])));
  }

  lemma WidenedText(w: string, a: string, b: string, c: string, d: string)
    ensures w + a + b + c + d == w + (a + b + c + d)
  {
  }

  lemma {:induction false} BracesFound(t: string, depth: nat) returns (tree: Tree)
    requires t != "" && t[0] == '{' && depth <= MAX_NESTING && ParseObject(t, depth + 1).Ok?
    ensures var p := ParseObject(t, depth + 1);
      tree.Braces? && Legal(tree, depth) && t == Write(tree) + p.rest && Worth(tree) == p.value
    decreases |t|, 2
  {
    hide ParseObject, ParseMembers, SkipSpaces, WriteFields, FieldsWorth, LegalName, NameOf;
    JsonRoundTrip.ObjectStart(t, depth + 1);
    LeadApart(t[1..]);
    var x := SkipSpaces(t[1..]);
    if At(x, 0) == '}' {
      tree := Braces(Lead(t[1..]), []);
      NothingWritten();
      BracesWorth(Lead(t[1..]), []);
      BracesText(t, Lead(t[1..]), "", x[1..]);
      assert "" + "}" + x[1..] == x;
    } else {
      var fields := FieldsFound(x, depth + 1, [], 0);
      tree := Braces(Lead(t[1..]), fields);
      BracesWorth(Lead(t[1..]), fields);
      BracesText(t, Lead(t[1..]), WriteFields(fields), ParseObject(t, depth + 1).rest);
      assert [] + FieldsWorth(fields) == FieldsWorth(fields);
    }
  }

  lemma BracesText(t: string, space: string, inner: string, rest: string)
    requires t != "" && t[0] == '{'
    ensures t[1..] == space + (inner + "}" + rest) ==> t == "{" + space + inner + "}" + rest
  {
    if t[1..] == space + (inner + "}" + rest) {
      assert t == "{" + t[1..];
      assert "{" + (space + (inner + "}" + rest)) == "{" + space + inner + "}" + rest;
    }
  }

  /** One turn of the loop: a field, and what follows it. */
  lemma {:induction false} FieldFound(s: string, depth: nat, done: seq<Member>, capacity: nat)
    returns (f: Field, t: string, target: Value)
    requires ParseMembers(s, depth, Object(done, capacity)).Ok? && (s != "" ==> !IsSpace(s[0]))
    requires OnLadder(capacity) && |done| <= capacity <= OBJECT_MAX_CAPACITY
    ensures LegalName(f) && Legal(f.value.tree, depth) && f.before == "" && s != "" && f.first == s[0]
    ensures s == WriteField(f) + t && |t| <= |s| && |done| < OBJECT_MAX_CAPACITY
    ensures forall i :: 0 <= i < |done| ==> done[i].name != NameOf(f)
    ensures var p := ParseMembers(s, depth, Object(done, capacity));
      var now := done + [Member(NameOf(f), Worth(f.value.tree))];
      && target.Object? && target.members == now
      && if At(t, 0) == ',' then
           p == ParseMembers(SkipSpaces(t[1..]), depth, target)
           && OnLadder(target.capacity) && |now| <= target.capacity <= OBJECT_MAX_CAPACITY
         else t == "}" + p.rest && p.value == Object(now, |now|)
    decreases |s|, 4
  {
    hide ParseValue, ParseMembers, SkipSpaces, OnLadder, Legal, Write, WriteField, Worth, ObjectAdd, QuotedString,
      UnitsText, UnitsBytes, LegalUnit, FinishObject, Lead;
    NoMembers(depth, done, capacity);
    MembersTurn(s, depth, Object(done, capacity));
    var q := QuotedString(s);
    QuotedShrinks(s);
    var us := QuotedFound(s);
    LeadApart(q.rest);
    var c := SkipSpaces(q.rest);
    var y := c[1..];
    assert c == ":" + y;
    var p := ParseValue(y, depth);
    t := SkipSpaces(p.rest);
    LeadApart(y);
    LeadApart(p.rest);
    BlankOrNot(p.rest);
    NoBlankTwice(p.rest);
    target := ObjectAdd(Object(done, capacity), q.text, p.value).target;
    Added(done, capacity, q.text, p.value);
    if At(t, 0) != ',' {
      FinishedFields(t, target);
    }
    var tree := TreeFound(y, depth);
    f := Field("", s[0], us, Lead(q.rest), Item(Lead(y), tree, Lead(p.rest)));
    FieldChain(s, f, q.rest, y, p.rest, t);
  }

  lemma {:induction false} FieldsFound(s: string, depth: nat, done: seq<Member>, capacity: nat)
    returns (fields: seq<Field>)
    requires ParseMembers(s, depth, Object(done, capacity)).Ok? && (s != "" ==> !IsSpace(s[0]))
    requires OnLadder(capacity) && |done| <= capacity <= OBJECT_MAX_CAPACITY
    ensures var p := ParseMembers(s, depth, Object(done, capacity));
      && fields != [] && LegalFields(fields, depth) && NewNames(done, fields)
      && |done| + |fields| <= OBJECT_MAX_CAPACITY
      && s == WriteFields(fields) + "}" + p.rest && s != "" && fields[0].first == s[0]
      && p.value == Object(done + FieldsWorth(fields), |done| + |fields|)
    decreases |s|, 5
  {
    hide ParseMembers, SkipSpaces, OnLadder, Legal, WriteField, WriteFields, Worth, FieldsWorth, NewNames, LegalName,
      LegalFields, NameOf, AllSpace, Lead;
    var f, t, target := FieldFound(s, depth, done, capacity);
    var rest := ParseMembers(s, depth, Object(done, capacity)).rest;
    var now := done + [Member(NameOf(f), Worth(f.value.tree))];
    if At(t, 0) == ',' {
      LeadApart(t[1..]);
      var more := FieldsFound(SkipSpaces(t[1..]), depth, now, target.capacity);
      var next := more[0 := more[0].(before := Lead(t[1..]) + more[0].before)];
      FieldsWidened(more, Lead(t[1..]), depth, now);
      fields := [f] + next;
      FieldsPut(f, next, depth, done);
      TextGoesOn(s, WriteField(f), t, Lead(t[1..]), WriteFields(more), "}", rest);
      assert done + ([Member(NameOf(f), Worth(f.value.tree))] + FieldsWorth(next)) == now + FieldsWorth(more);
    } else {
      fields := [f];
      FieldAlone(f, depth, done);
      assert WriteField(f) + ("}" + rest) == WriteField(f) + "}" + rest;
    }
  }

  lemma NoMembers(depth: nat, done: seq<Member>, capacity: nat)
    ensures ParseMembers("", depth, Object(done, capacity)) == Fail
  {
  }

  lemma QuotedShrinks(s: string)
    ensures QuotedString(s).Quoted? ==> |QuotedString(s).rest| < |s|
  {
  }

  lemma Added(done: seq<Member>, capacity: nat, name: string, value: Value)
    requires OnLadder(capacity) && |done| <= capacity <= OBJECT_MAX_CAPACITY
    ensures var add := ObjectAdd(Object(done, capacity), name, value); var c := add.target.capacity;
      add.ok ==>
        && |done| < OBJECT_MAX_CAPACITY && add.target == Object(done + [Member(name, value)], c)
        && OnLadder(c) && |done| < c <= OBJECT_MAX_CAPACITY
        && forall i :: 0 <= i < |done| ==> done[i].name != name
  {
    hide OnLadder, Room;
    RoomOnLadder(|done|, capacity, OBJECT_MAX_CAPACITY);
  }

  lemma FinishedFields(t: string, o: Value)
    requires o.Object? && FinishObject(t, o).Ok? && SkipSpaces(t) == t
    ensures At(t, 0) == '}' && t == "}" + FinishObject(t, o).rest
      && FinishObject(t, o).value == Object(o.members, |o.members|)
  {
  }

  /** A field put together from what was read. */
  lemma FieldChain(s: string, f: Field, r0: string, y: string, r1: string, tail: string)
    requires f.before == "" && s == [f.first] + UnitsText(f.name) + "\"" + r0 && r0 == f.gap + (":" + y)
    requires y == f.value.before + (Write(f.value.tree) + r1) && r1 == f.value.after + tail
    ensures s == WriteField(f) + tail
  {
    FieldText(f);
    hide Write, WriteField, UnitsText;
    var v := f.value;
    assert v.before + (Write(v.tree) + (v.after + tail)) == v.before + Write(v.tree) + v.after + tail;
    NameParts("", [f.first], UnitsText(f.name), f.gap, v.before + Write(v.tree) + v.after, tail);
    assert "" + ([f.first] + UnitsText(f.name) + "\"" + r0) == s;
  }

  lemma FieldAlone(f: Field, depth: nat, done: seq<Member>)
    requires LegalName(f) && Legal(f.value.tree, depth) && forall i :: 0 <= i < |done| ==> done[i].name != NameOf(f)
    ensures LegalFields([f], depth) && WriteFields([f]) == WriteField(f) && NewNames(done, [f])
    ensures FieldsWorth([f]) == [Member(NameOf(f), Worth(f.value.tree))]
  {
    hide WriteField, Legal, Worth, NameOf, LegalName;
    FirstWorth([f]);
    assert WriteField(f) + "" == WriteField(f) && [f][1..] == [];
  }

  lemma FieldsPut(f: Field, fields: seq<Field>, depth: nat, done: seq<Member>)
    requires LegalName(f) && Legal(f.value.tree, depth) && fields != [] && LegalFields(fields, depth)
    requires NewNames(done + [Member(NameOf(f), Worth(f.value.tree))], fields)
    requires forall i :: 0 <= i < |done| ==> done[i].name != NameOf(f)
    ensures LegalFields([f] + fields, depth) && WriteFields([f] + fields) == WriteField(f) + ("," + WriteFields(fields))
    ensures NewNames(done, [f] + fields)
    ensures FieldsWorth([f] + fields) == [Member(NameOf(f), Worth(f.value.tree))] + FieldsWorth(fields)
  {
    hide Legal, Worth, LegalName, NameOf;
    var all, now := [f] + fields, done + [Member(NameOf(f), Worth(f.value.tree))];
    assert all[1..] == fields;
    FirstWorth(all);
    FirstField(all);
    hide WriteField, WriteFields;
    assert now[|done|].name == NameOf(f);
    assert forall i :: 0 <= i < |done| ==> now[i] == done[i];
  }

  /** More blanks before the first field. */
  lemma FieldsWidened(fields: seq<Field>, w: string, depth: nat, done: seq<Member>)
    requires fields != [] && LegalFields(fields, depth) && AllSpace(w) && NewNames(done, fields)
    ensures var next := fields[0 := fields[0].(before := w + fields[0].before)];
      && LegalFields(next, depth) && WriteFields(next) == w + WriteFields(fields)
      && FieldsWorth(next) == FieldsWorth(fields)
      && NewNames(done, next)
  {
    hide *;
    FieldsWidenedText(fields, w);
    FieldsWidenedNames(fields, w, depth, done);
  }

  lemma FieldsWidenedNames(fields: seq<Field>, w: string, depth: nat, done: seq<Member>)
    requires fields != [] && LegalFields(fields, depth) && AllSpace(w) && NewNames(done, fields)
    ensures var next := fields[0 := fields[0].(before := w + fields[0].before)];
      LegalFields(next, depth) && NewNames(done, next)
  {
    hide Write, Legal, UnitsText, UnitsBytes, LegalUnit;
    var next := fields[0 := fields[0].(before := w + fields[0].before)];
    assert forall i :: 0 <= i < |next| ==> NameOf(next[i]) == NameOf(fields[i]);
  }

  lemma FieldsWidenedText(fields: seq<Field>, w: string)
    requires fields != []
    ensures var next := fields[0 := fields[0].(before := w + fields[0].before)];
      WriteFields(next) == w + WriteFields(fields) && FieldsWorth(next) == FieldsWorth(fields)
  {
    hide Write, Worth, More, UnitsText, UnitsBytes, LegalUnit;
    var f := fields[0];
    var next := fields[0 := f.(before := w + f.before)];
    assert next[1..] == fields[1..];
    FieldsStep(fields);
    FieldsStep(next);
    FirstWorth(fields);
    FirstWorth(next);
    hide WriteFields, FieldsWorth;
    FieldWidened(w, f.before, [f.first], UnitsText(f.name), f.gap, f.value.before + Write(f.value.tree) + f.value.after,
      More(|fields| == 1, WriteFields(fields[1..])));
  }

  lemma FieldWidened(w: string, a: string, b: string, c: string, d: string, v: string, x: string)
    ensures w + a + b + c + "\"" + d + ":" + v + x == w + (a + b + c + "\"" + d + ":" + v + x)
  {
  }

  // ----- the two together

  ghost predicate IsText(s: string, w: string, tree: Tree, v: Value, rest: string) {
    && AllSpace(w) && (tree.Brackets? || tree.Braces?) && Legal(tree, 0)
    && s == w + (Write(tree) + rest) && Worth(tree) == v
  }

  /** A text is accepted with this value exactly if it is, behind blanks, the writing of a
      legal array or object of this value; what follows it is not looked at. */
  lemma AcceptedExactly(s: string, v: Value, rest: string)
    ensures ParseText(s) == Ok(v, rest) <==> exists w, tree :: IsText(s, w, tree, v, rest)
  {
    hide ParseText, Legal, Write, Worth;
    if ParseText(s) == Ok(v, rest) {
      var tree := TextFound(s);
      LeadApart(s);
      assert IsText(s, Lead(s), tree, v, rest);
    }
    if w, tree :| IsText(s, w, tree, v, rest) {
      TextRead(s, w, tree, v, rest);
    }
  }

  lemma ContainerRead(tree: Tree, rest: string)
    requires (tree.Brackets? || tree.Braces?) && Legal(tree, 0)
    ensures var t := Write(tree) + rest;
      t != "" && !IsSpace(t[0]) && (t[0] == '[' || t[0] == '{') && ParseValue(t, 0) == Ok(Worth(tree), rest)
  {
    hide *;
    var t := Write(tree) + rest;
    WriteStart(tree, 0);
    assert t[0] == Write(tree)[0];
    SquareOrCurly(t[0], tree);
    JsonRoundTrip.ParseDispatch(t, 0);
    if tree.Brackets? {
      BracketsRead(tree.space, tree.items, 0, rest);
    } else {
      BracesRead(tree.space, tree.fields, 0, rest);
    }
  }

  lemma SquareOrCurly(c: char, tree: Tree)
    requires (tree.Brackets? ==> c == '[') && (tree.Braces? ==> c == '{')
    ensures tree.Brackets? || tree.Braces? ==> !IsSpace(c)
    ensures tree.Brackets? ==> tree == Brackets(tree.space, tree.items)
    ensures tree.Braces? ==> tree == Braces(tree.space, tree.fields)
  {
  }

  lemma TextRead(s: string, w: string, tree: Tree, v: Value, rest: string)
    requires IsText(s, w, tree, v, rest)
    ensures ParseText(s) == Ok(v, rest)
  {
    hide ParseValue, Legal, Write, Worth, SkipSpaces;
    ContainerRead(tree, rest);
    var t := Write(tree) + rest;
    SkipBlank(w, t);
    NoBlank(t);
  }

  lemma TextFound(s: string) returns (tree: Tree)
    requires ParseText(s).Ok?
    ensures var p := ParseText(s);
      && (tree.Brackets? || tree.Braces?) && Legal(tree, 0) && Worth(tree) == p.value
      && SkipSpaces(s) == Write(tree) + p.rest
  {
    hide ParseValue, ParseArray, ParseObject, Legal, Write, Worth, SkipSpaces;
    var t := SkipSpaces(s);
    JsonRoundTrip.ParseDispatch(t, 0);
    if t[0] == '[' {
      tree := BracketsFound(t, 0);
    } else {
      tree := BracesFound(t, 0);
    }
  }

  // ----- a text beyond RFC 8259

  /** The name in `{xa":1}` has no opening quote, and is read as `a`. */
  lemma NameWithoutQuote()
    ensures ParseText("{xa\":1}") == Ok(Object([Member("a", Number(1.0))], 1), "")
  {
    hide ParseText, Scaled;
    var one := Item("", Figure(Numeral(false, "1", false, "", NoExponent)), "");
    var f := Field("", 'x', [Plain('a')], "", one);
    OneIsWorth();
    assert UnitsText([Plain('a')]) == "a" && UnitsBytes([Plain('a')]) == "a" by {
      assert [Plain('a')][1..] == [];
    }
    FieldAlone(f, 1, []);
    FieldText(f);
    var tree := Braces("", [f]);
    assert Legal(tree, 0);
    assert Write(tree) == "{xa\":1}";
    assert IsText("{xa\":1}", "", tree, Worth(tree), "");
    TextRead("{xa\":1}", "", tree, Worth(tree), "");
  }

  lemma OneIsWorth()
    ensures var n := Numeral(false, "1", false, "", NoExponent);
      LegalNumeral(n) && NumeralText(n) == "1" && NumeralValue(n) == 1.0
  {
    assert "1" + "" == "1" && "1"[..0] == "";
    assert ValueIn("1", 10) == 1;
  }
}
