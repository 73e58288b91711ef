/** The parser's three limits, as texts meet them. */
module JsonLimits {
  import opened JsonParse
  import opened JsonPrint
  import opened JsonRoundTrip
  import opened JsonValue
  import Text

  /** An array in an array, `n` deep. */
  function Nested(n: nat): Value
    requires n > 0
  {
    if n == 1 then Array([]) else Array([Nested(n - 1)])
  }

  lemma {:induction false} NestedReadable(n: nat, depth: nat)
    requires n > 0
    ensures WellNamed(Nested(n)) && (Readable(Nested(n), depth) <==> depth + n <= 20)
    decreases n
  {
    if n > 1 {
      NestedReadable(n - 1, depth + 1);
      assert [Nested(n - 1)][0] == Nested(n - 1);
    }
  }

  /** Twenty levels are accepted, and no more. */
  lemma NestingLimit(n: nat, pretty: bool)
    requires n > 0
    ensures ParseText(Print(Nested(n), 0, pretty)).Ok? <==> n <= 20
  {
    hide ParseText, Print, Readable;
    NestedReadable(n, 0);
    RoundTrip(Nested(n), pretty, "");
    assert Print(Nested(n), 0, pretty) + "" == Print(Nested(n), 0, pretty);
  }

  /** An array may have 122880 elements. */
  lemma ArrayLimit(n: nat, pretty: bool)
    ensures ParseText(Print(Array(seq(n, _ => Null)), 0, pretty)).Ok? <==> n <= 122880
  {
    hide ParseText, Print;
    var v := Array(seq(n, _ => Null));
    RoundTrip(v, pretty, "");
    assert Print(v, 0, pretty) + "" == Print(v, 0, pretty);
  }

  /** Members named by numbers. */
  function Numbered(n: nat): Value {
    Object(seq(n, i requires 0 <= i < n => Member(Text.Decimal(i), Null)), n)
  }

  lemma NumberedReadable(n: nat)
    ensures WellNamed(Numbered(n)) && (Readable(Numbered(n), 0) <==> n <= 960)
  {
    hide Text.Decimal;
    var ms := Numbered(n).members;
    forall i, j | 0 <= i < j < n ensures ms[i].name != ms[j].name {
      Text.DecimalValue(i);
      Text.DecimalValue(j);
    }
    forall i | 0 <= i < n ensures PrintableText(ms[i].name) {
      DigitsArePrintable(ms[i].name);
    }
  }

  lemma DigitsArePrintable(s: string)
    requires Text.AllDigits(s, 10)
    ensures PrintableText(s)
  {
    forall i | 0 <= i < |s| ensures s[i] >= ' ' {
      Text.DigitIsNoSign(s[i]);
    }
  }

  /** An object may have 960 members. */
  lemma ObjectLimit(n: nat, pretty: bool)
    ensures ParseText(Print(Numbered(n), 0, pretty)).Ok? <==> n <= 960
  {
    hide ParseText, Print, Readable;
    NumberedReadable(n);
    RoundTrip(Numbered(n), pretty, "");
    assert Print(Numbered(n), 0, pretty) + "" == Print(Numbered(n), 0, pretty);
  }
}
