/** The two forms of a printed value, said without the serializer: the compact form is the
    values and separators in a row, the pretty form is one line for each of them. */
module JsonLayout {
  import opened JsonNumber
  import opened JsonPrint
  import opened JsonValue

  // ----- the compact form

  /** Texts with commas between them. */
  function Listed(texts: seq<string>): string {
    if texts == [] then "" else if |texts| == 1 then texts[0] else texts[0] + "," + Listed(texts[1..])
  }

  function Scalar(v: Value): string {
    match v
    case Null => "null"
    case Boolean(true) => "true"
    case Boolean(false) => "false"
    case Number(x) => PrintNumber(x)
    case String(s) => PrintString(s)
    case _ => ""
  }

  function Row(v: Value): string
    decreases v, 1
  {
    match v
    case Array(items) => "[" + Listed(Rows(items)) + "]"
    case Object(ms, _) => "{" + Listed(MemberRows(ms)) + "}"
    case _ => Scalar(v)
  }

  function Rows(items: seq<Value>): (r: seq<string>)
    ensures |r| == |items|
    decreases items, 2
  {
    if items == [] then [] else [Row(items[0])] + Rows(items[1..])
  }

  function MemberRows(ms: seq<Member>): (r: seq<string>)
    ensures |r| == |ms|
    decreases ms, 2
  {
    if ms == [] then [] else [PrintString(ms[0].name) + ":" + Row(ms[0].value)] + MemberRows(ms[1..])
  }

  lemma {:induction false} CompactIsRow(v: Value, level: nat)
    requires WellNamed(v)
    ensures Print(v, level, false) == Row(v)
    decreases v, 2
  {
    hide PrintItems, PrintMembers, Rows, MemberRows, Listed, PrintString, PrintNumber, UniqueNames;
    match v
    case Array(items) =>
      CompactItems(items, 0, level);
      assert items[0..] == items;
      CompactFrame("[", Listed(Rows(items)), "]", |items|, level);
    case Object(ms, _) =>
      CompactMembers(ms, 0, level);
      assert ms[0..] == ms;
      CompactFrame("{", Listed(MemberRows(ms)), "}", |ms|, level);
    case _ =>
  }

  lemma CompactFrame(open: string, inner: string, close: string, count: nat, level: nat)
    ensures open + Opening(count, false) + inner + Closing(count, level, false) + close == open + inner + close
  {
    assert open + "" == open && open + inner + "" == open + inner;
  }

  lemma {:induction false} CompactItems(items: seq<Value>, i: nat, level: nat)
    requires i <= |items| && forall k :: 0 <= k < |items| ==> WellNamed(items[k])
    ensures PrintItems(items, i, level, false) == Listed(Rows(items[i..]))
    decreases items, 3, |items| - i
  {
    hide Print, Row, PrintItems, WellNamed;
    if i == |items| {
      NoItems(items, level, false);
      assert items[i..] == [];
    } else {
      CompactIsRow(items[i], level + 1);
      CompactItems(items, i + 1, level);
      OneItem(items, i, level, false);
      assert items[i..][0] == items[i] && items[i..][1..] == items[i + 1..];
      OneMoreListed(Row(items[i]), Rows(items[i + 1..]));
      CompactSeparator("", Row(items[i]), i, |items|, Listed(Rows(items[i + 1..])));
    }
  }

  lemma OneMoreListed(text: string, texts: seq<string>)
    ensures Listed([text] + texts) == text + (if texts == [] then "" else "," + Listed(texts))
  {
    assert ([text] + texts)[1..] == texts;
    assert texts == [] ==> text + "" == text;
    assert text + "," + Listed(texts) == text + ("," + Listed(texts));
  }

  lemma CompactSeparator(w: string, text: string, i: nat, count: nat, more: string)
    requires i < count && (i + 1 == count ==> more == "")
    ensures w + text + Separator(i, count, false) + more == w + text + (if i + 1 == count then "" else "," + more)
    ensures w == "" ==> w + text == text
  {
    assert Separator(i, count, false) == if i + 1 < count then "," else "";
    assert w + text + "," + more == w + text + ("," + more);
  }

  lemma {:induction false} CompactMembers(ms: seq<Member>, i: nat, level: nat)
    requires i <= |ms| && UniqueNames(ms) && forall k :: 0 <= k < |ms| ==> WellNamed(ms[k].value)
    ensures PrintMembers(ms, i, level, false) == Listed(MemberRows(ms[i..]))
    decreases ms, 3, |ms| - i
  {
    hide Print, Row, PrintMembers, WellNamed, PrintString;
    if i == |ms| {
      NoMembers(ms, level, false);
      assert ms[i..] == [];
    } else {
      FindUnique(ms, i);
      CompactIsRow(ms[i].value, level + 1);
      CompactMembers(ms, i + 1, level);
      MemberStep("", ms, i, level, false);
      assert ms[i..][0] == ms[i] && ms[i..][1..] == ms[i + 1..];
      var head := PrintString(ms[i].name) + ":";
      assert MemberHead(ms[i].name, level, false) == head by { CompactHead(ms[i].name, level); }
      OneMoreListed(head + Row(ms[i].value), MemberRows(ms[i + 1..]));
      CompactSeparator(head, Row(ms[i].value), i, |ms|, Listed(MemberRows(ms[i + 1..])));
      assert "" + PrintMembers(ms, i, level, false) == PrintMembers(ms, i, level, false) && "" + head == head;
    }
  }

  lemma CompactHead(name: string, level: nat)
    ensures MemberHead(name, level, false) == PrintString(name) + ":"
  {
    hide PrintString;
    var t := PrintString(name) + ":";
    assert "" + PrintString(name) == PrintString(name) && t + "" == t;
  }

  // ----- the pretty form

  datatype Line = Line(depth: nat, text: string)

  function Spaces(n: nat): (s: string)
    ensures |s| == n && forall i :: 0 <= i < n ==> s[i] == ' '
  {
    seq(n, _ => ' ')
  }

  /** Lines with four blanks for each level, every one ended by a line break. */
  function Page(lines: seq<Line>): string {
    if lines == [] then "" else Spaces(4 * lines[0].depth) + lines[0].text + "\n" + Page(lines[1..])
  }

  function WithComma(lines: seq<Line>): seq<Line>
    requires lines != []
  {
    var last := lines[|lines| - 1];
    lines[|lines| - 1 := Line(last.depth, last.text + ",")]
  }

  function Headed(head: string, lines: seq<Line>): seq<Line>
    requires lines != []
  {
    lines[0 := Line(lines[0].depth, head + lines[0].text)]
  }

  function Lines(v: Value, depth: nat): (r: seq<Line>)
    ensures r != [] && r[0].depth == depth
    decreases v, 1
  {
    match v
    case Array(items) =>
      if items == [] then [Line(depth, "[]")]
      else [Line(depth, "[")] + ItemLines(items, depth + 1) + [Line(depth, "]")]
    case Object(ms, _) =>
      if ms == [] then [Line(depth, "{}")]
      else [Line(depth, "{")] + MemberLines(ms, depth + 1) + [Line(depth, "}")]
    case _ => [Line(depth, Scalar(v))]
  }

  function ItemLines(items: seq<Value>, depth: nat): seq<Line>
    decreases items, 2
  {
    if items == [] then []
    else
      var first := Lines(items[0], depth);
      (if |items| == 1 then first else WithComma(first)) + ItemLines(items[1..], depth)
  }

  function MemberLines(ms: seq<Member>, depth: nat): seq<Line>
    decreases ms, 2
  {
    if ms == [] then []
    else
      var first := Headed(PrintString(ms[0].name) + ": ", Lines(ms[0].value, depth));
      (if |ms| == 1 then first else WithComma(first)) + MemberLines(ms[1..], depth)
  }

  lemma {:induction false} PageOf(a: seq<Line>, b: seq<Line>)
    ensures Page(a + b) == Page(a) + Page(b)
    decreases |a|
  {
    if a == [] {
      assert a + b == b && "" + Page(b) == Page(b);
    } else {
      assert (a + b)[1..] == a[1..] + b;
      PageOf(a[1..], b);
      var x := Spaces(4 * a[0].depth) + a[0].text + "\n";
      assert x + (Page(a[1..]) + Page(b)) == x + Page(a[1..]) + Page(b);
    }
  }

  lemma PageOfOne(line: Line)
    ensures Page([line]) == Spaces(4 * line.depth) + line.text + "\n"
  {
    assert [line][1..] == [];
    var x := Spaces(4 * line.depth) + line.text + "\n";
    assert x + "" == x;
  }

  /** A comma goes before the last line break. */
  lemma CommaOnPage(lines: seq<Line>, text: string)
    requires lines != [] && Page(lines) == text + "\n"
    ensures Page(WithComma(lines)) == text + ",\n"
  {
    hide Page, Spaces;
    var n := |lines| - 1;
    var last, front := lines[n], lines[..n];
    assert lines == front + [last];
    assert WithComma(lines) == front + [Line(last.depth, last.text + ",")];
    PageOf(front, [last]);
    PageOf(front, [Line(last.depth, last.text + ",")]);
    PageOfOne(last);
    PageOfOne(Line(last.depth, last.text + ","));
    LastBreak(Page(front), Spaces(4 * last.depth), last.text, text);
  }

  lemma LastBreak(a: string, b: string, c: string, text: string)
    requires a + (b + c + "\n") == text + "\n"
    ensures a + (b + (c + ",") + "\n") == text + ",\n"
  {
    var x := a + b + c;
    assert x + "\n" == text + "\n";
    assert x == (x + "\n")[..|x|] == (text + "\n")[..|text|] == text;
    assert a + (b + (c + ",") + "\n") == x + ",\n";
  }

  /** A head goes behind the blanks of the first line. */
  lemma HeadOnPage(head: string, lines: seq<Line>, depth: nat, text: string)
    requires lines != [] && lines[0].depth == depth && Page(lines) == Spaces(4 * depth) + text
    ensures Page(Headed(head, lines)) == Spaces(4 * depth) + (head + text)
  {
    hide Spaces;
    var w, t, more := Spaces(4 * depth), lines[0].text, Page(lines[1..]);
    assert Headed(head, lines)[1..] == lines[1..];
    assert w + t + "\n" + more == w + (t + "\n" + more);
    assert t + "\n" + more == (w + (t + "\n" + more))[|w|..] == (w + text)[|w|..] == text;
    assert w + (head + t) + "\n" + more == w + (head + (t + "\n" + more));
  }

  lemma IndentIsSpaces(level: nat)
    ensures Indent(level) == Spaces(4 * level)
  {
  }

  /** The pretty form, indented and ended by a line break, is the page of its lines. */
  lemma {:induction false} PrettyIsPage(v: Value, level: nat)
    requires WellNamed(v)
    ensures Spaces(4 * level) + (Print(v, level, true) + "\n") == Page(Lines(v, level))
    decreases v, 2
  {
    hide PrintItems, PrintMembers, ItemLines, MemberLines, PrintString, PrintNumber, UniqueNames, Page, Spaces, Indent;
    match v
    case Array(items) =>
      if items == [] {
        NoItems(items, level, true);
        assert "[" + "" + "" + "" + "]" == "[]";
        LonePage(level, "[]");
      } else {
        PrettyItems(items, 0, level);
        assert items[0..] == items;
        PrettyFrame("[", "]", |items|, level, ItemLines(items, level + 1), PrintItems(items, 0, level, true));
      }
    case Object(ms, _) =>
      if ms == [] {
        NoMembers(ms, level, true);
        assert "{" + "" + "" + "" + "}" == "{}";
        LonePage(level, "{}");
      } else {
        PrettyMembers(ms, 0, level);
        assert ms[0..] == ms;
        PrettyFrame("{", "}", |ms|, level, MemberLines(ms, level + 1), PrintMembers(ms, 0, level, true));
      }
    case _ => LonePage(level, Scalar(v));
  }

  lemma LonePage(level: nat, text: string)
    ensures Page([Line(level, text)]) == Spaces(4 * level) + (text + "\n")
  {
    hide Spaces, Page;
    PageOfOne(Line(level, text));
    assert Spaces(4 * level) + text + "\n" == Spaces(4 * level) + (text + "\n");
  }

  lemma PrettyFrame(open: string, close: string, count: nat, level: nat, lines: seq<Line>, inner: string)
    requires count > 0 && Page(lines) == inner
    ensures Page([Line(level, open)] + lines + [Line(level, close)])
         == Spaces(4 * level)
            + (open + Opening(count, true) + inner + Closing(count, level, true) + close + "\n")
  {
    hide Spaces, Page, Indent;
    PageOf([Line(level, open)] + lines, [Line(level, close)]);
    PageOf([Line(level, open)], lines);
    PageOfOne(Line(level, open));
    PageOfOne(Line(level, close));
    IndentIsSpaces(level);
    FrameParts(Spaces(4 * level), open, inner, close);
  }

  lemma FrameParts(w: string, open: string, inner: string, close: string)
    ensures w + open + "\n" + inner + (w + close + "\n") == w + (open + "\n" + inner + w + close + "\n")
  {
  }

  lemma {:induction false} PrettyItems(items: seq<Value>, i: nat, level: nat)
    requires i <= |items| && forall k :: 0 <= k < |items| ==> WellNamed(items[k])
    ensures PrintItems(items, i, level, true) == Page(ItemLines(items[i..], level + 1))
    decreases items, 3, |items| - i
  {
    hide Print, Lines, PrintItems, WellNamed, Page, Spaces, Indent;
    if i == |items| {
      NoItems(items, level, true);
      assert items[i..] == [];
      EmptyPage();
    } else {
      var text := Print(items[i], level + 1, true);
      PrettyIsPage(items[i], level + 1);
      PrettyItems(items, i + 1, level);
      OneItem(items, i, level, true);
      IndentIsSpaces(level + 1);
      assert items[i..][0] == items[i] && items[i..][1..] == items[i + 1..];
      var first := Lines(items[i], level + 1);
      OneElement(first, Spaces(4 * (level + 1)), text, i, |items|, ItemLines(items[i + 1..], level + 1));
    }
  }

  lemma EmptyPage()
    ensures Page([]) == ""
  {
  }

  /** One element, its separator and the elements after it. */
  lemma OneElement(first: seq<Line>, w: string, text: string, i: nat, count: nat, more: seq<Line>)
    requires i < count && first != [] && Page(first) == w + (text + "\n")
    ensures w + text + Separator(i, count, true) + Page(more)
         == Page((if i + 1 == count then first else WithComma(first)) + more)
  {
    hide Page, WithComma;
    assert w + (text + "\n") == w + text + "\n";
    CommaOnPage(first, w + text);
    PageOf(if i + 1 == count then first else WithComma(first), more);
    assert Separator(i, count, true) == if i + 1 < count then ",\n" else "\n" by {
      assert "," + "\n" == ",\n" && "" + "\n" == "\n";
    }
  }

  lemma {:induction false} PrettyMembers(ms: seq<Member>, i: nat, level: nat)
    requires i <= |ms| && UniqueNames(ms) && forall k :: 0 <= k < |ms| ==> WellNamed(ms[k].value)
    ensures PrintMembers(ms, i, level, true) == Page(MemberLines(ms[i..], level + 1))
    decreases ms, 3, |ms| - i
  {
    hide Print, Lines, PrintMembers, WellNamed, PrintString, Page, Spaces, Indent, Headed, WithComma;
    if i == |ms| {
      NoMembers(ms, level, true);
      assert ms[i..] == [];
      EmptyPage();
    } else {
      FindUnique(ms, i);
      var head, text := PrintString(ms[i].name) + ": ", Print(ms[i].value, level + 1, true);
      PrettyIsPage(ms[i].value, level + 1);
      PrettyMembers(ms, i + 1, level);
      MemberStep("", ms, i, level, true);
      PrettyHead(ms[i].name, level);
      assert ms[i..][0] == ms[i] && ms[i..][1..] == ms[i + 1..];
      var w, lines := Spaces(4 * (level + 1)), Lines(ms[i].value, level + 1);
      HeadOnPage(head, lines, level + 1, text + "\n");
      assert head + (text + "\n") == head + text + "\n";
      HeadedIsNotEmpty(head, lines);
      OneElement(Headed(head, lines), w, head + text, i, |ms|, MemberLines(ms[i + 1..], level + 1));
      assert w + head + text == w + (head + text);
      assert "" + PrintMembers(ms, i, level, true) == PrintMembers(ms, i, level, true) && "" + (w + head) == w + head;
    }
  }

  lemma HeadedIsNotEmpty(head: string, lines: seq<Line>)
    requires lines != []
    ensures Headed(head, lines) != []
  {
  }

  lemma PrettyHead(name: string, level: nat)
    ensures MemberHead(name, level, true) == Spaces(4 * (level + 1)) + (PrintString(name) + ": ")
  {
    hide PrintString, Indent, Spaces;
    IndentIsSpaces(level + 1);
    var w := Spaces(4 * (level + 1));
    assert w + PrintString(name) + ":" + " " == w + (PrintString(name) + ": ");
  }

  // ----- characters

  /** The seven characters that are escaped, and no other. */
  lemma EscapesPrinted(c: char)
    ensures EscapeChar(c) == [c] <==> c !in {'\"', '\\', '\U{08}', '\U{09}', '\U{0A}', '\U{0C}', '\U{0D}'}
    ensures EscapeChar('\"') == "\\\"" && EscapeChar('\\') == "\\\\" && EscapeChar('\U{08}') == "\\b"
    ensures EscapeChar('\U{09}') == "\\t" && EscapeChar('\U{0A}') == "\\n" && EscapeChar('\U{0C}') == "\\f"
    ensures EscapeChar('\U{0D}') == "\\r"
  {
  }
}
