/** The serializer: what it prints, and the two passes that size and fill a buffer. */
module JsonPrint {
  import opened JsonValue
  import opened JsonNumber

  function Indent(level: nat): (s: string)
    ensures |s| == 4 * level
    ensures forall i :: 0 <= i < |s| ==> s[i] == ' '
  {
    if level == 0 then "" else Indent(level - 1) + "    "
  }

  /** How one character appears between quotes. */
  function EscapeChar(c: char): (e: string)
    ensures if |e| == 2 then e[0] == '\\' else e == [c] && c != '\"' && c != '\\'
  {
    if c == '\"' then "\\\""
    else if c == '\\' then "\\\\"
    else if c == '\U{08}' then "\\b"
    else if c == '\U{0C}' then "\\f"
    else if c == '\n' then "\\n"
    else if c == '\r' then "\\r"
    else if c == '\t' then "\\t"
    else [c]
  }

  function Escape(s: string): string {
    if s == "" then "" else EscapeChar(s[0]) + Escape(s[1..])
  }

  function PrintString(s: string): string {
    "\"" + Escape(s) + "\""
  }

  /** The text of a value at a nesting level, in compact or pretty form. */
  function Print(v: Value, level: nat, pretty: bool): string
    decreases v, 0, 0
  {
    match v
    case Null => "null"
    case Boolean(b) => if b then "true" else "false"
    case Number(x) => PrintNumber(x)
    case String(s) => PrintString(s)
    case Array(items) =>
      "[" + Opening(|items|, pretty) + PrintItems(items, 0, level, pretty) + Closing(|items|, level, pretty) + "]"
    case Object(ms, _) =>
      "{" + Opening(|ms|, pretty) + PrintMembers(ms, 0, level, pretty) + Closing(|ms|, level, pretty) + "}"
  }

  function Opening(count: nat, pretty: bool): string {
    if count > 0 && pretty then "\n" else ""
  }

  function Closing(count: nat, level: nat, pretty: bool): string {
    if count > 0 && pretty then Indent(level) else ""
  }

  /** What separates element `i` of `count` from what follows. */
  function Separator(i: nat, count: nat, pretty: bool): string {
    (if i + 1 < count then "," else "") + (if pretty then "\n" else "")
  }

  function PrintItems(items: seq<Value>, i: nat, level: nat, pretty: bool): string
    requires i <= |items|
    decreases items, 1, |items| - i
  {
    if i == |items| then ""
    else
      (if pretty then Indent(level + 1) else "")
      + Print(items[i], level + 1, pretty)
      + Separator(i, |items|, pretty)
      + PrintItems(items, i + 1, level, pretty)
  }

  /** The text before a member's value. */
  function MemberHead(name: string, level: nat, pretty: bool): string {
    (if pretty then Indent(level + 1) else "") + PrintString(name) + ":" + (if pretty then " " else "")
  }

  /** Each member is printed as its name and the value found under that name. */
  function PrintMembers(ms: seq<Member>, i: nat, level: nat, pretty: bool): string
    requires i <= |ms|
    decreases ms, 1, |ms| - i
  {
    if i == |ms| then ""
    else
      var k := Find(ms, ms[i].name);
      assert k <= i;
      MemberHead(ms[i].name, level, pretty)
      + Print(ms[k].value, level + 1, pretty)
      + Separator(i, |ms|, pretty)
      + PrintMembers(ms, i + 1, level, pretty)
  }

  /** A buffer after `text` and a terminating NUL were written at `at`; writing nothing
      leaves it alone. */
  function Put(was: string, at: nat, text: string): (now: string)
    requires text != "" ==> at + |text| < |was|
    ensures |now| == |was|
  {
    if text == "" then was else was[..at] + text + ['\0'] + was[at + |text| + 1..]
  }

  lemma PutPut(was: string, at: nat, a: string, b: string)
    requires at + |a + b| < |was|
    ensures Put(Put(was, at, a), at + |a|, b) == Put(was, at, a + b)
  {
    if a == "" {
      assert a + b == b;
    } else if b == "" {
      assert a + b == a;
    } else {
      assert Put(was, at, a)[..at + |a|] == was[..at] + a;
      assert was[..at] + a + b == was[..at] + (a + b);
    }
  }

  lemma PutNothing(was: string, at: nat)
    ensures Put(was, at, "") == was
  {
  }

  /** A cursor over an optional buffer: without one, text is only counted. */
  ghost predicate Fits(buf: array?<char>, at: nat, length: nat) {
    buf != null ==> at + length < buf.Length
  }

  /** `append_string`. */
  method AppendString(buf: array?<char>, at: nat, s: string) returns (written: nat)
    requires s != "" && Fits(buf, at, |s|)
    modifies buf
    ensures written == |s|
    ensures buf != null ==> buf[..] == Put(old(buf[..]), at, s)
  {
    if buf == null {
      return |s|;
    }
    var i := 0;
    while i < |s|
      invariant 0 <= i <= |s|
      invariant forall k :: 0 <= k < buf.Length ==>
                  buf[k] == if at <= k < at + i then s[k - at] else old(buf[k])
    {
      buf[at + i] := s[i];
      i := i + 1;
    }
    buf[at + |s|] := '\0';
    written := |s|;
  }

  /** `append_indent`. */
  method AppendIndent(buf: array?<char>, at: nat, level: nat) returns (total: nat)
    requires Fits(buf, at, |Indent(level)|)
    modifies buf
    ensures total == |Indent(level)|
    ensures buf != null ==> buf[..] == Put(old(buf[..]), at, Indent(level))
  {
    hide Put;
    total := 0;
    if buf != null {
      PutNothing(buf[..], at);
    }
    var i := 0;
    while i < level
      invariant 0 <= i <= level
      invariant total == 4 * i
      invariant buf != null ==> buf[..] == Put(old(buf[..]), at, Indent(i))
    {
      var written := AppendString(buf, at + total, "    ");
      if buf != null {
        PutPut(old(buf[..]), at, Indent(i), "    ");
      }
      total := total + written;
      i := i + 1;
    }
  }

  /** Text written at `at` hides what was there, in particular a terminator. */
  lemma PutOver(now: string, at: nat, text: string)
    requires text != "" && at + |text| < |now|
    ensures Put(now[at := '\0'], at, text) == Put(now, at, text)
  {
  }

  /** One character stored without a terminator. */
  lemma PutChar(now: string, at: nat, c: char)
    requires at + 1 < |now|
    ensures now[at := c][at + 1 := '\0'] == Put(now[at := '\0'], at, [c])
  {
  }

  lemma EscapeStep(done: string, s: string, i: nat)
    requires i < |s|
    ensures done + Escape(s[i..]) + "\"" == done + EscapeChar(s[i]) + Escape(s[i + 1..]) + "\""
  {
    assert s[i..][0] == s[i] && s[i..][1..] == s[i + 1..];
  }

  /** `json_serialize_string`: an ordinary character is stored without a terminator. */
  method SerializeString(s: string, buf: array?<char>, at: nat) returns (total: nat)
    requires Fits(buf, at, |PrintString(s)|)
    modifies buf
    ensures total == |PrintString(s)|
    ensures buf != null ==> buf[..] == Put(old(buf[..]), at, PrintString(s))
  {
    hide Put, EscapeChar;
    total := AppendString(buf, at, "\"");
    ghost var done := "\"";
    if buf != null {
      assert buf[..][at + 1 := '\0'] == buf[..] by { PutTerminated(old(buf[..]), at, done); }
    }
    var i := 0;
    while i < |s|
      invariant 0 <= i <= |s|
      invariant done + Escape(s[i..]) + "\"" == PrintString(s)
      invariant total == |done|
      invariant buf != null ==> buf[..][at + total := '\0'] == Put(old(buf[..]), at, done)
    {
      var e := EscapeChar(s[i]);
      EscapeStep(done, s, i);
      if buf != null {
        PutPut(old(buf[..]), at, done, e);
      }
      if |e| == 1 {
        if buf != null {
          PutChar(buf[..], at + total, s[i]);
          buf[at + total] := s[i];
        }
        total := total + 1;
      } else {
        if buf != null {
          PutOver(buf[..], at + total, e);
        }
        var written := AppendString(buf, at + total, e);
        total := total + written;
        if buf != null {
          PutTerminated(old(buf[..]), at, done + e);
        }
      }
      done := done + e;
      i := i + 1;
    }
    assert done + "\"" == PrintString(s);
    if buf != null {
      PutPut(old(buf[..]), at, done, "\"");
      PutOver(buf[..], at + total, "\"");
    }
    var written := AppendString(buf, at + total, "\"");
    total := total + written;
  }

  lemma PutTerminated(was: string, at: nat, text: string)
    requires text != "" && at + |text| < |was|
    ensures Put(was, at, text)[at + |text| := '\0'] == Put(was, at, text)
  {
  }

  /** The buffer holds `was` with `done` written from `at` on, and `total` counts it. */
  ghost predicate Written(buf: array?<char>, was: string, at: nat, done: string, total: nat)
    reads buf
  {
    && total == |done|
    && (buf != null ==>
          && |was| == buf.Length
          && (done != "" ==> at + |done| < |was|)
          && buf[..] == Put(was, at, done))
  }

  /** The macro `APPEND_STRING`: append, move the cursor on and add to the total. */
  method Emit(buf: array?<char>, ghost was: string, at: nat, ghost done: string, total: nat, s: string)
    returns (total': nat)
    requires s != "" && Fits(buf, at, |done| + |s|)
    requires Written(buf, was, at, done, total)
    modifies buf
    ensures Written(buf, was, at, done + s, total')
  {
    hide Put;
    var written := AppendString(buf, at + total, s);
    if buf != null {
      PutPut(was, at, done, s);
    }
    total' := total + written;
  }

  /** The macro `APPEND_INDENT`. */
  method EmitIndent(buf: array?<char>, ghost was: string, at: nat, ghost done: string, total: nat, level: nat)
    returns (total': nat)
    requires Fits(buf, at, |done| + |Indent(level)|)
    requires Written(buf, was, at, done, total)
    modifies buf
    ensures Written(buf, was, at, done + Indent(level), total')
  {
    hide Put;
    var written := AppendIndent(buf, at + total, level);
    if buf != null {
      PutPut(was, at, done, Indent(level));
    }
    total' := total + written;
  }

  /** `json_serialize_to_buffer_r`. With a buffer it writes exactly the text of the
      value and a terminator and touches nothing else; without one it counts. */
  method SerializeValue(v: Value, buf: array?<char>, at: nat, level: nat, pretty: bool)
    returns (total: nat)
    requires Fits(buf, at, |Print(v, level, pretty)|)
    modifies buf
    ensures Written(buf, if buf == null then "" else old(buf[..]), at, Print(v, level, pretty), total)
    decreases v, 1
  {
    hide Put;
    match v {
      case Null => total := AppendString(buf, at, "null");
      case Boolean(b) =>
        if b {
          total := AppendString(buf, at, "true");
        } else {
          total := AppendString(buf, at, "false");
        }
      case Number(x) =>
        NumberStart(x);
        total := AppendString(buf, at, PrintNumber(x));
      case String(s) => total := SerializeString(s, buf, at);
      case Array(items) => total := SerializeArray(items, buf, at, level, pretty);
      case Object(ms, c) => total := SerializeObject(ms, c, buf, at, level, pretty);
    }
  }

  method SerializeArray(items: seq<Value>, buf: array?<char>, at: nat, level: nat, pretty: bool)
    returns (total: nat)
    requires Fits(buf, at, |Print(Array(items), level, pretty)|)
    modifies buf
    ensures Written(buf, if buf == null then "" else old(buf[..]), at, Print(Array(items), level, pretty), total)
    decreases items, 2
  {
    hide Put, PrintItems;
    ghost var was := if buf == null then "" else buf[..];
    ghost var opening, closing := Opening(|items|, pretty), Closing(|items|, level, pretty);
    ghost var all := Print(Array(items), level, pretty);
    total := AppendString(buf, at, "[");
    ghost var done := "[" + opening;
    if |items| > 0 && pretty {
      total := Emit(buf, was, at, "[", total, "\n");
    } else {
      assert done == "[";
    }
    var i := 0;
    while i < |items|
      invariant 0 <= i <= |items|
      invariant done + PrintItems(items, i, level, pretty) + closing + "]" == all
      invariant Written(buf, was, at, done, total)
    {
      total, done := SerializeItem(items, i, buf, was, at, done, total, level, pretty);
      i := i + 1;
    }
    assert done + closing + "]" == all by { NoItems(items, level, pretty); }
    if |items| > 0 && pretty {
      total := EmitIndent(buf, was, at, done, total, level);
    } else {
      assert done + closing == done;
    }
    total := Emit(buf, was, at, done + closing, total, "]");
  }

  lemma NoItems(items: seq<Value>, level: nat, pretty: bool)
    ensures PrintItems(items, |items|, level, pretty) == ""
  {
  }

  lemma ItemStep(done: string, items: seq<Value>, i: nat, level: nat, pretty: bool)
    requires i < |items|
    ensures done + PrintItems(items, i, level, pretty)
         == done + (if pretty then Indent(level + 1) else "") + Print(items[i], level + 1, pretty)
            + Separator(i, |items|, pretty) + PrintItems(items, i + 1, level, pretty)
  {
    hide PrintItems, Print, Separator, Indent;
    OneItem(items, i, level, pretty);
    FivePieces(done, if pretty then Indent(level + 1) else "", Print(items[i], level + 1, pretty),
      Separator(i, |items|, pretty), PrintItems(items, i + 1, level, pretty));
  }

  lemma OneItem(items: seq<Value>, i: nat, level: nat, pretty: bool)
    requires i < |items|
    ensures PrintItems(items, i, level, pretty)
         == (if pretty then Indent(level + 1) else "") + Print(items[i], level + 1, pretty)
            + Separator(i, |items|, pretty) + PrintItems(items, i + 1, level, pretty)
  {
  }

  lemma FivePieces(done: string, w: string, p: string, q: string, r: string)
    ensures done + (w + p + q + r) == done + w + p + q + r
  {
  }

  /** One turn of the loop over the elements of an array. */
  method SerializeItem(items: seq<Value>, i: nat, buf: array?<char>, ghost was: string, at: nat,
                       ghost done: string, total: nat, level: nat, pretty: bool)
    returns (total': nat, ghost done': string)
    requires i < |items|
    requires Fits(buf, at, |done| + |PrintItems(items, i, level, pretty)|)
    requires Written(buf, was, at, done, total)
    modifies buf
    ensures Written(buf, was, at, done', total')
    ensures done + PrintItems(items, i, level, pretty) == done' + PrintItems(items, i + 1, level, pretty)
    decreases items, 0
  {
    hide Put, Print, PrintItems;
    ItemStep(done, items, i, level, pretty);
    ghost var item := Print(items[i], level + 1, pretty);
    total', done' := total, done + if pretty then Indent(level + 1) else "";
    if pretty {
      total' := EmitIndent(buf, was, at, done, total', level + 1);
    } else {
      assert done' == done;
    }
    var written := SerializeValue(items[i], buf, at + total', level + 1, pretty);
    if buf != null {
      PutPut(was, at, done', item);
    }
    total', done' := total' + written, done' + item;
    total' := EmitSeparator(buf, was, at, done', total', i, |items|, pretty);
    done' := done' + Separator(i, |items|, pretty);
  }

  /** The comma and line break after element `i` of `count`. */
  method EmitSeparator(buf: array?<char>, ghost was: string, at: nat, ghost done: string, total: nat,
                       i: nat, count: nat, pretty: bool)
    returns (total': nat)
    requires i < count
    requires Fits(buf, at, |done| + |Separator(i, count, pretty)|)
    requires Written(buf, was, at, done, total)
    modifies buf
    ensures Written(buf, was, at, done + Separator(i, count, pretty), total')
  {
    hide Put;
    total' := total;
    ghost var comma := if i + 1 < count then "," else "";
    if i < count - 1 {
      total' := Emit(buf, was, at, done, total', ",");
    } else {
      assert done + comma == done;
    }
    if pretty {
      total' := Emit(buf, was, at, done + comma, total', "\n");
      assert done + comma + "\n" == done + Separator(i, count, pretty);
    } else {
      assert done + comma == done + Separator(i, count, pretty);
    }
  }

  method SerializeObject(ms: seq<Member>, capacity: nat, buf: array?<char>, at: nat, level: nat, pretty: bool)
    returns (total: nat)
    requires Fits(buf, at, |Print(Object(ms, capacity), level, pretty)|)
    modifies buf
    ensures Written(buf, if buf == null then "" else old(buf[..]), at,
                    Print(Object(ms, capacity), level, pretty), total)
    decreases ms, 2
  {
    hide Put, PrintMembers;
    ghost var was := if buf == null then "" else buf[..];
    ghost var opening, closing := Opening(|ms|, pretty), Closing(|ms|, level, pretty);
    ghost var all := Print(Object(ms, capacity), level, pretty);
    total := AppendString(buf, at, "{");
    ghost var done := "{" + opening;
    if |ms| > 0 && pretty {
      total := Emit(buf, was, at, "{", total, "\n");
    } else {
      assert done == "{";
    }
    var i := 0;
    while i < |ms|
      invariant 0 <= i <= |ms|
      invariant done + PrintMembers(ms, i, level, pretty) + closing + "}" == all
      invariant Written(buf, was, at, done, total)
    {
      total, done := SerializeMember(ms, i, buf, was, at, done, total, level, pretty);
      i := i + 1;
    }
    assert done + closing + "}" == all by { NoMembers(ms, level, pretty); }
    if |ms| > 0 && pretty {
      total := EmitIndent(buf, was, at, done, total, level);
    } else {
      assert done + closing == done;
    }
    total := Emit(buf, was, at, done + closing, total, "}");
  }

  lemma NoMembers(ms: seq<Member>, level: nat, pretty: bool)
    ensures PrintMembers(ms, |ms|, level, pretty) == ""
  {
  }

  lemma MemberStep(done: string, ms: seq<Member>, i: nat, level: nat, pretty: bool)
    requires i < |ms|
    ensures
      var k := Find(ms, ms[i].name);
      && k < |ms|
      && done + PrintMembers(ms, i, level, pretty)
         == done + MemberHead(ms[i].name, level, pretty) + Print(ms[k].value, level + 1, pretty)
            + Separator(i, |ms|, pretty) + PrintMembers(ms, i + 1, level, pretty)
  {
    hide MemberHead, Separator;
    var k := Find(ms, ms[i].name);
    assert k <= i;
    assert PrintMembers(ms, i, level, pretty)
        == MemberHead(ms[i].name, level, pretty) + Print(ms[k].value, level + 1, pretty)
           + Separator(i, |ms|, pretty) + PrintMembers(ms, i + 1, level, pretty);
  }

  /** One turn of the loop over the members of an object. */
  method SerializeMember(ms: seq<Member>, i: nat, buf: array?<char>, ghost was: string, at: nat,
                         ghost done: string, total: nat, level: nat, pretty: bool)
    returns (total': nat, ghost done': string)
    requires i < |ms|
    requires Fits(buf, at, |done| + |PrintMembers(ms, i, level, pretty)|)
    requires Written(buf, was, at, done, total)
    modifies buf
    ensures Written(buf, was, at, done', total')
    ensures done + PrintMembers(ms, i, level, pretty) == done' + PrintMembers(ms, i + 1, level, pretty)
    decreases ms, 0
  {
    hide Put, Print, PrintMembers;
    MemberStep(done, ms, i, level, pretty);
    var key := ms[i].name;
    total' := EmitMemberHead(buf, was, at, done, total, key, level, pretty);
    done' := done + MemberHead(key, level, pretty);
    var k := Find(ms, key);
    ghost var text := Print(ms[k].value, level + 1, pretty);
    var written := SerializeValue(ms[k].value, buf, at + total', level + 1, pretty);
    if buf != null {
      PutPut(was, at, done', text);
    }
    total', done' := total' + written, done' + text;
    total' := EmitSeparator(buf, was, at, done', total', i, |ms|, pretty);
    done' := done' + Separator(i, |ms|, pretty);
  }

  method EmitMemberHead(buf: array?<char>, ghost was: string, at: nat, ghost done: string, total: nat,
                        name: string, level: nat, pretty: bool)
    returns (total': nat)
    requires Fits(buf, at, |done| + |MemberHead(name, level, pretty)|)
    requires Written(buf, was, at, done, total)
    modifies buf
    ensures Written(buf, was, at, done + MemberHead(name, level, pretty), total')
  {
    hide Put, PrintString;
    total' := total;
    ghost var done' := done + if pretty then Indent(level + 1) else "";
    ghost var key := PrintString(name);
    assert done + MemberHead(name, level, pretty) == done' + key + ":" + if pretty then " " else "";
    if pretty {
      total' := EmitIndent(buf, was, at, done, total', level + 1);
    } else {
      assert done' == done;
    }
    var written := SerializeString(name, buf, at + total');
    if buf != null {
      PutPut(was, at, done', key);
    }
    total' := Emit(buf, was, at, done' + key, total' + written, ":");
    if pretty {
      total' := Emit(buf, was, at, done' + key + ":", total', " ");
    } else {
      assert done' + key + ":" + "" == done' + key + ":";
    }
  }

  /** `json_serialize_to_buffer` and its pretty form: refused exactly when the text and
      its terminator are longer than the caller said the buffer is. */
  method SerializeToBuffer(v: Value, buf: array<char>, size: nat, pretty: bool) returns (ok: bool)
    requires size <= buf.Length
    modifies buf
    ensures ok <==> |Print(v, 0, pretty)| < size
    ensures ok ==> buf[..] == Put(old(buf[..]), 0, Print(v, 0, pretty))
    ensures !ok ==> buf[..] == old(buf[..])
  {
    var needed := SerializeValue(v, null, 0, 0, pretty);
    if size < needed + 1 {
      return false;
    }
    var written := SerializeValue(v, buf, 0, 0, pretty);
    ok := true;
    assert Print(v, 0, pretty) != "" by { PrintNotEmpty(v, 0, pretty); }
  }

  lemma PrintNotEmpty(v: Value, level: nat, pretty: bool)
    ensures Print(v, level, pretty) != ""
  {
  }

  /** `json_serialize_to_string` and its pretty form: a buffer of the size found by the
      counting pass is filled completely. */
  method SerializeToString(v: Value, pretty: bool) returns (buf: array<char>)
    ensures fresh(buf)
    ensures buf[..] == Print(v, 0, pretty) + ['\0']
  {
    var length := SerializeValue(v, null, 0, 0, pretty);
    buf := new char[length + 1];
    PrintNotEmpty(v, 0, pretty);
    var ok := SerializeToBuffer(v, buf, length + 1, pretty);
  }
}
