/** Blanking out comments before parsing, and that printed values hold none. */
module JsonComments {
  import opened JsonValue
  import opened JsonNumber
  import opened JsonPrint
  import JsonParse
  import Text

  /** `strstr`: where `token` first occurs, or the length of `s`. */
  function Search(s: string, token: string): (k: nat)
    requires token != ""
    ensures k <= |s| && (k < |s| ==> k + |token| <= |s|)
  {
    if s == "" || token <= s then 0 else 1 + Search(s[1..], token)
  }

  /** The index found is the first one where the token stands. */
  lemma {:induction false} SearchFindsFirst(s: string, token: string)
    requires token != ""
    ensures
      var k := Search(s, token);
      && (k < |s| ==> token <= s[k..])
      && forall j :: 0 <= j < k ==> !(token <= s[j..])
  {
    if s != "" && !(token <= s) {
      SearchFindsFirst(s[1..], token);
      assert forall j :: 1 <= j <= |s| ==> s[j..] == s[1..][j - 1..];
    }
  }

  function Blanks(n: nat): (s: string)
    ensures |s| == n && forall i :: 0 <= i < n ==> s[i] == ' '
  {
    seq(n, _ => ' ')
  }

  /** What `remove_comments` leaves of the rest of a text, given whether it is inside a
      string and whether the last character was an escaping backslash. A comment that
      never ends loses only its opening token. */
  function Strip(s: string, inString: bool, escaped: bool, open: string, close: string): (r: string)
    requires open != "" && close != ""
    ensures |r| == |s|
  {
    if s == "" then ""
    else if s[0] == '\\' && !escaped then [s[0]] + Strip(s[1..], inString, true, open, close)
    else if s[0] == '\"' && !escaped then [s[0]] + Strip(s[1..], !inString, false, open, close)
    else if !inString && open <= s then Blanks(|open|) + StripComment(s[|open|..], inString, open, close)
    else [s[0]] + Strip(s[1..], inString, false, open, close)
  }

  /** The same after the token that opens a comment. */
  function StripComment(s: string, inString: bool, open: string, close: string): (r: string)
    requires open != "" && close != ""
    ensures |r| == |s|
  {
    var k := Search(s, close);
    if k == |s| then s else Blanks(k + |close|) + Strip(s[k + |close|..], inString, false, open, close)
  }

  // ----- in place

  method FindToken(s: string, from: nat, token: string) returns (k: nat)
    requires from <= |s| && token != ""
    ensures k == from + Search(s[from..], token)
  {
    hide Search;
    k := from;
    while k < |s| && !(token <= s[k..])
      invariant from <= k <= |s|
      invariant from + Search(s[from..], token) == k + Search(s[k..], token)
    {
      SearchStep(s, k, token);
      k := k + 1;
    }
    SearchStep(s, k, token);
  }

  lemma SearchStep(s: string, k: nat, token: string)
    requires k <= |s| && token != ""
    ensures Search(s[k..], token) == if k == |s| || token <= s[k..] then 0 else 1 + Search(s[k + 1..], token)
  {
    if k < |s| {
      assert s[k..][1..] == s[k + 1..];
    }
  }

  function Blanked(s: string, from: nat, count: nat): string
    requires from + count <= |s|
  {
    s[..from] + Blanks(count) + s[from + count..]
  }

  method Blank(a: array<char>, n: nat, from: nat, count: nat)
    requires from + count <= n <= a.Length
    modifies a
    ensures a[..n] == Blanked(old(a[..n]), from, count) && a[n..] == old(a[n..])
  {
    var i := 0;
    while i < count
      invariant 0 <= i <= count
      invariant forall k :: 0 <= k < a.Length ==> a[k] == if from <= k < from + i then ' ' else old(a[k])
    {
      a[from + i] := ' ';
      i := i + 1;
    }
  }

  /** A text whose first `i` characters are done. */
  function Progress(s: string, i: nat, inString: bool, escaped: bool, open: string, close: string): string
    requires i <= |s| && open != "" && close != ""
  {
    s[..i] + Strip(s[i..], inString, escaped, open, close)
  }

  predicate CommentStarts(s: string, i: nat, inString: bool, escaped: bool, open: string)
    requires i < |s|
  {
    !inString && open <= s[i..] && (escaped || (s[i] != '\\' && s[i] != '\"'))
  }

  lemma Keep(s: string, i: nat, inString: bool, escaped: bool, open: string, close: string)
    requires i < |s| && open != "" && close != "" && !CommentStarts(s, i, inString, escaped, open)
    ensures Progress(s, i, inString, escaped, open, close)
         == Progress(s, i + 1, if s[i] == '\"' && !escaped then !inString else inString,
                     s[i] == '\\' && !escaped, open, close)
  {
    hide Search, Blanks;
    var t := s[i..];
    assert t[1..] == s[i + 1..] && t[0] == s[i];
    var tail := Strip(t[1..], if s[i] == '\"' && !escaped then !inString else inString,
                      s[i] == '\\' && !escaped, open, close);
    assert Strip(t, inString, escaped, open, close) == [s[i]] + tail;
    assert s[..i] + ([s[i]] + tail) == s[..i + 1] + tail;
  }

  lemma Opened(s: string, i: nat, inString: bool, escaped: bool, open: string, close: string)
    requires i < |s| && open != "" && close != "" && CommentStarts(s, i, inString, escaped, open)
    ensures
      var half := Blanked(s, i, |open|);
      Progress(s, i, inString, escaped, open, close)
      == half[..i + |open|] + StripComment(half[i + |open|..], inString, open, close)
  {
    hide StripComment, Blanks;
    var half, from := Blanked(s, i, |open|), i + |open|;
    var t := s[i..];
    assert t[|open|..] == s[from..] == half[from..] && t[0] == s[i];
    assert Strip(t, inString, escaped, open, close)
      == Blanks(|open|) + StripComment(t[|open|..], inString, open, close);
    assert half[..from] == s[..i] + Blanks(|open|);
  }

  lemma Closed(s: string, from: nat, inString: bool, open: string, close: string)
    requires from <= |s| && open != "" && close != ""
    ensures
      var k := from + Search(s[from..], close);
      s[..from] + StripComment(s[from..], inString, open, close)
      == if k == |s| then s
         else Progress(Blanked(s, from, k + |close| - from), k + |close|, inString, false, open, close)
  {
    hide Search, Strip, Blanks;
    var k := from + Search(s[from..], close);
    if k < |s| {
      var next := k + |close|;
      var now := Blanked(s, from, next - from);
      assert s[from..][next - from..] == s[next..] == now[next..];
      assert now[..next] == s[..from] + Blanks(next - from);
    }
  }

  /** `remove_comments` on a C string of `n` characters. */
  method RemoveComments(a: array<char>, n: nat, open: string, close: string)
    requires n < a.Length && a[n] == '\0' && '\0' !in a[..n]
    modifies a
    ensures a[n..] == old(a[n..])
    ensures a[..n] == if open == "" || close == "" then old(a[..n])
                      else Strip(old(a[..n]), false, false, open, close)
  {
    hide Progress, Search, Blanked, StripComment, Strip, Blanks;
    if |open| == 0 || |close| == 0 {
      return;
    }
    ghost var goal := Strip(a[..n], false, false, open, close);
    var inString, escaped, i := false, false, 0;
    ProgressEnds(a[..n], false, false, open, close);
    while i < n
      invariant 0 <= i <= n && a[n..] == old(a[n..])
      invariant goal == Progress(a[..n], i, inString, escaped, open, close)
    {
      if CommentStarts(a[..n], i, inString, escaped, open) {
        Opened(a[..n], i, inString, escaped, open, close);
        Blank(a, n, i, |open|);
        Closed(a[..n], i + |open|, inString, open, close);
        var k := FindToken(a[..n], i + |open|, close);
        if k == n {
          return;
        }
        Blank(a, n, i + |open|, k + |close| - (i + |open|));
        i, escaped := k + |close|, false;
      } else {
        Keep(a[..n], i, inString, escaped, open, close);
        if a[i] == '\"' && !escaped {
          inString := !inString;
        }
        escaped := a[i] == '\\' && !escaped;
        i := i + 1;
      }
    }
    ProgressEnds(a[..n], inString, escaped, open, close);
  }

  lemma ProgressEnds(s: string, inString: bool, escaped: bool, open: string, close: string)
    requires open != "" && close != ""
    ensures Progress(s, 0, inString, escaped, open, close) == Strip(s, inString, escaped, open, close)
    ensures Progress(s, |s|, inString, escaped, open, close) == s
  {
    hide Strip;
    assert s[0..] == s && s[..0] == "" && s[..|s|] == s;
    assert Strip(s[|s|..], inString, escaped, open, close) == "";
  }

  // ----- printed values

  /** `json_parse_string_with_comments`: both kinds of comments are blanked out first. */
  function ParseWithComments(s: string): JsonParse.Parsed {
    JsonParse.ParseText(Strip(Strip(s, false, false, "/*", "*/"), false, false, "//", "\n"))
  }

  /** Text that neither opens nor closes a string and starts no comment. */
  predicate Plain(w: string) {
    '\"' !in w && '\\' !in w && '/' !in w
  }

  lemma {:induction false} StripPlain(w: string, rest: string, open: string, close: string)
    requires Plain(w) && open != "" && open[0] == '/' && close != ""
    ensures Strip(w + rest, false, false, open, close) == w + Strip(rest, false, false, open, close)
  {
    hide StripComment, Blanks;
    if w == "" {
      assert w + rest == rest;
    } else {
      var s := w + rest;
      assert s[0] == w[0] && s[1..] == w[1..] + rest;
      StripPlain(w[1..], rest, open, close);
      assert w == [w[0]] + w[1..];
    }
  }

  lemma EscapedStep(c: char, rest: string, open: string, close: string)
    requires open != "" && close != ""
    ensures Strip(EscapeChar(c) + rest, true, false, open, close)
         == EscapeChar(c) + Strip(rest, true, false, open, close)
  {
    hide StripComment, Blanks, EscapeChar;
    var e := EscapeChar(c);
    var s := e + rest;
    assert s[0] == e[0] && s[|e|..] == rest;
    if |e| == 2 {
      var t := s[1..];
      assert t[0] == e[1] && t[1..] == rest;
      assert Strip(t, true, true, open, close) == [e[1]] + Strip(rest, true, false, open, close);
      assert e == [e[0]] + [e[1]];
    }
  }

  lemma {:induction false} StripEscaped(s: string, rest: string, open: string, close: string)
    requires open != "" && close != ""
    ensures Strip(Escape(s) + rest, true, false, open, close) == Escape(s) + Strip(rest, true, false, open, close)
  {
    hide Strip, EscapeChar;
    if s == "" {
      assert Escape(s) + rest == rest;
    } else {
      var e := EscapeChar(s[0]);
      assert Escape(s) + rest == e + (Escape(s[1..]) + rest);
      EscapedStep(s[0], Escape(s[1..]) + rest, open, close);
      StripEscaped(s[1..], rest, open, close);
    }
  }

  lemma StripQuote(rest: string, inString: bool, open: string, close: string)
    requires open != "" && close != ""
    ensures Strip("\"" + rest, inString, false, open, close) == "\"" + Strip(rest, !inString, false, open, close)
  {
    assert ("\"" + rest)[1..] == rest;
  }

  lemma StripString(s: string, rest: string, open: string, close: string)
    requires open != "" && close != ""
    ensures Strip(PrintString(s) + rest, false, false, open, close)
         == PrintString(s) + Strip(rest, false, false, open, close)
  {
    hide Strip, Escape;
    var e := Escape(s);
    assert PrintString(s) + rest == "\"" + (e + ("\"" + rest));
    StripQuote(e + ("\"" + rest), false, open, close);
    StripEscaped(s, "\"" + rest, open, close);
    StripQuote(rest, true, open, close);
  }

  /** What may be followed by anything without its comments changing. */
  ghost predicate Kept(t: string, open: string, close: string)
    requires open != "" && close != ""
  {
    forall rest :: Strip(t + rest, false, false, open, close) == t + Strip(rest, false, false, open, close)
  }

  lemma KeptAppend(a: string, b: string, open: string, close: string)
    requires open != "" && close != "" && Kept(a, open, close) && Kept(b, open, close)
    ensures Kept(a + b, open, close)
  {
    hide Strip;
    forall rest ensures Strip(a + b + rest, false, false, open, close)
                     == a + b + Strip(rest, false, false, open, close) {
      assert a + b + rest == a + (b + rest);
      assert a + b + Strip(rest, false, false, open, close) == a + (b + Strip(rest, false, false, open, close));
    }
  }

  lemma KeptPlain(w: string, open: string, close: string)
    requires Plain(w) && open != "" && open[0] == '/' && close != ""
    ensures Kept(w, open, close)
  {
    hide Strip, Plain;
    forall rest ensures Strip(w + rest, false, false, open, close) == w + Strip(rest, false, false, open, close) {
      StripPlain(w, rest, open, close);
    }
  }

  lemma KeptString(s: string, open: string, close: string)
    requires open != "" && close != ""
    ensures Kept(PrintString(s), open, close)
  {
    hide Strip, PrintString;
    forall rest ensures Strip(PrintString(s) + rest, false, false, open, close)
                     == PrintString(s) + Strip(rest, false, false, open, close) {
      StripString(s, rest, open, close);
    }
  }

  lemma {:induction false} KeptPrinted(v: Value, level: nat, pretty: bool, open: string, close: string)
    requires open != "" && open[0] == '/' && close != ""
    ensures Kept(Print(v, level, pretty), open, close)
    decreases v, 0
  {
    hide Kept, PrintString, PrintItems, PrintMembers, Indent;
    match v
    case String(s) => KeptString(s, open, close);
    case Number(x) =>
      PlainNumber(x);
      KeptPlain(PrintNumber(x), open, close);
    case Array(items) =>
      var opening, closing := "[" + Opening(|items|, pretty), Closing(|items|, level, pretty) + "]";
      KeptPlain(opening, open, close);
      KeptItems(items, 0, level, pretty, open, close);
      KeptPlain(closing, open, close);
      KeptAppend(opening, PrintItems(items, 0, level, pretty), open, close);
      KeptAppend(opening + PrintItems(items, 0, level, pretty), closing, open, close);
      assert opening + PrintItems(items, 0, level, pretty) + closing == Print(v, level, pretty);
    case Object(ms, c) =>
      var opening, closing := "{" + Opening(|ms|, pretty), Closing(|ms|, level, pretty) + "}";
      KeptPlain(opening, open, close);
      KeptMembers(ms, 0, level, pretty, open, close);
      KeptPlain(closing, open, close);
      KeptAppend(opening, PrintMembers(ms, 0, level, pretty), open, close);
      KeptAppend(opening + PrintMembers(ms, 0, level, pretty), closing, open, close);
      assert opening + PrintMembers(ms, 0, level, pretty) + closing == Print(v, level, pretty);
    case _ => KeptPlain(Print(v, level, pretty), open, close);
  }

  lemma PlainNumber(x: real)
    ensures Plain(PrintNumber(x))
  {
    hide Nearest;
    if IsInt(x) {
      AllDigitsArePlain(Text.Decimal(if x.Floor < 0 then 0 - x.Floor else x.Floor));
    } else {
      AllDigitsArePlain(Text.Decimal(Micros(x) / MILLION));
      AllDigitsArePlain(LastDigits(Micros(x) % MILLION, 6));
    }
  }

  lemma {:induction false} KeptItems(items: seq<Value>, i: nat, level: nat, pretty: bool, open: string, close: string)
    requires i <= |items| && open != "" && open[0] == '/' && close != ""
    ensures Kept(PrintItems(items, i, level, pretty), open, close)
    decreases items, 1, |items| - i
  {
    hide Kept, Print, PrintItems, Separator, Indent;
    NoItems(items, level, pretty);
    if i == |items| {
      KeptPlain("", open, close);
    } else {
      var w, p := if pretty then Indent(level + 1) else "", Print(items[i], level + 1, pretty);
      var q, r := Separator(i, |items|, pretty), PrintItems(items, i + 1, level, pretty);
      KeptPlain(w, open, close);
      KeptPrinted(items[i], level + 1, pretty, open, close);
      SeparatorPlain(i, |items|, pretty);
      KeptPlain(q, open, close);
      KeptItems(items, i + 1, level, pretty, open, close);
      KeptAppend(w, p, open, close);
      KeptAppend(w + p, q, open, close);
      KeptAppend(w + p + q, r, open, close);
      ItemStep("", items, i, level, pretty);
      assert "" + PrintItems(items, i, level, pretty) == PrintItems(items, i, level, pretty) && "" + w == w;
    }
  }

  lemma SeparatorPlain(i: nat, count: nat, pretty: bool)
    ensures Plain(Separator(i, count, pretty))
  {
  }

  lemma KeptHead(name: string, level: nat, pretty: bool, open: string, close: string)
    requires open != "" && open[0] == '/' && close != ""
    ensures Kept(MemberHead(name, level, pretty), open, close)
  {
    hide Kept, PrintString, Indent;
    var w, b := if pretty then Indent(level + 1) else "", ":" + if pretty then " " else "";
    KeptPlain(w, open, close);
    KeptString(name, open, close);
    KeptPlain(b, open, close);
    KeptAppend(w, PrintString(name), open, close);
    KeptAppend(w + PrintString(name), b, open, close);
    assert MemberHead(name, level, pretty) == w + PrintString(name) + b;
  }

  lemma {:induction false} KeptMembers(ms: seq<Member>, i: nat, level: nat, pretty: bool, open: string, close: string)
    requires i <= |ms| && open != "" && open[0] == '/' && close != ""
    ensures Kept(PrintMembers(ms, i, level, pretty), open, close)
    decreases ms, 1, |ms| - i
  {
    hide Kept, Print, PrintMembers, MemberHead, Separator;
    NoMembers(ms, level, pretty);
    if i == |ms| {
      KeptPlain("", open, close);
    } else {
      var k := Find(ms, ms[i].name);
      assert k <= i;
      var h, p := MemberHead(ms[i].name, level, pretty), Print(ms[k].value, level + 1, pretty);
      var q, r := Separator(i, |ms|, pretty), PrintMembers(ms, i + 1, level, pretty);
      KeptHead(ms[i].name, level, pretty, open, close);
      KeptPrinted(ms[k].value, level + 1, pretty, open, close);
      SeparatorPlain(i, |ms|, pretty);
      KeptPlain(q, open, close);
      KeptMembers(ms, i + 1, level, pretty, open, close);
      KeptAppend(h, p, open, close);
      KeptAppend(h + p, q, open, close);
      KeptAppend(h + p + q, r, open, close);
      MemberStep("", ms, i, level, pretty);
      assert "" + PrintMembers(ms, i, level, pretty) == PrintMembers(ms, i, level, pretty) && "" + h == h;
    }
  }

  /** Stripping comments changes no printed text, whatever its strings hold. */
  lemma PrintedHasNoComments(v: Value, level: nat, pretty: bool, open: string, close: string)
    requires open != "" && open[0] == '/' && close != ""
    ensures Strip(Print(v, level, pretty), false, false, open, close) == Print(v, level, pretty)
  {
    hide Strip, Print;
    KeptPrinted(v, level, pretty, open, close);
    var t := Print(v, level, pretty);
    assert Strip(t + "", false, false, open, close) == t + Strip("", false, false, open, close);
    assert t + "" == t && Strip("", false, false, open, close) == "";
  }

  /** Parsing a printed value with and without comment support is the same. */
  lemma CommentsMakeNoDifference(v: Value, pretty: bool)
    ensures ParseWithComments(Print(v, 0, pretty)) == JsonParse.ParseText(Print(v, 0, pretty))
  {
    hide Strip, Print, JsonParse.ParseText;
    PrintedHasNoComments(v, 0, pretty, "/*", "*/");
    PrintedHasNoComments(v, 0, pretty, "//", "\n");
  }

  // ----- what stripping does to comments

  predicate Ends(body: string, close: string)
    requires close != ""
  {
    forall j :: 0 <= j < |body| ==> !(close <= (body + close)[j..])
  }

  lemma SearchAfter(body: string, close: string, rest: string)
    requires close != "" && Ends(body, close)
    ensures Search(body + close + rest, close) == |body|
  {
    var s := body + close + rest;
    SearchFindsFirst(s, close);
    assert close <= s[|body|..];
    SearchIsLeast(s, close, |body|);
    var k := Search(s, close);
    if k < |body| {
      StandsIn(body, close, rest, k);
      assert false;
    }
  }

  lemma StandsIn(body: string, close: string, rest: string, k: nat)
    requires k < |body|
    ensures close <= (body + close + rest)[k..] <==> close <= (body + close)[k..]
  {
    assert (body + close + rest)[k..][..|close|] == (body + close)[k..][..|close|];
  }

  lemma {:induction false} SearchIsLeast(s: string, token: string, k: nat)
    requires token != "" && k < |s| && token <= s[k..]
    ensures Search(s, token) <= k
    decreases k
  {
    if k > 0 && !(token <= s) {
      assert s[1..][k - 1..] == s[k..];
      SearchIsLeast(s[1..], token, k - 1);
    }
  }

  /** A comment becomes as many blanks, its tokens included, and stripping goes on behind it. */
  lemma CommentIsBlanked(open: string, body: string, close: string, rest: string)
    requires open != "" && open[0] == '/' && close != "" && Ends(body, close)
    ensures Strip(open + (body + close + rest), false, false, open, close)
         == Blanks(|open| + |body| + |close|) + Strip(rest, false, false, open, close)
  {
    hide *;
    CommentEnds(body, close, rest);
    CommentFound(open, body + close + rest, |body|, close, rest);
  }

  /** After `n` characters the end token is found first, and the rest follows it. */
  ghost predicate EndFound(t: string, n: nat, close: string, rest: string)
    requires close != ""
  {
    Search(t, close) == n && n + |close| <= |t| && t[n + |close|..] == rest
  }

  lemma CommentEnds(body: string, close: string, rest: string)
    requires close != "" && Ends(body, close)
    ensures EndFound(body + close + rest, |body|, close, rest)
  {
    hide Search, Ends;
    SearchAfter(body, close, rest);
    Behind(body, close, rest);
  }

  lemma Behind(x: string, y: string, z: string)
    ensures |x| + |y| <= |x + y + z| && (x + y + z)[|x| + |y|..] == z
  {
  }

  lemma CommentFound(open: string, t: string, n: nat, close: string, rest: string)
    requires open != "" && open[0] == '/' && close != "" && EndFound(t, n, close, rest)
    ensures Strip(open + t, false, false, open, close)
         == Blanks(|open| + n + |close|) + Strip(rest, false, false, open, close)
  {
    hide Search, Strip, Blanks;
    CommentGone(open, t, close, n + |close|);
  }

  lemma CommentGone(open: string, t: string, close: string, k: nat)
    requires open != "" && open[0] == '/' && close != "" && Search(t, close) + |close| == k <= |t|
    ensures Strip(open + t, false, false, open, close) == Blanks(|open| + k) + Strip(t[k..], false, false, open, close)
  {
    hide *;
    CommentOpened(open, t, close);
    CommentSplit(t, k, open, close);
    BlanksTogether(|open|, k, Strip(t[k..], false, false, open, close));
  }

  lemma CommentOpened(open: string, t: string, close: string)
    requires open != "" && open[0] == '/' && close != ""
    ensures Strip(open + t, false, false, open, close) == Blanks(|open|) + StripComment(t, false, open, close)
  {
    hide StripComment;
    var s := open + t;
    assert s[0] == '/' && open <= s && s[|open|..] == t;
  }

  lemma BlanksTogether(n: nat, m: nat, x: string)
    ensures Blanks(n) + (Blanks(m) + x) == Blanks(n + m) + x
  {
    assert Blanks(n) + Blanks(m) == Blanks(n + m);
  }

  lemma CommentSplit(t: string, k: nat, open: string, close: string)
    requires open != "" && close != "" && Search(t, close) + |close| == k <= |t|
    ensures StripComment(t, false, open, close) == Blanks(k) + Strip(t[k..], false, false, open, close)
  {
    hide Search, Strip;
  }

  /** Of a comment that is not ended only the opening token is blanked. */
  lemma OpenCommentStays(open: string, body: string, close: string)
    requires open != "" && open[0] == '/' && close != ""
    requires forall j :: 0 <= j <= |body| ==> !(close <= body[j..])
    ensures Strip(open + body, false, false, open, close) == Blanks(|open|) + body
  {
    CommentOpened(open, body, close);
    SearchFindsFirst(body, close);
    assert Search(body, close) == |body|;
    hide Search, Strip;
  }

  lemma BlanksArePlain(n: nat)
    ensures Plain(Blanks(n)) && forall i :: 0 <= i < n ==> Text.IsSpace(Blanks(n)[i])
  {
  }

  /** What is read does not depend on blanks before it. */
  lemma BlanksBefore(n: nat, t: string)
    ensures JsonParse.ParseText(Blanks(n) + t) == JsonParse.ParseText(t)
  {
    hide JsonParse.ParseValue;
    BlanksArePlain(n);
    Text.SkipBlank(Blanks(n), t);
  }

  /** A comment between `/*` and `*/` before a printed value makes no difference. */
  lemma BlockCommentIgnored(c: string, v: Value, pretty: bool)
    requires Ends(c, "*/")
    ensures ParseWithComments("/*" + (c + "*/" + Print(v, 0, pretty))) == JsonParse.ParseText(Print(v, 0, pretty))
  {
    hide Strip, Print, JsonParse.ParseText, Plain, Kept;
    var t := Print(v, 0, pretty);
    var n := |"/*"| + |c| + |"*/"|;
    CommentIsBlanked("/*", c, "*/", t);
    PrintedHasNoComments(v, 0, pretty, "/*", "*/");
    BlanksArePlain(n);
    KeptPlain(Blanks(n), "//", "\n");
    PrintedHasNoComments(v, 0, pretty, "//", "\n");
    KeptBefore(Blanks(n), t, "//", "\n");
    BlanksBefore(n, t);
  }

  lemma KeptBefore(a: string, rest: string, open: string, close: string)
    requires open != "" && close != "" && Kept(a, open, close)
    ensures Strip(a + rest, false, false, open, close) == a + Strip(rest, false, false, open, close)
  {
  }

  /** Nor does one between `//` and the end of the line. */
  lemma LineCommentIgnored(c: string, v: Value, pretty: bool)
    requires Plain(c) && '\n' !in c && (c != "" ==> c[0] != '*')
    ensures ParseWithComments("//" + (c + "\n" + Print(v, 0, pretty))) == JsonParse.ParseText(Print(v, 0, pretty))
  {
    hide Strip, Print, JsonParse.ParseText, Kept;
    var t := Print(v, 0, pretty);
    var n := |"//"| + |c| + |"\n"|;
    SlashesKept(c + "\n" + t);
    KeptPlain(c + "\n", "/*", "*/");
    KeptBefore(c + "\n", t, "/*", "*/");
    PrintedHasNoComments(v, 0, pretty, "/*", "*/");
    forall j | 0 <= j < |c| ensures !("\n" <= (c + "\n")[j..]) {
      assert (c + "\n")[j..][0] == c[j];
    }
    CommentIsBlanked("//", c, "\n", t);
    PrintedHasNoComments(v, 0, pretty, "//", "\n");
    BlanksBefore(n, t);
  }

  lemma SlashesKept(x: string)
    requires x != "" && x[0] != '*'
    ensures Strip("//" + x, false, false, "/*", "*/") == "//" + Strip(x, false, false, "/*", "*/")
  {
    var s := "//" + x;
    assert s[1..] == "/" + x && ("/" + x)[1..] == x;
    assert !("/*" <= s) && !("/*" <= "/" + x);
    var r := Strip(x, false, false, "/*", "*/");
    assert ['/'] + (['/'] + r) == "//" + r;
  }
}
