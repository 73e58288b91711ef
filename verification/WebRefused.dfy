/** Requests that the parser refuses: another method, or a line without what it needs. */
module WebRefused {
  import opened Text
  import opened WebParse
  import opened WebForm
  import opened WebRequest
  import opened WebRendered

  /** Somewhere there is a line end. */
  lemma LineEndThere(x: string, y: string)
    ensures Find(x + (CRLF + y), 0, CRLF).Some?
  {
    hide Find, MatchAt;
    var b := x + (CRLF + y);
    FindExactly(b, 0, CRLF);
    MatchCrlf(b, |x|);
    assert MatchAt(b, |x|, CRLF);
  }

  lemma FrontStands(x: string, y: string)
    ensures Stands(x + y, 0, x) && Stands(x + y, |x|, y)
  {
    hide Stands;
    WholeStands(x + y);
    StandsParts(x + y, 0, x, y);
  }

  /** The first line's text up to the first blank is the method, without a tab at either side. */
  lemma VerbRead(verb: string, tail: string)
    requires ' ' !in verb && Find(verb + " " + tail, 0, CRLF).Some?
    ensures var b := verb + " " + tail;
      && Sane(b, Blank)
      && (MethodOf(TrimOne(verb)) == NoMethod ==> RequestLine(b, Blank).Stop? && RequestLine(b, Blank).answer == Error)
      && RequestLine(b, Blank).req.verb == MethodOf(TrimOne(verb))
      && (forall k :: |verb| < k < |b| ==> b[k] == tail[k - |verb| - 1])
      && (' ' !in tail ==> RequestLine(b, Blank).Stop? && RequestLine(b, Blank).answer == Error)
  {
    hide Find, ReadTo, TrimOne, Slice, MethodOf, SplitUri, Stands;
    var b := verb + " " + tail;
    BlankIsSane(b);
    FrontStands(verb + " ", tail);
    StandsParts(b, 0, verb, " ");
    ReadText(b, 0, verb, ' ', true);
    TrimInPlace(b, 0, verb);
    if ' ' !in tail {
      ReadToNothing(b, |verb| + 1, ' ', true);
    }
  }

  /** Exactly the seven names are methods: a request whose first line starts with another word is refused. */
  lemma OtherMethodsRefused(verb: string, line: string, rest: string)
    requires ' ' !in verb
    ensures var b := verb + " " + (line + (CRLF + rest)); var answer := Parse(b, Blank);
      && (!IsMethodName(TrimOne(verb)) ==> answer.answer == Error && answer.req.verb == NoMethod)
      && (IsMethodName(TrimOne(verb)) ==> MethodName(answer.req.verb) == TrimOne(verb))
  {
    hide RequestLine, Headers, Body, MethodName, MethodOf, TrimOne;
    var tail := line + (CRLF + rest);
    LineEndIn(verb + " ", line, rest);
    VerbRead(verb, tail);
    MethodsAre(TrimOne(verb));
  }

  lemma LineEndIn(x: string, y: string, z: string)
    ensures Find(x + (y + (CRLF + z)), 0, CRLF).Some?
  {
    LineEndThere(x + y, z);
    assert (x + y) + (CRLF + z) == x + (y + (CRLF + z));
  }

  /** A buffer with no second blank, though a line end has come, is refused. */
  lemma NoSecondBlank(verb: string, line: string, rest: string)
    requires ' ' !in verb && ' ' !in line && ' ' !in rest
    ensures Parse(verb + " " + (line + (CRLF + rest)), Blank).answer == Error
  {
    hide RequestLine, Headers, Body, MethodOf, TrimOne;
    LineEndIn(verb + " ", line, rest);
    VerbRead(verb, line + (CRLF + rest));
  }

  /** A first line without any blank is refused, whatever follows it. */
  lemma NoBlankRefused(line: string, rest: string)
    requires ' ' !in line
    ensures Parse(line + (CRLF + rest), Blank).answer == Error
  {
    hide RequestLine, Headers, Body, MethodOf;
    var b := line + (CRLF + rest);
    LineEndThere(line, rest);
    if ' ' in rest {
      var n := CharIn(rest, ' ');
      var verb, tail := line + (CRLF + rest[..n]), rest[n + 1..];
      assert rest == rest[..n] + ([' '] + tail);
      assert b == verb + " " + tail;
      LongTrim(line, rest[..n]);
      VerbRead(verb, tail);
      MethodsAre(TrimOne(verb));
    } else {
      NoBlankAtAll(b);
    }
  }

  /** The first place of a character. */
  function CharIn(s: string, c: char): (n: nat)
    requires c in s
    ensures n < |s| && s[n] == c && c !in s[..n]
  {
    if s[0] == c then 0 else
      var n := CharIn(s[1..], c);
      assert s[..n + 1] == [s[0]] + s[1..][..n];
      n + 1
  }

  lemma LongTrim(line: string, x: string)
    ensures !IsMethodName(TrimOne(line + (CRLF + x)))
  {
    var s := line + (CRLF + x);
    assert s[|line|] == '\r' && s[|line| + 1] == '\n';
    var i := TrimmedIndex(s, 0, |s|, true);
    assert i.start <= |line| < i.start + i.len;
    assert TrimOne(s)[|line| - i.start] == '\r';
  }

  lemma NoBlankAtAll(b: string)
    requires ' ' !in b && Find(b, 0, CRLF).Some?
    ensures Sane(b, Blank) && RequestLine(b, Blank).Stop? && RequestLine(b, Blank).answer == Error
  {
    hide Find, ReadTo;
    ReadToNothing(b, 0, ' ', true);
  }

  /** After a well-formed request line and any number of header lines, a line end comes before any colon. */
  lemma {:induction false} HeadersWithoutColon(b: string, req: Req, lines: seq<Line>, line: string, rest: string)
    requires Sane(b, req) && !req.headersComplete && LinesFit(lines)
    requires Stands(b, req.parsePoint, LinesText(lines) + (line + (CRLF + rest)))
    requires |b| == req.parsePoint + |LinesText(lines) + (line + (CRLF + rest))|
    requires line != "" && OneLine(line) && ':' !in line && ':' !in rest
    ensures Headers(b, req).Stop? && Headers(b, req).answer == Error
    decreases |lines|
  {
    hide Stands, LinesFit, LengthAfter, HeaderAt, HeaderLine, LineText, MatchAt, LengthPlain, OneLine, Find, ReadTo;
    var tail := line + (CRLF + rest);
    if lines == [] {
      assert LinesText(lines) + tail == tail;
      ColonMissing(b, req, line, rest);
    } else {
      FirstFits(lines);
      LinesStand(b, req.parsePoint, lines, tail);
      LinesLength(lines);
      LineRead(b, req, lines[0]);
      HeadersWithoutColon(b, HeaderLine(b, req).req, lines[1..], line, rest);
    }
  }

  lemma ColonMissing(b: string, req: Req, line: string, rest: string)
    requires Sane(b, req) && Stands(b, req.parsePoint, line + (CRLF + rest))
    requires |b| == req.parsePoint + |line + (CRLF + rest)|
    requires line != "" && OneLine(line) && ':' !in line && ':' !in rest
    ensures !MatchAt(b, req.parsePoint, CRLF) && HeaderLine(b, req) == Stop(Error, req)
  {
    hide Find, ReadTo, OneLine, MatchAt, Stands;
    var at, tail := req.parsePoint, line + (CRLF + rest);
    assert tail == (line + CRLF) + rest;
    StandsParts(b, at, line + CRLF, rest);
    LineEnd(b, at, line, at);
    NotAtStart(b, at, |line|);
    forall k | at <= k < |b| ensures b[k] != ':' {
      StandsChar(b, at, tail, k - at);
    }
    ReadToNothing(b, at, ':', true);
  }

  lemma SameFirstLine(r: Request)
    ensures FirstLine(r.(lines := [], body := "")) == FirstLine(r)
  {
  }

  /** A header line without a colon is refused, unless a colon is found further on. */
  lemma NoColonRefused(r: Request, line: string, rest: string)
    requires WellFormed(r.(lines := [], body := "")) && LinesFit(r.lines)
    requires line != "" && OneLine(line) && ':' !in line && ':' !in rest
    ensures Parse(FirstLine(r) + CRLF + (LinesText(r.lines) + (line + (CRLF + rest))), Blank).answer == Error
  {
    hide RequestLine, Headers, Body, FirstLine, WellFormed, LinesFit, LinesText, OneLine, Stands, MethodName;
    var x, y := FirstLine(r) + CRLF, LinesText(r.lines) + (line + (CRLF + rest));
    var b, r' := x + y, r.(lines := [], body := "");
    FrontStands(x, y);
    BlankIsSane(b);
    SameFirstLine(r);
    RequestLineDone(b, r');
    LineDoneParts(b, RequestLine(b, Blank).req, r');
    WellFormedParts(r');
    HeadersWithoutColon(b, RequestLine(b, Blank).req, r.lines, line, rest);
  }

  /** The name of a header goes up to the first colon, over line ends if it must. */
  lemma NameOverLines(b: string, req: Req, name: string, value: string)
    requires Sane(b, req) && Stands(b, req.parsePoint, LineText(Line(name, value)) + CRLF)
    requires ':' !in name && OneLine(value) && Find(b, req.parsePoint, CRLF).Some?
    ensures
      var r := HeaderLine(b, req);
      && r.Next? && |r.req.headers| == |req.headers| + 1
      && HeaderSays(b, r.req.headers[|req.headers|], Line(name, value))
      && r.req.parsePoint == req.parsePoint + |name| + 1 + |value| + 2
  {
    hide Find, ReadTo, LengthSet, Stands, TrimmedIndex, TrimOne, OneLine, Slice;
    var at, line := req.parsePoint, Line(name, value);
    LinePlaces(b, at, line);
    LineLength(line);
    ReadText(b, at, name, ':', true);
    var from := at + |name| + 1;
    ValueStands(b, at, name, value);
    LineEnd(b, from, value, from);
    ReadVersion(b, from, from + |value|);
    HeaderTexts(b, at, line);
  }

  lemma ValueStands(b: string, at: nat, name: string, value: string)
    requires Stands(b, at, LineText(Line(name, value)) + CRLF)
    ensures Stands(b, at + |name| + 1, value + CRLF)
  {
    hide Stands;
    var x := name + ":";
    assert LineText(Line(name, value)) + CRLF == x + (value + CRLF);
    StandsParts(b, at, x, value + CRLF);
  }
}
