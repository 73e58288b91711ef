/** Two requests at which the request parser departs from what a client means: a blank
    Content-Length that arrives in two pieces, and a form that ends in an equal sign. */
module WebExamples {
  import opened Text
  import opened WebParse
  import opened WebForm
  import opened WebRequest
  import opened WebRendered

  // ----- a blank length

  lemma LineEndSkipped(x: string)
    ensures StrToLL(CRLF + x, 10) == StrToLL(x, 10)
  {
    hide ReadDigits;
    var s := CRLF + x;
    assert s[0] == '\r' && s[1..][0] == '\n' && s[1..][1..] == x;
    assert SkipSpaces(s) == SkipSpaces(s[1..]) == SkipSpaces(s[1..][1..]);
  }

  lemma NumberAfterLineEnd(ds: string, tail: string)
    requires ds != "" && AllDigits(ds, 10) && ValueIn(ds, 10) <= LLONG_MAX && tail != "" && IsSpace(tail[0])
    ensures StrToLL(CRLF + (ds + tail), 10) == Some(ValueIn(ds, 10))
  {
    hide StrToLL, ReadDigits;
    LineEndSkipped(ds + tail);
    SignedText(ds, tail);
    ReadDigitsOf(ds, tail, false);
  }

  lemma NoNulInDigits(ds: string)
    requires AllDigits(ds, 10)
    ensures '\0' !in CRLF + ds + " "
  {
    assert forall i :: 0 <= i < |ds| ==> ds[i] != '\0';
  }

  /** A blank length is read beyond the line end. */
  lemma BlankLengthReadsOn(b: string, name: Index, at: nat, ds: string, rest: string, length: nat)
    requires Within(b, name) && CaseCmp("Content-Length", b, name) && at <= |b| && b[at..] == CRLF + ds + " " + rest
    requires ds != "" && AllDigits(ds, 10) && ValueIn(ds, 10) <= LLONG_MAX
    ensures LengthSet(b, name, Index(at, 0), length) == ValueIn(ds, 10) % WORD
  {
    hide StrToLL, CString, CaseCmp;
    NoNulInDigits(ds);
    CStringOf(CRLF + ds + " ", rest);
    assert b[at..] == (CRLF + ds + " ") + rest;
    Regroup(CRLF, ds, " ", CString(rest));
    NumberAfterLineEnd(ds, " " + CString(rest));
  }

  lemma Regroup(a: string, b: string, c: string, d: string)
    ensures (a + b + c) + d == a + (b + (c + d))
  {
  }

  lemma BlankLengthInPrefix(p: string, name: Index, at: nat, length: nat)
    requires Within(p, name) && at <= |p| && p[at..] == CRLF
    ensures LengthSet(p, name, Index(at, 0), length) == length
  {
    hide StrToLL;
    assert CString(CRLF) == CRLF && CRLF + "" == CRLF;
    LineEndSkipped("");
    NothingRead();
  }

  lemma NothingRead()
    ensures StrToLL("", 10) == None
  {
  }

  function FirstText(): string {
    "GET / HTTP/1.1\r\n"
  }

  function BlankText(): string {
    "Content-Length:\r\n"
  }

  function NextText(): string {
    "5 :\r\n"
  }

  /** A request up to its blank length, and the whole of it. */
  function LostPrefix(): string {
    FirstText() + BlankText()
  }

  function LostBuffer(): string {
    FirstText() + (BlankText() + (NextText() + (CRLF + "hello")))
  }

  const BLANK_LINE := Line("Content-Length", "")
  const NEXT_LINE := Line("5 ", "")
  const FIRST_ONLY := Request("GET", "/", "HTTP/1.1", [], "")

  lemma LostTexts()
    ensures |FirstText()| == 16 && |BlankText()| == 17 && |NextText()| == 5
    ensures FirstLine(FIRST_ONLY) + CRLF == FirstText()
    ensures LineText(BLANK_LINE) + CRLF == BlankText() && LineText(NEXT_LINE) + CRLF == NextText()
    ensures |LineText(BLANK_LINE)| == 15 && |LineText(NEXT_LINE)| == 3
  {
    assert LineText(BLANK_LINE) == "Content-Length:" && LineText(NEXT_LINE) == "5 :";
  }

  lemma LostLinesFit()
    ensures WellFormed(FIRST_ONLY) && IsHeader(BLANK_LINE) && IsHeader(NEXT_LINE)
  {
    NoReturns();
    WithoutReturn(FirstLine(FIRST_ONLY));
    WithoutReturn(LineText(BLANK_LINE));
    WithoutReturn(LineText(NEXT_LINE));
    hide OneLine;
  }

  lemma NoReturns()
    ensures '\r' !in FirstLine(FIRST_ONLY) && '\r' !in LineText(BLANK_LINE) && '\r' !in LineText(NEXT_LINE)
    ensures ':' !in BLANK_LINE.name && ':' !in NEXT_LINE.name && ' ' !in FIRST_ONLY.uri
  {
    LacksInParts("GET", " ", '\r');
    LacksInParts("GET" + " ", "/", '\r');
    LacksInParts("GET" + " " + "/", " ", '\r');
    LacksInParts("GET" + " " + "/" + " ", "HTTP/1.1", '\r');
    LengthTextPlain();
    LacksInParts("Content-Length", ":", '\r');
    LacksInParts("Content-Length" + ":", "", '\r');
    LacksInParts("5 ", ":", '\r');
    LacksInParts("5 " + ":", "", '\r');
  }

  lemma WithoutReturn(s: string)
    ensures '\r' !in s ==> OneLine(s)
  {
  }

  lemma LostParts()
    ensures LostPrefix() <= LostBuffer() && |LostPrefix()| == 33 && |LostBuffer()| == 45
    ensures Stands(LostPrefix(), 0, FirstText()) && Stands(LostPrefix(), 16, BlankText())
    ensures Stands(LostBuffer(), 0, FirstText()) && Stands(LostBuffer(), 16, BlankText())
    ensures Stands(LostBuffer(), 33, NextText()) && Stands(LostBuffer(), 38, CRLF) && Stands(LostBuffer(), 40, "hello")
  {
    LostTexts();
    hide Stands, FirstText, BlankText, NextText;
    var p, b := LostPrefix(), LostBuffer();
    WholeStands(p);
    WholeStands(b);
    StandsParts(p, 0, FirstText(), BlankText());
    StandsParts(b, 0, FirstText(), BlankText() + (NextText() + (CRLF + "hello")));
    StandsParts(b, 16, BlankText(), NextText() + (CRLF + "hello"));
    StandsParts(b, 33, NextText(), CRLF + "hello");
    StandsParts(b, 38, CRLF, "hello");
    assert b == p + (NextText() + (CRLF + "hello"));
  }

  /** Both buffers give the same request line. */
  lemma LostStart(x: string)
    requires x == LostPrefix() || x == LostBuffer()
    ensures Sane(x, Blank)
    ensures var r := RequestLine(x, Blank);
      && r.Next? && Sane(x, r.req) && r.req.parsePoint == 16 && r.req.verb == Get && !r.req.headersComplete
      && r.req.contentLength == 0 && r.req.content == Index(0, 0) && r.req.headers == []
  {
    LostTexts();
    LostLinesFit();
    LostParts();
    BlankIsSane(x);
    hide Stands, RequestLine, WellFormed, TrimOne, Slice, FirstLine, LostPrefix, LostBuffer, FirstText;
    RequestLineDone(x, FIRST_ONLY);
  }

  lemma LostHeader(x: string)
    requires |x| >= 33 && Stands(x, 16, BlankText())
    ensures HeaderAt(x, 16, BLANK_LINE) == Header(Index(16, 14), Index(31, 0))
    ensures CaseCmp("Content-Length", x, Index(16, 14))
  {
    var t := BlankText();
    hide Stands;
    StandsChar(x, 16, t, 0);
    StandsChar(x, 16, t, 13);
    assert t[0] == 'C' && t[13] == 'h';
    SliceOfStanding(x, 16, t, Index(0, 14));
    assert Slice(t, Index(0, 14)) == "Content-Length";
  }

  lemma LostTails()
    ensures LostPrefix()[31..] == CRLF && LostBuffer()[31..] == CRLF + "5" + " " + ":\r\n\r\nhello"
  {
    LostParts();
    var p, b := LostPrefix(), LostBuffer();
    var t := BlankText();
    assert t[15..] == CRLF;
    assert p == (FirstText() + t[..15]) + CRLF;
    assert b == (FirstText() + t[..15]) + (CRLF + "5" + " " + ":\r\n\r\nhello");
  }

  /** The blank length counts for nothing in the prefix, and for five in the whole. */
  lemma LostBlankLine(x: string, req: Req)
    requires x == LostPrefix() || x == LostBuffer()
    requires Sane(x, req) && req.parsePoint == 16 && !req.headersComplete && req.contentLength == 0
    ensures !MatchAt(x, 16, CRLF)
    ensures HeaderLine(x, req) == Next(req.(
              parsePoint := 33, contentLength := if x == LostPrefix() then 0 else 5,
              headers := req.headers + [Header(Index(16, 14), Index(31, 0))]))
  {
    LostTexts();
    LostLinesFit();
    LostParts();
    LostTails();
    hide LengthSet, HeaderLine, CaseCmp, LostPrefix, LostBuffer, FirstText, BlankText, LineText, IsHeader, HeaderAt,
      Stands, MatchAt, WellFormed;
    AnyLineRead(x, req, BLANK_LINE);
    LostHeader(x);
    if x == LostPrefix() {
      BlankLengthInPrefix(x, Index(16, 14), 31, 0);
    } else {
      FiveIsFive();
      BlankLengthReadsOn(x, Index(16, 14), 31, "5", ":\r\n\r\nhello", 0);
    }
  }

  lemma OneLineOn(b: string, req: Req)
    requires Sane(b, req) && !req.headersComplete && !MatchAt(b, req.parsePoint, CRLF) && HeaderLine(b, req).Next?
    ensures Headers(b, req) == Headers(b, HeaderLine(b, req).req)
    ensures FromHeaders(b, req) == FromHeaders(b, HeaderLine(b, req).req)
  {
    hide HeaderLine, MatchAt, Body;
  }

  lemma EmptyLineOn(b: string, req: Req)
    requires Sane(b, req) && !req.headersComplete && MatchAt(b, req.parsePoint, CRLF)
    ensures Headers(b, req) == Next(req.(parsePoint := req.parsePoint + 2, headersComplete := true))
  {
  }

  lemma NoFormBody(b: string, req: Req)
    requires Sane(b, req) && req.verb == Get && req.contentLength <= |b| - req.parsePoint
    ensures Body(b, req) == Stop(Complete, TakeContent(b, req).(complete := true))
  {
    hide GetHeader, CaseCmp;
  }

  lemma PastTheLine(b: string)
    requires Sane(b, Blank) && RequestLine(b, Blank).Next?
    ensures Parse(b, Blank) == FromHeaders(b, RequestLine(b, Blank).req)
  {
    hide RequestLine, Headers, Body;
  }

  /** The line after the blank length sets no length. */
  lemma LostNextLine(req: Req)
    requires Sane(LostBuffer(), req) && req.parsePoint == 33
    ensures !MatchAt(LostBuffer(), 33, CRLF) && MatchAt(LostBuffer(), 38, CRLF)
    ensures var r := HeaderLine(LostBuffer(), req);
      r.Next? && r.req == req.(parsePoint := 38, headers := r.req.headers)
  {
    LostTexts();
    LostLinesFit();
    LostParts();
    hide LengthSet, HeaderLine, CaseCmp, LostPrefix, LostBuffer, NextText, LineText, IsHeader, Stands, WellFormed,
      MatchAt;
    var b := LostBuffer();
    AnyLineRead(b, req, NEXT_LINE);
    var h := HeaderAt(b, 33, NEXT_LINE);
    OtherName(b, h.name);
    NoLength(b, h.name, h.value, req.contentLength);
    StandsMatches(b, 38);
  }

  /** What the whole makes of the rest, with the length it has. */
  lemma LostRest(req: Req)
    requires Sane(LostBuffer(), req) && req.parsePoint == 33 && !req.headersComplete && req.verb == Get
    requires req.contentLength <= 5 && req.content == Index(0, 0)
    ensures var r := FromHeaders(LostBuffer(), req);
      r.Stop? && r.answer == Complete
        && r.req.content == if req.contentLength == 0 then Index(0, 0) else Index(40, req.contentLength)
  {
    LostParts();
    hide HeaderLine, LostPrefix, LostBuffer, MatchAt, Headers, Body, Stands;
    var b := LostBuffer();
    LostNextLine(req);
    OneLineOn(b, req);
    var next := HeaderLine(b, req).req;
    EmptyLineOn(b, next);
    NoFormBody(b, Headers(b, next).req);
  }

  lemma OtherName(b: string, name: Index)
    requires Within(b, name) && name.len <= 2
    ensures !CaseCmp("Content-Length", b, name)
  {
  }

  lemma NoLength(b: string, name: Index, value: Index, length: nat)
    requires Within(b, name) && Within(b, value) && !CaseCmp("Content-Length", b, name)
    ensures LengthSet(b, name, value, length) == length
  {
  }

  lemma EndOfBuffer(b: string, req: Req)
    requires Sane(b, req) && !req.headersComplete && req.parsePoint == |b|
    ensures Headers(b, req) == Stop(Incomplete, req)
  {
  }

  lemma FiveIsFive()
    ensures AllDigits("5", 10) && ValueIn("5", 10) == 5
  {
    assert "5"[..0] == "";
  }

  /** The condition of `ResumeExactly` can fail: a request with a blank length, received as
      a whole, has the content `hello`; received in two pieces, it has none. */
  lemma BlankLengthIsLost()
    ensures var p, b := LostPrefix(), LostBuffer();
      && p <= b && Sane(p, Blank) && Sane(b, Blank)
      && Parse(p, Blank).answer == Incomplete && Sane(b, Parse(p, Blank).req)
      && var whole, pieces := Parse(b, Blank), Parse(b, Parse(p, Blank).req);
      && whole.answer == Complete && Within(b, whole.req.content) && Slice(b, whole.req.content) == "hello"
      && pieces.answer == Complete && Within(b, pieces.req.content) && Slice(b, pieces.req.content) == ""
  {
    LostParts();
    var p, b := LostPrefix(), LostBuffer();
    StandsSlice(b, 40, "hello");
    hide LostPrefix, LostBuffer, Stands, RequestLine, HeaderLine, Headers, MatchAt, FromHeaders, Parse, Slice;
    LostStart(p);
    LostStart(b);
    PastTheLine(p);
    PastTheLine(b);
    var line, whole := RequestLine(p, Blank).req, RequestLine(b, Blank).req;
    LostBlankLine(p, line);
    LostBlankLine(b, whole);
    OneLineOn(p, line);
    OneLineOn(b, whole);
    var lost, kept := HeaderLine(p, line).req, HeaderLine(b, whole).req;
    EndOfBuffer(p, lost);
    assert Parse(p, Blank) == Stop(Incomplete, lost) by { Stopped(p, lost); }
    SaneInPrefix(p, b, lost);
    LostRest(lost);
    LostRest(kept);
    FromVerb(b, lost);
  }

  lemma Stopped(b: string, req: Req)
    requires Sane(b, req) && Headers(b, req).Stop?
    ensures FromHeaders(b, req) == Headers(b, req)
  {
  }

  // ----- a form that ends in an equal sign

  function TypeName(): string {
    "Content-Type"
  }

  function FormType(): string {
    "application/x-www" + "-form-urlencoded"
  }

  function LengthText(): string {
    "Content-Length"
  }

  function TypeLine(): Line {
    Line(TypeName(), " " + FormType())
  }

  function LengthLine(): Line {
    Line(LengthText(), " " + "2")
  }

  /** A form with one field, whose value is empty. */
  function CrashRequest(): Request {
    Request("POST", "/", "HTTP/1.1", [TypeLine(), LengthLine()], "a=")
  }

  lemma TrimPlain(s: string)
    requires s != "" && !IsBlank(s[0]) && !IsBlank(s[|s| - 1])
    ensures TrimOne(s) == s && TrimOne(" " + s) == s
  {
    var t := " " + s;
    assert t[0] == ' ' && t[|t| - 1] == s[|s| - 1] && t[1..] == s;
    assert TrimmedIndex(t, 0, |t|, true) == Index(1, |s|);
    assert t[1..1 + |s|] == t[1..];
  }

  lemma TypeIsTrim()
    ensures TrimOne(TypeName()) == TypeName() && TrimOne(" " + FormType()) == FormType()
    ensures |TypeName()| == 12 && SameIgnoringCase("application/x-www-form-urlencoded", FormType())
  {
    TrimPlain(TypeName());
    TrimPlain(FormType());
    assert FormType() == "application/x-www-form-urlencoded";
  }

  lemma LengthIsTrim()
    ensures TrimOne(LengthText()) == LengthText() && TrimOne(" " + "2") == "2"
    ensures |LengthText()| == 14
  {
    TrimPlain(LengthText());
    TrimPlain("2");
  }

  lemma LacksInParts(a: string, b: string, c: char)
    requires c !in a && c !in b
    ensures c !in a + b
  {
  }

  lemma FormTypePlain()
    ensures '\r' !in FormType()
  {
    assert '\r' !in "application/x-www";
    assert '\r' !in "-form-urlencoded";
    LacksInParts("application/x-www", "-form-urlencoded", '\r');
  }

  lemma TypeNamePlain()
    ensures '\r' !in TypeName() && ':' !in TypeName()
  {
  }

  lemma LengthTextPlain()
    ensures '\r' !in LengthText() && ':' !in LengthText()
  {
  }

  /** A header line of plain pieces. */
  lemma PlainLine(name: string, value: string)
    requires '\r' !in name && ':' !in name && '\r' !in value
    ensures IsHeader(Line(name, " " + value))
  {
    hide OneLine;
    var line := Line(name, " " + value);
    LacksInParts(" ", value, '\r');
    LacksInParts(name, ":", '\r');
    LacksInParts(name + ":", " " + value, '\r');
    WithoutReturn(LineText(line));
  }

  lemma CrashFirstLine()
    ensures '\r' !in FirstLine(CrashRequest()) && ' ' !in CrashRequest().uri && CrashRequest().verb == "POST"
  {
    LacksInParts("POST", " ", '\r');
    LacksInParts("POST" + " ", "/", '\r');
    LacksInParts("POST" + " " + "/", " ", '\r');
    LacksInParts("POST" + " " + "/" + " ", "HTTP/1.1", '\r');
  }

  lemma TwoIsTwo()
    ensures StrToLL(CString("2"), 10) == Some(2) && HasText("2")
  {
    assert PrintInt(2) == "2" && "2" + "" == "2" && CString("2") == "2";
    StrToLLOfPrintInt(2, "");
    assert !IsSpace("2"[0]);
  }

  lemma CrashLinesFit()
    ensures LineFits(TypeLine()) && LineFits(LengthLine())
    ensures LengthAfter(TypeLine(), 0) == 0 && LengthAfter(LengthLine(), 0) == 2
  {
    TypeIsTrim();
    LengthIsTrim();
    TwoIsTwo();
    TypeNamePlain();
    FormTypePlain();
    LengthTextPlain();
    hide TrimOne, StrToLL, CString, HasText, FormType, TypeName, IsHeader;
    PlainLine(TypeName(), FormType());
    PlainLine(LengthText(), "2");
  }

  lemma CrashSendsForm()
    ensures SendsForm(CrashRequest())
  {
    CrashFirstLine();
    TypeIsTrim();
    hide TrimOne, FormType, MethodOf;
  }

  lemma CrashIsWellFormed()
    ensures WellFormed(CrashRequest())
  {
    CrashFirstLine();
    WithoutReturn(FirstLine(CrashRequest()));
    CrashLinesFit();
    hide OneLine, LineFits, LengthAfter, FirstLine, TypeLine, LengthLine;
    var lines := CrashRequest().lines;
    assert lines[1..] == [LengthLine()] && lines[1..][1..] == [];
    assert Declared(lines[1..], 0) == Declared([], 2) == 2;
    assert Declared(lines, 0) == 2;
  }

  /** A well-formed request at which the parser follows a null pointer. */
  lemma FormCrashes()
    ensures WellFormed(CrashRequest()) && Sane(Render(CrashRequest()), Blank)
    ensures Parse(Render(CrashRequest()), Blank).answer == Crash
  {
    hide WellFormed, SendsForm, Render, Parse, Says, TypeLine, LengthLine;
    CrashIsWellFormed();
    CrashSendsForm();
    WholeIsComplete(CrashRequest());
  }
}
