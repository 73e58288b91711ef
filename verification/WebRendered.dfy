/** Well-formed requests: what the parser makes of every prefix of one, and of the whole. */
module WebRendered {
  import opened Text
  import opened WebParse
  import opened WebForm
  import opened WebRequest

  datatype Line = Line(name: string, value: string)

  /** A request as it is sent. */
  datatype Request = Request(verb: string, uri: string, version: string, lines: seq<Line>, body: string)

  function FirstLine(r: Request): string {
    r.verb + " " + r.uri + " " + r.version
  }

  function LineText(line: Line): string {
    line.name + ":" + line.value
  }

  function LinesText(lines: seq<Line>): string {
    if lines == [] then "" else LineText(lines[0]) + CRLF + LinesText(lines[1..])
  }

  function Render(r: Request): string {
    FirstLine(r) + CRLF + (LinesText(r.lines) + CRLF + r.body)
  }

  /** No line end inside. */
  predicate OneLine(s: string) {
    forall i :: 0 <= i < |s| - 1 ==> !(s[i] == '\r' && s[i + 1] == '\n')
  }

  /** The text without one blank at either side. */
  function TrimOne(s: string): string {
    Slice(s, TrimmedIndex(s, 0, |s|, true))
  }

  /** One blank or tab goes from either side, and no more. */
  lemma TrimmedIs(lead: string, text: string, trail: string)
    requires lead in {"", " ", "\t"} && trail in {"", " ", "\t"}
    requires text != "" && lead == "" ==> text[0] != ' ' && text[0] != '\t'
    requires text != "" && trail == "" ==> text[|text| - 1] != ' ' && text[|text| - 1] != '\t'
    ensures TrimOne(lead + text + trail) == text
  {
    var s := lead + text + trail;
    if text == "" {
      assert s == lead + trail;
    } else {
      assert s[0] == if lead == "" then text[0] else lead[0];
      assert s[|s| - 1] == if trail == "" then text[|text| - 1] else trail[0];
      assert TrimmedIndex(s, 0, |s|, true) == Index(|lead|, |text|);
    }
  }

  predicate IsLength(line: Line) {
    SameIgnoringCase("Content-Length", TrimOne(line.name))
  }

  function LengthAfter(line: Line, length: nat): nat {
    if !IsLength(line) then length
    else
      var n := StrToLL(CString(TrimOne(line.value)), 10);
      if n.None? then length else n.value % WORD
  }

  /** The last number a Content-Length line gives. */
  function Declared(lines: seq<Line>, length: nat): nat {
    if lines == [] then length else Declared(lines[1..], LengthAfter(lines[0], length))
  }

  /** One line with a colon in it. */
  predicate IsHeader(line: Line) {
    ':' !in line.name && OneLine(LineText(line))
  }

  ghost predicate LineFits(line: Line) {
    IsHeader(line) && (IsLength(line) ==> HasText(TrimOne(line.value)))
  }

  /** Single blanks in the request line, a colon in every header line, and a body of the
      length the headers declare. */
  ghost predicate WellFormed(r: Request) {
    && IsMethodName(r.verb) && ' ' !in r.uri && OneLine(FirstLine(r))
    && (forall i :: 0 <= i < |r.lines| ==> LineFits(r.lines[i]))
    && |r.body| == Declared(r.lines, 0)
  }

  // ----- a line in place

  /** `text` stands in `b` at `at`. */
  predicate Stands(b: string, at: nat, text: string) {
    at + |text| <= |b| && b[at..at + |text|] == text
  }

  lemma StandsParts(b: string, at: nat, x: string, y: string)
    requires Stands(b, at, x + y)
    ensures Stands(b, at, x) && Stands(b, at + |x|, y)
  {
    var t := x + y;
    assert b[at..at + |x|] == b[at..at + |t|][..|x|] == t[..|x|];
    assert b[at + |x|..at + |t|] == b[at..at + |t|][|x|..] == t[|x|..];
  }

  lemma StandsChar(b: string, at: nat, text: string, k: nat)
    requires Stands(b, at, text) && k < |text|
    ensures b[at + k] == text[k]
  {
    assert b[at..at + |text|][k] == b[at + k];
  }

  lemma MatchCrlf(b: string, k: nat)
    requires k + 2 <= |b|
    ensures MatchAt(b, k, CRLF) <==> b[k] == '\r' && b[k + 1] == '\n'
  {
    assert b[k..k + 2] == [b[k], b[k + 1]];
  }

  lemma NoEarlierEnd(b: string, at: nat, s: string, k: nat)
    requires Stands(b, at, s + CRLF) && OneLine(s) && at <= k < at + |s|
    ensures !MatchAt(b, k, CRLF)
  {
    hide MatchAt;
    var t, i := s + CRLF, k - at;
    StandsChar(b, at, t, i);
    StandsChar(b, at, t, i + 1);
    MatchCrlf(b, k);
    assert t[i] == s[i] && t[i + 1] == if i + 1 < |s| then s[i + 1] else '\r';
  }

  /** The first line end after the start of a line is the one that ends it. */
  lemma LineEnd(b: string, at: nat, s: string, from: nat)
    requires Stands(b, at, s + CRLF) && OneLine(s) && at <= from <= at + |s|
    ensures Find(b, from, CRLF) == Some(at + |s|)
  {
    hide Find, OneLine;
    StandsParts(b, at, s, CRLF);
    forall k: nat | from <= k < at + |s| ensures !MatchAt(b, k, CRLF) {
      NoEarlierEnd(b, at, s, k);
    }
    FoundAt(b, from, CRLF, at + |s|);
  }

  /** A buffer that ends before the line does has no line end in it. */
  lemma NoLineEnd(p: string, b: string, at: nat, s: string)
    requires p <= b && at <= |p| < at + |s| + 2 && Stands(b, at, s + CRLF) && OneLine(s)
    ensures Find(p, at, CRLF) == None && !MatchAt(p, at, CRLF)
  {
    hide Find;
    LineEnd(b, at, s, at);
    if Find(p, at, CRLF).Some? {
      FindInPrefix(p, b, at, CRLF);
      FindExactly(p, at, CRLF);
    }
    FindExactly(p, at, CRLF);
    assert MatchAt(p, at, CRLF) ==> Find(p, at, CRLF).Some?;
  }

  /** Text up to a token character that it does not contain. */
  lemma ReadText(b: string, at: nat, x: string, token: char, trim: bool)
    requires Stands(b, at, x + [token]) && token !in x
    ensures ReadTo(b, at, [token], trim) == Some(Read(at + |x| + 1, TrimmedIndex(b, at, at + |x|, trim)))
  {
    hide ReadTo;
    var t := x + [token];
    forall k | at <= k < at + |x| ensures b[k] != token {
      StandsChar(b, at, t, k - at);
    }
    StandsChar(b, at, t, |x|);
    ReadToChar(b, at, token, trim, at + |x|);
  }

  lemma TrimInPlace(b: string, at: nat, x: string)
    requires Stands(b, at, x)
    ensures var i := TrimmedIndex(b, at, at + |x|, true);
      i.len == |TrimOne(x)| && Slice(b, i) == TrimOne(x)
  {
    if x != "" {
      StandsChar(b, at, x, 0);
      StandsChar(b, at, x, |x| - 1);
    }
    var i, j := TrimmedIndex(b, at, at + |x|, true), TrimmedIndex(x, 0, |x|, true);
    assert i.start == at + j.start && i.len == j.len;
    SliceOfStanding(b, at, x, j);
  }

  lemma SliceOfStanding(b: string, at: nat, x: string, j: Index)
    requires Stands(b, at, x) && Within(x, j)
    ensures Within(b, Index(at + j.start, j.len)) && Slice(b, Index(at + j.start, j.len)) == Slice(x, j)
  {
    var s := b[at + j.start..at + j.start + j.len];
    forall k | 0 <= k < j.len ensures s[k] == x[j.start + k] {
      StandsChar(b, at, x, j.start + k);
    }
  }

  lemma LineLength(line: Line)
    ensures |LineText(line)| == |line.name| + 1 + |line.value|
  {
  }

  lemma LinePlaces(b: string, at: nat, line: Line)
    requires Stands(b, at, LineText(line) + CRLF)
    ensures Stands(b, at, line.name + ":") && Stands(b, at, line.name)
    ensures Stands(b, at + |line.name| + 1, line.value)
    ensures at + |LineText(line)| + 2 <= |b|
  {
    hide Stands;
    StandsParts(b, at, LineText(line), CRLF);
    StandsParts(b, at, line.name + ":", line.value);
    StandsParts(b, at, line.name, ":");
    StandsLength(b, at, LineText(line) + CRLF);
  }

  lemma StandsLength(b: string, at: nat, x: string)
    requires Stands(b, at, x)
    ensures at + |x| <= |b|
  {
  }

  /** Where a header line's name and value are found. */
  function HeaderAt(b: string, at: nat, line: Line): Header
    requires at + |LineText(line)| <= |b|
  {
    Header(TrimmedIndex(b, at, at + |line.name|, true),
           TrimmedIndex(b, at + |line.name| + 1, at + |LineText(line)|, true))
  }

  lemma HeaderTexts(b: string, at: nat, line: Line)
    requires Stands(b, at, LineText(line) + CRLF)
    ensures at + |LineText(line)| + 2 <= |b|
    ensures var h := HeaderAt(b, at, line);
      Within(b, h.name) && Within(b, h.value) && Slice(b, h.name) == TrimOne(line.name)
        && Slice(b, h.value) == TrimOne(line.value)
  {
    hide Stands, TrimmedIndex, TrimOne;
    LinePlaces(b, at, line);
    TrimInPlace(b, at, line.name);
    TrimInPlace(b, at + |line.name| + 1, line.value);
    LineLength(line);
  }

  lemma ReadLineParts(b: string, at: nat, line: Line)
    requires Stands(b, at, LineText(line) + CRLF) && IsHeader(line)
    ensures at + |LineText(line)| + 2 <= |b|
    ensures ReadTo(b, at, ":", true) == Some(Read(at + |line.name| + 1, HeaderAt(b, at, line).name))
    ensures ReadTo(b, at + |line.name| + 1, CRLF, true)
      == Some(Read(at + |LineText(line)| + 2, HeaderAt(b, at, line).value))
  {
    hide Find, Stands, TrimmedIndex, TrimOne, OneLine, IsLength;
    LinePlaces(b, at, line);
    ReadText(b, at, line.name, ':', true);
    LineLength(line);
    LineEnd(b, at, LineText(line), at + |line.name| + 1);
  }

  lemma LengthRead(b: string, at: nat, line: Line, length: nat)
    requires Stands(b, at, LineText(line) + CRLF) && LineFits(line)
    ensures at + |LineText(line)| + 2 <= |b|
    ensures var h := HeaderAt(b, at, line);
      LengthPlain(b, h) && LengthSet(b, h.name, h.value, length) == LengthAfter(line, length)
  {
    hide ReadTo, StrToLL, CString, Stands, HeaderAt, TrimOne, OneLine, Slice, HasText;
    HeaderTexts(b, at, line);
    var h := HeaderAt(b, at, line);
    if IsLength(line) {
      ReadLineParts(b, at, line);
      AfterValue(b, at + |line.name| + 1);
      LengthSettled(b, h.name, h.value, length);
    }
  }

  /** A header line read in place, whatever length it sets. */
  lemma AnyLineRead(b: string, req: Req, line: Line)
    requires Sane(b, req) && Stands(b, req.parsePoint, LineText(line) + CRLF) && IsHeader(line)
    ensures !MatchAt(b, req.parsePoint, CRLF)
    ensures req.parsePoint + |LineText(line)| + 2 <= |b|
    ensures var r := HeaderLine(b, req); var h := HeaderAt(b, req.parsePoint, line);
      && Within(b, h.name) && Within(b, h.value)
      && r.Next? && r.req == req.(
           parsePoint := req.parsePoint + |LineText(line)| + 2,
           contentLength := LengthSet(b, h.name, h.value, req.contentLength),
           headers := req.headers + [h])
  {
    hide Find, ReadTo, StrToLL, CString, LengthSet, Stands, HeaderAt, TrimOne, OneLine, MatchAt, Slice;
    var at, s := req.parsePoint, LineText(line);
    assert OneLine(s);
    LineEnd(b, at, s, at);
    LineLength(line);
    NotAtStart(b, at, |s|);
    ReadLineParts(b, at, line);
    HeaderTexts(b, at, line);
  }

  /** A header line read in place. */
  lemma LineRead(b: string, req: Req, line: Line)
    requires Sane(b, req) && Stands(b, req.parsePoint, LineText(line) + CRLF) && LineFits(line)
    ensures !MatchAt(b, req.parsePoint, CRLF)
    ensures req.parsePoint + |LineText(line)| + 2 <= |b|
    ensures var r := HeaderLine(b, req);
      && r.Next? && r.req == req.(
           parsePoint := req.parsePoint + |LineText(line)| + 2,
           contentLength := LengthAfter(line, req.contentLength),
           headers := req.headers + [HeaderAt(b, req.parsePoint, line)])
      && LengthPlain(b, HeaderAt(b, req.parsePoint, line))
  {
    hide LengthSet, Stands, HeaderAt, HasText, LengthPlain, MatchAt, IsHeader, IsLength, HeaderLine, LengthAfter;
    AnyLineRead(b, req, line);
    LengthRead(b, req.parsePoint, line, req.contentLength);
  }

  lemma NotAtStart(b: string, at: nat, n: nat)
    requires Find(b, at, CRLF) == Some(at + n) && n > 0
    ensures !MatchAt(b, at, CRLF)
  {
    FindExactly(b, at, CRLF);
  }

  // ----- all header lines

  /** Where the headers of consecutive lines are found. */
  function HeadersAt(b: string, at: nat, lines: seq<Line>): (hs: seq<Header>)
    requires at + |LinesText(lines)| <= |b|
    ensures |hs| == |lines|
    decreases |lines|
  {
    if lines == [] then []
    else
      LinesLength(lines);
      [HeaderAt(b, at, lines[0])] + HeadersAt(b, at + |LineText(lines[0])| + 2, lines[1..])
  }

  lemma LinesLength(lines: seq<Line>)
    requires lines != []
    ensures |LinesText(lines)| == |LineText(lines[0])| + 2 + |LinesText(lines[1..])|
  {
  }

  ghost predicate LinesFit(lines: seq<Line>) {
    forall i :: 0 <= i < |lines| ==> LineFits(lines[i])
  }

  lemma FirstFits(lines: seq<Line>)
    requires lines != [] && LinesFit(lines)
    ensures LineFits(lines[0]) && LinesFit(lines[1..])
  {
  }

  lemma LinesStand(b: string, at: nat, lines: seq<Line>, rest: string)
    requires lines != [] && Stands(b, at, LinesText(lines) + rest)
    ensures Stands(b, at, LineText(lines[0]) + CRLF)
    ensures Stands(b, at + |LineText(lines[0])| + 2, LinesText(lines[1..]) + rest)
  {
    hide Stands, LineText;
    var x, y := LineText(lines[0]) + CRLF, LinesText(lines[1..]) + rest;
    assert LinesText(lines) + rest == x + y;
    StandsParts(b, at, x, y);
  }

  lemma LengthsPlainMore(b: string, headers: seq<Header>, header: Header)
    requires LengthsPlain(b, headers) && LengthPlain(b, header)
    ensures LengthsPlain(b, headers + [header])
  {
  }

  /** All header lines and the empty line are there. */
  lemma {:induction false} HeadersWhole(b: string, req: Req, lines: seq<Line>)
    requires Sane(b, req) && !req.headersComplete && LinesFit(lines) && LengthsPlain(b, req.headers)
    requires Stands(b, req.parsePoint, LinesText(lines) + CRLF)
    ensures req.parsePoint + |LinesText(lines)| + 2 <= |b|
    ensures var r := Headers(b, req);
      && r == Next(req.(
           parsePoint := req.parsePoint + |LinesText(lines)| + 2,
           contentLength := Declared(lines, req.contentLength),
           headers := req.headers + HeadersAt(b, req.parsePoint, lines),
           headersComplete := true))
      && LengthsPlain(b, r.req.headers)
    decreases |lines|
  {
    hide Stands, LinesFit, LengthAfter, HeaderAt, HeaderLine, LengthsPlain, LineText, MatchAt, LengthPlain;
    StandsLength(b, req.parsePoint, LinesText(lines) + CRLF);
    if lines == [] {
      assert LinesText(lines) + CRLF == CRLF;
      StandsMatches(b, req.parsePoint);
      assert req.headers + [] == req.headers;
    } else {
      var line := lines[0];
      FirstFits(lines);
      LinesStand(b, req.parsePoint, lines, CRLF);
      LinesLength(lines);
      LineRead(b, req, line);
      var next := HeaderLine(b, req).req;
      var header := HeaderAt(b, req.parsePoint, line);
      LengthsPlainMore(b, req.headers, header);
      HeadersWhole(b, next, lines[1..]);
      var more := HeadersAt(b, next.parsePoint, lines[1..]);
      assert (req.headers + [header]) + more == req.headers + ([header] + more);
    }
  }

  lemma StandsMatches(b: string, at: nat)
    requires Stands(b, at, CRLF)
    ensures MatchAt(b, at, CRLF)
  {
  }

  lemma StandsInPrefix(p: string, b: string, at: nat, x: string)
    requires p <= b && Stands(b, at, x) && at + |x| <= |p|
    ensures Stands(p, at, x)
  {
    assert p[at..at + |x|] == b[at..at + |x|];
  }

  /** The buffer ends before the empty line does. */
  lemma {:induction false} HeadersPart(p: string, b: string, req: Req, lines: seq<Line>)
    requires p <= b && Sane(p, req) && !req.headersComplete && LinesFit(lines) && LengthsPlain(p, req.headers)
    requires Stands(b, req.parsePoint, LinesText(lines) + CRLF)
    requires |p| < req.parsePoint + |LinesText(lines)| + 2
    ensures var r := Headers(p, req);
      r.Stop? && r.answer == Incomplete && LengthsPlain(p, r.req.headers)
    decreases |lines|
  {
    hide Stands, LinesFit, LengthAfter, HeaderAt, LengthsPlain, LineText, LengthSet, ReadTo, Find, MatchAt;
    var at := req.parsePoint;
    if lines == [] {
      assert LinesText(lines) + CRLF == "" + CRLF;
      NoLineEnd(p, b, at, "");
    } else {
      var line := lines[0];
      FirstFits(lines);
      LinesStand(b, at, lines, CRLF);
      LinesLength(lines);
      if |p| < at + |LineText(line)| + 2 {
        NoLineEnd(p, b, at, LineText(line));
      } else {
        StandsInPrefix(p, b, at, LineText(line) + CRLF);
        LineRead(p, req, line);
        LengthsPlainMore(p, req.headers, HeaderAt(p, at, line));
        HeadersPart(p, b, HeaderLine(p, req).req, lines[1..]);
      }
    }
  }

  // ----- the request line

  lemma VerbIsPlain(verb: string)
    requires IsMethodName(verb)
    ensures ' ' !in verb && TrimOne(verb) == verb
    ensures MethodOf(verb) != NoMethod && MethodName(MethodOf(verb)) == verb
  {
    MethodsAre(verb);
  }

  lemma FirstLineRead(b: string, r: Request)
    requires WellFormed(r) && Stands(b, 0, FirstLine(r) + CRLF)
    ensures |FirstLine(r)| + 2 <= |b|
    ensures var uri := TrimmedIndex(b, |r.verb| + 1, |r.verb| + 1 + |r.uri|, true);
      var at := |r.verb| + |r.uri| + 2;
      var version := TrimmedIndex(b, at, at + |r.version|, true);
      && Slice(b, uri) == TrimOne(r.uri) && Slice(b, version) == TrimOne(r.version)
      && Within(b, uri) && Within(b, version) && at <= |b|
      && var split := SplitUri(b, Blank.(parsePoint := at, verb := MethodOf(r.verb), uri := uri), |r.verb| + 1);
        RequestLine(b, Blank)
          == if split.Stop? then split else Next(split.req.(parsePoint := |FirstLine(r)| + 2, version := version))
  {
    hide Find, ReadTo, Stands, TrimmedIndex, TrimOne, OneLine, SplitUri, MethodOf, MatchAt;
    var verb, uri, version := r.verb, r.uri, r.version;
    FirstLineParts(b, r);
    VerbIsPlain(verb);
    ReadText(b, 0, verb, ' ', true);
    TrimInPlace(b, 0, verb);
    ReadText(b, |verb| + 1, uri, ' ', true);
    TrimInPlace(b, |verb| + 1, uri);
    LineEnd(b, 0, FirstLine(r), 0);
    LineEnd(b, 0, FirstLine(r), |verb| + |uri| + 2);
    ReadVersion(b, |verb| + |uri| + 2, |FirstLine(r)|);
    TrimInPlace(b, |verb| + |uri| + 2, version);
  }

  lemma ReadVersion(b: string, at: nat, j: nat)
    requires at <= j && Find(b, at, CRLF) == Some(j)
    ensures j + 2 <= |b| && ReadTo(b, at, CRLF, true) == Some(Read(j + 2, TrimmedIndex(b, at, j, true)))
  {
    FindExactly(b, at, CRLF);
  }

  lemma FirstLineParts(b: string, r: Request)
    requires Stands(b, 0, FirstLine(r) + CRLF)
    ensures |FirstLine(r)| == |r.verb| + |r.uri| + |r.version| + 2 && |FirstLine(r)| + 2 <= |b|
    ensures Stands(b, 0, r.verb + " ") && Stands(b, 0, r.verb)
    ensures Stands(b, |r.verb| + 1, r.uri + " ") && Stands(b, |r.verb| + 1, r.uri)
    ensures Stands(b, |r.verb| + |r.uri| + 2, r.version)
  {
    StandsLength(b, 0, FirstLine(r) + CRLF);
    hide Stands;
    var x, y, z := r.verb + " ", r.uri + " ", r.version + CRLF;
    ThreeParts(x, r.uri, r.version);
    StandsParts(b, 0, x, y + z);
    StandsParts(b, |x|, y, z);
    StandsParts(b, |x| + |y|, r.version, CRLF);
    StandsParts(b, 0, r.verb, " ");
    StandsParts(b, |x|, r.uri, " ");
  }

  lemma ThreeParts(x: string, y: string, z: string)
    ensures x + y + " " + z + CRLF == x + ((y + " ") + (z + CRLF))
  {
  }

  lemma SplitUriGoesOn(b: string, req: Req, from: nat)
    requires Sane(b, req) && from <= req.uri.start && req.uri.start + req.uri.len < req.parsePoint
    ensures var r := SplitUri(b, req, from);
      r.Next? && r.req == req.(path := r.req.path, parameters := r.req.parameters) && Sane(b, r.req)
  {
    hide Find, ReadTo, QueryFrom;
    var end := req.uri.start + req.uri.len;
    var path := ReadTo(b[..end], from, "?", false);
    if path.Some? {
      NoCrashBefore(b, end, req.parsePoint, path.value.next);
    }
  }

  /** What the request object says after the request line. */
  predicate LineDone(b: string, req: Req, r: Request) {
    && Sane(b, req) && Within(b, req.uri) && Within(b, req.version)
    && MethodName(req.verb) == r.verb && Slice(b, req.uri) == TrimOne(r.uri)
    && Slice(b, req.version) == TrimOne(r.version)
    && req.parsePoint == |FirstLine(r)| + 2 && req.headers == [] && !req.headersComplete && !req.complete
    && req.contentLength == 0 && req.content == Index(0, 0)
  }

  lemma RequestLineDone(b: string, r: Request)
    requires WellFormed(r) && Stands(b, 0, FirstLine(r) + CRLF)
    ensures RequestLine(b, Blank).Next? && LineDone(b, RequestLine(b, Blank).req, r)
  {
    hide Stands, RequestLine, SplitUri, TrimOne, MethodOf, MethodName, FirstLine, Slice;
    VerbIsPlain(r.verb);
    hide WellFormed;
    FirstLineRead(b, r);
    var uri := TrimmedIndex(b, |r.verb| + 1, |r.verb| + 1 + |r.uri|, true);
    var req := Blank.(parsePoint := |r.verb| + |r.uri| + 2, verb := MethodOf(r.verb), uri := uri);
    SplitUriGoesOn(b, req, |r.verb| + 1);
  }

  /** The pieces of a rendered request. */
  lemma RenderParts(r: Request)
    ensures var b := Render(r); var head := LinesText(r.lines);
      && Stands(b, 0, FirstLine(r) + CRLF)
      && Stands(b, |FirstLine(r)| + 2, head + CRLF)
      && Stands(b, |FirstLine(r)| + |head| + 4, r.body)
      && |b| == |FirstLine(r)| + |head| + 4 + |r.body|
  {
    hide Stands, FirstLine, LinesText;
    var b, x, y := Render(r), FirstLine(r) + CRLF, LinesText(r.lines) + CRLF;
    assert b == x + (y + r.body);
    WholeStands(b);
    StandsParts(b, 0, x, y + r.body);
    StandsParts(b, |x|, y, r.body);
  }

  lemma WholeStands(b: string)
    ensures Stands(b, 0, b)
  {
    assert b[0..|b|] == b;
  }

  lemma BlankIsSane(b: string)
    ensures Sane(b, Blank)
  {
  }

  // ----- prefixes and the whole

  /** Every proper prefix of a well-formed request is answered with `Incomplete`. */
  lemma PrefixIsIncomplete(r: Request, p: string)
    requires WellFormed(r) && p <= Render(r) && p != Render(r)
    ensures Sane(p, Blank)
    ensures Parse(p, Blank).answer == Incomplete && LengthsPlain(p, Parse(p, Blank).req.headers)
  {
    hide Stands, WellFormed, LineFits, FirstLine, LinesText, RequestLine, Headers, LengthsPlain, Find, Declared,
      HeadersAt, LineDone;
    var b := Render(r);
    var first, head := FirstLine(r), LinesText(r.lines);
    RenderParts(r);
    WellFormedParts(r);
    BlankIsSane(p);
    NoHeaders(p);
    ShorterPrefix(p, b);
    if |p| < |first| + 2 {
      NoLineEnd(p, b, 0, first);
      NoRequestLine(p);
    } else {
      StandsInPrefix(p, b, 0, first + CRLF);
      RequestLineDone(p, r);
      var req := RequestLine(p, Blank).req;
      LineDoneParts(p, req, r);
      if |p| < |first| + |head| + 4 {
        HeadersPart(p, b, req, r.lines);
      } else {
        StandsInPrefix(p, b, |first| + 2, head + CRLF);
        HeadersWhole(p, req, r.lines);
      }
    }
  }

  lemma ShorterPrefix(p: string, b: string)
    requires p <= b && p != b
    ensures |p| < |b|
  {
    assert p == b[..|p|] && b[..|b|] == b;
  }

  lemma WellFormedParts(r: Request)
    requires WellFormed(r)
    ensures OneLine(FirstLine(r)) && LinesFit(r.lines) && |r.body| == Declared(r.lines, 0)
      && IsMethodName(r.verb)
  {
  }

  lemma LineDoneParts(b: string, req: Req, r: Request)
    requires LineDone(b, req, r)
    ensures Sane(b, req) && req.parsePoint == |FirstLine(r)| + 2 && !req.headersComplete && req.contentLength == 0
    ensures req.headers == [] && LengthsPlain(b, req.headers) && MethodName(req.verb) == r.verb
  {
  }

  lemma NoHeaders(b: string)
    ensures LengthsPlain(b, [])
  {
  }

  lemma NoRequestLine(p: string)
    requires Find(p, 0, CRLF) == None
    ensures Sane(p, Blank) && RequestLine(p, Blank) == Stop(Incomplete, Blank)
  {
  }

  // ----- the whole request

  /** A POST whose first Content-Type is that of forms. */
  predicate SendsForm(r: Request) {
    r.verb == "POST" && FormLines(r.lines)
  }

  predicate FormLines(lines: seq<Line>) {
    if lines == [] then false
    else if SameIgnoringCase("Content-Type", TrimOne(lines[0].name)) then
      SameIgnoringCase("application/x-www-form-urlencoded", TrimOne(lines[0].value))
    else FormLines(lines[1..])
  }

  /** The headers found are those of the lines. */
  ghost predicate HeadersSay(b: string, headers: seq<Header>, lines: seq<Line>) {
    |headers| == |lines| && forall i :: 0 <= i < |lines| ==> HeaderSays(b, headers[i], lines[i])
  }

  ghost predicate HeaderSays(b: string, header: Header, line: Line) {
    && Within(b, header.name) && Within(b, header.value)
    && Slice(b, header.name) == TrimOne(line.name) && Slice(b, header.value) == TrimOne(line.value)
  }

  lemma {:induction false} HeadersAtSay(b: string, at: nat, lines: seq<Line>)
    requires Stands(b, at, LinesText(lines) + CRLF)
    ensures at + |LinesText(lines)| <= |b| && HeadersSay(b, HeadersAt(b, at, lines), lines)
    decreases |lines|
  {
    hide Stands, LineText, TrimOne, TrimmedIndex;
    StandsLength(b, at, LinesText(lines) + CRLF);
    if lines != [] {
      LinesStand(b, at, lines, CRLF);
      LinesLength(lines);
      HeaderTexts(b, at, lines[0]);
      HeadersAtSay(b, at + |LineText(lines[0])| + 2, lines[1..]);
      var more := HeadersAt(b, at + |LineText(lines[0])| + 2, lines[1..]);
      forall i | 0 <= i < |lines| ensures HeaderSays(b, HeadersAt(b, at, lines)[i], lines[i]) {
        if i > 0 {
          assert HeaderSays(b, more[i - 1], lines[1..][i - 1]);
        }
      }
    }
  }

  lemma {:induction false} FormIsFound(b: string, headers: seq<Header>, lines: seq<Line>)
    requires HeadersSay(b, headers, lines)
    ensures forall i :: 0 <= i < |headers| ==> Within(b, headers[i].name) && Within(b, headers[i].value)
    ensures var h := GetHeader(b, headers, "Content-Type");
      FormLines(lines) <==>
        h.Some? && Within(b, h.value.value)
        && CaseCmp("application/x-www-form-urlencoded", b, h.value.value)
    decreases |lines|
  {
    hide SameIgnoringCase, TrimOne, Slice;
    assert forall i :: 0 <= i < |headers| ==> HeaderSays(b, headers[i], lines[i]);
    if lines != [] {
      assert HeaderSays(b, headers[0], lines[0]);
      FormIsFound(b, headers[1..], lines[1..]);
    }
  }

  /** What a complete parse says of the request. */
  ghost predicate Says(b: string, req: Req, r: Request) {
    && Within(b, req.uri) && Within(b, req.version) && Within(b, req.content)
    && req.complete && req.headersComplete && req.parsePoint == |b|
    && MethodName(req.verb) == r.verb && Slice(b, req.uri) == TrimOne(r.uri)
    && Slice(b, req.version) == TrimOne(r.version)
    && HeadersSay(b, req.headers, r.lines)
    && req.contentLength == |r.body| && Slice(b, req.content) == r.body
  }

  /** The request object before the body is looked at. */
  ghost predicate HeadDone(b: string, req: Req, r: Request) {
    && Sane(b, req) && Within(b, req.uri) && Within(b, req.version)
    && req.headersComplete && req.parsePoint + |r.body| == |b| && Stands(b, req.parsePoint, r.body)
    && MethodName(req.verb) == r.verb && Slice(b, req.uri) == TrimOne(r.uri)
    && Slice(b, req.version) == TrimOne(r.version)
    && HeadersSay(b, req.headers, r.lines)
    && req.contentLength == |r.body| && req.content == Index(0, 0)
  }

  lemma HeadIsDone(r: Request) returns (req: Req)
    requires WellFormed(r)
    ensures var b := Render(r);
      && Sane(b, Blank) && HeadDone(b, req, r) && LengthsPlain(b, req.headers)
      && Parse(b, Blank) == Body(b, req)
      && RequestLine(b, Blank).Next? && req.path == RequestLine(b, Blank).req.path
      && req.parameters == RequestLine(b, Blank).req.parameters
  {
    hide Stands, WellFormed, LineFits, FirstLine, LinesText, RequestLine, Headers, LengthsPlain, Declared, HeadersAt,
      Body, Slice, TrimOne, Within, HeadersSay;
    var b := Render(r);
    RenderParts(r);
    WellFormedParts(r);
    BlankIsSane(b);
    RequestLineDone(b, r);
    var line := RequestLine(b, Blank).req;
    LineDoneParts(b, line, r);
    HeadersWhole(b, line, r.lines);
    req := Headers(b, line).req;
    HeadersAtSay(b, |FirstLine(r)| + 2, r.lines);
    assert [] + HeadersAt(b, line.parsePoint, r.lines) == HeadersAt(b, line.parsePoint, r.lines);
  }

  /** The whole of a well-formed request is answered with `Complete` and all its parts,
      except that a form whose body ends in an equal sign makes the parser follow a null
      pointer. */
  lemma WholeIsComplete(r: Request)
    requires WellFormed(r)
    ensures Sane(Render(r), Blank)
    ensures var answer := Parse(Render(r), Blank);
      if SendsForm(r) && r.body != "" && r.body[|r.body| - 1] == '=' then answer.answer == Crash
      else answer.answer == Complete && Says(Render(r), answer.req, r)
  {
    hide Stands, WellFormed, RequestLine, Parse, Slice, TrimOne, HeadersSay, FormLines, GetHeader, CaseCmp, QueryFrom,
      LengthsPlain;
    var b := Render(r);
    var req := HeadIsDone(r);
    BodyDone(b, req, r);
  }

  lemma BodyDone(b: string, req: Req, r: Request)
    requires HeadDone(b, req, r)
    ensures var answer := Body(b, req);
      if SendsForm(r) && r.body != "" && r.body[|r.body| - 1] == '=' then answer.answer == Crash
      else answer.answer == Complete && Says(b, answer.req, r)
  {
    hide Stands, TrimOne, HeadersSay, FormLines, GetHeader, CaseCmp, QueryFrom, MethodOf;
    var taken := TakeContent(b, req);
    FormIsFound(b, req.headers, r.lines);
    assert IsForm(b, taken) <==> SendsForm(r);
    StandsSlice(b, req.parsePoint, r.body);
    if SendsForm(r) {
      if r.body == "" {
        NoFields(b, taken.parsePoint);
      } else {
        QueryCrashesExactly(b, |b|, req.parsePoint);
        StandsChar(b, req.parsePoint, r.body, |r.body| - 1);
      }
    }
  }

  lemma StandsSlice(b: string, at: nat, x: string)
    requires Stands(b, at, x)
    ensures at + |x| <= |b| && Slice(b, Index(at, |x|)) == x && Slice(b, Index(0, 0)) == ""
  {
  }

  lemma NoFields(b: string, point: nat)
    ensures QueryFrom(b, 0, point, 0) == Some([])
  {
  }

  // ----- growing prefixes

  /** Calls on growing prefixes of `b`, each answered with `Incomplete`, lead from one state to another. */
  ghost predicate Chain(b: string, cuts: seq<nat>, from: Req, to: Req)
    decreases |cuts|
  {
    if cuts == [] then to == from
    else
      && cuts[0] <= |b| && Sane(b[..cuts[0]], from)
      && Parse(b[..cuts[0]], from).answer == Incomplete
      && Chain(b, cuts[1..], Parse(b[..cuts[0]], from).req, to)
  }

  ghost predicate Ascending(from: nat, cuts: seq<nat>, to: nat)
    decreases |cuts|
  {
    cuts == [] || (from <= cuts[0] < to && Ascending(cuts[0], cuts[1..], to))
  }

  lemma {:induction false} ChainFrom(r: Request, c: nat, cuts: seq<nat>) returns (req: Req)
    requires WellFormed(r) && c < |Render(r)| && Ascending(c, cuts, |Render(r)|)
    ensures var b := Render(r);
      && Sane(b[..c], Blank) && Sane(b, Blank) && Sane(b, req)
      && Chain(b, cuts, Parse(b[..c], Blank).req, req) && Parse(b, req) == Parse(b, Blank)
    decreases |cuts|
  {
    hide WellFormed, Parse, LengthsPlain, Render, Sane;
    var b := Render(r);
    PrefixIsIncomplete(r, b[..c]);
    if cuts == [] {
      req := Parse(b[..c], Blank).req;
      Resume(b[..c], b, Blank);
    } else {
      var d := cuts[0];
      req := ChainFrom(r, d, cuts[1..]);
      PrefixIsIncomplete(r, b[..d]);
      assert b[..c] <= b[..d];
      Resume(b[..c], b[..d], Blank);
    }
  }

  /** However a well-formed request arrives, every call before the last is answered with
      `Incomplete`, and the last gives what one call on the whole request would have given. */
  lemma GrowingPrefixes(r: Request, cuts: seq<nat>) returns (req: Req)
    requires WellFormed(r) && Ascending(0, cuts, |Render(r)|)
    ensures var b := Render(r);
      Chain(b, cuts, Blank, req) && Sane(b, req) && Sane(b, Blank) && Parse(b, req) == Parse(b, Blank)
  {
    hide WellFormed, Parse, Chain, Sane;
    RenderParts(r);
    req := ChainFrom(r, 0, cuts);
    assert Render(r)[..0] == "";
    NothingParsed();
  }

  lemma NothingParsed()
    ensures Sane("", Blank) && Parse("", Blank) == Stop(Incomplete, Blank)
  {
  }

  // ----- parameters

  /** A URI is a path, and with `?` a form after it. */
  predicate IsUri(uri: string, path: string, query: bool, es: seq<Field>) {
    && '?' !in path && TrimOne(uri) == uri && TrimmedIndex(uri, 0, |uri|, true) == Index(0, |uri|)
    && uri == (if query then path + "?" + FormText(es) else path)
    && (!query ==> es == [])
  }

  lemma UriSplits(b: string, req: Req, at: nat, uri: string, path: string, query: bool, es: seq<Field>, fs: seq<Field>)
    requires Sane(b, req) && req.parameters == [] && IsUri(uri, path, query, es) && EncodesAll(es, fs)
    requires Stands(b, at, uri) && req.uri == Index(at, |uri|) && at + |uri| < req.parsePoint
    ensures var r := SplitUri(b, req, at);
      && r.Next? && r.req.parameters == ParamsOf(fs)
      && Within(b, r.req.path) && Slice(b, r.req.path) == path
  {
    hide ReadTo, QueryFrom, EncodesAll, FormText, ParamsOf, Stands, SplitUri, TrimOne, TrimmedIndex;
    StandsText(b, at, uri);
    var end := at + |uri|;
    if query {
      PathRead(b, at, path, FormText(es));
      QueryOfForm(b, at + |path| + 1, end, req.parsePoint, es, fs);
      SplitWithQuery(b, req, at, Read(at + |path| + 1, Index(at, |path|)), ParamsOf(fs));
    } else {
      SliceLacks(b, at, path, end, '?');
      ReadToNothing(b[..end], at, '?', false);
      NoParams(es, fs);
      SplitPathOnly(b, req, at);
    }
  }

  lemma SplitWithQuery(b: string, req: Req, at: nat, read: Read, params: seq<Param>)
    requires Sane(b, req) && req.parameters == [] && at <= req.uri.start && req.uri.start + req.uri.len < req.parsePoint
    requires ReadTo(b[..req.uri.start + req.uri.len], at, "?", false) == Some(read)
    requires QueryFrom(b, req.uri.start + req.uri.len, req.parsePoint, read.next) == Some(params)
    ensures SplitUri(b, req, at) == Next(req.(path := read.index, parameters := params))
  {
    hide ReadTo, QueryFrom;
    assert [] + params == params;
  }

  lemma SplitPathOnly(b: string, req: Req, at: nat)
    requires Sane(b, req) && at <= req.uri.start && req.uri.start + req.uri.len < req.parsePoint
    requires ReadTo(b[..req.uri.start + req.uri.len], at, "?", false) == None
    ensures SplitUri(b, req, at) == Next(req.(path := req.uri))
  {
    hide ReadTo, QueryFrom;
  }

  /** A path and what follows its question mark, in place. */
  lemma PathRead(b: string, at: nat, path: string, form: string)
    requires Stands(b, at, path + "?" + form) && '?' !in path
    ensures var end := at + |path| + 1 + |form|;
      && end <= |b| && b[at..at + |path|] == path && b[at + |path| + 1..end] == form
      && ReadTo(b[..end], at, "?", false) == Some(Read(at + |path| + 1, Index(at, |path|)))
  {
    hide ReadTo, Stands;
    var end := at + |path| + 1 + |form|;
    assert path + "?" + form == path + ("?" + form);
    StandsParts(b, at, path, "?" + form);
    StandsParts(b, at + |path|, "?", form);
    StandsText(b, at, path);
    StandsText(b, at + |path|, "?");
    StandsText(b, at + |path| + 1, form);
    SliceLacks(b, at, path, end, '?');
    assert b[..end][at + |path|] == b[at + |path|..at + |path| + 1][0];
    ReadToChar(b[..end], at, '?', false, at + |path|);
  }

  lemma NoParams(es: seq<Field>, fs: seq<Field>)
    requires es == [] && EncodesAll(es, fs)
    ensures ParamsOf(fs) == []
  {
  }

  lemma UriParameters(b: string, r: Request, path: string, query: bool, es: seq<Field>, fs: seq<Field>)
    requires WellFormed(r) && Stands(b, 0, FirstLine(r) + CRLF)
    requires IsUri(r.uri, path, query, es) && EncodesAll(es, fs)
    ensures Sane(b, Blank)
    ensures var line := RequestLine(b, Blank);
      && line.Next? && line.req.parameters == ParamsOf(fs)
      && Within(b, line.req.path) && Slice(b, line.req.path) == path
  {
    hide Stands, RequestLine, SplitUri, MethodOf, FirstLine, WellFormed, Slice, EncodesAll, FormText, ParamsOf;
    BlankIsSane(b);
    FirstLineRead(b, r);
    FirstLineParts(b, r);
    var at := |r.verb| + 1;
    UntrimmedInPlace(b, at, r.uri);
    var req := Blank.(parsePoint := |r.verb| + |r.uri| + 2, verb := MethodOf(r.verb), uri := Index(at, |r.uri|));
    UriSplits(b, req, at, r.uri, path, query, es, fs);
  }

  lemma UntrimmedInPlace(b: string, at: nat, x: string)
    requires Stands(b, at, x) && TrimmedIndex(x, 0, |x|, true) == Index(0, |x|)
    ensures TrimmedIndex(b, at, at + |x|, true) == Index(at, |x|)
  {
    if x != "" {
      StandsChar(b, at, x, 0);
      StandsChar(b, at, x, |x| - 1);
    }
  }

  ghost predicate BodyEncodes(r: Request, es: seq<Field>, fs: seq<Field>) {
    SendsForm(r) ==> r.body == FormText(es) && EncodesAll(es, fs) && (es != [] ==> es[|es| - 1].value != "")
  }

  lemma BodyParameters(b: string, req: Req, r: Request, es: seq<Field>, fs: seq<Field>)
    requires HeadDone(b, req, r) && BodyEncodes(r, es, fs)
    ensures var answer := Body(b, req);
      && answer.answer == Complete && answer.req.path == req.path
      && answer.req.parameters == req.parameters + if SendsForm(r) then ParamsOf(fs) else []
  {
    hide Stands, TrimOne, HeadersSay, FormLines, GetHeader, CaseCmp, QueryFrom, MethodOf, FormText, EncodesAll,
      ParamsOf, Slice;
    var taken := TakeContent(b, req);
    FormIsFound(b, req.headers, r.lines);
    assert IsForm(b, taken) <==> SendsForm(r);
    if !SendsForm(r) {
      assert req.parameters + [] == req.parameters;
    } else if r.body == "" {
      NoFields(b, taken.parsePoint);
      EmptyForm(es, fs);
    } else {
      StandsText(b, req.parsePoint, r.body);
      QueryOfForm(b, req.parsePoint, |b|, |b|, es, fs);
    }
  }

  /** A form sent in the URI, in the body or in both is decoded to its fields, in order. */
  lemma FormsAreDecoded(r: Request, path: string, query: bool, es: seq<Field>, fs: seq<Field>, bodyEs: seq<Field>,
        bodyFs: seq<Field>)
    requires WellFormed(r) && IsUri(r.uri, path, query, es) && EncodesAll(es, fs) && BodyEncodes(r, bodyEs, bodyFs)
    ensures Sane(Render(r), Blank)
    ensures var answer := Parse(Render(r), Blank);
      && answer.answer == Complete && Within(Render(r), answer.req.path) && Slice(Render(r), answer.req.path) == path
      && answer.req.parameters == ParamsOf(fs) + if SendsForm(r) then ParamsOf(bodyFs) else []
  {
    hide Stands, WellFormed, RequestLine, Parse, Slice, LengthsPlain, FirstLine, LinesText, EncodesAll, ParamsOf,
      IsUri, HeadDone, Body, BodyEncodes, Render, SendsForm, Within;
    var b := Render(r);
    RenderParts(r);
    UriParameters(b, r, path, query, es, fs);
    var req := HeadIsDone(r);
    BodyParameters(b, req, r, bodyEs, bodyFs);
  }

  lemma StandsText(b: string, at: nat, x: string)
    requires Stands(b, at, x)
    ensures at + |x| <= |b| && b[at..at + |x|] == x
  {
  }

  lemma EmptyForm(es: seq<Field>, fs: seq<Field>)
    requires FormText(es) == "" && EncodesAll(es, fs)
    ensures ParamsOf(fs) == []
  {
    assert es != [] ==> |FormText(es)| >= 1;
  }
}
