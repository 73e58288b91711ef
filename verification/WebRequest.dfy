/** The resumable request parser: called again with longer prefixes of one request. */
module WebRequest {
  import opened Text
  import opened WebParse
  import opened WebForm

  const CRLF := "\r\n"
  const WORD := 0x1_0000_0000

  datatype Method = NoMethod | Get | Head | Post | Put | Delete | Trace | Connect

  function MethodOf(s: string): Method {
    if s == "GET" then Get
    else if s == "HEAD" then Head
    else if s == "POST" then Post
    else if s == "PUT" then Put
    else if s == "DELETE" then Delete
    else if s == "TRACE" then Trace
    else if s == "CONNECT" then Connect
    else NoMethod
  }

  /** `iw_web_req_method_str`. */
  function MethodName(verb: Method): string {
    match verb
    case NoMethod => "Not Set"
    case Get => "GET"
    case Head => "HEAD"
    case Post => "POST"
    case Put => "PUT"
    case Delete => "DELETE"
    case Trace => "TRACE"
    case Connect => "CONNECT"
  }

  predicate IsMethodName(s: string) {
    s in {"GET", "HEAD", "POST", "PUT", "DELETE", "TRACE", "CONNECT"}
  }

  /** Exactly seven names are methods, and each method is printed by the name it was read from. */
  lemma MethodsAre(s: string)
    ensures MethodOf(s) != NoMethod <==> IsMethodName(s)
    ensures IsMethodName(s) ==> MethodName(MethodOf(s)) == s
    ensures MethodName(Get) == "GET" && MethodName(Head) == "HEAD" && MethodName(Post) == "POST"
    ensures MethodName(Put) == "PUT" && MethodName(Delete) == "DELETE"
    ensures MethodName(Trace) == "TRACE" && MethodName(Connect) == "CONNECT"
  {
  }

  datatype Header = Header(name: Index, value: Index)

  /** The request object, apart from the buffer. */
  datatype Req = Req(
    parsePoint: nat,
    complete: bool,
    verb: Method,
    version: Index,
    uri: Index,
    path: Index,
    parameters: seq<Param>,
    headers: seq<Header>,
    headersComplete: bool,
    contentLength: nat,
    content: Index)

  /** After `iw_web_req_init`. */
  const Blank := Req(0, false, NoMethod, Index(0, 0), Index(0, 0), Index(0, 0), [], [], false, 0, Index(0, 0))

  /** All places the object refers to are inside the buffer. */
  predicate Sane(b: string, req: Req) {
    && req.parsePoint <= |b| && Within(b, req.content)
    && forall i :: 0 <= i < |req.headers| ==> Within(b, req.headers[i].name) && Within(b, req.headers[i].value)
  }

  /** `Crash` stands for following a null pointer. */
  datatype Answer = Complete | Incomplete | Error | Crash

  /** Parsing goes on, or the call returns. */
  datatype Step = Next(req: Req) | Stop(answer: Answer, req: Req)

  // ----- the request line

  /** The path and the parameters in the URI; `from` is where it starts, untrimmed. */
  function SplitUri(b: string, req: Req, from: nat): (r: Step)
    requires Sane(b, req) && from <= req.uri.start && req.uri.start + req.uri.len < req.parsePoint
    ensures r.Next? ==> Sane(b, r.req) && r.req.parsePoint == req.parsePoint
    ensures r.req.verb == req.verb && (r.Next? || r.answer != Incomplete)
  {
    var end := req.uri.start + req.uri.len;
    var path := ReadTo(b[..end], from, "?", false);
    if path.None? then Next(req.(path := req.uri))
    else
      var params := QueryFrom(b, end, req.parsePoint, path.value.next);
      if params.None? then Stop(Crash, req.(path := path.value.index))
      else Next(req.(path := path.value.index, parameters := req.parameters + params.value))
  }

  function RequestLine(b: string, req: Req): (r: Step)
    requires Sane(b, req)
    ensures r.Next? ==> Sane(b, r.req) && r.req.verb != NoMethod
    ensures r.Stop? && r.answer == Incomplete ==> r.req == req
  {
    if Find(b, 0, CRLF).None? then Stop(Incomplete, req)
    else
      var verb := ReadTo(b, req.parsePoint, " ", true);
      if verb.None? then Stop(Error, req)
      else
        var req1 := req.(parsePoint := verb.value.next, verb := MethodOf(Slice(b, verb.value.index)));
        if req1.verb == NoMethod then Stop(Error, req1)
        else
          var uri := ReadTo(b, req1.parsePoint, " ", true);
          if uri.None? then Stop(Error, req1)
          else
            var split := SplitUri(b, req1.(parsePoint := uri.value.next, uri := uri.value.index), req1.parsePoint);
            if split.Stop? then split else Version(b, split.req)
  }

  function Version(b: string, req: Req): (r: Step)
    requires Sane(b, req)
    ensures r.Next? ==> Sane(b, r.req)
    ensures r.req.verb == req.verb && (r.Next? || r.answer != Incomplete)
  {
    var version := ReadTo(b, req.parsePoint, CRLF, true);
    if version.None? then Stop(Error, req)
    else Next(req.(parsePoint := version.value.next, version := version.value.index))
  }

  // ----- headers

  /** The length a Content-Length header sets; `strtoll` reads on beyond the value if that
      is blank. What follows the buffer is taken for NUL. */
  function LengthSet(b: string, name: Index, value: Index, length: nat): nat
    requires Within(b, name) && Within(b, value)
  {
    if !CaseCmp("Content-Length", b, name) then length
    else
      var n := StrToLL(CString(b[value.start..]), 10);
      if n.None? then length else n.value % WORD
  }

  /** One header line, the empty line excluded. */
  function HeaderLine(b: string, req: Req): (r: Step)
    requires Sane(b, req)
    ensures r.Next? ==> Sane(b, r.req) && r.req.parsePoint > req.parsePoint && |r.req.headers| == |req.headers| + 1
    ensures r.Stop? && r.answer == Incomplete ==> r.req == req
    ensures r.Stop? ==> r.answer == Incomplete || r.answer == Error
    ensures r.req.verb == req.verb
  {
    if Find(b, req.parsePoint, CRLF).None? then Stop(Incomplete, req)
    else
      var name := ReadTo(b, req.parsePoint, ":", true);
      if name.None? then Stop(Error, req)
      else
        var value := ReadTo(b, name.value.next, CRLF, true);
        if value.None? then Stop(Error, req.(parsePoint := name.value.next))
        else Next(req.(
          parsePoint := value.value.next,
          contentLength := LengthSet(b, name.value.index, value.value.index, req.contentLength),
          headers := req.headers + [Header(name.value.index, value.value.index)]))
  }

  function Headers(b: string, req: Req): (r: Step)
    requires Sane(b, req)
    ensures r.Next? ==> Sane(b, r.req) && r.req.headersComplete
    ensures r.Stop? ==> r.answer != Complete && (r.answer == Incomplete ==> Sane(b, r.req))
    ensures r.req.verb == req.verb
    decreases |b| - req.parsePoint
  {
    if req.headersComplete then Next(req)
    else if MatchAt(b, req.parsePoint, CRLF) then Next(req.(parsePoint := req.parsePoint + 2, headersComplete := true))
    else
      var r := HeaderLine(b, req);
      if r.Stop? then r else Headers(b, r.req)
  }

  // ----- the body

  /** `iw_web_req_get_header`: the first header of that name. */
  function GetHeader(b: string, headers: seq<Header>, name: string): Option<Header>
    requires forall i :: 0 <= i < |headers| ==> Within(b, headers[i].name) && Within(b, headers[i].value)
  {
    if headers == [] then None
    else if CaseCmp(name, b, headers[0].name) then Some(headers[0])
    else GetHeader(b, headers[1..], name)
  }

  predicate IsForm(b: string, req: Req)
    requires Sane(b, req)
  {
    var header := GetHeader(b, req.headers, "Content-Type");
    req.verb == Post && header.Some? && Within(b, header.value.value)
    && CaseCmp("application/x-www-form-urlencoded", b, header.value.value)
  }

  function TakeContent(b: string, req: Req): (req': Req)
    requires Sane(b, req) && req.contentLength <= |b| - req.parsePoint
    ensures Sane(b, req')
  {
    if req.contentLength == 0 then req
    else req.(content := Index(req.parsePoint, req.contentLength), parsePoint := req.parsePoint + req.contentLength)
  }

  function Body(b: string, req: Req): (r: Step)
    requires Sane(b, req)
    ensures r.Stop? && (r.answer == Complete || r.answer == Incomplete || r.answer == Crash)
    ensures r.req.verb == req.verb && (r.answer == Incomplete ==> r.req == req)
  {
    if req.contentLength > |b| - req.parsePoint then Stop(Incomplete, req)
    else
      var taken := TakeContent(b, req);
      if !IsForm(b, taken) then Stop(Complete, taken.(complete := true))
      else
        var params := QueryFrom(b, taken.content.start + taken.content.len, taken.parsePoint, taken.content.start);
        if params.None? then Stop(Crash, taken)
        else Stop(Complete, taken.(parameters := taken.parameters + params.value, complete := true))
  }

  /** `iw_web_req_parse` on the buffer `b`. */
  function Parse(b: string, req: Req): (r: Step)
    requires Sane(b, req)
    ensures r.Stop? && (r.answer == Incomplete ==> Sane(b, r.req))
  {
    var line := if req.verb == NoMethod then RequestLine(b, req) else Next(req);
    if line.Stop? then line
    else
      var headers := Headers(b, line.req);
      if headers.Stop? then headers else Body(b, headers.req)
  }

  // ----- what a prefix already settles

  /** Somewhere in it there is more than white space. */
  ghost predicate HasText(s: string) {
    exists k :: 0 <= k < |s| && !IsSpace(s[k])
  }

  lemma {:induction false} SkipSpacesOf(v: string, rest: string)
    requires HasText(v)
    ensures SkipSpaces(v) != "" && SkipSpaces(v + rest) == SkipSpaces(v) + rest
  {
    assert (v + rest)[0] == v[0];
    if IsSpace(v[0]) {
      var k :| 0 <= k < |v| && !IsSpace(v[k]);
      assert v[1..][k - 1] == v[k];
      assert (v + rest)[1..] == v[1..] + rest;
      SkipSpacesOf(v[1..], rest);
    }
  }

  lemma ReadDigitsSettled(u: string, rest: string, negative: bool)
    requires rest != "" && IsSpace(rest[0])
    ensures ReadDigits(u + rest, 10, negative) == ReadDigits(u, 10, negative)
  {
    var n := DigitRun(u, 10);
    assert AllDigits(u[..n], 10) && EndsDigits(u[n..], 10);
    assert u + rest == u[..n] + (u[n..] + rest);
    assert EndsDigits(u[n..] + rest, 10) by {
      assert u[n..] != "" ==> (u[n..] + rest)[0] == u[n..][0];
    }
    DigitRunOf(u[..n], u[n..] + rest, 10);
    assert (u + rest)[..n] == u[..n];
  }

  lemma NumberSettled(v: string, rest: string)
    requires HasText(v) && rest != "" && IsSpace(rest[0])
    ensures StrToLL(v + rest, 10) == StrToLL(v, 10)
  {
    hide ReadDigits;
    SkipSpacesOf(v, rest);
    var t := SkipSpaces(v);
    assert (t + rest)[0] == t[0];
    var u := if t[0] == '-' || t[0] == '+' then t[1..] else t;
    assert (t + rest)[1..] == t[1..] + rest;
    ReadDigitsSettled(u, rest, t[0] == '-');
  }

  lemma {:induction false} CStringOf(v: string, rest: string)
    ensures CString(v + rest) == if '\0' in v then CString(v) else v + CString(rest)
  {
    if v == "" {
      assert v + rest == rest;
    } else {
      assert (v + rest)[1..] == v[1..] + rest;
      CStringOf(v[1..], rest);
    }
  }

  /** A length that is not blank is read from the value alone. */
  lemma LengthSettled(b: string, name: Index, value: Index, length: nat)
    requires Within(b, name) && Within(b, value) && value.start + value.len < |b| && IsSpace(b[value.start + value.len])
    requires HasText(Slice(b, value))
    ensures LengthSet(b, name, value, length) ==
            if !CaseCmp("Content-Length", b, name) then length
            else
              var n := StrToLL(CString(Slice(b, value)), 10);
              if n.None? then length else n.value % WORD
  {
    hide StrToLL;
    var v, rest := Slice(b, value), b[value.start + value.len..];
    assert b[value.start..] == v + rest;
    CStringOf(v, rest);
    if '\0' !in v {
      assert CString(rest) != "" && CString(rest)[0] == rest[0];
      assert CString(v) == v;
      NumberSettled(v, CString(rest));
    }
  }

  /** The number given is taken modulo 2 to the 32; what is no number leaves the length as it was. */
  lemma LengthModulo(b: string, name: Index, value: Index, length: nat)
    requires Within(b, name) && Within(b, value) && CaseCmp("Content-Length", b, name)
    ensures
      var n := StrToLL(CString(b[value.start..]), 10);
      var r := LengthSet(b, name, value, length);
      if n.None? then r == length else r < 4294967296 && (n.value - r) % 4294967296 == 0
  {
    hide StrToLL, CString, CaseCmp;
  }

  /** Every Content-Length among the headers has more than white space for a value. */
  ghost predicate LengthsPlain(b: string, headers: seq<Header>) {
    forall i :: 0 <= i < |headers| ==> LengthPlain(b, headers[i])
  }

  ghost predicate LengthPlain(b: string, header: Header) {
    Within(b, header.name) && Within(b, header.value)
    && (CaseCmp("Content-Length", b, header.name) ==> HasText(Slice(b, header.value)))
  }

  /** What follows a trimmed value is a blank or the line end. */
  lemma AfterValue(b: string, offset: nat)
    requires ReadTo(b, offset, CRLF, true).Some?
    ensures var i := ReadTo(b, offset, CRLF, true).value.index;
      i.start + i.len < |b| && IsSpace(b[i.start + i.len])
  {
    FindExactly(b, offset, CRLF);
    var j := Find(b, offset, CRLF).value;
    assert b[j] == b[j..j + 2][0];
  }

  lemma {:induction false} HeadersGrow(b: string, req: Req)
    requires Sane(b, req) && (Headers(b, req).Next? || Headers(b, req).answer == Incomplete)
    ensures req.headers <= Headers(b, req).req.headers
    decreases |b| - req.parsePoint
  {
    hide LengthSet, ReadTo, Find;
    if !req.headersComplete && !MatchAt(b, req.parsePoint, CRLF) && HeaderLine(b, req).Next? {
      HeadersGrow(b, HeaderLine(b, req).req);
    }
  }

  // ----- the length, apart from everything else

  function WithLength(req: Req, length: nat): Req {
    req.(contentLength := length)
  }

  function StepWithLength(r: Step, length: nat): Step {
    if r.Next? then Next(WithLength(r.req, length)) else Stop(r.answer, WithLength(r.req, length))
  }

  predicate AllWithin(b: string, headers: seq<Header>) {
    forall i :: 0 <= i < |headers| ==> Within(b, headers[i].name) && Within(b, headers[i].value)
  }

  /** The length that headers set one after the other, as read from `b`. */
  function LengthOf(b: string, headers: seq<Header>, length: nat): nat
    requires AllWithin(b, headers)
  {
    if headers == [] then length
    else LengthOf(b, headers[1..], LengthSet(b, headers[0].name, headers[0].value, length))
  }

  /** A Content-Length with a readable number. */
  predicate SetsLength(b: string, header: Header)
    requires Within(b, header.name) && Within(b, header.value)
  {
    CaseCmp("Content-Length", b, header.name) && StrToLL(CString(b[header.value.start..]), 10).Some?
  }

  /** A header line still to be read sets the length. */
  predicate LengthToCome(b: string, req: Req)
    requires Sane(b, req)
    decreases |b| - req.parsePoint
  {
    !req.headersComplete && !MatchAt(b, req.parsePoint, CRLF) && HeaderLine(b, req).Next?
    && (LineSetsLength(b, req) || LengthToCome(b, HeaderLine(b, req).req))
  }

  predicate LineSetsLength(b: string, req: Req)
    requires Sane(b, req) && HeaderLine(b, req).Next?
  {
    var headers := HeaderLine(b, req).req.headers;
    SetsLength(b, headers[|headers| - 1])
  }

  /** One header line read with another length before it. */
  lemma HeaderLineWithLength(b: string, req: Req, length: nat)
    requires Sane(b, req)
    ensures var r, r' := HeaderLine(b, req), HeaderLine(b, WithLength(req, length));
      if r.Stop? then r' == StepWithLength(r, length) && r.req.contentLength == req.contentLength
      else
        var h := r.req.headers[|r.req.headers| - 1];
        && r' == StepWithLength(r, LengthSet(b, h.name, h.value, length))
        && r.req.contentLength == LengthSet(b, h.name, h.value, req.contentLength)
  {
    hide Find, ReadTo, LengthSet;
  }

  lemma SetLengthIsSet(b: string, header: Header, length: nat, other: nat)
    requires Within(b, header.name) && Within(b, header.value)
    ensures var x, y := LengthSet(b, header.name, header.value, length), LengthSet(b, header.name, header.value, other);
      if SetsLength(b, header) then x == y else x == length && y == other
  {
    hide StrToLL, CString, CaseCmp;
  }

  /** The header loop carries the length along untouched, unless a line to come sets it. */
  lemma {:induction false} HeadersWithLength(b: string, req: Req, length: nat)
    requires Sane(b, req)
    ensures var r, r' := Headers(b, req), Headers(b, WithLength(req, length));
      if LengthToCome(b, req) then r' == r
      else r' == StepWithLength(r, length) && r.req.contentLength == req.contentLength
    decreases |b| - req.parsePoint
  {
    hide HeaderLine, MatchAt, LengthSet, SetsLength;
    if !req.headersComplete && !MatchAt(b, req.parsePoint, CRLF) {
      HeaderLineWithLength(b, req, length);
      var r := HeaderLine(b, req);
      if r.Next? {
        var h := r.req.headers[|r.req.headers| - 1];
        SetLengthIsSet(b, h, req.contentLength, length);
        HeadersWithLength(b, r.req, LengthSet(b, h.name, h.value, length));
        SameWithLength(r.req);
      }
    }
  }

  lemma SameWithLength(req: Req)
    ensures WithLength(req, req.contentLength) == req
  {
  }

  lemma BodyKeepsLength(b: string, req: Req)
    requires Sane(b, req)
    ensures Body(b, req).req.contentLength == req.contentLength
  {
    hide IsForm, QueryFrom;
  }

  /** Headers and body. */
  function FromHeaders(b: string, req: Req): Step
    requires Sane(b, req)
  {
    var headers := Headers(b, req);
    if headers.Stop? then headers else Body(b, headers.req)
  }

  /** Two lengths make no difference exactly if they are the same or another is to come. */
  lemma LengthMattersExactly(b: string, req: Req, length: nat)
    requires Sane(b, req)
    ensures FromHeaders(b, WithLength(req, length)) == FromHeaders(b, req)
            <==> length == req.contentLength || LengthToCome(b, req)
  {
    hide Headers, Body, LengthToCome;
    HeadersWithLength(b, req, length);
    SameWithLength(req);
    var r, r' := Headers(b, req), Headers(b, WithLength(req, length));
    if r.Next? {
      BodyKeepsLength(b, r.req);
      BodyKeepsLength(b, r'.req);
    }
  }

  // ----- a prefix and the longer buffer

  /** A header line read in a prefix is found at the same places in the longer buffer. */
  lemma HeaderLineInPrefix(p: string, b: string, req: Req, length: nat)
    requires p <= b && Sane(p, req) && HeaderLine(p, req).Next?
    ensures Sane(b, req)
    ensures var r := HeaderLine(p, req).req; var h := r.headers[|r.headers| - 1];
      && r.headers == req.headers + [h] && Within(b, h.name) && Within(b, h.value)
      && HeaderLine(b, WithLength(req, length)) == Next(WithLength(r, LengthSet(b, h.name, h.value, length)))
  {
    hide Find, ReadTo, LengthSet;
    FindInPrefix(p, b, req.parsePoint, CRLF);
    ReadToInPrefix(p, b, req.parsePoint, ":", true);
    var name := ReadTo(p, req.parsePoint, ":", true).value;
    ReadToInPrefix(p, b, name.next, CRLF, true);
  }

  /** Header lines read in a prefix are read no more; what the longer buffer makes of them
      differs in the length at most. */
  lemma {:induction false} HeadersInPrefix(p: string, b: string, req: Req, length: nat)
    requires p <= b && Sane(p, req)
    requires Headers(p, req).Next? || Headers(p, req).answer == Incomplete
    ensures Sane(b, req) && Sane(b, Headers(p, req).req)
    ensures var r := Headers(p, req).req;
      && req.headers <= r.headers && AllWithin(b, r.headers[|req.headers|..])
      && Headers(b, WithLength(req, length))
        == Headers(b, WithLength(r, LengthOf(b, r.headers[|req.headers|..], length)))
    decreases |p| - req.parsePoint
  {
    hide HeaderLine, Find, MatchAt, LengthSet;
    SaneInPrefix(p, b, req);
    SaneInPrefix(p, b, Headers(p, req).req);
    HeadersGrow(p, req);
    var r := Headers(p, req).req;
    if !req.headersComplete {
      if MatchAt(p, req.parsePoint, CRLF) {
        MatchInPrefix(p, b, req.parsePoint, req.parsePoint, CRLF);
      } else if HeaderLine(p, req).Next? {
        var next := HeaderLine(p, req).req;
        var h := next.headers[|next.headers| - 1];
        HeaderLineInPrefix(p, b, req, length);
        LineMeansNoMatch(p, b, req);
        HeadersInPrefix(p, b, next, LengthSet(b, h.name, h.value, length));
        HeadersGrow(p, next);
        NewHeaders(req.headers, h, r.headers);
      }
    }
  }

  lemma NewHeaders(before: seq<Header>, h: Header, after: seq<Header>)
    requires before + [h] <= after
    ensures after[|before|..] == [h] + after[|before| + 1..]
  {
    assert after[|before|] == h;
  }

  lemma SaneInPrefix(p: string, b: string, req: Req)
    requires p <= b && Sane(p, req)
    ensures Sane(b, req)
  {
  }

  lemma LineMeansNoMatch(p: string, b: string, req: Req)
    requires p <= b && Sane(p, req) && HeaderLine(p, req).Next? && !MatchAt(p, req.parsePoint, CRLF)
    ensures !MatchAt(b, req.parsePoint, CRLF)
  {
    hide LengthSet, ReadTo;
    FindExactly(p, req.parsePoint, CRLF);
    MatchInPrefix(p, b, req.parsePoint, Find(p, req.parsePoint, CRLF).value, CRLF);
  }

  lemma RequestLineInPrefix(p: string, b: string, req: Req)
    requires p <= b && Sane(p, req) && RequestLine(p, req).Next?
    ensures Sane(b, req) && RequestLine(b, req) == RequestLine(p, req)
  {
    hide Find, ReadTo, QueryFrom;
    SaneInPrefix(p, b, req);
    FindInPrefix(p, b, 0, CRLF);
    ReadToInPrefix(p, b, req.parsePoint, " ", true);
    var verb := ReadTo(p, req.parsePoint, " ", true).value;
    SliceInPrefix(p, b, verb.index);
    ReadToInPrefix(p, b, verb.next, " ", true);
    var uri := ReadTo(p, verb.next, " ", true).value;
    ReadToInPrefix(p, b, uri.next, CRLF, true);
    LineEndBeyond(p, uri.next);
    var end := uri.index.start + uri.index.len;
    assert p[..end] == b[..end];
    var path := ReadTo(p[..end], verb.next, "?", false);
    if path.Some? {
      QueryInPrefix(p, b, end, uri.next, path.value.next);
    }
  }

  lemma LineEndBeyond(b: string, offset: nat)
    requires ReadTo(b, offset, CRLF, true).Some?
    ensures offset + 2 <= |b|
  {
    FindExactly(b, offset, CRLF);
  }

  /** The length found is that of the headers read. */
  lemma {:induction false} LengthIsRead(p: string, req: Req)
    requires Sane(p, req) && (Headers(p, req).Next? || Headers(p, req).answer == Incomplete)
    ensures var r := Headers(p, req).req;
      && req.headers <= r.headers && AllWithin(p, r.headers[|req.headers|..])
      && LengthOf(p, r.headers[|req.headers|..], req.contentLength) == r.contentLength
    decreases |p| - req.parsePoint
  {
    hide HeaderLine, Find, MatchAt, LengthSet;
    HeadersGrow(p, req);
    var r := Headers(p, req).req;
    if req.headersComplete || MatchAt(p, req.parsePoint, CRLF) || HeaderLine(p, req).Stop? {
      assert r.headers[|req.headers|..] == [];
    } else {
      var next := HeaderLine(p, req).req;
      HeadersGrow(p, next);
      HeaderLineInPrefix(p, p, req, req.contentLength);
      SameWithLength(req);
      NewHeaders(req.headers, next.headers[|next.headers| - 1], r.headers);
      LengthIsRead(p, next);
    }
  }

  /** What the length before the headers and the headers read since say of the length, in
      the longer buffer. */
  function LengthFrom(b: string, before: Req, after: Req): nat
    requires before.headers <= after.headers && AllWithin(b, after.headers[|before.headers|..])
  {
    LengthOf(b, after.headers[|before.headers|..], before.contentLength)
  }

  lemma LineKeepsHeaders(b: string, req: Req)
    requires Sane(b, req) && RequestLine(b, req).Next?
    ensures RequestLine(b, req).req.headers == req.headers && RequestLine(b, req).req.contentLength == req.contentLength
  {
    hide Find, ReadTo, QueryFrom;
  }

  /** One call on the longer buffer, told by what the call on the prefix came to. */
  lemma OneCall(p: string, b: string, req: Req)
    requires p <= b && Sane(p, req) && Parse(p, req).answer == Incomplete
    ensures var after := Parse(p, req).req;
      && Sane(b, req) && Sane(b, after)
      && req.headers <= after.headers && AllWithin(b, after.headers[|req.headers|..])
      && AllWithin(p, after.headers[|req.headers|..]) && after.contentLength == LengthFrom(p, req, after)
      && (after == req
          || (after.verb != NoMethod && Parse(b, req) == FromHeaders(b, WithLength(after, LengthFrom(b, req, after)))))
  {
    hide RequestLine, Headers, Body, LengthOf;
    var after := Parse(p, req).req;
    SaneInPrefix(p, b, req);
    SaneInPrefix(p, b, after);
    var line := if req.verb == NoMethod then RequestLine(p, req) else Next(req);
    if line.Next? {
      if req.verb == NoMethod {
        RequestLineInPrefix(p, b, req);
        LineKeepsHeaders(p, req);
      }
      HeadersInPrefix(p, b, line.req, line.req.contentLength);
      LengthIsRead(p, line.req);
      SameWithLength(line.req);
    } else {
      assert req.headers[|req.headers|..] == [];
      NoNewLength(p, req.contentLength);
    }
  }

  /** Going on with a longer buffer after an answer of `Incomplete` gives what one call on
      that buffer would have given exactly if the longer buffer gives the header lines read
      so far the length they gave in the shorter one, or a header line to come sets it. */
  lemma ResumeExactly(p: string, b: string, req: Req)
    requires p <= b && Sane(p, req) && Parse(p, req).answer == Incomplete
    ensures var after := Parse(p, req).req;
      && Sane(b, req) && Sane(b, after)
      && req.headers <= after.headers && AllWithin(p, after.headers[|req.headers|..])
      && AllWithin(b, after.headers[|req.headers|..])
      && (Parse(b, after) == Parse(b, req)
          <==> LengthFrom(b, req, after) == LengthFrom(p, req, after) || LengthToCome(b, after))
      && LengthFrom(p, req, after) == after.contentLength
  {
    hide RequestLine, Headers, Body, LengthOf, FromHeaders, LengthToCome;
    OneCall(p, b, req);
    var after := Parse(p, req).req;
    if after == req {
      assert req.headers[|req.headers|..] == [];
      NoNewLength(b, req.contentLength);
    } else {
      LengthMattersExactly(b, after, LengthFrom(b, req, after));
      assert Parse(b, after) == FromHeaders(b, after) by { FromVerb(b, after); }
    }
  }

  lemma FromVerb(b: string, req: Req)
    requires Sane(b, req) && req.verb != NoMethod
    ensures Parse(b, req) == FromHeaders(b, req)
  {
  }

  lemma NoNewLength(b: string, length: nat)
    ensures LengthOf(b, [], length) == length
  {
  }

  /** Lengths that are not blank are the same in the longer buffer. */
  lemma {:induction false} PlainLengthsSettled(p: string, b: string, req: Req)
    requires p <= b && Sane(p, req)
    requires Headers(p, req).Next? || Headers(p, req).answer == Incomplete
    requires LengthsPlain(p, Headers(p, req).req.headers)
    ensures var r := Headers(p, req).req;
      && req.headers <= r.headers && AllWithin(b, r.headers[|req.headers|..])
      && LengthOf(b, r.headers[|req.headers|..], req.contentLength) == r.contentLength
    decreases |p| - req.parsePoint
  {
    hide HeaderLine, LengthsPlain, Find, MatchAt, LengthSet;
    HeadersGrow(p, req);
    var r := Headers(p, req).req;
    if req.headersComplete || MatchAt(p, req.parsePoint, CRLF) || HeaderLine(p, req).Stop? {
      assert r.headers[|req.headers|..] == [];
    } else {
      var next := HeaderLine(p, req).req;
      var h := next.headers[|next.headers| - 1];
      HeadersGrow(p, next);
      HeaderLineInPrefix(p, p, req, req.contentLength);
      HeaderLineInPrefix(p, b, req, req.contentLength);
      SameWithLength(req);
      NewHeaders(req.headers, h, r.headers);
      PlainLengthSettled(p, b, req, r.headers);
      PlainLengthsSettled(p, b, next);
    }
  }

  lemma PlainLengthSettled(p: string, b: string, req: Req, headers: seq<Header>)
    requires p <= b && Sane(p, req) && HeaderLine(p, req).Next?
    requires HeaderLine(p, req).req.headers <= headers && LengthsPlain(p, headers)
    ensures var r := HeaderLine(p, req).req; var h := r.headers[|r.headers| - 1];
      Within(b, h.name) && Within(b, h.value) && LengthSet(b, h.name, h.value, req.contentLength) == r.contentLength
  {
    hide Find, ReadTo, StrToLL, CString;
    var r := HeaderLine(p, req).req;
    var name := ReadTo(p, req.parsePoint, ":", true).value;
    var value := ReadTo(p, name.next, CRLF, true).value;
    assert headers[|req.headers|] == r.headers[|req.headers|] == Header(name.index, value.index);
    assert LengthPlain(p, headers[|req.headers|]);
    AfterValue(p, name.next);
    SliceInPrefix(p, b, name.index);
    SliceInPrefix(p, b, value.index);
    if CaseCmp("Content-Length", p, name.index) {
      LengthSettled(p, name.index, value.index, req.contentLength);
      LengthSettled(b, name.index, value.index, req.contentLength);
    }
  }

  /** With no blank Content-Length among the headers read, an answer of `Incomplete` loses
      nothing. */
  lemma Resume(p: string, b: string, req: Req)
    requires p <= b && Sane(p, req) && Parse(p, req).answer == Incomplete
    requires LengthsPlain(p, Parse(p, req).req.headers)
    ensures Sane(b, req) && Sane(b, Parse(p, req).req)
    ensures Parse(b, Parse(p, req).req) == Parse(b, req)
  {
    hide RequestLine, Headers, Body, LengthOf, LengthsPlain, LengthToCome;
    var after := Parse(p, req).req;
    ResumeExactly(p, b, req);
    var line := if req.verb == NoMethod then RequestLine(p, req) else Next(req);
    if line.Next? {
      if req.verb == NoMethod {
        LineKeepsHeaders(p, req);
      }
      PlainLengthsSettled(p, b, line.req);
    }
  }
}
