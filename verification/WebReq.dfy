/** The request object that the server keeps while a request arrives, and its parse call. */
module WebReq {
  import opened Text
  import opened WebParse
  import opened WebForm
  import opened WebRequest
  import WebRendered

  class WebReq {
    var buff: string  // `buff` and `len`: the bytes received so far
    var parsePoint: nat
    var complete: bool
    var verb: Method
    var version: Index
    var uri: Index
    var path: Index
    var parameters: seq<Param>
    var headers: seq<Header>
    var headersComplete: bool
    var contentLength: nat  // unsigned int
    var content: Index

    ghost function State(): Req
      reads this
    {
      Req(parsePoint, complete, verb, version, uri, path, parameters, headers, headersComplete, contentLength, content)
    }

    /** `iw_web_req_init`. */
    constructor ()
      ensures State() == Blank && buff == ""
    {
      buff, parsePoint, complete, verb := "", 0, false, NoMethod;
      version, uri, path := Index(0, 0), Index(0, 0), Index(0, 0);
      parameters, headers, headersComplete, contentLength, content := [], [], false, 0, Index(0, 0);
    }

    /** What a part of the parse came to: a returned answer, or going on. */
    ghost function Outcome(stopped: bool, answer: Answer): Step
      reads this
    {
      if stopped then Stop(answer, State()) else Next(State())
    }

    method SplitUriHere(from: nat) returns (stopped: bool, answer: Answer)
      requires Sane(buff, State()) && from <= uri.start && uri.start + uri.len < parsePoint
      modifies this
      ensures buff == old(buff) && Outcome(stopped, answer) == SplitUri(buff, old(State()), from)
    {
      hide ReadTo, QueryFrom;
      var end := uri.start + uri.len;
      var found, offset, index := ReadToToken(buff[..end], from, "?", false);
      if !found {
        path := uri;
      } else {
        path := index;
        var crashed, params := ParseQuery(buff, offset, end, parsePoint);
        if crashed {
          return true, Crash;
        }
        parameters := parameters + params;
      }
      return false, Error;
    }

    method ParseRequestLine() returns (stopped: bool, answer: Answer)
      requires Sane(buff, State())
      modifies this
      ensures buff == old(buff) && Outcome(stopped, answer) == RequestLine(buff, old(State()))
    {
      hide ReadTo, QueryFrom, Find, SplitUri;
      var found, offset := FindToken(buff, 0, CRLF);
      if !found {
        return true, Incomplete;
      }
      var index;
      found, offset, index := ReadToToken(buff, parsePoint, " ", true);
      if !found {
        return true, Error;
      }
      ReadToWithin(buff, parsePoint, " ", true);
      parsePoint := offset;
      verb := MethodOf(Slice(buff, index));
      if verb == NoMethod {
        return true, Error;
      }
      var from := parsePoint;
      found, offset, index := ReadToToken(buff, parsePoint, " ", true);
      if !found {
        return true, Error;
      }
      ReadToWithin(buff, parsePoint, " ", true);
      parsePoint, uri := offset, index;
      stopped, answer := SplitUriHere(from);
      if stopped {
        return;
      }
      found, offset, index := ReadToToken(buff, parsePoint, CRLF, true);
      if !found {
        return true, Error;
      }
      parsePoint, version := offset, index;
    }

    /** One header line. */
    method ParseHeaderLine() returns (stopped: bool, answer: Answer)
      requires Sane(buff, State())
      modifies this
      ensures buff == old(buff) && Outcome(stopped, answer) == HeaderLine(buff, old(State()))
    {
      hide ReadTo, Find, StrToLL, CString, SameIgnoringCase;
      var found, offset := FindToken(buff, parsePoint, CRLF);
      if !found {
        return true, Incomplete;
      }
      var name, value;
      found, offset, name := ReadToToken(buff, parsePoint, ":", true);
      if !found {
        return true, Error;
      }
      ReadToWithin(buff, parsePoint, ":", true);
      parsePoint := offset;
      found, offset, value := ReadToToken(buff, parsePoint, CRLF, true);
      if !found {
        return true, Error;
      }
      ReadToWithin(buff, parsePoint, CRLF, true);
      parsePoint := offset;
      if CaseCmp("Content-Length", buff, name) {
        var n := StrToLL(CString(buff[value.start..]), 10);
        if n.Some? {
          contentLength := n.value % WORD;
        }
      }
      headers := headers + [Header(name, value)];
      return false, Error;
    }

    method ParseHeaders() returns (stopped: bool, answer: Answer)
      requires Sane(buff, State())
      modifies this
      ensures buff == old(buff) && Outcome(stopped, answer) == Headers(buff, old(State()))
    {
      hide HeaderLine;
      while !headersComplete
        invariant buff == old(buff) && Sane(buff, State())
        invariant Headers(buff, State()) == Headers(buff, old(State()))
        decreases !headersComplete, |buff| - parsePoint
      {
        var found, offset := IsToken(buff, parsePoint, CRLF);
        if found {
          parsePoint := offset;
          headersComplete := true;
          break;
        }
        stopped, answer := ParseHeaderLine();
        if stopped {
          return;
        }
      }
      return false, Error;
    }

    /** `iw_web_req_get_header`. */
    method FindHeader(name: string) returns (header: Option<Header>)
      requires Sane(buff, State())
      ensures header == GetHeader(buff, headers, name)
    {
      var i := 0;
      assert headers[0..] == headers;
      while i < |headers|
        invariant 0 <= i <= |headers|
        invariant GetHeader(buff, headers[i..], name) == GetHeader(buff, headers, name)
      {
        if CaseCmp(name, buff, headers[i].name) {
          return Some(headers[i]);
        }
        assert headers[i..][1..] == headers[i + 1..];
        i := i + 1;
      }
      header := None;
    }

    method ParseBody() returns (answer: Answer)
      requires Sane(buff, State())
      modifies this
      ensures buff == old(buff) && Stop(answer, State()) == Body(buff, old(State()))
    {
      hide QueryFrom, GetHeader, SameIgnoringCase;
      if contentLength > 0 {
        if |buff| - parsePoint < contentLength {
          return Incomplete;
        }
        content := Index(parsePoint, contentLength);
        parsePoint := parsePoint + contentLength;
      }
      var header := FindHeader("Content-Type");
      if verb == Post && header.Some? && Within(buff, header.value.value)
         && CaseCmp("application/x-www-form-urlencoded", buff, header.value.value) {
        var crashed, params := ParseQuery(buff, content.start, content.start + content.len, parsePoint);
        if crashed {
          return Crash;
        }
        parameters := parameters + params;
      }
      complete := true;
      answer := Complete;
    }

    /** `iw_web_req_parse`. */
    method ParseMore() returns (answer: Answer)
      requires Sane(buff, State())
      modifies this
      ensures buff == old(buff) && Stop(answer, State()) == Parse(buff, old(State()))
    {
      hide RequestLine, Headers, Body;
      var stopped;
      if verb == NoMethod {
        stopped, answer := ParseRequestLine();
        if stopped {
          return;
        }
      }
      stopped, answer := ParseHeaders();
      if stopped {
        return;
      }
      answer := ParseBody();
    }
  }

  lemma ReadToWithin(b: string, offset: nat, token: string, trim: bool)
    requires token != "" && ReadTo(b, offset, token, trim).Some?
    ensures var r := ReadTo(b, offset, token, trim).value;
      offset < r.next <= |b| && Within(b, r.index) && offset <= r.index.start && r.index.start + r.index.len < r.next
  {
  }

  // ----- the server's receive loop

  function Concat(chunks: seq<string>): string {
    if chunks == [] then "" else Concat(chunks[..|chunks| - 1]) + chunks[|chunks| - 1]
  }

  lemma {:induction false} ConcatPrefix(chunks: seq<string>, i: nat)
    requires i <= |chunks|
    ensures Concat(chunks[..i]) <= Concat(chunks)
    ensures i < |chunks| && (forall k :: 0 <= k < |chunks| ==> chunks[k] != "")
      ==> |Concat(chunks[..i])| < |Concat(chunks)|
    decreases |chunks| - i
  {
    if i == |chunks| {
      assert chunks[..i] == chunks;
    } else {
      ConcatStep(chunks, i);
      ConcatPrefix(chunks, i + 1);
    }
  }

  lemma ConcatStep(chunks: seq<string>, i: nat)
    requires i < |chunks|
    ensures Concat(chunks[..i + 1]) == Concat(chunks[..i]) + chunks[i]
  {
    assert chunks[..i + 1][..i] == chunks[..i];
  }

  /** The loop of `iw_web_srv_process_request`: bytes are added to the buffer and the
      request is parsed again, until an answer other than `Incomplete`. */
  method ReceiveRequest(chunks: seq<string>, ghost r: WebRendered.Request) returns (answer: Answer, req: WebReq)
    requires forall k :: 0 <= k < |chunks| ==> chunks[k] != ""
    requires WebRendered.WellFormed(r) && Concat(chunks) == WebRendered.Render(r)
    ensures fresh(req) && req.buff == Concat(chunks)
    ensures Sane(req.buff, Blank) && Stop(answer, req.State()) == Parse(req.buff, Blank)
  {
    hide WebRendered.WellFormed, WebRendered.Render, Parse, LengthsPlain, Sane, Concat;
    req := new WebReq();
    ghost var b := WebRendered.Render(r);
    answer := Incomplete;
    NothingReceived(r);
    WebRendered.NothingParsed();
    assert chunks[..0] == [];
    var i := 0;
    while i < |chunks| && answer == Incomplete
      invariant 0 <= i <= |chunks| && fresh(req)
      invariant req.buff == Concat(chunks[..i]) && Sane(req.buff, Blank)
      invariant Stop(answer, req.State()) == Parse(req.buff, Blank)
      invariant answer != Incomplete ==> i == |chunks|
    {
      ghost var was := req.buff;
      ConcatStep(chunks, i);
      ConcatPrefix(chunks, i);
      ConcatPrefix(chunks, i + 1);
      WebRendered.PrefixIsIncomplete(r, was);
      req.buff := req.buff + chunks[i];
      Resume(was, req.buff, Blank);
      answer := req.ParseMore();
      i := i + 1;
      if i < |chunks| {
        WebRendered.PrefixIsIncomplete(r, req.buff);
      }
    }
    assert chunks[..|chunks|] == chunks;
  }

  lemma NothingReceived(r: WebRendered.Request)
    ensures Concat([]) == "" && Sane("", Blank) && |WebRendered.Render(r)| > 0
  {
    WebRendered.RenderParts(r);
  }
}
