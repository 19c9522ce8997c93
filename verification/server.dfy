/** crag-web/src/server.rs: one connection, from the lines the client sends
    to the bytes written back. Sockets, the thread pool and logging are not
    part of this model: a connection is the sequence of lines `read_line`
    would return, and its result is the byte string `write_all` would send. */
module Server {
  import opened Wrappers
  import opened Text
  import opened Utf8
  import opened Requests
  import opened Responses
  import opened Handlers

  // ---------------------------------------------------------------------
  // Reading the head of a request

  /** A line that ends the head. `read_line` returns `""` once the stream is
      exhausted, so running out of lines ends it too. A bare `"\n"` is not a
      terminator. */
  predicate IsTerminator(line: string) {
    line == "" || line == "\r" || line == "\r\n"
  }

  /** The header-collection loop: the lines before the first terminator, in
      order, without the terminator; all of them when none comes. */
  function CollectHeaders(lines: seq<string>): (headers: seq<string>)
    ensures |headers| <= |lines| && headers == lines[..|headers|]
    ensures forall i :: 0 <= i < |headers| ==> !IsTerminator(headers[i])
    ensures |headers| < |lines| ==> IsTerminator(lines[|headers|])
    decreases |lines|
  {
    if |lines| == 0 || IsTerminator(lines[0]) then []
    else [lines[0]] + CollectHeaders(lines[1..])
  }

  /** The loop as the source writes it, pushing one line at a time. */
  method ReadHeaders(lines: seq<string>) returns (headers: seq<string>)
    ensures headers == CollectHeaders(lines)
  {
    headers := [];
    var i := 0;
    while i < |lines| && !IsTerminator(lines[i])
      invariant 0 <= i <= |lines|
      invariant headers == lines[..i]
      invariant forall j :: 0 <= j < i ==> !IsTerminator(lines[j])
      decreases |lines| - i
    {
      headers := headers + [lines[i]];
      i := i + 1;
    }
    CollectHeadersStop(lines[..i], lines[i..]);
    assert lines[..i] + lines[i..] == lines;
  }

  /** Header lines followed by the rest of the stream, where the rest is
      empty or starts with a terminator, collect to exactly those lines. */
  lemma {:induction false} CollectHeadersStop(headers: seq<string>, rest: seq<string>)
    requires forall i :: 0 <= i < |headers| ==> !IsTerminator(headers[i])
    requires |rest| == 0 || IsTerminator(rest[0])
    ensures CollectHeaders(headers + rest) == headers
    decreases |headers|
  {
    if |headers| > 0 {
      assert (headers + rest)[1..] == headers[1..] + rest;
      CollectHeadersStop(headers[1..], rest);
    } else {
      assert headers + rest == rest;
    }
  }

  /** Collection is stable: what it keeps, collected again, is unchanged. */
  lemma CollectHeadersIdempotent(lines: seq<string>)
    ensures CollectHeaders(CollectHeaders(lines)) == CollectHeaders(lines)
  {
    var h := CollectHeaders(lines);
    CollectHeadersStop(h, []);
    assert h + [] == h;
  }

  /** A line holding only a line feed is kept as a header line and does not
      end the head. */
  lemma BareLineFeedKept(rest: seq<string>)
    ensures CollectHeaders(["\n"] + rest) == ["\n"] + CollectHeaders(rest)
  {
    assert (["\n"] + rest)[1..] == rest;
  }

  // ---------------------------------------------------------------------
  // parse_request

  const CONTENT_LENGTH_NAME: string := "Content-Length"
  const CONTENT_LENGTH: string := CONTENT_LENGTH_NAME + ":"

  /** The first line starting (case-sensitively) with `Content-Length:`. */
  function FindContentLength(lines: seq<string>): (r: Option<nat>)
    ensures r.Some? ==> r.value < |lines| && StartsWith(lines[r.value], CONTENT_LENGTH)
    ensures r.Some? ==> forall i :: 0 <= i < r.value ==> !StartsWith(lines[i], CONTENT_LENGTH)
    ensures r.None? ==> forall i :: 0 <= i < |lines| ==> !StartsWith(lines[i], CONTENT_LENGTH)
    decreases |lines|
  {
    if |lines| == 0 then None
    else if StartsWith(lines[0], CONTENT_LENGTH) then Some(0)
    else
      match FindContentLength(lines[1..])
      case None => None
      case Some(i) => Some(i + 1)
  }

  /** The value of one header line: trimmed, split on `:`, the second field
      trimmed and parsed as a `usize`. `None` when there is no second field or
      it is not a number. */
  function HeaderValue(line: string): Option<nat> {
    var fields := Split(Trim(line), ':');
    if |fields| < 2 then None else ParseUsize(Trim(fields[1]))
  }

  /** The Content-Length a POST's header lines announce: the value of the
      first `Content-Length:` line, or 0 when there is none or its value does
      not parse. */
  function ContentLength(lines: seq<string>): nat {
    match FindContentLength(lines)
    case None => 0
    case Some(i) => HeaderValue(lines[i]).GetOr(0)
  }

  /** `parse_request`: the first line is the request line; a GET has length
      0 whatever follows, a POST takes its length from the lines after the
      request line. */
  function ParseRequest(lines: seq<string>): (r: Result<(Request, nat), Error>)
    ensures |lines| == 0 <==> r == Failure(NoRequestLine)
    ensures |lines| > 0 ==> (r.Success? <==> Parse(lines[0]).Success?)
    ensures |lines| > 0 && Parse(lines[0]).Failure? ==> r.error == Parse(lines[0]).error
    ensures r.Success? ==> r.value.0 == Parse(lines[0]).value
    ensures r.Success? && r.value.0.GET? ==> r.value.1 == 0
    ensures r.Success? && r.value.0.POST? ==> r.value.1 == ContentLength(lines[1..])
  {
    if |lines| == 0 then Failure(NoRequestLine)
    else
      var req :- Parse(lines[0]);
      match req
      case GET(_) => Success((req, 0))
      case POST(_, _) => Success((req, ContentLength(lines[1..])))
  }

  /** `read_and_parse_request`: the parse of the collected head. The length
      is computed and then dropped; no body is read. */
  function ReadAndParseRequest(lines: seq<string>): (r: Result<Request, Error>)
    ensures var headers := CollectHeaders(lines);
      && (r.Success? <==> |headers| > 0 && Parse(headers[0]).Success?)
      && (r.Success? ==> r.value == Parse(lines[0]).value)
  {
    var (req, _) :- ParseRequest(CollectHeaders(lines));
    Success(req)
  }

  /** Only the first `Content-Length:` line counts: its value (or 0 when
      it does not parse) is the length, whatever later lines say. */
  lemma ContentLengthFirstWins(before: seq<string>, line: string, after: seq<string>)
    requires forall i :: 0 <= i < |before| ==> !StartsWith(before[i], CONTENT_LENGTH)
    requires StartsWith(line, CONTENT_LENGTH)
    ensures ContentLength(before + [line] + after) == HeaderValue(line).GetOr(0)
  {
    var lines := before + [line] + after;
    assert lines[|before|] == line;
    assert forall i :: 0 <= i < |before| ==> lines[i] == before[i];
    assert FindContentLength(lines) == Some(|before|);
  }

  /** Without a `Content-Length:` line the length is 0. */
  lemma ContentLengthMissing(lines: seq<string>)
    requires forall i :: 0 <= i < |lines| ==> !StartsWith(lines[i], CONTENT_LENGTH)
    ensures ContentLength(lines) == 0
  {
  }

  /** A value with no colon in it is the second field of its header line. */
  lemma SplitHeaderLine(value: string)
    requires ':' !in value
    ensures Split(CONTENT_LENGTH + value, ':') == [CONTENT_LENGTH_NAME, value]
  {
    ContentLengthNameFacts();
    SplitPair(CONTENT_LENGTH_NAME, value, ':');
  }

  /** The header name holds no colon and starts with a visible character;
      the Content-Length line `to_output` writes puts one space after it. */
  lemma ContentLengthNameFacts()
    ensures ':' !in CONTENT_LENGTH_NAME
    ensures |CONTENT_LENGTH| > 0 && !IsWhitespace(CONTENT_LENGTH[0])
    ensures "Content-Length: " == CONTENT_LENGTH + " "
    ensures AllWhitespace(" ") && AllWhitespace("\r\n")
  {
  }

  /** Whitespace and digits hold no colon. */
  lemma NoColonInPaddedNumber(pad: string, digits: string)
    requires AllWhitespace(pad) && AllDigits(digits)
    ensures ':' !in pad + digits
  {
    var value := pad + digits;
    forall i | 0 <= i < |value|
      ensures value[i] != ':'
    {
      if i < |pad| {
        assert IsWhitespace(pad[i]);
      } else {
        assert IsDigit(digits[i - |pad|]);
      }
    }
  }

  lemma TrimPaddedNumber(pad: string, digits: string)
    requires AllWhitespace(pad) && |digits| > 0 && AllDigits(digits)
    ensures Trim(pad + digits) == digits
  {
    assert IsDigit(digits[0]) && IsDigit(digits[|digits| - 1]);
    TrimPadded(pad, digits, "");
    assert pad + digits + "" == pad + digits;
  }

  /** A header line `Content-Length:` followed by a number, with any
      whitespace around the number, reads back as that number. */
  lemma HeaderValueOfNumber(pad: string, n: nat, eol: string)
    requires AllWhitespace(pad) && AllWhitespace(eol) && n <= USIZE_MAX
    ensures HeaderValue(CONTENT_LENGTH + pad + Decimal(n) + eol) == Some(n)
  {
    var digits := Decimal(n);
    var value := pad + digits;
    ContentLengthNameFacts();
    TrimHeaderLine(CONTENT_LENGTH, pad, digits, eol);
    NoColonInPaddedNumber(pad, digits);
    SplitHeaderLine(value);
    TrimPaddedNumber(pad, digits);
    ParseDecimal(n);
  }

  /** Trimming a padded header line whose name starts with a visible
      character leaves the name, the padding and the digits. */
  lemma TrimHeaderLine(name: string, pad: string, digits: string, eol: string)
    requires |name| > 0 && !IsWhitespace(name[0])
    requires AllWhitespace(pad) && AllWhitespace(eol) && |digits| > 0 && AllDigits(digits)
    ensures Trim(name + pad + digits + eol) == name + (pad + digits)
  {
    var core := name + (pad + digits);
    VisibleEnds(name, pad, digits);
    TrimPadded("", core, eol);
    HeaderLineRegroup(name, pad, digits, eol);
  }

  lemma VisibleEnds(name: string, pad: string, digits: string)
    requires |name| > 0 && !IsWhitespace(name[0]) && |digits| > 0 && AllDigits(digits)
    ensures var core := name + (pad + digits);
      |core| > 0 && !IsWhitespace(core[0]) && !IsWhitespace(core[|core| - 1])
  {
    var value := pad + digits;
    assert IsDigit(digits[|digits| - 1]);
    assert value[|value| - 1] == digits[|digits| - 1];
  }

  lemma HeaderLineRegroup(name: string, pad: string, digits: string, eol: string)
    ensures name + pad + digits + eol == "" + (name + (pad + digits)) + eol
  {
    Regroup(name, pad, digits);
    assert "" + (name + (pad + digits)) == name + (pad + digits);
  }

  /** The response head's own Content-Length line, received as a request
      header, announces the byte length of the body. */
  lemma WrittenContentLengthReadBack(body: string)
    requires ByteLength(body) <= USIZE_MAX
    ensures HeaderValue("Content-Length: " + Decimal(ByteLength(body)) + "\r\n") == Some(ByteLength(body))
  {
    ContentLengthNameFacts();
    HeaderValueOfNumber(" ", ByteLength(body), "\r\n");
  }

  /** The line sequences the source's own unit tests hand to
      `parse_request`: one request line parses, no lines fail. */
  lemma ParseRequestOneLine()
    ensures ParseRequest(["GET / HTTP/1.1"]) == Success((GET("/"), 0))
  {
    assert IsWord("/");
    ParseCanonicalGet("/");
    assert "GET " + "/" + " HTTP/1.1" == "GET / HTTP/1.1";
  }

  lemma ParseRequestNoLines()
    ensures ParseRequest([]).Failure?
    ensures ParseRequest([]).error.Message() == "No request line found"
  {
  }

  /** A parsed request never carries a body: whatever the client sends
      after the request line, a POST reaches routing with body `""`. */
  lemma ParsedPostBodyEmpty(lines: seq<string>)
    ensures var r := ReadAndParseRequest(lines); r.Success? && r.value.POST? ==> r.value.body == ""
  {
  }

  // ---------------------------------------------------------------------
  // Routing and the error boundary

  /** The source's `Handlers` struct: the routing table a finalized server
      holds. */
  datatype RoutingTable = RoutingTable(valid: map<Request, Handler>, errorHandler: Handler)

  /** The handler a request is given to: the entry for the whole request
      when there is one, the error handler otherwise. */
  function Route(hs: RoutingTable, req: Request): Handler {
    if req in hs.valid then hs.valid[req] else hs.errorHandler
  }

  /** `handle_connection`: parse, route, invoke exactly one handler,
      serialise with `w` (`AsWritten` is the program as the repository has
      it). Fails when parsing or the handler fails. */
  function HandleConnection(hs: RoutingTable, lines: seq<string>, w: Wire): (r: Result<seq<byte>, Error>)
    ensures ReadAndParseRequest(lines).Failure? ==> r == Failure(ReadAndParseRequest(lines).error)
    ensures ReadAndParseRequest(lines).Success? ==>
      var req := ReadAndParseRequest(lines).value;
      && (req in hs.valid ==> r == Serialized(hs.valid[req](req), w))
      && (req !in hs.valid ==> r == Serialized(hs.errorHandler(req), w))
  {
    var req :- ReadAndParseRequest(lines);
    var response :- Route(hs, req)(req);
    Success(SerializeWith(w, response))
  }

  /** The outcome of a handler seen through serialisation. */
  function Serialized(r: Result<Response, Error>, w: Wire): Result<seq<byte>, Error> {
    match r
    case Success(v) => Success(SerializeWith(w, v))
    case Failure(e) => Failure(e)
  }

  /** What the error boundary in `Server::run` writes when the connection
      fails. */
  const INTERNAL_SERVER_ERROR_STATUS: string := "HTTP/1.1 500 Internal Server Error"
  const INTERNAL_SERVER_ERROR_TEXT: string := INTERNAL_SERVER_ERROR_STATUS + "\r\n\r\n"

  function InternalServerError(): seq<byte> {
    Encode(INTERNAL_SERVER_ERROR_TEXT)
  }

  /** The bytes a connection receives: the serialised response, or the fixed
      500 reply when parsing or the handler failed. The 500 reply is never a
      serialised response, so it is written exactly when something failed. */
  function ServeConnection(hs: RoutingTable, lines: seq<string>, w: Wire): (out: seq<byte>)
    ensures out == InternalServerError() <==> HandleConnection(hs, lines, w).Failure?
    ensures HandleConnection(hs, lines, w).Success? ==>
      exists response :: out == SerializeWith(w, response) && Route(hs, ReadAndParseRequest(lines).value)(ReadAndParseRequest(lines).value) == Success(response)
  {
    match HandleConnection(hs, lines, w)
    case Success(out) =>
      var req := ReadAndParseRequest(lines).value;
      var response := Route(hs, req)(req).value;
      SerializeIsNotInternalError(w, response);
      out
    case Failure(_) => InternalServerError()
  }

  /** Routing frame: a connection whose request is not `key` is answered the
      same whether or not `key` has an entry, and whichever entry it has. */
  lemma RouteIgnoresOtherKeys(w: Wire, hs: RoutingTable, key: Request, h: Handler, lines: seq<string>)
    requires ReadAndParseRequest(lines).Success? ==> ReadAndParseRequest(lines).value != key
    ensures HandleConnection(RoutingTable(hs.valid[key := h], hs.errorHandler), lines, w) == HandleConnection(hs, lines, w)
    ensures HandleConnection(RoutingTable(hs.valid - {key}, hs.errorHandler), lines, w) == HandleConnection(hs, lines, w)
  {
  }

  /** The error handler is consulted only on a miss: a connection whose
      request has an entry is answered the same whatever the error handler. */
  lemma ErrorHandlerOnlyOnMiss(w: Wire, hs: RoutingTable, other: Handler, lines: seq<string>)
    requires ReadAndParseRequest(lines).Success? ==> ReadAndParseRequest(lines).value in hs.valid
    ensures HandleConnection(RoutingTable(hs.valid, other), lines, w) == HandleConnection(hs, lines, w)
  {
  }

  /** Because a request's identity includes the POST body and no body is
      ever read, an entry for a POST with a non-empty body is never used. */
  lemma PostWithBodyNeverRouted(w: Wire, hs: RoutingTable, path: string, body: string, h: Handler, lines: seq<string>)
    requires body != ""
    ensures HandleConnection(RoutingTable(hs.valid[POST(path, body) := h], hs.errorHandler), lines, w) ==
      HandleConnection(hs, lines, w)
  {
    ParsedPostBodyEmpty(lines);
    RouteIgnoresOtherKeys(w, hs, POST(path, body), h, lines);
  }

  /** A connection that sends nothing, or only a blank line, has no request
      line and gets the 500 reply. */
  lemma EmptyConnectionGets500(w: Wire, hs: RoutingTable, rest: seq<string>)
    ensures ServeConnection(hs, [], w) == InternalServerError()
    ensures ServeConnection(hs, ["\r\n"] + rest, w) == InternalServerError()
  {
    assert CollectHeaders(["\r\n"] + rest) == [];
  }

  /** A handler failure reaches the client as the 500 reply, not as a
      response. */
  lemma HandlerFailureGets500(w: Wire, hs: RoutingTable, lines: seq<string>)
    requires ReadAndParseRequest(lines).Success?
    requires Route(hs, ReadAndParseRequest(lines).value)(ReadAndParseRequest(lines).value).Failure?
    ensures ServeConnection(hs, lines, w) == InternalServerError()
  {
  }

  /** The 500 reply's eighth byte, the HTTP minor version, is `1`. */
  lemma InternalErrorVersionByte()
    ensures |InternalServerError()| > 7 && InternalServerError()[7] == '1' as int
  {
    InternalErrorStatusVersion();
    EncodeAsciiAt(INTERNAL_SERVER_ERROR_STATUS, "\r\n\r\n", 7);
  }

  lemma InternalErrorStatusVersion()
    ensures IsAscii(INTERNAL_SERVER_ERROR_STATUS) && |INTERNAL_SERVER_ERROR_STATUS| > 7
    ensures INTERNAL_SERVER_ERROR_STATUS[7] == '1'
  {
  }

  /** A serialised response starts `HTTP/1.0`; the 500 reply starts
      `HTTP/1.1`. */
  lemma SerializeIsNotInternalError(w: Wire, response: Response)
    ensures SerializeWith(w, response) != InternalServerError()
  {
    SerializeWithVersionByte(w, response);
    InternalErrorVersionByte();
  }

  // ---------------------------------------------------------------------
  // Connections through the table of the source's builder test

  /** The greeting handler of the source's builder tests. */
  function Hello(request: Request): Result<Response, Error> {
    Success(Ok("Hello, Crag-Web!"))
  }

  /** One route for `GET /`, and the default 404 handler. */
  function HelloTable(): RoutingTable {
    RoutingTable(map[GET("/") := Hello], Default404Handler)
  }

  /** The request lines below, cut at their single spaces. */
  lemma GetLineLiterals()
    ensures "GET " == "GET" + " " && " HTTP/1.1\r\n" == " " + PROTOCOL + "\r\n"
    ensures "GET / HTTP/1.1\r\n" == "GET " + "/" + " HTTP/1.1\r\n"
    ensures AllWhitespace("\r\n") && IsWord("/")
  {
  }

  /** A request line ending in CR LF parses like the bare one. */
  lemma ParseGetLine(path: string)
    requires IsWord(path)
    ensures Parse("GET " + path + " HTTP/1.1\r\n") == Success(GET(path))
  {
    GetLineLiterals();
    ParseCanonical("GET", path, "\r\n");
    var verb, tail := "GET" + " ", " " + PROTOCOL + "\r\n";
    assert "GET " + path + " HTTP/1.1\r\n" == verb + path + tail;
    assert verb + path + tail == "GET" + " " + path + " " + PROTOCOL + "\r\n";
  }

  lemma ParseRootLine()
    ensures Parse("GET / HTTP/1.1\r\n") == Success(GET("/"))
  {
    GetLineLiterals();
    ParseGetLine("/");
  }

  /** A request line and one header line, then the blank line. */
  lemma ReadTwoLines(line: string, host: string, req: Request)
    requires Parse(line) == Success(req) && !IsTerminator(line) && !IsTerminator(host)
    ensures ReadAndParseRequest([line, host, "\r\n"]) == Success(req)
  {
    CollectHeadersStop([line, host], ["\r\n"]);
    assert [line, host] + ["\r\n"] == [line, host, "\r\n"];
  }

  /** A connection asking for `/` with one header gets the greeting, in the
      bytes of whichever serializer the server writes with. */
  lemma ServeHello(w: Wire, host: string)
    requires !IsTerminator(host)
    ensures ServeConnection(HelloTable(), ["GET / HTTP/1.1\r\n", host, "\r\n"], w) ==
      SerializeWith(w, Ok("Hello, Crag-Web!"))
  {
    var line := "GET / HTTP/1.1\r\n";
    ParseRootLine();
    assert line[0] == 'G';
    ReadTwoLines(line, host, GET("/"));
  }

  /** A connection asking for a path with no route gets the fixed 404. */
  lemma ServeMissing(w: Wire, path: string)
    requires IsWord(path) && path != "/"
    ensures ServeConnection(HelloTable(), ["GET " + path + " HTTP/1.1\r\n", "\r\n"], w) ==
      SerializeWith(w, NotFound("not found"))
  {
    var lines := ["GET " + path + " HTTP/1.1\r\n", "\r\n"];
    ParseGetLine(path);
    assert lines[0][0] == 'G';
    assert CollectHeaders(lines) == lines[..1] by {
      CollectHeadersStop(lines[..1], lines[1..]);
      assert lines[..1] + lines[1..] == lines;
    }
    assert ReadAndParseRequest(lines) == Success(GET(path));
    assert GET(path) !in HelloTable().valid;
  }
}
