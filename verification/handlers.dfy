/** crag-web/src/handler.rs: what a handler is, and the default 404
    handler. */
module Handlers {
  import opened Wrappers
  import opened Text
  import opened Utf8
  import opened Requests
  import opened Responses

  /** A handler turns a request into a response or an error. The source's
      blanket `HandlerTrait` impl for closures makes `handle(r)` the closure
      applied to `r`; here a handler is that function value and invoking it is
      application. */
  type Handler = Request -> Result<Response, Error>

  /** `default_error_404_handler`: whatever the request, a `NotFound`
      carrying the text `not found`; it has no failure path. */
  function Default404Handler(request: Request): (r: Result<Response, Error>)
    ensures r.Success? && r.value.NotFound?
    ensures r.value.message == "not found"
  {
    Success(NotFound("not found"))
  }

  /** The status line of the buffer the default handler builds. */
  const BUFFER_STATUS: string := "HTTP/1.1 404 Not Found"

  /** The `full_response` buffer the default handler assembles and then
      drops: a head in HTTP/1.1 with the byte count of the embedded page,
      followed by that page. Its format string spells out the same three
      lines as `Head`, with `text/html` written in place. */
  function Default404Buffer(): seq<byte> {
    Encode(Head(BUFFER_STATUS, HTML_TYPE, ByteLength(NOT_FOUND_PAGE)) + "\r\n\r\n") + Encode(NOT_FOUND_PAGE)
  }

  /** The default handler ignores its argument: any two requests get the
      same result. */
  lemma Default404IgnoresRequest(r1: Request, r2: Request)
    ensures Default404Handler(r1) == Default404Handler(r2)
  {
  }

  /** Composed with either serializer, the default handler puts the same
      fixed 404 response on the wire for every request: a 404 head announcing
      the embedded page's byte count, then the page. */
  lemma Default404Wire(w: Wire, request: Request)
    ensures var out := SerializeWith(w, Default404Handler(request).value);
      && SplitAtBlankLine(out) ==
        Some((Encode(Head(STATUS_NOT_FOUND, ContentTypeValue(w), ByteLength(NOT_FOUND_PAGE))), Encode(NOT_FOUND_PAGE)))
      && forall m: string {:trigger NotFound(m)} :: out == SerializeWith(w, NotFound(m))
  {
    SerializeWithRoundTrip(w, NotFound("not found"));
  }

  /** The dropped buffer is the `to_output` layout with the HTTP/1.1 status
      line and the Content-Type value written correctly. */
  lemma Default404BufferLayout()
    ensures Default404Buffer() == Encode(ToOutput(BUFFER_STATUS, HTML_TYPE, NOT_FOUND_PAGE))
  {
    EncodeAppend(Head(BUFFER_STATUS, HTML_TYPE, ByteLength(NOT_FOUND_PAGE)) + "\r\n\r\n", NOT_FOUND_PAGE);
  }

  /** The buffer's status line is ASCII with `1` as the minor version. */
  lemma BufferStatusVersion()
    ensures IsAscii(BUFFER_STATUS) && |BUFFER_STATUS| > 7 && BUFFER_STATUS[7] == '1'
  {
  }

  /** The buffer has no effect on what reaches the wire, and it could not
      stand in for it: its eighth byte (the minor version) is `1` where the
      serialised 404 has `0`, under either serializer. */
  lemma Default404BufferNotSent(w: Wire, request: Request)
    ensures Default404Buffer() != SerializeWith(w, Default404Handler(request).value)
  {
    Default404BufferLayout();
    BufferStatusVersion();
    ToOutputStatusByte(BUFFER_STATUS, HTML_TYPE, NOT_FOUND_PAGE, 7);
    SerializeWithVersionByte(w, Default404Handler(request).value);
  }
}
