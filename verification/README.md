# crag-web, modelled in Dafny

crag-web is a small HTTP/1.1 server library. A program registers one handler
per request with a `ServerBuilder`, plus one error handler. The server then
answers each connection in a fixed pipeline:

1. read the head of the request line by line;
2. parse the request line into a `Request` (`GET(path)` or `POST(path, body)`);
3. look the whole request up in the handler table, falling back to the error
   handler;
4. turn the handler's `Response` (`Ok(body)` or `NotFound(message)`) into
   bytes;
5. on any failure, write a fixed `500 Internal Server Error` reply instead.

This project models that pipeline as pure functions over immutable values. It
proves what each stage promises and how the stages fit together.

| file | module | models |
|---|---|---|
| `wrappers.dfy` | `Wrappers` | `Option`, `Result` and the error values the server raises, with their messages |
| `text.dfy` | `Text` | the Rust string functions the server uses: `split_whitespace`, `trim`, `starts_with`, `split(':')`, `{}` formatting of a length and `parse::<usize>` |
| `utf8.dfy` | `Utf8` | UTF-8 encoding, since `into_bytes` puts it on the wire and `str::len` counts its bytes; also a strict decoder |
| `requests.dfy` | `Requests` | `request.rs`: the `Request` value, `Request::parse` and `add_body` |
| `responses.dfy` | `Responses` | `response.rs`: the `Response` value and its serialisation through `to_output` |
| `handlers.dfy` | `Handlers` | `handler.rs`: handlers as functions and `default_error_404_handler` |
| `server.dfy` | `Server` | `server.rs`: the header loop, `parse_request`, `read_and_parse_request`, `handle_connection` and the 500 error boundary, plus end-to-end connections through the builder test's table |
| `builder.dfy` | `Builder` | `server.rs`: `ServerBuilder` and its registration chains |

A connection is modelled as the sequence of lines `read_line` would return. Its
result is the byte string written back. A handler is a Dafny function value
`Request -> Result<Response, Error>`.

Some behaviour of the code that the model keeps:

- Request equality is the derived one, so a POST's body is part of its
  identity and of its routing key.
- There is no third request kind for unknown methods. An unknown method is an
  error.
- The protocol check comes before the check for extra tokens. `FOO / HTTP/1.0`
  therefore fails on the protocol.
- Content-Length is computed but never used. No request body is read, so a
  routed POST always carries `""`.
- A connection that sends no request line fails with "No request line found".

Rust's `split_whitespace` and `trim` use the Unicode White_Space property. The
model lists that property in full (`Text.IsWhitespace`), not only its ASCII
part.

## Model

| member | source | states |
|---|---|---|
| `Requests.Parse` | crag-web/src/request.rs:9-39 | Each outcome is tied to the whitespace-separated tokens of the line, in both directions. 0, 1 or 2 tokens give no method, no URI or no protocol. A third token other than `HTTP/1.1` gives the protocol error. More than three tokens with `HTTP/1.1` give "extra values". Any other first token than `GET`/`POST` gives "Invalid method" with that token. A success echoes method and path, and a POST's body is empty. |
| `Requests.AddBody` | crag-web/src/request.rs:40-44 | Path and method are kept. A POST gets exactly the new body, and a GET is returned unchanged. |
| `Requests.AddBodyLastWins` | crag-web/src/request.rs:40-44 | Attaching two bodies in turn is the same as attaching only the second. |
| `Requests.AddBodyOwnBody` | crag-web/src/request.rs:40-44 | Re-attaching a POST's own body changes nothing. |
| `Requests.PostIdentityIncludesBody` | crag-web/src/request.rs:1-5 | Two POSTs to one path are equal exactly when their bodies are. |
| `Requests.ParseRendered` | crag-web/src/request.rs:12 | Parsing any layout of a token list gives the result of the token checks on that list. |
| `Requests.ParseIgnoresLayout` | crag-web/src/request.rs:12 | Leading, trailing and repeated whitespace never change the parse. |
| `Requests.ParseBlank` | crag-web/src/request.rs:14-16 | The parse reports a missing method exactly when the line is empty or all whitespace. |
| `Requests.ProtocolCheckedFirst` | crag-web/src/request.rs:20-31 | With three or more tokens and a third token other than `HTTP/1.1`, the result is the protocol error, whatever the method and however many tokens follow. |
| `Requests.ParseCanonical` | crag-web/src/request.rs:33-35 | `GET p HTTP/1.1` or `POST p HTTP/1.1`, followed by any whitespace, parses to `GET(p)` or `POST(p, "")` for every whitespace-free path `p`, kept verbatim. |
| `Requests.ParseCanonicalGet` | crag-web/src/request.rs:52-54 | `GET p HTTP/1.1` parses to `GET(p)`. |
| `Requests.ParseCanonicalPost` | crag-web/src/request.rs:56-57 | `POST p HTTP/1.1` parses to `POST(p, "")`. |
| `Requests.ParseEmptyExample` | crag-web/src/request.rs:60-65 | The empty line fails with "No method found". |
| `Requests.ParseNoUriExample` | crag-web/src/request.rs:77-82 | `GET` fails with "No URI found". |
| `Requests.ParseNoProtocolExample` | crag-web/src/request.rs:84-89 | `GET /` fails with "No protocol found". |
| `Requests.ParseOldProtocolExample` | crag-web/src/request.rs:91-100 | `GET / HTTP/1.0` fails with the protocol error. |
| `Requests.ParseUnknownMethodExample` | crag-web/src/request.rs:67-71 | `FOO / HTTP/1.1` fails with "Invalid method FOO". |
| `Requests.ParseUnknownMethodOldProtocolExample` | crag-web/src/request.rs:24-36 | `FOO / HTTP/1.0` fails on the protocol, not on the method. |
| `Requests.ParseGoodPathExample` | crag-web/src/request.rs:72-76 | `GET /foo/bar HTTP/1.1` parses to `GET("/foo/bar")`. |
| `Text.SplitWhitespaceWords` | crag-web/src/request.rs:12 | Every token is a non-empty run of non-whitespace characters. |
| `Text.GapsValid` | crag-web/src/request.rs:12 | What splitting discards between the tokens is whitespace, and at least one character of it separates each pair of neighbouring tokens. |
| `Text.SplitRender` | crag-web/src/request.rs:12 | Tokens laid out with any whitespace gaps (non-empty between tokens) split back to exactly those tokens. |
| `Text.RenderSplit` | crag-web/src/request.rs:12 | Every string is its tokens laid out with its own whitespace gaps, so nothing is lost but whitespace. |
| `Text.BlankIffNoTokens` | crag-web/src/request.rs:14-16 | A string has no tokens exactly when it is all whitespace. |
| `Text.Trim` | crag-web/src/server.rs:179 | Neither end of the result is whitespace. The result is empty exactly when the input is all whitespace. |
| `Text.TrimPadded` | crag-web/src/server.rs:182 | Trimming removes exactly the whitespace padding around a core that neither starts nor ends with whitespace. |
| `Text.TrimDecomposes` | crag-web/src/server.rs:179 | Every string is its trimmed form with a whitespace prefix before it and a whitespace suffix after it. |
| `Text.IndexOf` | crag-web/src/server.rs:180 | Finds the first occurrence of the character, or reports that it is absent. |
| `Text.Split` | crag-web/src/server.rs:180 | There is at least one field, no field contains the separator, and joining the fields with the separator gives back the input. |
| `Text.SplitJoin` | crag-web/src/server.rs:180-181 | Splitting a join of separator-free fields gives back those fields. |
| `Text.SplitPair` | crag-web/src/server.rs:180-181 | Two separator-free fields joined by one separator split into exactly those two fields. |
| `Text.Decimal` | crag-web/src/response.rs:25-28 | The decimal form of a length is non-empty digits without a leading zero. |
| `Text.DecimalValue` | crag-web/src/response.rs:25-28 | The digits of the decimal form denote the number. |
| `Text.ParseUsize` | crag-web/src/server.rs:182 | Accepts only an optional `+` followed by at least one digit, with a value at most 2^64-1. A digit string, with or without the `+`, parses to its decimal value exactly when that value fits, and fails otherwise. |
| `Text.LeadingZeroValue` | crag-web/src/server.rs:182 | A leading zero does not change the value of a digit string. |
| `Text.ParseLeadingZero` | crag-web/src/server.rs:182 | Leading zeros and a leading `+` do not change what a digit string parses to, so `"007"`, `"+07"` and `"7"` read the same. |
| `Text.ParseDecimal` | crag-web/src/server.rs:182 | The decimal form of any `usize`, with or without a leading `+`, parses back to that number. |
| `Utf8.EncodeChar` | crag-web/src/response.rs:19 | A character encodes to 1 to 4 bytes. ASCII encodes to itself. Every byte of a non-ASCII character has the high bit set. |
| `Utf8.DecodeEncode` | crag-web/src/response.rs:19 | Decoding the bytes of any string gives the string back. |
| `Utf8.EncodeDecode` | crag-web/src/response.rs:19 | Whatever bytes decode re-encode to themselves, so the encoding is injective. |
| `Utf8.EncodeAppend` | crag-web/src/response.rs:24-30 | The encoding of a concatenation is the concatenation of the encodings. |
| `Utf8.EncodeAsciiBytes` | crag-web/src/response.rs:25 | An ASCII byte appears in an encoding only if its character appears in the text. |
| `Responses.HeadEnd` | crag-web/src/response.rs:25 | Finds the first CR LF CR LF in a byte string, or reports that there is none. |
| `Responses.HeadEndOfLayout` | crag-web/src/response.rs:25 | After three CR-free lines joined by CR LF, the first blank line is the one that ends the third line. |
| `Responses.HeadEndAfterHead` | crag-web/src/response.rs:25 | The bytes of a head contain no blank line, so the first blank line in the output is the one after Content-Length. |
| `Responses.OutputRoundTrip` | crag-web/src/response.rs:23-31 | Splitting the output at its first blank line gives back exactly the head (status, Content-Type, Content-Length) and exactly the body's bytes, whatever the body contains. Content-Length is the byte count of those body bytes. |
| `Responses.SerializeRoundTrip` | crag-web/src/response.rs:6-31 | Every response splits into the head for its status line and the bytes of its wire body, announced by Content-Length. Those bytes decode back to the body. |
| `Responses.SerializeOk` | crag-web/src/response.rs:9-11 | `Ok(b)` puts exactly the 200 head and then `b` on the wire, with Content-Length equal to the byte count of `b`. |
| `Responses.SerializeNotFound` | crag-web/src/response.rs:13-16 | Every `NotFound` serialises to the same bytes, whatever its message: the 404 head and then the embedded page. |
| `Responses.SerializeVersionByte` | crag-web/src/response.rs:10-14 | Every serialised response starts with `HTTP/1.0`: its eighth byte is `0`. |
| `Responses.SerializeWithRoundTrip` | crag-web/src/response.rs:5-31 | Under either serializer, as written or corrected, the bytes split into the head with that serializer's Content-Type value and the body bytes, which decode back to the body. |
| `Responses.SerializeWithVersionByte` | crag-web/src/response.rs:10-14 | Under either serializer every response starts with `HTTP/1.0`. |
| `Responses.ToOutputStatusByte` | crag-web/src/response.rs:25 | The output starts with the bytes of an ASCII status line. |
| `Responses.ToOutputDoublesHeaderName` | crag-web/src/response.rs:5 | With the content type as declared, the output is the corrected output with `Content-Type: ` inserted after the header name. |
| `Responses.SerializeAsWrittenDoublesHeaderName` | crag-web/src/response.rs:5-16 | As written, every response has `Content-Type: ` twice in its second line. Its output is 14 bytes longer than the corrected one. |
| `Responses.SerializeAsWrittenRoundTrip` | crag-web/src/response.rs:5-31 | As written, the head and body still split apart exactly, so the fix changes only the Content-Type value. |
| `Handlers.Default404Handler` | crag-web/src/handler.rs:20-33 | Every request gets `Ok(NotFound("not found"))`, and there is no failure path. |
| `Handlers.Default404IgnoresRequest` | crag-web/src/handler.rs:20 | Any two requests get the same result. |
| `Handlers.Default404Wire` | crag-web/src/handler.rs:32 | Under either serializer, every request gets the same fixed 404 bytes as any other `NotFound`: the 404 head with that serializer's Content-Type value, announcing the page's byte count, then the page. |
| `Handlers.Default404BufferLayout` | crag-web/src/handler.rs:21-30 | The buffer the handler builds has the `to_output` layout, with an `HTTP/1.1 404` status line and a correct Content-Type. |
| `Handlers.Default404BufferNotSent` | crag-web/src/handler.rs:26-32 | The buffer is not what reaches the wire: under either serializer it differs from the serialised 404 in the minor version byte. |
| `Server.CollectHeaders` | crag-web/src/server.rs:137-147 | The result is the longest prefix of the lines that holds no terminator (`""`, `"\r"`, `"\r\n"`). When lines remain after it, the next one is a terminator. |
| `Server.ReadHeaders` | crag-web/src/server.rs:137-147 | The push loop collects exactly that prefix. |
| `Server.CollectHeadersStop` | crag-web/src/server.rs:142-145 | Non-terminator lines followed by a terminator or the end of the stream collect to exactly those lines. |
| `Server.CollectHeadersIdempotent` | crag-web/src/server.rs:137-147 | Collecting the collected lines again changes nothing. |
| `Server.BareLineFeedKept` | crag-web/src/server.rs:142 | A line that is only `"\n"` is kept as a header line and does not end the head. |
| `Server.FindContentLength` | crag-web/src/server.rs:174-176 | Finds the first line with the case-sensitive prefix `Content-Length:`, or reports that there is none. |
| `Server.ContentLengthFirstWins` | crag-web/src/server.rs:173-185 | The length is the value of the first `Content-Length:` line, or 0 when that value does not parse. Later lines are never consulted. |
| `Server.ContentLengthMissing` | crag-web/src/server.rs:184 | With no `Content-Length:` line the length is 0. |
| `Server.SplitHeaderLine` | crag-web/src/server.rs:180-181 | The second `:` field of `Content-Length:` followed by a colon-free value is that value. |
| `Server.HeaderValueOfNumber` | crag-web/src/server.rs:177-183 | `Content-Length:` followed by any `usize`, padded with any whitespace, reads back as that number. |
| `Server.WrittenContentLengthReadBack` | crag-web/src/server.rs:177-183 | The Content-Length line that `to_output` writes reads back as the byte length of the body. |
| `Server.ParseRequest` | crag-web/src/server.rs:158-189 | No lines fail with "No request line found". Otherwise the result succeeds exactly when the first line parses, and carries that line's error when it does not. A GET has length 0 whatever follows. A POST takes its length from the lines after the request line. |
| `Server.ParseRequestOneLine` | crag-web/src/server.rs:222-228 | `["GET / HTTP/1.1"]` parses to `GET("/")` with length 0. |
| `Server.ParseRequestNoLines` | crag-web/src/server.rs:230-243 | No lines fail, with the message "No request line found". |
| `Server.ReadAndParseRequest` | crag-web/src/server.rs:132-156 | Succeeds exactly when the collected head is non-empty and its first line parses. The request is then that parse, with the length dropped. |
| `Server.ParsedPostBodyEmpty` | crag-web/src/server.rs:149-155 | A POST that reaches routing always has the body `""`. |
| `Server.HandleConnection` | crag-web/src/server.rs:111-130 | A parse failure is passed on. Otherwise exactly one handler runs: the table's entry when the whole request is a key, else the error handler. Its failure is passed on, and its response is serialised with the chosen serializer. With `AsWritten` these are the bytes `Vec::<u8>::from` gives at server.rs:127, doubled Content-Type header name included. |
| `Server.ServeConnection` | crag-web/src/server.rs:99-104 | The connection gets the 500 reply exactly when parsing or the handler failed. Otherwise it gets the routed handler's response serialised with the chosen serializer. |
| `Server.SerializeIsNotInternalError` | crag-web/src/server.rs:103 | Under either serializer, no serialised response is ever equal to the 500 reply. |
| `Server.RouteIgnoresOtherKeys` | crag-web/src/server.rs:119-122 | Adding, replacing or removing the entry for another request does not change a connection's result. |
| `Server.ErrorHandlerOnlyOnMiss` | crag-web/src/server.rs:119-122 | When the request has an entry, the error handler has no effect. |
| `Server.PostWithBodyNeverRouted` | crag-web/src/server.rs:119-122 | An entry for a POST with a non-empty body never changes any connection's result. |
| `Server.EmptyConnectionGets500` | crag-web/src/server.rs:166-168 | A connection that sends nothing, or starts with a blank line, gets the 500 reply. |
| `Server.HandlerFailureGets500` | crag-web/src/server.rs:124 | When the routed handler fails, the connection gets the 500 reply. |
| `Builder.Build` | crag-web/src/server.rs:88-93 | A new builder has no routes and no error handler. |
| `Builder.RegisterHandler` | crag-web/src/server.rs:66-73 | The request now maps to the new handler. Every other entry, the set of other keys and the error handler are unchanged. |
| `Builder.RegisterErrorHandler` | crag-web/src/server.rs:75-84 | Fails with "Error handler already registered" exactly when one is set. Otherwise it sets the handler and keeps the routes. |
| `Builder.Finalize` | crag-web/src/server.rs:39-65 | Fails with "No handler for 404 errors" exactly when no error handler is set. Otherwise it hands over the routes and the error handler unchanged. |
| `Builder.ApplySucceedsIff` | crag-web/src/server.rs:75-84 | A chain of registrations succeeds exactly when it registers at most one error handler in all, and otherwise fails with "Error handler already registered". On success, an error handler is held exactly when one was registered. |
| `Builder.ApplyLastWins` | crag-web/src/server.rs:71 | After a chain, each request maps to the handler of its last registration, or keeps what the builder held when the chain never registered it. |
| `Builder.FinalizeAfterChain` | crag-web/src/server.rs:41-44 | A chain started from `build` and then finalized succeeds exactly when it registers exactly one error handler. |
| `Builder.BuilderExamples` | crag-web/src/server.rs:198-220 | The builder tests' chain finalizes, and the same chain without an error handler fails to finalize. |
| `Builder.HelloTableBuilt` | crag-web/src/server.rs:199-206 | The builder test's chain yields the table with one route for `GET /` and the default 404 handler. |
| `Server.ServeHello` | crag-web/src/server.rs:111-130 | Through the builder test's table, `GET / HTTP/1.1` with one header line gets the greeting, serialised with the chosen serializer. |
| `Server.ServeMissing` | crag-web/src/server.rs:119-122 | Through that table, a GET for any other path gets the default handler's 404, serialised with the chosen serializer. |

## Left out

- Sockets: the listener, address resolution and `bind` in `finalize`, and the accept loop in `Server::run`. These are I/O. `Finalize` models only the error-handler check.
- The thread pool (`ThreadPool::build`, `execute`). Its source is not part of this model, and it only adds concurrency.
- `BufReader`/`read_line` mechanics, read errors (including invalid UTF-8 on input) and partial writes by `write_all`. A connection is the sequence of lines `read_line` would return. Its result is the bytes that would be written.
- Logging (`println!` in `Request::parse`, `tracing::error!` in the error boundary). It has no effect on results.
- The contents of `static/html/404.html`. The page is the unspecified constant `Responses.NOT_FOUND_PAGE`, and nothing depends on its text.
- `HandlerTrait` and its blanket impl for closures. A handler is the function value itself, so `handle(r)` is function application and needs no separate member.
- The error text "Error parsing request: ..." that `handle_connection` wraps around a parse error. Only the fact of failure reaches the client, as the 500 reply.
- `Text.ParseUsize`: `usize` is taken to be 64 bits wide. On a 32-bit target, values above 2^32-1 would also be rejected.
- `crag-web/tests`, `crag-web/examples` and `hello/`. They build a response type that no longer exists.

## Findings

| source | as written | input that shows it | evidently intended | confidence | as-written member | corrected member |
|---|---|---|---|---|---|---|
| crag-web/src/response.rs:5 | `HTML_TYPE` is `"Content-Type: text/html"`, and `to_output` writes `Content-Type: {type}` | any response, e.g. `Ok("")`: the second header line is `Content-Type: Content-Type: text/html` | the value `text/html` alone, as `default_error_404_handler` writes it at crag-web/src/handler.rs:27 | not executed | `Responses.SerializeAsWrittenDoublesHeaderName` | `Responses.SerializeRoundTrip` |

The as-written serialiser is `Responses.SerializeAsWritten`, and the corrected
one is `Responses.Serialize`. The connection pipeline (`Server.HandleConnection`,
`Server.ServeConnection`) takes the serializer as a `Responses.Wire` argument.
`AsWritten` gives the bytes the program writes, and `Corrected` gives the bytes
it evidently means to write. Every property of the pipeline is proved for both.
