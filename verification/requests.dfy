/** crag-web/src/request.rs: the request value and the request-line parser. */
module Requests {
  import opened Wrappers
  import opened Text

  /** The two request kinds the server understands. Equality (and so the
      routing key) is structural: a POST's body is part of its identity. */
  datatype Request = GET(path: string) | POST(path: string, body: string)

  /** The only protocol token the parser accepts. */
  const PROTOCOL: string := "HTTP/1.1"

  /** The method token that produces each kind of request. */
  function MethodName(r: Request): string {
    match r
    case GET(_) => "GET"
    case POST(_, _) => "POST"
  }

  /** The checks of `Request::parse` over the whitespace-separated tokens,
      in the order the source makes them: method, URI, protocol present; the
      protocol is `HTTP/1.1`; nothing follows it; the method is known. */
  function ParseTokens(tokens: seq<string>): Result<Request, Error> {
    if |tokens| == 0 then Failure(NoMethod)
    else if |tokens| == 1 then Failure(NoUri)
    else if |tokens| == 2 then Failure(NoProtocol)
    else if tokens[2] != PROTOCOL then Failure(UnsupportedProtocol)
    else if |tokens| > 3 then Failure(ExtraValues)
    else if tokens[0] == "GET" then Success(GET(tokens[1]))
    else if tokens[0] == "POST" then Success(POST(tokens[1], ""))
    else Failure(InvalidMethod(tokens[0]))
  }

  /** `Request::parse`. Each outcome is tied to the shape of the token list,
      in both directions: which error is reported depends only on how many
      tokens there are, whether the third is `HTTP/1.1` and what the first
      is; a success echoes the method and keeps the path verbatim. */
  function Parse(line: string): (r: Result<Request, Error>)
    ensures var t := SplitWhitespace(line);
      && (r == Failure(NoMethod) <==> |t| == 0)
      && (r == Failure(NoUri) <==> |t| == 1)
      && (r == Failure(NoProtocol) <==> |t| == 2)
      && (r == Failure(UnsupportedProtocol) <==> |t| >= 3 && t[2] != PROTOCOL)
      && (r == Failure(ExtraValues) <==> |t| > 3 && t[2] == PROTOCOL)
      && (r.Failure? && r.error.InvalidMethod? <==>
            |t| == 3 && t[2] == PROTOCOL && t[0] != "GET" && t[0] != "POST")
      && (r.Failure? && r.error.InvalidMethod? ==> r.error.verb == t[0])
      && (r.Success? <==> |t| == 3 && t[2] == PROTOCOL && (t[0] == "GET" || t[0] == "POST"))
      && (r.Success? ==> t == [MethodName(r.value), r.value.path, PROTOCOL])
      && (r.Success? && r.value.POST? ==> r.value.body == "")
  {
    ParseTokens(SplitWhitespace(line))
  }

  /** `Request::add_body`: replaces a POST's body, leaves a GET alone. */
  function AddBody(r: Request, body: string): (r': Request)
    ensures r'.path == r.path && MethodName(r') == MethodName(r)
    ensures r.POST? ==> r'.body == body
    ensures r.GET? ==> r' == r
  {
    match r
    case GET(_) => r
    case POST(path, _) => POST(path, body)
  }

  /** Attaching twice keeps only the second body. */
  lemma AddBodyLastWins(r: Request, b1: string, b2: string)
    ensures AddBody(AddBody(r, b1), b2) == AddBody(r, b2)
  {
  }

  /** Attaching a POST's own body changes nothing. */
  lemma AddBodyOwnBody(r: Request)
    requires r.POST?
    ensures AddBody(r, r.body) == r
  {
  }

  /** Identity includes the body: two POSTs to one path are the same request
      exactly when their bodies agree. */
  lemma PostIdentityIncludesBody(path: string, b1: string, b2: string)
    ensures POST(path, b1) == POST(path, b2) <==> b1 == b2
  {
  }

  /** Parsing a line depends only on its tokens, never on the whitespace
      around or between them. */
  lemma ParseRendered(ts: seq<string>, gaps: seq<string>)
    requires |gaps| == |ts| + 1 && ValidGaps(gaps) && AllWords(ts)
    ensures Parse(Render(ts, gaps)) == ParseTokens(ts)
  {
    SplitRender(ts, gaps);
  }

  /** Two layouts of the same tokens parse alike. */
  lemma ParseIgnoresLayout(ts: seq<string>, g1: seq<string>, g2: seq<string>)
    requires |g1| == |ts| + 1 && ValidGaps(g1)
    requires |g2| == |ts| + 1 && ValidGaps(g2)
    requires AllWords(ts)
    ensures Parse(Render(ts, g1)) == Parse(Render(ts, g2))
  {
    ParseRendered(ts, g1);
    ParseRendered(ts, g2);
  }

  /** A blank line (only whitespace, or nothing) is the one kind of line that
      reports a missing method. */
  lemma ParseBlank(line: string)
    ensures Parse(line) == Failure(NoMethod) <==> AllWhitespace(line)
  {
    BlankIffNoTokens(line);
  }

  /** The protocol check comes first: a third token other than `HTTP/1.1`
      is reported as such whatever the method and however many tokens
      follow. */
  lemma ProtocolCheckedFirst(ts: seq<string>, gaps: seq<string>)
    requires |gaps| == |ts| + 1 && ValidGaps(gaps) && AllWords(ts)
    requires |ts| >= 3 && ts[2] != PROTOCOL
    ensures Parse(Render(ts, gaps)) == Failure(UnsupportedProtocol)
  {
    ParseRendered(ts, gaps);
  }

  /** Three words separated by single spaces, followed by any whitespace,
      parse as exactly those three tokens. */
  lemma ParseThree(verb: string, path: string, protocol: string, eol: string)
    requires IsWord(verb) && IsWord(path) && IsWord(protocol) && AllWhitespace(eol)
    ensures Parse(verb + " " + path + " " + protocol + eol) == ParseTokens([verb, path, protocol])
  {
    var ts := [verb, path, protocol];
    var gaps := ["", " ", " ", eol];
    assert ValidGaps(gaps);
    assert Render(ts, gaps) == verb + " " + path + " " + protocol + eol by {
      assert Render(ts[3..], gaps[3..]) == eol;
      assert Render(ts[2..], gaps[2..]) == " " + protocol + eol;
      assert Render(ts[1..], gaps[1..]) == " " + path + (" " + protocol + eol);
    }
    ParseRendered(ts, gaps);
  }

  /** A single space between the parts: a path with no whitespace in it
      parses back verbatim, whatever the whitespace that ends the line. */
  lemma ParseCanonical(verb: string, path: string, eol: string)
    requires verb == "GET" || verb == "POST"
    requires IsWord(path) && AllWhitespace(eol)
    ensures Parse(verb + " " + path + " " + PROTOCOL + eol) ==
      Success(if verb == "GET" then GET(path) else POST(path, ""))
  {
    assert IsWord(verb) && IsWord(PROTOCOL);
    ParseThree(verb, path, PROTOCOL, eol);
  }

  lemma ParseCanonicalGet(path: string)
    requires IsWord(path)
    ensures Parse("GET " + path + " HTTP/1.1") == Success(GET(path))
  {
    ParseCanonical("GET", path, "");
    assert "GET " == "GET" + " ";
    assert " HTTP/1.1" == " " + PROTOCOL + "";
    assert "GET " + path + " HTTP/1.1" == "GET" + " " + path + (" " + PROTOCOL + "");
    assert "GET " + path + " HTTP/1.1" == "GET" + " " + path + " " + PROTOCOL + "";
  }

  lemma ParseCanonicalPost(path: string)
    requires IsWord(path)
    ensures Parse("POST " + path + " HTTP/1.1") == Success(POST(path, ""))
  {
    ParseCanonical("POST", path, "");
    assert "POST " == "POST" + " ";
    assert " HTTP/1.1" == " " + PROTOCOL + "";
    assert "POST " + path + " HTTP/1.1" == "POST" + " " + path + (" " + PROTOCOL + "");
    assert "POST " + path + " HTTP/1.1" == "POST" + " " + path + " " + PROTOCOL + "";
  }

  /** The request lines the source's own unit tests feed the parser. */
  lemma ParseEmptyExample()
    ensures Parse("") == Failure(NoMethod)
  {
    ParseBlank("");
  }

  lemma ParseNoUriExample()
    ensures Parse("GET") == Failure(NoUri)
  {
    assert IsWord("GET");
    ParseRendered(["GET"], ["", ""]);
    assert Render(["GET"], ["", ""]) == "GET";
  }

  lemma ParseNoProtocolExample()
    ensures Parse("GET /") == Failure(NoProtocol)
  {
    assert IsWord("GET") && IsWord("/");
    ParseRendered(["GET", "/"], ["", " ", ""]);
    assert Render(["GET", "/"], ["", " ", ""]) == "GET /";
  }

  lemma ParseOldProtocolExample()
    ensures Parse("GET / HTTP/1.0") == Failure(UnsupportedProtocol)
  {
    OldProtocolParts();
    ParseThree("GET", "/", "HTTP/1.0", "");
  }

  lemma ParseUnknownMethodExample()
    ensures Parse("FOO / HTTP/1.1") == Failure(InvalidMethod("FOO"))
  {
    UnknownMethodParts();
    ParseThree("FOO", "/", PROTOCOL, "");
  }

  lemma ParseUnknownMethodOldProtocolExample()
    ensures Parse("FOO / HTTP/1.0") == Failure(UnsupportedProtocol)
  {
    UnknownMethodOldProtocolParts();
    ParseThree("FOO", "/", "HTTP/1.0", "");
  }

  lemma ParseGoodPathExample()
    ensures Parse("GET /foo/bar HTTP/1.1") == Success(GET("/foo/bar"))
  {
    GoodPathParts();
    ParseThree("GET", "/foo/bar", PROTOCOL, "");
  }

  // Each example line cut at its single spaces, and the verdict on its
  // tokens; kept apart so that no proof has to evaluate the parser on a
  // whole literal line.

  lemma OldProtocolParts()
    ensures "GET / HTTP/1.0" == "GET" + " " + "/" + " " + "HTTP/1.0" + ""
    ensures IsWord("GET") && IsWord("/") && IsWord("HTTP/1.0")
    ensures ParseTokens(["GET", "/", "HTTP/1.0"]) == Failure(UnsupportedProtocol)
  {
    assert "HTTP/1.0"[7] != PROTOCOL[7];
  }

  lemma UnknownMethodParts()
    ensures "FOO / HTTP/1.1" == "FOO" + " " + "/" + " " + PROTOCOL + ""
    ensures IsWord("FOO") && IsWord("/") && IsWord(PROTOCOL)
    ensures ParseTokens(["FOO", "/", PROTOCOL]) == Failure(InvalidMethod("FOO"))
  {
  }

  lemma UnknownMethodOldProtocolParts()
    ensures "FOO / HTTP/1.0" == "FOO" + " " + "/" + " " + "HTTP/1.0" + ""
    ensures IsWord("FOO") && IsWord("/") && IsWord("HTTP/1.0")
    ensures ParseTokens(["FOO", "/", "HTTP/1.0"]) == Failure(UnsupportedProtocol)
  {
    assert "HTTP/1.0"[7] != PROTOCOL[7];
  }

  lemma GoodPathParts()
    ensures "GET /foo/bar HTTP/1.1" == "GET" + " " + "/foo/bar" + " " + PROTOCOL + ""
    ensures IsWord("GET") && IsWord("/foo/bar") && IsWord(PROTOCOL)
    ensures ParseTokens(["GET", "/foo/bar", PROTOCOL]) == Success(GET("/foo/bar"))
  {
  }
}
