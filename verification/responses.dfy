/** crag-web/src/response.rs: the response value and its wire form. */
module Responses {
  import opened Wrappers
  import opened Text
  import opened Utf8

  datatype Response = Ok(body: string) | NotFound(message: string)

  const STATUS_OK: string := "HTTP/1.0 200 OK"
  const STATUS_NOT_FOUND: string := "HTTP/1.0 404 Not Found"

  /** The content type as response.rs:5 declares it: the header name is part
      of the value, and `to_output` writes the header name again. */
  const HTML_TYPE_AS_WRITTEN: string := TYPE_HEADER + HTML_TYPE

  /** The content type the format string evidently expects: the value
      alone. */
  const HTML_TYPE: string := "text/html"

  /** The page `include_str!` embeds from static/html/404.html. That file is
      not part of this model: the constant is left unspecified and nothing
      below depends on its contents. */
  const NOT_FOUND_PAGE: string

  /** The header names `to_output` writes before each value. */
  const TYPE_HEADER: string := "Content-Type: "
  const LENGTH_HEADER: string := "Content-Length: "

  function TypeLine(contentType: string): string {
    TYPE_HEADER + contentType
  }

  function LengthLine(length: nat): string {
    LENGTH_HEADER + Decimal(length)
  }

  /** Everything before the blank line: status line, Content-Type and
      Content-Length, where the length is the byte count `str::len`
      reports. */
  function Head(status: string, contentType: string, length: nat): string {
    status + "\r\n" + TypeLine(contentType) + "\r\n" + LengthLine(length)
  }

  /** `to_output`. */
  function ToOutput(status: string, contentType: string, body: string): string {
    Head(status, contentType, ByteLength(body)) + "\r\n\r\n" + body
  }

  function StatusLine(r: Response): string {
    match r
    case Ok(_) => STATUS_OK
    case NotFound(_) => STATUS_NOT_FOUND
  }

  /** The body that reaches the wire: a `NotFound`'s message never does. */
  function WireBody(r: Response): string {
    match r
    case Ok(body) => body
    case NotFound(_) => NOT_FOUND_PAGE
  }

  /** `From<Response> for Vec<u8>` exactly as written, with the doubled
      header name. */
  function SerializeAsWritten(r: Response): seq<byte> {
    Encode(ToOutput(StatusLine(r), HTML_TYPE_AS_WRITTEN, WireBody(r)))
  }

  /** `From<Response> for Vec<u8>` with the Content-Type value corrected;
      this is the serializer the rest of the model uses. */
  function Serialize(r: Response): seq<byte> {
    Encode(ToOutput(StatusLine(r), HTML_TYPE, WireBody(r)))
  }

  const CRLF: seq<byte> := [13, 10]
  const BLANK_LINE: seq<byte> := [13, 10, 13, 10]

  function Shift(o: Option<nat>, k: nat): Option<nat> {
    match o
    case None => None
    case Some(i) => Some(i + k)
  }

  /** A blank line (CR LF CR LF) starts at `j`. */
  predicate BlankAt(bs: seq<byte>, j: nat) {
    j + 4 <= |bs| && bs[j] == 13 && bs[j + 1] == 10 && bs[j + 2] == 13 && bs[j + 3] == 10
  }

  /** Where the first CR LF CR LF of `bs` starts, if anywhere. */
  function HeadEnd(bs: seq<byte>): (r: Option<nat>)
    ensures r.Some? ==> BlankAt(bs, r.value)
    ensures r.Some? ==> forall j: nat :: j < r.value ==> !BlankAt(bs, j)
    ensures r.None? ==> forall j: nat :: !BlankAt(bs, j)
    decreases |bs|
  {
    if |bs| < 4 then None
    else if BlankAt(bs, 0) then Some(0)
    else
      var rest := HeadEnd(bs[1..]);
      assert forall j: nat :: 1 <= j ==> (BlankAt(bs, j) <==> BlankAt(bs[1..], j - 1)) by {
        forall j: nat | 1 <= j
          ensures BlankAt(bs, j) <==> BlankAt(bs[1..], j - 1)
        {
        }
      }
      Shift(rest, 1)
  }

  /** How a client separates a response: head before the first blank line,
      body after it. */
  function SplitAtBlankLine(bs: seq<byte>): Option<(seq<byte>, seq<byte>)> {
    match HeadEnd(bs)
    case None => None
    case Some(k) => Some((bs[..k], bs[k + 4..]))
  }

  /** The first blank line of `bs` starts at `k`. */
  predicate FirstBlank(bs: seq<byte>, k: nat) {
    BlankAt(bs, k) && forall j: nat :: j < k ==> !BlankAt(bs, j)
  }

  /** The ensures of `HeadEnd` pin it down: it finds the first blank line. */
  lemma HeadEndIsFirstBlank(bs: seq<byte>, k: nat)
    requires FirstBlank(bs, k)
    ensures HeadEnd(bs) == Some(k)
  {
  }

  /** Bytes without a CR in front of a sequence move its first blank line
      along and add none of their own. */
  lemma FirstBlankAfterPrefix(a: seq<byte>, t: seq<byte>, k: nat)
    requires forall i :: 0 <= i < |a| ==> a[i] != 13
    requires FirstBlank(t, k)
    ensures FirstBlank(a + t, |a| + k)
  {
    var bs := a + t;
    assert BlankAt(bs, |a| + k) by {
      assert bs[|a| + k..|a| + k + 4] == t[k..k + 4];
    }
    forall j: nat | j < |a| + k
      ensures !BlankAt(bs, j)
    {
      if j < |a| {
        assert bs[j] == a[j];
      } else {
        assert !BlankAt(t, j - |a|);
        var i := j - |a|;
        if j + 4 <= |bs| {
          assert bs[j] == t[i] && bs[j + 1] == t[i + 1] && bs[j + 2] == t[i + 2] && bs[j + 3] == t[i + 3];
        }
      }
    }
  }

  /** A CR LF in front of a sequence that does not start with CR moves its
      first blank line by two. */
  lemma FirstBlankAfterCrLf(t: seq<byte>, k: nat)
    requires |t| > 0 && t[0] != 13
    requires FirstBlank(t, k)
    ensures FirstBlank(CRLF + t, 2 + k)
  {
    var bs := CRLF + t;
    assert BlankAt(bs, 2 + k) by {
      assert bs[2 + k] == t[k] && bs[3 + k] == t[k + 1] && bs[4 + k] == t[k + 2] && bs[5 + k] == t[k + 3];
    }
    forall j: nat | j < 2 + k
      ensures !BlankAt(bs, j)
    {
      if j == 0 {
        assert bs[2] == t[0];
      } else if j == 1 {
        assert bs[1] == 10;
      } else {
        assert !BlankAt(t, j - 2);
        var i := j - 2;
        if j + 4 <= |bs| {
          assert bs[j] == t[i] && bs[j + 1] == t[i + 1] && bs[j + 2] == t[i + 2] && bs[j + 3] == t[i + 3];
        }
      }
    }
  }

  lemma NoCrInEncoding(s: string)
    requires '\r' !in s
    ensures forall i :: 0 <= i < |Encode(s)| ==> Encode(s)[i] != 13
  {
    forall i | 0 <= i < |s|
      ensures s[i] as int != 13
    {
      assert s[i] != '\r';
    }
    EncodeAsciiBytes(s, 13);
  }

  lemma EncodeCrLf()
    ensures Encode("\r\n") == CRLF
    ensures Encode("\r\n\r\n") == BLANK_LINE
  {
    EncodeAscii("\r\n");
    EncodeAscii("\r\n\r\n");
  }

  /** Its first byte is that of its first character when that is ASCII. */
  lemma EncodeFirstAscii(s: string)
    requires |s| > 0 && s[0] as int < 0x80
    ensures |Encode(s)| > 0 && Encode(s)[0] == s[0] as int
  {
  }

  /** None of the fixed texts of the wire format holds a CR. */
  lemma FixedTextsHaveNoCr()
    ensures '\r' !in STATUS_OK && '\r' !in STATUS_NOT_FOUND && '\r' !in HTML_TYPE
    ensures '\r' !in TYPE_HEADER && '\r' !in LENGTH_HEADER
  {
  }

  lemma NoCrInHeaderLines(contentType: string, n: nat)
    requires '\r' !in contentType
    ensures '\r' !in TypeLine(contentType)
    ensures '\r' !in LengthLine(n)
  {
    FixedTextsHaveNoCr();
    var digits := Decimal(n);
    assert forall i :: 0 <= i < |digits| ==> IsDigit(digits[i]);
    assert '\r' !in digits;
  }

  /** Two texts joined by CR LF encode to their encodings joined by the
      two bytes 13, 10. */
  lemma EncodeCrLfJoin(a: string, b: string)
    ensures Encode(a + "\r\n" + b) == Encode(a) + (CRLF + Encode(b))
  {
    EncodeCrLf();
    EncodeAppend(a + "\r\n", b);
    EncodeAppend(a, "\r\n");
    Reassociate3(Encode(a), CRLF, Encode(b));
  }

  lemma EncodeHead(status: string, contentType: string, n: nat)
    ensures Encode(Head(status, contentType, n)) ==
      Encode(status) + (CRLF + (Encode(TypeLine(contentType)) + (CRLF + Encode(LengthLine(n)))))
  {
    var typeLine, lengthLine := TypeLine(contentType), LengthLine(n);
    EncodeCrLfJoin(status + "\r\n" + typeLine, lengthLine);
    EncodeCrLfJoin(status, typeLine);
    Reassociate5(Encode(status), CRLF, Encode(typeLine), CRLF, Encode(lengthLine));
  }

  // Regrouping of byte sequences, kept apart from the encodings they are
  // applied to.

  lemma Reassociate3(a: seq<byte>, b: seq<byte>, c: seq<byte>)
    ensures (a + b) + c == a + (b + c)
  {
  }

  lemma Reassociate5(a: seq<byte>, b: seq<byte>, c: seq<byte>, d: seq<byte>, e: seq<byte>)
    ensures (a + (b + c)) + (d + e) == a + (b + (c + (d + e)))
  {
  }

  /** The byte layout of a head: three CR-free lines separated by CR LF,
      then the blank line. Its first blank line is the terminating one. */
  lemma HeadEndOfLayout(es: seq<byte>, et: seq<byte>, el: seq<byte>, rest: seq<byte>)
    requires forall i :: 0 <= i < |es| ==> es[i] != 13
    requires |et| > 0 && forall i :: 0 <= i < |et| ==> et[i] != 13
    requires |el| > 0 && forall i :: 0 <= i < |el| ==> el[i] != 13
    ensures FirstBlank(es + (CRLF + (et + (CRLF + (el + (BLANK_LINE + rest))))), |es| + 2 + |et| + 2 + |el|)
  {
    var t0 := BLANK_LINE + rest;
    assert FirstBlank(t0, 0);
    var t1 := el + t0;
    FirstBlankAfterPrefix(el, t0, 0);
    FirstBlankAfterCrLf(t1, |el|);
    var t2 := et + (CRLF + t1);
    FirstBlankAfterPrefix(et, CRLF + t1, 2 + |el|);
    FirstBlankAfterCrLf(t2, |et| + (2 + |el|));
    FirstBlankAfterPrefix(es, CRLF + t2, 2 + (|et| + (2 + |el|)));
  }

  /** The head never holds a blank line: the first CR LF CR LF of the output
      is the one `to_output` puts after Content-Length. */
  lemma HeadEndAfterHead(status: string, contentType: string, n: nat, rest: seq<byte>)
    requires '\r' !in status && '\r' !in contentType
    ensures HeadEnd(Encode(Head(status, contentType, n)) + (BLANK_LINE + rest)) ==
      Some(|Encode(Head(status, contentType, n))|)
  {
    var typeLine, lengthLine := TypeLine(contentType), LengthLine(n);
    NoCrInHeaderLines(contentType, n);
    EncodeHead(status, contentType, n);
    var es, et, el := Encode(status), Encode(typeLine), Encode(lengthLine);
    NoCrInEncoding(status);
    NoCrInEncoding(typeLine);
    NoCrInEncoding(lengthLine);
    HeadEndOfLayout(es, et, el, rest);
    ConcatNested(es, CRLF, et, el, BLANK_LINE + rest);
    HeadEndIsFirstBlank(Encode(Head(status, contentType, n)) + (BLANK_LINE + rest), |Encode(Head(status, contentType, n))|);
  }

  lemma ConcatNested(a: seq<byte>, c: seq<byte>, b: seq<byte>, d: seq<byte>, t: seq<byte>)
    ensures (a + (c + (b + (c + d)))) + t == a + (c + (b + (c + (d + t))))
    ensures |a + (c + (b + (c + d)))| == |a| + |c| + |b| + |c| + |d|
  {
  }

  /** The bytes of `to_output`: the head, the blank line, the body. */
  lemma EncodeOutput(status: string, contentType: string, body: string)
    ensures Encode(ToOutput(status, contentType, body)) ==
      Encode(Head(status, contentType, ByteLength(body))) + (BLANK_LINE + Encode(body))
  {
    var head := Head(status, contentType, ByteLength(body));
    EncodeAppend(head + "\r\n\r\n", body);
    EncodeAppend(head, "\r\n\r\n");
    EncodeCrLf();
    Reassociate3(Encode(head), BLANK_LINE, Encode(body));
  }

  /** Splitting at a blank line known to be the first gives back both
      sides. */
  lemma SplitAtFirstBlank(head: seq<byte>, rest: seq<byte>)
    requires HeadEnd(head + (BLANK_LINE + rest)) == Some(|head|)
    ensures SplitAtBlankLine(head + (BLANK_LINE + rest)) == Some((head, rest))
  {
    var bs := head + (BLANK_LINE + rest);
    assert bs[..|head|] == head;
    assert bs[|head| + 4..] == rest;
  }

  /** Reading back what `to_output` wrote: the head is exactly the status,
      Content-Type and Content-Length lines, and the rest is exactly the body,
      whatever the body contains; the declared length is the length of what
      follows the blank line. */
  lemma OutputRoundTrip(status: string, contentType: string, body: string)
    requires '\r' !in status && '\r' !in contentType
    ensures SplitAtBlankLine(Encode(ToOutput(status, contentType, body))) ==
      Some((Encode(Head(status, contentType, |Encode(body)|)), Encode(body)))
  {
    EncodeOutput(status, contentType, body);
    HeadEndAfterHead(status, contentType, ByteLength(body), Encode(body));
    SplitAtFirstBlank(Encode(Head(status, contentType, ByteLength(body))), Encode(body));
  }

  /** A serialized response splits into the head for its status and the
      bytes of its wire body, which decode back to that body. Content-Length
      in the head is the byte count of exactly those bytes. */
  lemma SerializeRoundTrip(r: Response)
    ensures var body := Encode(WireBody(r));
      && SplitAtBlankLine(Serialize(r)) == Some((Encode(Head(StatusLine(r), HTML_TYPE, |body|)), body))
      && Decode(body) == Some(WireBody(r))
  {
    FixedTextsHaveNoCr();
    OutputRoundTrip(StatusLine(r), HTML_TYPE, WireBody(r));
    DecodeEncode(WireBody(r));
  }

  /** `Ok(b)` puts `b` itself on the wire after a 200 status line and the
      two headers, Content-Length announcing the byte count of `b`. */
  lemma SerializeOk(b: string)
    ensures SplitAtBlankLine(Serialize(Ok(b))) ==
      Some((Encode(Head(STATUS_OK, HTML_TYPE, |Encode(b)|)), Encode(b)))
  {
    SerializeRoundTrip(Ok(b));
  }

  /** A `NotFound`'s message never reaches the wire: every `NotFound`
      serializes to the same bytes, a 404 head and the embedded page. */
  lemma SerializeNotFound(m1: string, m2: string)
    ensures Serialize(NotFound(m1)) == Serialize(NotFound(m2))
    ensures SplitAtBlankLine(Serialize(NotFound(m1))) ==
      Some((Encode(Head(STATUS_NOT_FOUND, HTML_TYPE, ByteLength(NOT_FOUND_PAGE))), Encode(NOT_FOUND_PAGE)))
  {
    SerializeRoundTrip(NotFound(m1));
  }

  /** `to_output` splits just after the Content-Type header name; the
      as-written value is the header name followed by the corrected value. */
  lemma ToOutputAtTypeValue(status: string, body: string)
    ensures var p := status + "\r\n" + TYPE_HEADER;
      var q := HTML_TYPE + "\r\n" + LengthLine(ByteLength(body)) + "\r\n\r\n" + body;
      && ToOutput(status, HTML_TYPE, body) == p + q
      && ToOutput(status, HTML_TYPE_AS_WRITTEN, body) == p + (TYPE_HEADER + q)
  {
    var length := LengthLine(ByteLength(body));
    RegroupAtValue(status, "\r\n", TYPE_HEADER, HTML_TYPE, length, "\r\n\r\n", body);
    RegroupAtValue(status, "\r\n", TYPE_HEADER, HTML_TYPE_AS_WRITTEN, length, "\r\n\r\n", body);
    RegroupAtValue(status, "\r\n", TYPE_HEADER, HTML_TYPE, length, "\r\n\r\n", body);
  }

  lemma RegroupAtValue(s: string, nl: string, name: string, value: string, l: string, blank: string, body: string)
    ensures s + nl + (name + value) + nl + l + blank + body == (s + nl + name) + (value + nl + l + blank + body)
    ensures (name + value) + nl + l + blank + body == name + (value + nl + l + blank + body)
  {
  }

  lemma ToOutputDoublesHeaderName(status: string, body: string)
    ensures var p := Encode(status + "\r\n" + TYPE_HEADER);
      var q := Encode(HTML_TYPE + "\r\n" + LengthLine(ByteLength(body)) + "\r\n\r\n" + body);
      && Encode(ToOutput(status, HTML_TYPE, body)) == p + q
      && Encode(ToOutput(status, HTML_TYPE_AS_WRITTEN, body)) == p + (Encode(TYPE_HEADER) + q)
  {
    var p := status + "\r\n" + TYPE_HEADER;
    var q := HTML_TYPE + "\r\n" + LengthLine(ByteLength(body)) + "\r\n\r\n" + body;
    ToOutputAtTypeValue(status, body);
    EncodeAppend(p, q);
    EncodeAppend(p, TYPE_HEADER + q);
    EncodeAppend(TYPE_HEADER, q);
  }

  /** The leading bytes of the output are those of an ASCII status line;
      in particular the eighth, the HTTP minor version. */
  lemma ToOutputStatusByte(status: string, contentType: string, body: string, i: nat)
    requires i < |status| && IsAscii(status)
    ensures i < |Encode(ToOutput(status, contentType, body))|
    ensures Encode(ToOutput(status, contentType, body))[i] == status[i] as int
  {
    var rest := ToOutputAfterStatus(status, contentType, body);
    EncodeAsciiAt(status, rest, i);
  }

  /** The output is the status line followed by the rest. */
  lemma ToOutputAfterStatus(status: string, contentType: string, body: string) returns (rest: string)
    ensures ToOutput(status, contentType, body) == status + rest
  {
    rest := "\r\n" + TypeLine(contentType) + "\r\n" + LengthLine(ByteLength(body)) + "\r\n\r\n" + body;
  }

  /** Both status lines are ASCII and carry `0` as the minor version. */
  lemma StatusLinesVersion()
    ensures IsAscii(STATUS_OK) && |STATUS_OK| > 7 && STATUS_OK[7] == '0'
    ensures IsAscii(STATUS_NOT_FOUND) && |STATUS_NOT_FOUND| > 7 && STATUS_NOT_FOUND[7] == '0'
  {
  }

  /** Every serialised response starts `HTTP/1.0`: its eighth byte, the
      minor version, is `0`. */
  lemma SerializeVersionByte(r: Response)
    ensures |Serialize(r)| > 7 && Serialize(r)[7] == '0' as int
  {
    StatusLinesVersion();
    ToOutputStatusByte(StatusLine(r), HTML_TYPE, WireBody(r), 7);
  }

  /** As written, the second header line of every response reads
      `Content-Type: Content-Type: text/html`; corrected, it reads
      `Content-Type: text/html`. The as-written output is the corrected one
      with the 14 bytes `Content-Type: ` inserted, so the two always differ. */
  lemma SerializeAsWrittenDoublesHeaderName(r: Response)
    ensures var p := Encode(StatusLine(r) + "\r\n" + TYPE_HEADER);
      var q := Encode(HTML_TYPE + "\r\n" + LengthLine(ByteLength(WireBody(r))) + "\r\n\r\n" + WireBody(r));
      && Serialize(r) == p + q
      && SerializeAsWritten(r) == p + (Encode(TYPE_HEADER) + q)
    ensures |SerializeAsWritten(r)| == |Serialize(r)| + 14
  {
    ToOutputDoublesHeaderName(StatusLine(r), WireBody(r));
    HeaderNameLength();
  }

  lemma HeaderNameLength()
    ensures |Encode(TYPE_HEADER)| == 14
  {
    EncodeAscii(TYPE_HEADER);
  }

  /** As written, the output still splits exactly into the head (with its
      doubled header name) and the body bytes at its first blank line. */
  lemma SerializeAsWrittenRoundTrip(r: Response)
    ensures SplitAtBlankLine(SerializeAsWritten(r)) ==
      Some((Encode(Head(StatusLine(r), HTML_TYPE_AS_WRITTEN, ByteLength(WireBody(r)))), Encode(WireBody(r))))
  {
    FixedTextsHaveNoCr();
    OutputRoundTrip(StatusLine(r), HTML_TYPE_AS_WRITTEN, WireBody(r));
  }

  // ---------------------------------------------------------------------
  // Either serializer

  /** Which `From<Response> for Vec<u8>` a server writes with: the one the
      repository has, whose Content-Type line repeats the header name, or
      the corrected one. The connection pipeline is stated for both. */
  datatype Wire = AsWritten | Corrected

  /** The Content-Type value each serializer substitutes into its header
      line. */
  function ContentTypeValue(w: Wire): string {
    match w
    case AsWritten => HTML_TYPE_AS_WRITTEN
    case Corrected => HTML_TYPE
  }

  function SerializeWith(w: Wire, r: Response): seq<byte> {
    match w
    case AsWritten => SerializeAsWritten(r)
    case Corrected => Serialize(r)
  }

  /** Under either serializer the bytes split back into the head, announcing
      the body's byte count, and the body, which decodes to the text sent. */
  lemma SerializeWithRoundTrip(w: Wire, r: Response)
    ensures var body := Encode(WireBody(r));
      && SplitAtBlankLine(SerializeWith(w, r)) ==
           Some((Encode(Head(StatusLine(r), ContentTypeValue(w), |body|)), body))
      && Decode(body) == Some(WireBody(r))
  {
    match w
    case AsWritten =>
      SerializeAsWrittenRoundTrip(r);
      DecodeEncode(WireBody(r));
    case Corrected =>
      SerializeRoundTrip(r);
  }

  /** Under either serializer every response starts `HTTP/1.0`. */
  lemma SerializeWithVersionByte(w: Wire, r: Response)
    ensures |SerializeWith(w, r)| > 7 && SerializeWith(w, r)[7] == '0' as int
  {
    StatusLinesVersion();
    ToOutputStatusByte(StatusLine(r), ContentTypeValue(w), WireBody(r), 7);
  }
}
