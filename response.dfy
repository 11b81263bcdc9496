/**
 * The responses both servers write: a status line, a `Content-Type` field
 * when there is a body type to announce, a `Content-Length` field holding the
 * decimal length of the body (section 8.6 of RFC 9110), the empty line, and
 * the body. `Serialize` writes one; `ParseResponse` reads one back the way a
 * client would, and checks that `Content-Length` matches the body it frames.
 */
module HttpResponse {
  import opened Wrappers
  import opened Strings
  import opened MessageLines

  datatype Status = OK | Created | NotFound | InternalServerError

  function StatusLine(status: Status): string
  {
    match status
    case OK => "HTTP/1.1 200 OK"
    case Created => "HTTP/1.1 201 Created"
    case NotFound => "HTTP/1.1 404 Not Found"
    case InternalServerError => "HTTP/1.1 500 Internal Server Error"
  }

  /** Recognises a status line; every status has exactly one. */
  function StatusOf(line: string): (status: Option<Status>)
    ensures status.Some? ==> StatusLine(status.value) == line
    ensures status.None? ==> forall s :: StatusLine(s) != line
  {
    if line == StatusLine(OK) then Some(OK)
    else if line == StatusLine(Created) then Some(Created)
    else if line == StatusLine(NotFound) then Some(NotFound)
    else if line == StatusLine(InternalServerError) then Some(InternalServerError)
    else None
  }

  datatype MediaType = TextPlain | OctetStream

  function MediaTypeName(t: MediaType): string
  {
    match t
    case TextPlain => "text/plain"
    case OctetStream => "application/octet-stream"
  }

  function MediaTypeOf(name: string): (t: Option<MediaType>)
    ensures t.Some? ==> MediaTypeName(t.value) == name
    ensures t.None? ==> forall m :: MediaTypeName(m) != name
  {
    if name == MediaTypeName(TextPlain) then Some(TextPlain)
    else if name == MediaTypeName(OctetStream) then Some(OctetStream)
    else None
  }

  datatype Response = Response(status: Status, contentType: Option<MediaType>, body: string)

  /** The names of the two fields the servers write, with the `: ` that
      separates a field name from its value. */
  const CONTENT_TYPE: string := "Content-Type: "
  const CONTENT_LENGTH: string := "Content-Length: "

  /** The field lines of a response: the optional `Content-Type`, then
      `Content-Length` with `std::to_string` of the body length. */
  function HeaderFields(r: Response): seq<string>
  {
    (if r.contentType.Some? then [CONTENT_TYPE + MediaTypeName(r.contentType.value)] else [])
    + [CONTENT_LENGTH + NatToDecimal(|r.body|)]
  }

  /** The bytes the server hands to `send`. */
  function Serialize(r: Response): string
  {
    StatusLine(r.status) + CRLF + Lines(HeaderFields(r)) + CRLF + r.body
  }

  /** The value of a field line that starts with `name`, if it does. */
  function FieldValue(line: string, name: string): (value: Option<string>)
    ensures value.Some? <==> StartsWith(line, name)
    ensures value.Some? ==> line == name + value.value
  {
    if StartsWith(line, name) then Some(line[|name|..]) else None
  }

  /** The length a `Content-Length` line announces, when it is a decimal. */
  function ContentLengthOf(line: string): (n: Option<nat>)
    ensures n.Some? ==> exists v :: line == CONTENT_LENGTH + v && IsCanonicalDecimal(v)
  {
    match FieldValue(line, CONTENT_LENGTH)
    case Some(v) => if IsCanonicalDecimal(v) then Some(DecimalToNat(v)) else None
    case None => None
  }

  /** Reads the field lines a server writes: `Content-Length` alone, or
      `Content-Type` and then `Content-Length`. */
  function ParseFields(fields: seq<string>): Option<(Option<MediaType>, nat)>
  {
    if |fields| == 1 then
      match ContentLengthOf(fields[0])
      case Some(n) => Some((None, n))
      case None => None
    else if |fields| == 2 then
      match (FieldValue(fields[0], CONTENT_TYPE), ContentLengthOf(fields[1]))
      case (Some(v), Some(n)) =>
        (match MediaTypeOf(v)
         case Some(t) => Some((Some(t), n))
         case None => None)
      case _ => None
    else None
  }

  /** A client's reading of a response: status line, field lines, empty
      line, and a body as long as `Content-Length` says. */
  function ParseResponse(wire: string): Option<Response>
  {
    match SplitLine(wire)
    case None => None
    case Some((line, rest)) =>
      match (StatusOf(line), ReadFields(rest))
      case (Some(status), Some((fields, body))) =>
        (match ParseFields(fields)
         case Some((contentType, length)) =>
           if length == |body| then Some(Response(status, contentType, body)) else None
         case None => None)
      case _ => None
  }

  lemma StatusLineRoundTrip(status: Status)
    ensures StatusOf(StatusLine(status)) == Some(status)
    ensures IsLine(StatusLine(status))
  {
  }

  lemma DigitsAreLine(s: string)
    requires AllDigits(s)
    ensures IsLine(s)
  {
    assert forall i :: 0 <= i < |s| ==> s[i] != '\r';
  }

  lemma FieldLineIsLine(name: string, value: string)
    requires name != "" && IsLine(name) && IsLine(value)
    ensures name + value != "" && IsLine(name + value)
  {
    assert (name + value)[0] == name[0];
  }

  lemma HeaderFieldsAreLines(r: Response)
    ensures AreFieldLines(HeaderFields(r))
  {
    var length := NatToDecimal(|r.body|);
    DigitsAreLine(length);
    FieldLineIsLine(CONTENT_LENGTH, length);
    if r.contentType.Some? {
      FieldLineIsLine(CONTENT_TYPE, MediaTypeName(r.contentType.value));
    }
  }

  lemma FieldValueOf(name: string, value: string)
    ensures FieldValue(name + value, name) == Some(value)
  {
    assert (name + value)[..|name|] == name;
  }

  lemma ContentLengthRoundTrip(n: nat)
    ensures ContentLengthOf(CONTENT_LENGTH + NatToDecimal(n)) == Some(n)
  {
    FieldValueOf(CONTENT_LENGTH, NatToDecimal(n));
    DecimalRoundTrip(n);
  }

  lemma ParseHeaderFields(r: Response)
    ensures ParseFields(HeaderFields(r)) == Some((r.contentType, |r.body|))
  {
    ContentLengthRoundTrip(|r.body|);
    if r.contentType.Some? {
      FieldValueOf(CONTENT_TYPE, MediaTypeName(r.contentType.value));
      assert HeaderFields(r)[1] == CONTENT_LENGTH + NatToDecimal(|r.body|);
    }
  }

  /** A client reads back exactly the response the server wrote: the
      status, the content type, and a body whose length is the one
      `Content-Length` announces. */
  lemma ParseSerialize(r: Response)
    ensures ParseResponse(Serialize(r)) == Some(r)
  {
    var line := StatusLine(r.status);
    var rest := Lines(HeaderFields(r)) + CRLF + r.body;
    StatusLineRoundTrip(r.status);
    assert Serialize(r) == line + CRLF + rest;
    SplitLineAfter(line, rest);
    HeaderFieldsAreLines(r);
    ReadFieldsOfLines(HeaderFields(r), r.body);
    ParseHeaderFields(r);
  }

  /** The header block of a written response ends at its first blank line,
      right before the body: the response is never empty and always closes
      its headers with CRLF CRLF. */
  lemma SerializeFramed(r: Response)
    ensures var wire := Serialize(r);
      |wire| >= |r.body| + 4
      && Find(wire, BLANK_LINE, 0) == Some(|wire| - |r.body| - 4)
      && wire[|wire| - |r.body|..] == r.body
  {
    StatusLineRoundTrip(r.status);
    HeaderFieldsAreLines(r);
    MessageFramed(StatusLine(r.status), HeaderFields(r), r.body);
  }

  /** The wire form of a response without a body type: the status line and
      `Content-Length: 0`, as the servers spell it out. */
  lemma UntypedWire(status: Status)
    ensures Serialize(Response(status, None, ""))
         == StatusLine(status) + CRLF + CONTENT_LENGTH + "0" + CRLF + CRLF
  {
    assert NatToDecimal(0) == "0";
    var field := CONTENT_LENGTH + "0";
    assert HeaderFields(Response(status, None, "")) == [field];
    assert Lines([field]) == field + CRLF + Lines([]);
  }
}
