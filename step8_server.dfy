/**
 * The request handler of the full server (`handle_client`): it splits the
 * request into request line, header block and body, pulls out the
 * `User-Agent` value, and answers through a first-match-wins chain of
 * routes, one of which reads and writes files under a base directory.
 *
 * The directory is a `FileStore` map from path to content. Whether opening a
 * file for writing fails is outside the program's control; it is the
 * `writeFails` parameter.
 */
module Step8Server {
  import opened Wrappers
  import opened Strings
  import opened MessageLines
  import opened HttpRequest
  import opened Routes
  import opened HttpResponse

  /** What `handle_client` takes out of the request text. */
  datatype Request = Request(verb: string, url: string, version: string,
                             headers: string, body: string, userAgent: string)

  /** `headers_end + 4` on `size_t`, with `npos` for a missing blank line. */
  function BodyStart(request: string): nat
  {
    SizeWrap(PositionOrNpos(Find(request, BLANK_LINE, 0)) + 4)
  }

  lemma BodyStartValue(request: string)
    requires |request| < NPOS
    ensures Contains(request, BLANK_LINE) ==> BodyStart(request) == Find(request, BLANK_LINE, 0).value + 4
    ensures !Contains(request, BLANK_LINE) ==> BodyStart(request) == 3
  {
    match Find(request, BLANK_LINE, 0)
    case None => NposPlusFour();
    case Some(i) => SizeWrapSmall(i + 4);
  }

  /** Where the blank line is, the header block ends and the body starts
      after it; where there is none, `npos + 4` wraps around to 3. */
  lemma BlankLineSplit(request: string)
    requires |request| < NPOS
    ensures Substr(request, 0, PositionOrNpos(Find(request, BLANK_LINE, 0))) == Before(request, BLANK_LINE)
    ensures BodyStart(request) <= |request| <==> Contains(request, BLANK_LINE) || |request| >= 3
    ensures Contains(request, BLANK_LINE) ==>
      request == Before(request, BLANK_LINE) + BLANK_LINE + request[BodyStart(request)..]
    ensures !Contains(request, BLANK_LINE) ==> BodyStart(request) == 3
  {
    SubstrBeforeFind(request, BLANK_LINE);
    BodyStartValue(request);
    match Find(request, BLANK_LINE, 0)
    case None =>
    case Some(i) => SplitAt(request, i);
  }

  lemma SplitAt(request: string, i: nat)
    requires |request| < NPOS && Find(request, BLANK_LINE, 0) == Some(i)
    ensures request == Before(request, BLANK_LINE) + BLANK_LINE + request[BodyStart(request)..]
  {
    BodyStartValue(request);
    assert request[i..i + 4] == BLANK_LINE;
    ThreeParts(request, i, i + 4);
  }

  /** Lines 26-48 of `handle_client`: the words of the request line, the
      header block (everything before the first blank line, request line
      included), the body after it, and the User-Agent value found in the
      header block. Without a blank line the header block is the whole
      request and the body starts at index 3; a request shorter than that
      makes `substr` throw, and nothing is parsed. */
  function ParseRequest(request: string): (r: Option<Request>)
    requires |request| < NPOS
    ensures r.None? <==> !Contains(request, BLANK_LINE) && |request| < 3
    ensures r.Some? ==> r.value.headers == Before(request, BLANK_LINE)
    ensures r.Some? && Contains(request, BLANK_LINE) ==>
      request == r.value.headers + BLANK_LINE + r.value.body
    ensures r.Some? && !Contains(request, BLANK_LINE) ==> r.value.body == request[3..]
    ensures r.Some? ==>
      RequestLineFields(r.value.verb, r.value.url, r.value.version) == ParseRequestLine(RequestLineOf(request))
      && r.value.userAgent == UserAgent(r.value.headers)
  {
    BlankLineSplit(request);
    var words := ParseRequestLine(RequestLineOf(request));
    var headers := Substr(request, 0, PositionOrNpos(Find(request, BLANK_LINE, 0)));
    var start := BodyStart(request);
    if start > |request| then None
    else
      var body := Substr(request, start, NPOS);
      Some(Request(words.verb, words.url, words.version, headers, body, UserAgent(headers)))
  }

  const USER_AGENT_MARKER: string := "User-Agent: "

  /** No CRLF starts inside the marker, so the line end searched for from the
      marker's position lies after it. */
  lemma LineEndAfterMarker(headers: string, p: nat)
    requires OccursAt(headers, USER_AGENT_MARKER, p)
    ensures Find(headers, CRLF, p) == Find(headers, CRLF, p + |USER_AGENT_MARKER|)
  {
    forall j | p <= j < p + |USER_AGENT_MARKER| ensures !OccursAt(headers, CRLF, j) {
      OccurrenceChar(headers, USER_AGENT_MARKER, p, j - p);
      Mismatch(headers, CRLF, j, 0);
    }
    FindSkip(headers, CRLF, p, p + |USER_AGENT_MARKER|);
  }

  /** With the line end `e`, `i` characters after `start`, the count
      `e - start` takes the text up to it. */
  lemma SpanToLineEnd(headers: string, start: nat, e: nat, i: nat)
    requires start <= |headers| < NPOS && e == start + i && Find(headers[start..], CRLF, 0) == Some(i)
    ensures Substr(headers, start, SizeWrap(e - start)) == Before(headers[start..], CRLF)
  {
    SizeWrapSmall(i);
    assert headers[start..start + i] == headers[start..][..i];
  }

  /** With no line end after `start`, the count `npos - start` takes the rest. */
  lemma SpanToEnd(headers: string, start: nat, e: nat)
    requires start <= |headers| < NPOS && e == NPOS && Find(headers[start..], CRLF, 0).None?
    ensures Substr(headers, start, SizeWrap(e - start)) == Before(headers[start..], CRLF)
  {
    SizeWrapSmall(NPOS - start);
  }

  /** The count `end - start`, with `end` the first line end from `start`
      or `npos`, takes the text from `start` up to that line end. */
  lemma SpanFrom(headers: string, start: nat, e: nat)
    requires start <= |headers| < NPOS && e == PositionOrNpos(Find(headers, CRLF, start))
    ensures Substr(headers, start, SizeWrap(e - start)) == Before(headers[start..], CRLF)
  {
    FindInSuffix(headers, CRLF, start);
    match Find(headers[start..], CRLF, 0)
    case None => SpanToEnd(headers, start, e);
    case Some(i) => SpanToLineEnd(headers, start, e, i);
  }

  /** Lines 41-48: the text after the first `User-Agent: ` in the header
      block, up to the next CRLF or to the end of the block; empty when the
      marker is absent. */
  function UserAgent(headers: string): (ua: string)
    requires |headers| < NPOS
    ensures Find(headers, USER_AGENT_MARKER, 0).None? ==> ua == ""
    ensures Find(headers, USER_AGENT_MARKER, 0).Some? ==>
      ua == Before(headers[Find(headers, USER_AGENT_MARKER, 0).value + |USER_AGENT_MARKER|..], CRLF)
  {
    match Find(headers, USER_AGENT_MARKER, 0)
    case None => ""
    case Some(p) =>
      var start := p + |USER_AGENT_MARKER|;
      var end := PositionOrNpos(Find(headers, CRLF, p));
      LineEndAfterMarker(headers, p);
      SpanFrom(headers, start, end);
      Substr(headers, start, SizeWrap(end - start))
  }

  /** The directory the server serves files from: path to content. */
  type FileStore = map<string, string>

  /** `base_directory + "/" + url.substr(7)`. */
  function FilePath(base: string, url: string): (path: string)
    requires IsFilesUrl(url)
    ensures path == base + "/" + FileName(url)
  {
    base + "/" + url[|FILES_PREFIX|..]
  }

  /** Lines 51-126: the response the chain of routes picks, and the store
      after it. None is the empty response a `/files/` request with a method
      other than GET and POST leaves behind. */
  function Respond(req: Request, base: string, files: FileStore, writeFails: bool): (out: (Option<Response>, FileStore))
    ensures out.0.None? <==> IsFilesUrl(req.url) && req.verb != GET && req.verb != POST
    ensures out.1 == files || (IsFilesUrl(req.url) && req.verb == POST && !writeFails)
    ensures IsFilesUrl(req.url) && req.verb == POST && !writeFails ==>
      out.1 == files[FilePath(base, req.url) := req.body] && out.0 == Some(Response(Created, None, ""))
  {
    FoundAtStartIsPrefix(req.url, FILES_PREFIX);
    FoundAtStartIsPrefix(req.url, ECHO_PREFIX);
    if FoundAtStart(req.url, FILES_PREFIX) then
      var path := FilePath(base, req.url);
      if req.verb == GET then
        if path in files then (Some(Response(OK, Some(OctetStream), files[path])), files)
        else (Some(Response(NotFound, None, "")), files)
      else if req.verb == POST then
        if writeFails then (Some(Response(InternalServerError, None, "")), files)
        else (Some(Response(Created, None, "")), files[path := req.body])
      else (None, files)
    else if req.url == ROOT_PATH || req.url == INDEX_PATH then
      (Some(Response(OK, None, "")), files)
    else if FoundAtStart(req.url, ECHO_PREFIX) && req.verb == GET then
      (Some(Response(OK, Some(TextPlain), EchoText(req.url))), files)
    else if req.url == USER_AGENT_PATH && req.verb == GET then
      (Some(Response(OK, Some(TextPlain), req.userAgent)), files)
    else
      (Some(Response(NotFound, None, "")), files)
  }

  /** The bytes `send` is given: the empty string when no response was built. */
  function WireOf(response: Option<Response>): (wire: string)
    ensures response.None? <==> wire == ""
  {
    match response
    case None => ""
    case Some(r) =>
      SerializeFramed(r);
      Serialize(r)
  }

  /** What the client sees: bytes sent, or nothing when the handler throws. */
  datatype Outcome = Sent(wire: string) | Aborted

  /** The handler on a request text. */
  function Answer(request: string, base: string, files: FileStore, writeFails: bool): (out: (Outcome, FileStore))
    requires |request| < NPOS
    ensures out.0.Aborted? <==> !Contains(request, BLANK_LINE) && |request| < 3
    ensures out.0.Aborted? ==> out.1 == files
  {
    match ParseRequest(request)
    case None => (Aborted, files)
    case Some(req) =>
      var (response, after) := Respond(req, base, files, writeFails);
      (Sent(WireOf(response)), after)
  }

  /** Whatever the handler sends, a client reads back as the response the
      route chose: nothing, or a well-framed response. */
  lemma AnswerReadsBack(request: string, base: string, files: FileStore, writeFails: bool)
    requires |request| < NPOS
    ensures var out := Answer(request, base, files, writeFails);
      out.0.Sent? ==> out.0.wire == "" || ParseResponse(out.0.wire).Some?
  {
    match ParseRequest(request)
    case None =>
    case Some(req) =>
      match Respond(req, base, files, writeFails).0
      case None =>
      case Some(r) => ParseSerialize(r);
  }

  /** The body is the tail of the request. */
  lemma BodyIsSuffix(request: string)
    requires |request| < NPOS && ParseRequest(request).Some?
    ensures var body := ParseRequest(request).value.body;
      |body| <= |request| && body == request[|request| - |body|..]
      && forall c :: c in body ==> c in request
  {
    var body := ParseRequest(request).value.body;
    assert body == request[|request| - |body|..];
  }

  /** The handler on what `read` put into the buffer. The request is the
      received text up to its first NUL, so whatever a request writes into
      the store holds no NUL and is shorter than the buffer. */
  function ClientOutcome(received: string, base: string, files: FileStore, writeFails: bool): (out: (Outcome, FileStore))
    requires |received| < BUFFER_SIZE
    ensures files.Keys <= out.1.Keys
    ensures forall path :: path in out.1 && (path !in files || out.1[path] != files[path]) ==>
      '\0' !in out.1[path] && |out.1[path]| < BUFFER_SIZE
  {
    var request := RequestOf(received);
    var out := Answer(request, base, files, writeFails);
    if out.1 != files then BodyIsSuffix(request); out else out
  }

  // ---------------------------------------------------------------------
  // Route priority
  // ---------------------------------------------------------------------

  /** `/` and `/index.html` answer 200 with an empty body whatever the method. */
  lemma RootAnyMethod(req: Request, base: string, files: FileStore, writeFails: bool)
    requires IsRootUrl(req.url)
    ensures Respond(req, base, files, writeFails) == (Some(Response(OK, None, "")), files)
  {
    RoutesDisjoint(req.url);
  }

  /** A GET of `/echo/...` answers 200 text/plain with what follows `/echo/`. */
  lemma EchoRoute(req: Request, base: string, files: FileStore, writeFails: bool)
    requires IsEchoUrl(req.url) && req.verb == GET
    ensures Respond(req, base, files, writeFails) == (Some(Response(OK, Some(TextPlain), req.url[6..])), files)
  {
    RoutesDisjoint(req.url);
  }

  /** A GET of `/user-agent` answers 200 text/plain with the User-Agent value. */
  lemma UserAgentRoute(req: Request, base: string, files: FileStore, writeFails: bool)
    requires req.url == USER_AGENT_PATH && req.verb == GET
    ensures Respond(req, base, files, writeFails) == (Some(Response(OK, Some(TextPlain), req.userAgent)), files)
  {
    RoutesDisjoint(req.url);
  }

  /** Everything no route claims answers 404 with an empty body; this covers
      `/echo/...` and `/user-agent` with a method other than GET. */
  lemma NotFoundOtherwise(req: Request, base: string, files: FileStore, writeFails: bool)
    requires !IsFilesUrl(req.url) && !IsRootUrl(req.url)
    requires !(IsEchoUrl(req.url) && req.verb == GET)
    requires !(req.url == USER_AGENT_PATH && req.verb == GET)
    ensures Respond(req, base, files, writeFails) == (Some(Response(NotFound, None, "")), files)
  {
  }

  /** A `/files/` request with a method other than GET or POST builds no
      response, so nothing is sent, and the store is untouched. */
  lemma FilesOtherMethod(req: Request, base: string, files: FileStore, writeFails: bool)
    requires IsFilesUrl(req.url) && req.verb != GET && req.verb != POST
    ensures Respond(req, base, files, writeFails) == (None, files)
  {
  }

  // ---------------------------------------------------------------------
  // The file store
  // ---------------------------------------------------------------------

  /** A GET of a file the store does not hold answers 404. */
  lemma GetMissingFile(req: Request, base: string, files: FileStore, writeFails: bool)
    requires IsFilesUrl(req.url) && req.verb == GET && FilePath(base, req.url) !in files
    ensures Respond(req, base, files, writeFails) == (Some(Response(NotFound, None, "")), files)
  {
  }

  /** A POST that cannot open its file answers 500 and writes nothing. */
  lemma PostWriteFails(req: Request, base: string, files: FileStore)
    requires IsFilesUrl(req.url) && req.verb == POST
    ensures Respond(req, base, files, true) == (Some(Response(InternalServerError, None, "")), files)
  {
  }

  /** A file written by a POST is read back whole by a later GET of the same
      url, with `Content-Length` its size; GETs change nothing. */
  lemma PostThenGet(post: Request, get: Request, base: string, files: FileStore, writeFails: bool)
    requires IsFilesUrl(post.url) && post.verb == POST && get.url == post.url && get.verb == GET
    ensures var (created, stored) := Respond(post, base, files, false);
      created == Some(Response(Created, None, ""))
      && stored == files[FilePath(base, post.url) := post.body]
      && Respond(get, base, stored, writeFails) == (Some(Response(OK, Some(OctetStream), post.body)), stored)
  {
  }

  /** Two requests for different files touch different entries. */
  lemma PostLeavesOtherFiles(post: Request, base: string, files: FileStore, path: string)
    requires IsFilesUrl(post.url) && post.verb == POST && path != FilePath(base, post.url)
    ensures var stored := Respond(post, base, files, false).1;
      (path in stored <==> path in files) && (path in files ==> stored[path] == files[path])
  {
  }

  // ---------------------------------------------------------------------
  // Whole requests
  // ---------------------------------------------------------------------

  /** With its first blank line at `k`, a request splits into the text
      before `k` and the text after the blank line. */
  lemma ParseAtBlankLine(text: string, k: nat)
    requires |text| < NPOS && Find(text, BLANK_LINE, 0) == Some(k)
    ensures ParseRequest(text).Some?
    ensures ParseRequest(text).value.headers == text[..k]
    ensures ParseRequest(text).value.body == text[k + 4..]
  {
    var r := ParseRequest(text).value;
    assert r.headers == Before(text, BLANK_LINE) == text[..k];
    SuffixOf(r.headers + BLANK_LINE, r.body);
  }

  /** The request line, field lines and body a client sends come back out of
      the parser as they went in. */
  lemma ParseRequestText(verb: string, url: string, fields: seq<string>, body: string)
    requires IsWord(verb) && IsWord(url) && AreFieldLines(fields)
    requires |RequestText(verb, url, fields, body)| < NPOS
    ensures var text := RequestText(verb, url, fields, body);
      |text| >= |body| + 4
      && var headers := text[..|text| - |body| - 4];
      ParseRequest(text) == Some(Request(verb, url, HTTP_VERSION, headers, body, UserAgent(headers)))
  {
    var text := RequestText(verb, url, fields, body);
    assert |text| >= |body| + 4 && Find(text, BLANK_LINE, 0) == Some(|text| - |body| - 4)
        && text[|text| - |body|..] == body by {
      var line := verb + " " + url + " " + HTTP_VERSION;
      WordIsLine(verb);
      WordIsLine(url);
      assert IsLine(line);
      assert text == line + CRLF + Lines(fields) + CRLF + body;
      MessageFramed(line, fields, body);
    }
    var k := |text| - |body| - 4;
    ParseAtBlankLine(text, k);
    var r := ParseRequest(text).value;
    assert r.headers == text[..k] && r.body == body;
    assert RequestLineFields(r.verb, r.url, r.version) == RequestLineFields(verb, url, HTTP_VERSION) by {
      RequestTextLine(verb, url, fields, body);
      RequestTextWords(verb, url);
    }
  }

  /** The handler answers a parsed request with the wire form of the route's
      response. */
  lemma AnswerParsed(request: string, req: Request, base: string, files: FileStore, writeFails: bool)
    requires |request| < NPOS && ParseRequest(request) == Some(req)
    requires Respond(req, base, files, writeFails).0.Some?
    ensures Answer(request, base, files, writeFails)
         == (Sent(Serialize(Respond(req, base, files, writeFails).0.value)), Respond(req, base, files, writeFails).1)
  {
  }

  lemma EchoAnswer(text: string, req: Request, base: string, files: FileStore, writeFails: bool)
    requires |text| < NPOS && ParseRequest(text) == Some(req) && IsEchoUrl(req.url) && req.verb == GET
    ensures Answer(text, base, files, writeFails) == (Sent(Serialize(Response(OK, Some(TextPlain), req.url[6..]))), files)
  {
    EchoRoute(req, base, files, writeFails);
    AnswerParsed(text, req, base, files, writeFails);
  }

  /** A GET of `/echo/<text>` is answered with `<text>` as a text/plain body
      and its length as `Content-Length`. */
  lemma EchoRequest(url: string, fields: seq<string>, body: string, base: string, files: FileStore, writeFails: bool)
    requires IsEchoUrl(url) && NoSpace(url) && AreFieldLines(fields)
    requires |RequestText(GET, url, fields, body)| < NPOS
    ensures Answer(RequestText(GET, url, fields, body), base, files, writeFails)
         == (Sent(Serialize(Response(OK, Some(TextPlain), url[6..]))), files)
  {
    var text := RequestText(GET, url, fields, body);
    ParseRequestText(GET, url, fields, body);
    var headers := text[..|text| - |body| - 4];
    EchoAnswer(text, Request(GET, url, HTTP_VERSION, headers, body, UserAgent(headers)), base, files, writeFails);
  }

  lemma PostAnswer(text: string, req: Request, base: string, files: FileStore)
    requires |text| < NPOS && ParseRequest(text) == Some(req) && IsFilesUrl(req.url) && req.verb == POST
    ensures Answer(text, base, files, false)
         == (Sent(Serialize(Response(Created, None, ""))), files[FilePath(base, req.url) := req.body])
  {
    AnswerParsed(text, req, base, files, false);
  }

  lemma GetAnswer(text: string, req: Request, base: string, files: FileStore, writeFails: bool)
    requires |text| < NPOS && ParseRequest(text) == Some(req) && IsFilesUrl(req.url) && req.verb == GET
    requires FilePath(base, req.url) in files
    ensures Answer(text, base, files, writeFails)
         == (Sent(Serialize(Response(OK, Some(OctetStream), files[FilePath(base, req.url)]))), files)
  {
    AnswerParsed(text, req, base, files, writeFails);
  }

  /** A POST to a `/files/` url stores its body under the file's path and
      answers 201; the other field lines play no part. */
  lemma PostRequest(url: string, fields: seq<string>, content: string, base: string, files: FileStore)
    requires IsFilesUrl(url) && NoSpace(url) && AreFieldLines(fields)
    requires |RequestText(POST, url, fields, content)| < NPOS
    ensures Answer(RequestText(POST, url, fields, content), base, files, false)
         == (Sent(Serialize(Response(Created, None, ""))), files[FilePath(base, url) := content])
  {
    var text := RequestText(POST, url, fields, content);
    ParseRequestText(POST, url, fields, content);
    var headers := text[..|text| - |content| - 4];
    PostAnswer(text, Request(POST, url, HTTP_VERSION, headers, content, UserAgent(headers)), base, files);
  }

  /** A GET of a `/files/` url whose file exists sends the file's content as
      an octet-stream body and changes nothing. */
  lemma GetRequest(url: string, fields: seq<string>, body: string, base: string, files: FileStore, writeFails: bool)
    requires IsFilesUrl(url) && NoSpace(url) && AreFieldLines(fields) && FilePath(base, url) in files
    requires |RequestText(GET, url, fields, body)| < NPOS
    ensures Answer(RequestText(GET, url, fields, body), base, files, writeFails)
         == (Sent(Serialize(Response(OK, Some(OctetStream), files[FilePath(base, url)]))), files)
  {
    var text := RequestText(GET, url, fields, body);
    ParseRequestText(GET, url, fields, body);
    var headers := text[..|text| - |body| - 4];
    GetAnswer(text, Request(GET, url, HTTP_VERSION, headers, body, UserAgent(headers)), base, files, writeFails);
  }

  /** A body POSTed to a `/files/` url is sent back whole, with its length,
      by a later GET of that url. */
  lemma PostThenGetRequests(url: string, postFields: seq<string>, content: string,
                            getFields: seq<string>, getBody: string,
                            base: string, files: FileStore, writeFails: bool)
    requires IsFilesUrl(url) && NoSpace(url) && AreFieldLines(postFields) && AreFieldLines(getFields)
    requires |RequestText(POST, url, postFields, content)| < NPOS
    requires |RequestText(GET, url, getFields, getBody)| < NPOS
    ensures var stored := Answer(RequestText(POST, url, postFields, content), base, files, false).1;
      Answer(RequestText(GET, url, getFields, getBody), base, stored, writeFails).0
      == Sent(Serialize(Response(OK, Some(OctetStream), content)))
  {
    PostRequest(url, postFields, content, base, files);
    var stored := files[FilePath(base, url) := content];
    GetRequest(url, getFields, getBody, base, stored, writeFails);
  }

  /** No `User-Agent: ` occurs in `s`. */
  predicate NoMarker(s: string) {
    !Contains(s, USER_AGENT_MARKER)
  }

  /** Field lines none of which holds `User-Agent: `. */
  predicate NoMarkerLines(fields: seq<string>) {
    forall i :: 0 <= i < |fields| ==> NoMarker(fields[i])
  }

  lemma NoMarkerAt(s: string, j: nat)
    requires NoMarker(s)
    ensures !OccursAt(s, USER_AGENT_MARKER, j)
  {
  }

  lemma NoOccurrence(s: string)
    requires forall j :: 0 <= j < |s| ==> !OccursAt(s, USER_AGENT_MARKER, j)
    ensures NoMarker(s)
  {
  }

  /** Text without a `U` holds no marker. */
  lemma NoMarkerWithoutU(s: string)
    requires 'U' !in s
    ensures NoMarker(s)
  {
    forall j | 0 <= j < |s| ensures !OccursAt(s, USER_AGENT_MARKER, j) {
      Mismatch(s, USER_AGENT_MARKER, j, 0);
    }
    NoOccurrence(s);
  }

  /** The marker holds no CR and no LF, so no marker runs across a line end:
      two marker-free texts joined at a CR or an LF stay marker-free. */
  lemma NoMarkerAppend(a: string, b: string)
    requires NoMarker(a) && NoMarker(b)
    requires (b != "" && b[0] == '\r') || (a != "" && a[|a| - 1] == '\n')
    ensures NoMarker(a + b)
  {
    var s := a + b;
    var m := USER_AGENT_MARKER;
    forall j | 0 <= j < |s| ensures !OccursAt(s, m, j) {
      if j + |m| <= |a| {
        assert s[j..j + |m|] == a[j..j + |m|];
        NoMarkerAt(a, j);
      } else if j >= |a| {
        if j + |m| <= |s| {
          assert s[j..j + |m|] == b[j - |a|..j - |a| + |m|];
          NoMarkerAt(b, j - |a|);
        }
      } else if b != "" && b[0] == '\r' {
        assert s[|a|] == '\r' && m[|a| - j] in m;
        Mismatch(s, m, j, |a| - j);
      } else {
        assert s[|a| - 1] == '\n' && m[|a| - 1 - j] in m;
        Mismatch(s, m, j, |a| - 1 - j);
      }
    }
    NoOccurrence(s);
  }

  lemma NoMarkerPrefix(s: string, k: nat)
    requires NoMarker(s) && k <= |s|
    ensures NoMarker(s[..k])
  {
    forall j | 0 <= j < k ensures !OccursAt(s[..k], USER_AGENT_MARKER, j) {
      if j + |USER_AGENT_MARKER| <= k {
        assert s[..k][j..j + |USER_AGENT_MARKER|] == s[j..j + |USER_AGENT_MARKER|];
        NoMarkerAt(s, j);
      }
    }
    NoOccurrence(s[..k]);
  }

  /** Marker-free field lines, written out with their CRLFs, hold no marker. */
  lemma {:induction false} LinesWithoutMarker(fields: seq<string>)
    requires NoMarkerLines(fields)
    ensures NoMarker(Lines(fields))
    ensures Lines(fields) == "" || Lines(fields)[|Lines(fields)| - 1] == '\n'
    decreases |fields|
  {
    if fields != [] {
      var first := fields[0] + CRLF;
      var rest := Lines(fields[1..]);
      NoMarkerAppend(fields[0], CRLF);
      assert NoMarkerLines(fields[1..]) by {
        forall i | 0 <= i < |fields[1..]| ensures NoMarker(fields[1..][i]) {
          assert fields[1..][i] == fields[i + 1];
        }
      }
      LinesWithoutMarker(fields[1..]);
      assert first[|first| - 1] == '\n';
      NoMarkerAppend(first, rest);
      assert Lines(fields) == first + rest;
    }
  }

  lemma {:induction false} LinesAppend(xs: seq<string>, ys: seq<string>)
    ensures Lines(xs + ys) == Lines(xs) + Lines(ys)
    decreases |xs|
  {
    if xs == [] {
      assert xs + ys == ys;
    } else {
      assert (xs + ys)[1..] == xs[1..] + ys;
      LinesAppend(xs[1..], ys);
    }
  }

  /** The first `User-Agent: ` in `pre`, the marker and `tail` is the one
      after `pre` when `pre` holds none. An earlier marker cannot start
      inside `pre` and end past it: the marker's only `U` is its first
      character. */
  lemma MarkerFirstAfter(pre: string, tail: string)
    requires NoMarker(pre)
    ensures Find(pre + USER_AGENT_MARKER + tail, USER_AGENT_MARKER, 0) == Some(|pre|)
  {
    var m := USER_AGENT_MARKER;
    var h := pre + m + tail;
    assert h[|pre|..|pre| + |m|] == m;
    forall j | 0 <= j < |pre| ensures !OccursAt(h, m, j) {
      if j + |m| <= |pre| {
        assert h[j..j + |m|] == pre[j..j + |m|];
        NoMarkerAt(pre, j);
      } else {
        assert h[|pre|] == 'U' && 'U' !in m[1..];
        assert m[|pre| - j] == m[1..][|pre| - j - 1];
        Mismatch(h, m, j, |pre| - j);
      }
    }
    FirstOccurrence(h, m, 0, |pre|);
  }

  /** `pre` holds no marker exactly when no marker starts inside `pre` in
      the whole text: `NoMarker(pre)` says "no earlier marker". */
  lemma NoEarlierMarker(pre: string, tail: string)
    ensures NoMarker(pre) <==>
      forall j :: 0 <= j < |pre| ==> !OccursAt(pre + USER_AGENT_MARKER + tail, USER_AGENT_MARKER, j)
  {
    var h := pre + USER_AGENT_MARKER + tail;
    if NoMarker(pre) {
      MarkerFirstAfter(pre, tail);
    } else {
      var j := Find(pre, USER_AGENT_MARKER, 0).value;
      assert h[j..j + |USER_AGENT_MARKER|] == pre[j..j + |USER_AGENT_MARKER|];
      assert OccursAt(h, USER_AGENT_MARKER, j);
    }
  }

  /** With no marker in `pre`, the value read is the text between the
      marker and the line end. */
  lemma UserAgentAfter(pre: string, ua: string, rest: string)
    requires NoMarker(pre) && IsLine(ua) && (rest == "" || StartsWith(rest, CRLF))
    requires |pre + USER_AGENT_MARKER + ua + rest| < NPOS
    ensures UserAgent(pre + USER_AGENT_MARKER + ua + rest) == ua
  {
    var h := pre + USER_AGENT_MARKER + ua + rest;
    var tail := ua + rest;
    MarkerFirstAfter(pre, tail);
    assert pre + USER_AGENT_MARKER + tail == h;
    assert h[|pre| + |USER_AGENT_MARKER|..] == tail;
    BeforeLineEnd(ua, rest);
  }

  /** The header block of a request whose field lines from `pre` on start
      with `User-Agent`. */
  lemma UserAgentHeaders(pre: string, ua: string, more: seq<string>, body: string)
    requires AreFieldLines(more)
    ensures var text := pre + Lines([USER_AGENT_MARKER + ua] + more) + CRLF + body;
      exists rest :: (rest == "" || StartsWith(rest, CRLF))
        && text[..|text| - |body| - 4] == pre + USER_AGENT_MARKER + ua + rest
  {
    var text := pre + Lines([USER_AGENT_MARKER + ua] + more) + CRLF + body;
    var tail := CRLF + Lines(more);
    assert ([USER_AGENT_MARKER + ua] + more)[1..] == more;
    assert text == pre + USER_AGENT_MARKER + ua + tail + CRLF + body;
    var rest := tail[..|tail| - 2];
    if more != [] {
      assert |Lines(more)| >= 2;
      assert rest[..2] == CRLF;
    }
    assert text[..|text| - |body| - 4] == pre + USER_AGENT_MARKER + ua + rest;
  }

  /** The request line of a GET of `/user-agent`, with its CRLF, holds no
      marker: it holds no `U`. */
  lemma UserAgentLineHasNoMarker()
    ensures NoMarker(GET + " " + USER_AGENT_PATH + " " + HTTP_VERSION + CRLF)
  {
    assert 'U' !in GET && 'U' !in USER_AGENT_PATH && 'U' !in HTTP_VERSION && 'U' !in CRLF;
    NoMarkerWithoutU(GET + " " + USER_AGENT_PATH + " " + HTTP_VERSION + CRLF);
  }

  /** The request line of a GET of `/user-agent` and field lines without the
      marker hold no marker. */
  lemma StartWithoutMarker(before: seq<string>)
    requires NoMarkerLines(before)
    ensures NoMarker(GET + " " + USER_AGENT_PATH + " " + HTTP_VERSION + CRLF + Lines(before))
  {
    var start := GET + " " + USER_AGENT_PATH + " " + HTTP_VERSION + CRLF;
    UserAgentLineHasNoMarker();
    LinesWithoutMarker(before);
    assert start[|start| - 1] == '\n';
    NoMarkerAppend(start, Lines(before));
  }

  lemma UserAgentFieldLines(before: seq<string>, ua: string, more: seq<string>)
    requires AreFieldLines(before) && IsLine(ua) && AreFieldLines(more)
    ensures AreFieldLines(before + [USER_AGENT_MARKER + ua] + more)
  {
    var fields := before + [USER_AGENT_MARKER + ua] + more;
    assert IsLine(USER_AGENT_MARKER + ua);
    forall i | 0 <= i < |fields| ensures fields[i] != "" && IsLine(fields[i]) {
      if i < |before| {
        assert fields[i] == before[i];
      } else if i > |before| {
        assert fields[i] == more[i - |before| - 1];
      }
    }
  }

  /** In a GET of `/user-agent` whose first `User-Agent` field line, after
      field lines `before` that hold no marker, is `User-Agent: <ua>`, the
      header block yields `<ua>`. */
  lemma UserAgentOfRequest(before: seq<string>, ua: string, more: seq<string>, body: string)
    requires IsLine(ua) && NoMarkerLines(before) && AreFieldLines(more)
    requires |RequestText(GET, USER_AGENT_PATH, before + [USER_AGENT_MARKER + ua] + more, body)| < NPOS
    ensures var text := RequestText(GET, USER_AGENT_PATH, before + [USER_AGENT_MARKER + ua] + more, body);
      |text| >= |body| + 4 && UserAgent(text[..|text| - |body| - 4]) == ua
  {
    var after := [USER_AGENT_MARKER + ua] + more;
    var start := GET + " " + USER_AGENT_PATH + " " + HTTP_VERSION + CRLF;
    var pre := start + Lines(before);
    var text := RequestText(GET, USER_AGENT_PATH, before + [USER_AGENT_MARKER + ua] + more, body);
    assert text == pre + Lines(after) + CRLF + body by {
      assert before + [USER_AGENT_MARKER + ua] + more == before + after;
      LinesAppend(before, after);
    }
    UserAgentHeaders(pre, ua, more, body);
    var rest :| (rest == "" || StartsWith(rest, CRLF))
      && text[..|text| - |body| - 4] == pre + USER_AGENT_MARKER + ua + rest;
    StartWithoutMarker(before);
    UserAgentAfter(pre, ua, rest);
  }

  /** In a GET of `/user-agent` with no `User-Agent` field, the value is empty. */
  lemma UserAgentAbsent(fields: seq<string>, body: string)
    requires NoMarkerLines(fields)
    requires |RequestText(GET, USER_AGENT_PATH, fields, body)| < NPOS
    ensures var text := RequestText(GET, USER_AGENT_PATH, fields, body);
      |text| >= |body| + 4 && UserAgent(text[..|text| - |body| - 4]) == ""
  {
    var start := GET + " " + USER_AGENT_PATH + " " + HTTP_VERSION + CRLF;
    var head := start + Lines(fields);
    var text := RequestText(GET, USER_AGENT_PATH, fields, body);
    assert text == head + CRLF + body;
    var k := |text| - |body| - 4;
    assert text[..k] == head[..k];
    StartWithoutMarker(fields);
    NoMarkerPrefix(head, k);
  }

  lemma UserAgentAnswer(text: string, req: Request, base: string, files: FileStore, writeFails: bool)
    requires |text| < NPOS && ParseRequest(text) == Some(req) && req.url == USER_AGENT_PATH && req.verb == GET
    ensures Answer(text, base, files, writeFails) == (Sent(Serialize(Response(OK, Some(TextPlain), req.userAgent))), files)
  {
    UserAgentRoute(req, base, files, writeFails);
    AnswerParsed(text, req, base, files, writeFails);
  }

  /** A GET of `/user-agent` whose first `User-Agent` field line is
      `User-Agent: <ua>`, wherever it stands among the field lines, is
      answered with `<ua>` as a text/plain body. */
  lemma UserAgentRequest(before: seq<string>, ua: string, more: seq<string>, body: string,
                         base: string, files: FileStore, writeFails: bool)
    requires IsLine(ua) && AreFieldLines(before) && NoMarkerLines(before) && AreFieldLines(more)
    requires |RequestText(GET, USER_AGENT_PATH, before + [USER_AGENT_MARKER + ua] + more, body)| < NPOS
    ensures Answer(RequestText(GET, USER_AGENT_PATH, before + [USER_AGENT_MARKER + ua] + more, body), base, files, writeFails)
         == (Sent(Serialize(Response(OK, Some(TextPlain), ua))), files)
  {
    var fields := before + [USER_AGENT_MARKER + ua] + more;
    var text := RequestText(GET, USER_AGENT_PATH, fields, body);
    UserAgentFieldLines(before, ua, more);
    ParseRequestText(GET, USER_AGENT_PATH, fields, body);
    UserAgentOfRequest(before, ua, more, body);
    var headers := text[..|text| - |body| - 4];
    UserAgentAnswer(text, Request(GET, USER_AGENT_PATH, HTTP_VERSION, headers, body, ua), base, files, writeFails);
  }

  /** A GET of `/user-agent` without a `User-Agent` field is answered 200
      with an empty text/plain body. */
  lemma UserAgentAbsentRequest(fields: seq<string>, body: string, base: string, files: FileStore, writeFails: bool)
    requires AreFieldLines(fields) && NoMarkerLines(fields)
    requires |RequestText(GET, USER_AGENT_PATH, fields, body)| < NPOS
    ensures Answer(RequestText(GET, USER_AGENT_PATH, fields, body), base, files, writeFails)
         == (Sent(Serialize(Response(OK, Some(TextPlain), ""))), files)
  {
    var text := RequestText(GET, USER_AGENT_PATH, fields, body);
    ParseRequestText(GET, USER_AGENT_PATH, fields, body);
    UserAgentAbsent(fields, body);
    var headers := text[..|text| - |body| - 4];
    UserAgentAnswer(text, Request(GET, USER_AGENT_PATH, HTTP_VERSION, headers, body, ""), base, files, writeFails);
  }

  // ---------------------------------------------------------------------
  // The handler as it runs
  // ---------------------------------------------------------------------

  /** The directory on disk, updated in place by writes. */
  class FileSystem {
    var files: FileStore

    constructor(initial: FileStore)
      ensures files == initial
    {
      files := initial;
    }

    /** `std::ifstream file(path)` and reading it whole: the content, or
        None when the file cannot be opened. */
    method ReadAll(path: string) returns (content: Option<string>)
      ensures path in files <==> content.Some?
      ensures content.Some? ==> content.value == files[path]
    {
      if path in files {
        content := Some(files[path]);
      } else {
        content := None;
      }
    }

    /** `std::ofstream file(path)` and writing `data`: the file is replaced
        when it opens. */
    method WriteAll(path: string, data: string, openFails: bool) returns (isOpen: bool)
      modifies this
      ensures isOpen == !openFails
      ensures files == if isOpen then old(files)[path := data] else old(files)
    {
      isOpen := !openFails;
      if isOpen {
        files := files[path := data];
      }
    }
  }

  /** The pieces `ParseIn` computes make up the parsed request. */
  lemma ParsedAs(request: string, words: RequestLineFields, headersEnd: nat, start: nat)
    requires |request| < NPOS && words == ParseRequestLine(RequestLineOf(request))
    requires headersEnd == PositionOrNpos(Find(request, BLANK_LINE, 0)) && start == BodyStart(request)
    ensures start > |request| ==> ParseRequest(request).None?
    ensures start <= |request| ==>
      var headers := Substr(request, 0, headersEnd);
      ParseRequest(request) == Some(Request(words.verb, words.url, words.version, headers,
                                            Substr(request, start, NPOS), UserAgent(headers)))
  {
  }

  lemma ClientAborted(received: string, base: string, files: FileStore, writeFails: bool)
    requires |received| < BUFFER_SIZE && ParseRequest(RequestOf(received)).None?
    ensures ClientOutcome(received, base, files, writeFails) == (Aborted, files)
  {
  }

  lemma ClientSent(received: string, req: Request, base: string, files: FileStore, writeFails: bool,
                   response: Option<Response>, after: FileStore)
    requires |received| < BUFFER_SIZE && ParseRequest(RequestOf(received)) == Some(req)
    requires (response, after) == Respond(req, base, files, writeFails)
    ensures ClientOutcome(received, base, files, writeFails) == (Sent(WireOf(response)), after)
  {
  }

  /** Lines 50-126 step by step: the chain of routes builds the response in
      one variable, touching the directory only for a POST. */
  method RespondIn(fs: FileSystem, req: Request, base: string, writeFails: bool) returns (response: Option<Response>)
    modifies fs
    ensures (response, fs.files) == Respond(req, base, old(fs.files), writeFails)
  {
    response := None;
    FoundAtStartIsPrefix(req.url, FILES_PREFIX);
    FoundAtStartIsPrefix(req.url, ECHO_PREFIX);
    if FoundAtStart(req.url, FILES_PREFIX) {
      var path := FilePath(base, req.url);
      if req.verb == GET {
        var content := fs.ReadAll(path);
        if content.Some? {
          response := Some(Response(OK, Some(OctetStream), content.value));
        } else {
          response := Some(Response(NotFound, None, ""));
        }
      } else if req.verb == POST {
        var isOpen := fs.WriteAll(path, req.body, writeFails);
        if isOpen {
          response := Some(Response(Created, None, ""));
        } else {
          response := Some(Response(InternalServerError, None, ""));
        }
      }
    } else if req.url == ROOT_PATH || req.url == INDEX_PATH {
      response := Some(Response(OK, None, ""));
    } else if FoundAtStart(req.url, ECHO_PREFIX) && req.verb == GET {
      response := Some(Response(OK, Some(TextPlain), EchoText(req.url)));
    } else if req.url == USER_AGENT_PATH && req.verb == GET {
      response := Some(Response(OK, Some(TextPlain), req.userAgent));
    } else {
      response := Some(Response(NotFound, None, ""));
    }
  }

  /** Lines 26-48 step by step: the request line's words, the header block
      up to the first blank line, the body after it and the User-Agent value;
      `None` where `substr` would throw. */
  method ParseIn(request: string) returns (parsed: Option<Request>)
    requires |request| < NPOS
    ensures parsed == ParseRequest(request)
  {
    var words := ParseRequestLine(RequestLineOf(request));
    var headersEnd := PositionOrNpos(Find(request, BLANK_LINE, 0));
    var headers := Substr(request, 0, headersEnd);
    var start := SizeWrap(headersEnd + 4);
    assert start == BodyStart(request);
    ParsedAs(request, words, headersEnd, start);
    if start > |request| {
      return None;
    }
    var body := Substr(request, start, NPOS);
    var userAgent := UserAgent(headers);
    parsed := Some(Request(words.verb, words.url, words.version, headers, body, userAgent));
  }

  /** `handle_client` step by step: it takes the request apart, then lets
      the chain of routes answer it. */
  method HandleClient(fs: FileSystem, received: string, base: string, writeFails: bool) returns (outcome: Outcome)
    requires |received| < BUFFER_SIZE
    modifies fs
    ensures (outcome, fs.files) == ClientOutcome(received, base, old(fs.files), writeFails)
  {
    var parsed := ParseIn(RequestOf(received));
    if parsed.None? {
      ClientAborted(received, base, fs.files, writeFails);
      return Aborted;
    }
    ghost var (chosen, after) := Respond(parsed.value, base, fs.files, writeFails);
    ClientSent(received, parsed.value, base, fs.files, writeFails, chosen, after);
    var response := RespondIn(fs, parsed.value, base, writeFails);
    outcome := Sent(WireOf(response));
  }
}
