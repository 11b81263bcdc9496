/**
 * The reduced server (`main` of the fourth step): it reads only the request
 * line, takes its first three words, and answers `/echo/<text>` with the text,
 * `/` and `/index.html` with an empty 200, and everything else with 404.
 * Every request gets exactly one of these three answers.
 */
module Step4Server {
  import opened Wrappers
  import opened Strings
  import opened MessageLines
  import opened HttpRequest
  import opened Routes
  import opened HttpResponse

  /** Lines 85-108: the first route that matches, echo before root. */
  function Dispatch(verb: string, url: string): Response
  {
    FoundAtStartIsPrefix(url, ECHO_PREFIX);
    if FoundAtStart(url, ECHO_PREFIX) && verb == GET then
      Response(OK, Some(TextPlain), EchoText(url))
    else if url == ROOT_PATH || url == INDEX_PATH then
      Response(OK, None, "")
    else
      Response(NotFound, None, "")
  }

  /** Lines 75-82: the response chosen from the words of the request line. */
  function Route(request: string): Response
  {
    var words := ParseRequestLine(RequestLineOf(request));
    Dispatch(words.verb, words.url)
  }

  /** The bytes handed to `send`. */
  function Answer(request: string): string
  {
    Serialize(Route(request))
  }

  /** Lines 64-75: the answer to what `read` put into the zeroed buffer, up
      to its first NUL. Whatever arrived, the client gets a response it can
      read back. */
  function ClientAnswer(received: string): (wire: string)
    requires |received| < BUFFER_SIZE
    ensures ParseResponse(wire) == Some(Route(RequestOf(received)))
  {
    AnswerFramed(RequestOf(received));
    Answer(RequestOf(received))
  }

  /** A GET of `/echo/<text>` is answered 200 with `<text>` as a text/plain
      body, so `Content-Length` is the decimal length of `<text>`. */
  lemma EchoDispatch(verb: string, url: string)
    requires IsEchoUrl(url) && verb == GET
    ensures Dispatch(verb, url) == Response(OK, Some(TextPlain), url[|ECHO_PREFIX|..])
    ensures ECHO_PREFIX + Dispatch(verb, url).body == url
  {
  }

  /** `/` and `/index.html` answer 200 with an empty body whatever the method. */
  lemma RootDispatch(verb: string, url: string)
    requires IsRootUrl(url)
    ensures Dispatch(verb, url) == Response(OK, None, "")
  {
    RoutesDisjoint(url);
  }

  /** Every other request is answered 404: `/echo/` urls with another method,
      unknown urls, and the empty url a short request line leaves. */
  lemma NotFoundDispatch(verb: string, url: string)
    requires !(IsEchoUrl(url) && verb == GET) && !IsRootUrl(url)
    ensures Dispatch(verb, url) == Response(NotFound, None, "")
  {
  }

  /** The three answers, and which request gets which: a GET of an echo url
      exactly when the status is 200 with a body type, a root url exactly
      when it is 200 without one, anything else exactly when it is 404. */
  lemma DispatchCases(verb: string, url: string)
    ensures var r := Dispatch(verb, url);
      (r.status == OK && r.contentType == Some(TextPlain) <==> IsEchoUrl(url) && verb == GET)
      && (r.status == OK && r.contentType.None? <==> IsRootUrl(url))
      && (r.status == NotFound <==> !(IsEchoUrl(url) && verb == GET) && !IsRootUrl(url))
      && (r.status == NotFound || r.status == OK)
      && (r.contentType.None? ==> r.body == "")
  {
    RoutesDisjoint(url);
    FoundAtStartIsPrefix(url, ECHO_PREFIX);
  }

  /** Whatever the request, the answer is a complete response a client reads
      back as the one chosen: never empty, its header block closed by the
      first blank line, the body right after it. */
  lemma AnswerFramed(request: string)
    ensures var wire := Answer(request);
      var body := Route(request).body;
      |wire| >= |body| + 4
      && Find(wire, BLANK_LINE, 0) == Some(|wire| - |body| - 4)
      && wire[|wire| - |body|..] == body
      && ParseResponse(wire) == Some(Route(request))
  {
    SerializeFramed(Route(request));
    ParseSerialize(Route(request));
  }

  /** A client's GET of `/echo/<text>` is answered with `<text>`, whatever
      field lines and body follow the request line. */
  lemma EchoRequest(url: string, fields: seq<string>, body: string)
    requires IsEchoUrl(url) && NoSpace(url)
    ensures Answer(RequestText(GET, url, fields, body))
         == Serialize(Response(OK, Some(TextPlain), url[|ECHO_PREFIX|..]))
  {
    RequestTextLine(GET, url, fields, body);
    RequestTextWords(GET, url);
    EchoDispatch(GET, url);
  }

  /** A request for `/` or `/index.html` is answered 200 with an empty body,
      whatever its method. */
  lemma RootRequest(verb: string, url: string, fields: seq<string>, body: string)
    requires IsWord(verb) && IsRootUrl(url)
    ensures Answer(RequestText(verb, url, fields, body)) == Serialize(Response(OK, None, ""))
  {
    RequestTextLine(verb, url, fields, body);
    RequestTextWords(verb, url);
    RootDispatch(verb, url);
  }

  /** A request line of at most one word leaves the url empty, and the
      answer is 404. */
  lemma NoUrlRequest(request: string, lead: string, verb: string, trail: string)
    requires RequestLineOf(request) == lead + verb + trail
    requires AllSpace(lead) && (verb == "" || IsWord(verb)) && AllSpace(trail)
    ensures Route(request) == Response(NotFound, None, "")
  {
    if verb == "" {
      assert lead + verb + trail == lead + trail;
      AllSpaceJoin(lead, trail);
      RequestLineBlank(lead + trail);
    } else {
      RequestLineOneWord(lead, verb, trail);
    }
    NotFoundDispatch(ParseRequestLine(RequestLineOf(request)).verb, "");
  }

  lemma AllSpaceJoin(a: string, b: string)
    requires AllSpace(a) && AllSpace(b)
    ensures AllSpace(a + b)
  {
    forall i | 0 <= i < |a + b| ensures IsSpace((a + b)[i]) {
      if i >= |a| { assert (a + b)[i] == b[i - |a|]; }
    }
  }

  /** `GET /echo/hello%20world`: the body is the thirteen characters after
      `/echo/`, percent escape included, and `Content-Length` says 13. */
  lemma EchoHelloWorld()
    ensures Answer(RequestText(GET, "/echo/hello%20world", [], ""))
         == Serialize(Response(OK, Some(TextPlain), "hello%20world"))
    ensures NatToDecimal(|"hello%20world"|) == "13"
  {
    var url := "/echo/hello%20world";
    HelloWorldText();
    EchoRequest(url, [], "");
    Thirteen();
  }

  lemma HelloWorldText()
    ensures IsEchoUrl("/echo/hello%20world") && NoSpace("/echo/hello%20world")
    ensures "/echo/hello%20world"[|ECHO_PREFIX|..] == "hello%20world"
    ensures |"hello%20world"| == 13
  {
  }

  lemma Thirteen()
    ensures NatToDecimal(13) == "13"
  {
    assert NatToDecimal(1) == "1";
    assert DigitChar(3) == '3';
  }
}
