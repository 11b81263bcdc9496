/**
 * The two servers side by side. Away from `/files/` and `/user-agent`, which
 * only the full server knows, both answer a parsed request alike: the full
 * server tests root before echo and the reduced one echo before root, but
 * no url is both. They part on a request with no blank line and fewer than
 * three characters: the full server's `substr` throws and nothing is sent,
 * the reduced one answers 404.
 */
module Variants {
  import opened Wrappers
  import opened Strings
  import opened MessageLines
  import opened HttpRequest
  import opened Routes
  import opened HttpResponse
  import Step4Server
  import Step8Server

  /** The routes both servers share pick the same response, and neither
      touches the files. */
  lemma SameDispatch(req: Step8Server.Request, base: string, files: Step8Server.FileStore, writeFails: bool)
    requires !IsFilesUrl(req.url) && req.url != USER_AGENT_PATH
    ensures Step8Server.Respond(req, base, files, writeFails)
         == (Some(Step4Server.Dispatch(req.verb, req.url)), files)
  {
    RoutesDisjoint(req.url);
    FoundAtStartIsPrefix(req.url, FILES_PREFIX);
    FoundAtStartIsPrefix(req.url, ECHO_PREFIX);
  }

  /** On a request the full server parses, and whose url is neither a file
      nor `/user-agent`, it sends exactly the bytes the reduced server sends. */
  lemma SameAnswer(request: string, base: string, files: Step8Server.FileStore, writeFails: bool)
    requires |request| < NPOS && (Contains(request, BLANK_LINE) || |request| >= 3)
    requires var url := ParseRequestLine(RequestLineOf(request)).url;
      !IsFilesUrl(url) && url != USER_AGENT_PATH
    ensures Step8Server.Answer(request, base, files, writeFails)
         == (Step8Server.Sent(Step4Server.Answer(request)), files)
  {
    var req := Step8Server.ParseRequest(request).value;
    SameDispatch(req, base, files, writeFails);
  }

  /** The empty request: the full server sends nothing, the reduced one a 404. */
  lemma EmptyRequestDiffers(base: string, files: Step8Server.FileStore, writeFails: bool)
    ensures Step8Server.Answer("", base, files, writeFails) == (Step8Server.Aborted, files)
    ensures Step4Server.Answer("") == Serialize(Response(NotFound, None, ""))
  {
    assert !Contains("", BLANK_LINE);
    Step4Server.NoUrlRequest("", "", "", "");
  }
}
