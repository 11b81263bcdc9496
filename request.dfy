/**
 * How both server variants turn what `read` put into the buffer into a
 * request: the text up to the first NUL, its request line (everything before
 * the first CRLF) and the three words `>>` takes from that line (section 3 of
 * RFC 9112 names them verb, request-target and HTTP-version).
 */
module HttpRequest {
  import opened Wrappers
  import opened Strings
  import opened MessageLines

  /** `char buffer[1024] = {0}`; `read` is asked for at most 1023 bytes. */
  const BUFFER_SIZE: nat := 1024

  /** `std::string request(buffer)`: the buffer holds what `read` returned
      followed by zeros, so the request is the received text up to its first
      NUL; it is at most 1023 characters long and holds no NUL. */
  function RequestOf(received: string): (request: string)
    requires |received| < BUFFER_SIZE
    ensures |request| < BUFFER_SIZE && '\0' !in request
    ensures StartsWith(received, request)
    ensures |request| < |received| ==> received[|request|] == '\0'
    ensures '\0' !in received ==> request == received
  {
    CString(received)
  }

  /** `request.substr(0, request.find("\r\n"))`. */
  function RequestLineOf(request: string): (line: string)
    ensures StartsWith(request, line)
    ensures forall j :: 0 <= j < |line| ==> !OccursAt(request, CRLF, j)
    ensures line == request || OccursAt(request, CRLF, |line|)
  {
    Before(request, CRLF)
  }

  /** `stream >> word` on an `istringstream`: skips whitespace, then takes the
      longest run of non-whitespace characters and leaves the stream on the
      whitespace after it. When only whitespace is left the extraction fails,
      the word stays empty and the stream is exhausted. */
  function Extract(s: string): (r: (string, string))
    ensures |r.0| + |r.1| <= |s|
    ensures AllSpace(s[..|s| - |r.0| - |r.1|]) && s[|s| - |r.0| - |r.1|..] == r.0 + r.1
    ensures NoSpace(r.0) && (r.1 == "" || IsSpace(r.1[0]))
    ensures r.0 == "" <==> AllSpace(s)
    ensures r.0 == "" ==> r.1 == ""
    decreases |s|
  {
    if s == "" then ("", "")
    else if IsSpace(s[0]) then
      var r := Extract(s[1..]);
      SkipSpace(s, r.0, r.1);
      r
    else
      var r := TakeWord(s);
      WordFirst(s, r.0, r.1);
      r
  }

  /** Text that starts with a word has no whitespace to skip. */
  lemma WordFirst(s: string, w: string, rest: string)
    requires s != "" && !IsSpace(s[0]) && w + rest == s && w != ""
    ensures |s| - |w| - |rest| == 0 && AllSpace(s[..0]) && s[0..] == w + rest
    ensures !AllSpace(s)
  {
  }

  /** The longest run of non-whitespace characters at the start of `s`. */
  function TakeWord(s: string): (r: (string, string))
    ensures r.0 + r.1 == s && NoSpace(r.0) && (r.1 == "" || IsSpace(r.1[0]))
    ensures s != "" && !IsSpace(s[0]) ==> r.0 != ""
    decreases |s|
  {
    if s == "" || IsSpace(s[0]) then ("", s)
    else
      var (w, rest) := TakeWord(s[1..]);
      PrependWord(s, w, rest);
      ([s[0]] + w, rest)
  }

  /** One whitespace character in front of the skipped whitespace. */
  lemma SkipSpace(s: string, w: string, rest: string)
    requires s != "" && IsSpace(s[0]) && |w| + |rest| <= |s[1..]|
    requires AllSpace(s[1..][..|s[1..]| - |w| - |rest|]) && s[1..][|s[1..]| - |w| - |rest|..] == w + rest
    ensures |w| + |rest| <= |s|
    ensures AllSpace(s[..|s| - |w| - |rest|]) && s[|s| - |w| - |rest|..] == w + rest
    ensures AllSpace(s) <==> AllSpace(s[1..])
  {
    var k := |s| - |w| - |rest|;
    forall i | 0 <= i < k ensures IsSpace(s[..k][i]) {
      if i > 0 { assert s[..k][i] == s[1..][..k - 1][i - 1]; }
    }
    assert s[k..] == s[1..][k - 1..] == w + rest;
    if AllSpace(s[1..]) {
      forall i | 0 <= i < |s| ensures IsSpace(s[i]) {
        if i > 0 { assert s[i] == s[1..][i - 1]; }
      }
    }
  }

  /** One non-whitespace character in front of a word. */
  lemma PrependWord(s: string, w: string, rest: string)
    requires s != "" && !IsSpace(s[0]) && w + rest == s[1..] && NoSpace(w)
    ensures [s[0]] + w + rest == s && NoSpace([s[0]] + w)
  {
    forall i | 0 <= i < |[s[0]] + w| ensures !IsSpace(([s[0]] + w)[i]) {
      if i > 0 { assert ([s[0]] + w)[i] == w[i - 1]; }
    }
  }

  datatype RequestLineFields = RequestLineFields(verb: string, url: string, version: string)

  /** `request_stream >> verb >> url >> version`. After a failed extraction
      the stream is exhausted, so the later words stay empty as well. */
  function ParseRequestLine(line: string): RequestLineFields
  {
    var (verb, afterMethod) := Extract(line);
    var (url, afterUrl) := Extract(afterMethod);
    var (version, _) := Extract(afterUrl);
    RequestLineFields(verb, url, version)
  }

  /** A word `>>` can read back whole: non-empty and free of whitespace. */
  predicate IsWord(s: string) {
    s != "" && NoSpace(s)
  }

  lemma ExtractSkipsSpace(s: string)
    requires s != "" && IsSpace(s[0])
    ensures Extract(s) == Extract(s[1..])
  {
  }

  lemma {:induction false} ExtractAfterSpace(lead: string, rest: string)
    requires AllSpace(lead)
    ensures Extract(lead + rest) == Extract(rest)
    decreases |lead|
  {
    if lead != [] {
      assert (lead + rest)[0] == lead[0];
      assert (lead + rest)[1..] == lead[1..] + rest;
      ExtractSkipsSpace(lead + rest);
      ExtractAfterSpace(lead[1..], rest);
    } else {
      assert lead + rest == rest;
    }
  }

  lemma {:induction false} TakeWordOf(word: string, rest: string)
    requires NoSpace(word) && (rest == "" || IsSpace(rest[0]))
    ensures TakeWord(word + rest) == (word, rest)
    decreases |word|
  {
    if word == [] {
      assert word + rest == rest;
    } else {
      assert (word + rest)[0] == word[0];
      assert (word + rest)[1..] == word[1..] + rest;
      TakeWordOf(word[1..], rest);
      assert [word[0]] + word[1..] == word;
    }
  }

  /** Leading whitespace makes no difference to `>>`. */
  lemma ExtractAfterLead(lead: string, word: string, rest: string)
    requires AllSpace(lead)
    ensures Extract(lead + word + rest) == Extract(word + rest)
  {
    var s := word + rest;
    ExtractAfterSpace(lead, s);
    assert lead + s == lead + word + rest;
  }

  /** `>>` reads a whole word that follows whitespace, and stops on the
      whitespace after it. */
  lemma ExtractWord(lead: string, word: string, rest: string)
    requires AllSpace(lead) && IsWord(word) && (rest == "" || IsSpace(rest[0]))
    ensures Extract(lead + word + rest) == (word, rest)
  {
    ExtractOfWord(word, rest);
    ExtractAfterLead(lead, word, rest);
  }

  /** `>>` on text that starts with a word reads that word. */
  lemma ExtractOfWord(word: string, rest: string)
    requires IsWord(word) && (rest == "" || IsSpace(rest[0]))
    ensures Extract(word + rest) == (word, rest)
  {
    assert (word + rest)[0] == word[0];
    TakeWordOf(word, rest);
  }

  /** verb, url and version are the first three whitespace-separated words
      of the request line, whatever whitespace surrounds them and whatever
      follows them. */
  lemma RequestLineWords(lead: string, verb: string, sep1: string, url: string, sep2: string,
                         version: string, tail: string)
    requires AllSpace(lead) && IsWord(verb) && IsWord(url) && IsWord(version)
    requires sep1 != "" && AllSpace(sep1) && sep2 != "" && AllSpace(sep2)
    requires tail == "" || IsSpace(tail[0])
    ensures ParseRequestLine(lead + verb + sep1 + url + sep2 + version + tail)
         == RequestLineFields(verb, url, version)
  {
    var r2 := sep2 + version + tail;
    var r1 := sep1 + url + r2;
    assert lead + verb + sep1 + url + sep2 + version + tail == lead + verb + r1;
    assert r1[0] == sep1[0];
    ExtractWord(lead, verb, r1);
    assert r1 == sep1 + url + r2;
    assert r2[0] == sep2[0];
    ExtractWord(sep1, url, r2);
    assert r2 == sep2 + version + tail;
    ExtractWord(sep2, version, tail);
  }

  /** A request line with two words leaves the version empty. */
  lemma RequestLineTwoWords(lead: string, verb: string, sep: string, url: string, trail: string)
    requires AllSpace(lead) && IsWord(verb) && IsWord(url) && AllSpace(trail)
    requires sep != "" && AllSpace(sep)
    ensures ParseRequestLine(lead + verb + sep + url + trail) == RequestLineFields(verb, url, "")
  {
    var r1 := sep + url + trail;
    assert lead + verb + sep + url + trail == lead + verb + r1;
    assert r1[0] == sep[0];
    ExtractWord(lead, verb, r1);
    assert trail != "" ==> IsSpace(trail[0]);
    ExtractWord(sep, url, trail);
  }

  /** A request line with one word leaves url and version empty. */
  lemma RequestLineOneWord(lead: string, verb: string, trail: string)
    requires AllSpace(lead) && IsWord(verb) && AllSpace(trail)
    ensures ParseRequestLine(lead + verb + trail) == RequestLineFields(verb, "", "")
  {
    assert trail != "" ==> IsSpace(trail[0]);
    ExtractWord(lead, verb, trail);
  }

  /** A request line of nothing but whitespace gives three empty words. */
  lemma RequestLineBlank(line: string)
    requires AllSpace(line)
    ensures ParseRequestLine(line) == RequestLineFields("", "", "")
  {
  }

  const HTTP_VERSION: string := "HTTP/1.1"

  /** The request a client sends: `verb SP url SP HTTP/1.1 CRLF`, its field
      lines, the empty line and the body. */
  function RequestText(verb: string, url: string, fields: seq<string>, body: string): string
  {
    verb + " " + url + " " + HTTP_VERSION + CRLF + Lines(fields) + CRLF + body
  }

  lemma WordIsLine(s: string)
    requires NoSpace(s)
    ensures IsLine(s)
  {
    assert forall i :: 0 <= i < |s| ==> s[i] != '\r';
  }

  /** The request line of a request a client sent is its first line. */
  lemma RequestTextLine(verb: string, url: string, fields: seq<string>, body: string)
    requires IsWord(verb) && IsWord(url)
    ensures RequestLineOf(RequestText(verb, url, fields, body)) == verb + " " + url + " " + HTTP_VERSION
  {
    var line := verb + " " + url + " " + HTTP_VERSION;
    WordIsLine(verb);
    WordIsLine(url);
    assert IsLine(line);
    assert RequestText(verb, url, fields, body) == line + CRLF + (Lines(fields) + CRLF + body);
    SplitLineAfter(line, Lines(fields) + CRLF + body);
  }

  /** The words of that line are the verb, url and version the client wrote. */
  lemma RequestTextWords(verb: string, url: string)
    requires IsWord(verb) && IsWord(url)
    ensures ParseRequestLine(verb + " " + url + " " + HTTP_VERSION) == RequestLineFields(verb, url, HTTP_VERSION)
  {
    var line := verb + " " + url + " " + HTTP_VERSION;
    assert "" + verb == verb;
    assert line + "" == line;
    RequestLineWords("", verb, " ", url, " ", HTTP_VERSION, "");
  }
}
