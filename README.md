# HTTP request handling of a small C++ web server

The repository builds a small HTTP/1.1 server in steps. This project models
two of those steps.

- **Full handler** (`handle_client` in `Step8/src/server.cpp`). It reads one
  request of at most 1023 bytes into a zeroed buffer. It cuts out the request
  line and reads verb, url and version from it with `>>`. It splits the
  request at the first CRLF CRLF into a header block and a body, and pulls
  the `User-Agent` value out of the header block. It then answers through a
  first-match-wins chain:
  - `/files/<name>`: GET reads and POST writes a file under a base directory;
  - `/` and `/index.html`;
  - GET `/echo/<text>`;
  - GET `/user-agent`;
  - 404 for everything else.
- **Reduced server** (the accept loop of `Step4/src/server.cpp`). It reads
  the same 1023-byte buffer but parses only the request line and knows only the echo, root and 404 routes.

The model is split into modules that follow the program's structure:

| file | module | what it holds |
|---|---|---|
| `wrappers.dfy` | `Wrappers` | `Option` |
| `strings.dfy` | `Strings` | `std::string::find`; `substr`; 64-bit `size_t` wrap-around and `npos`; the C-string constructor; the whitespace test `>>` uses; `std::to_string` and its inverse |
| `message_lines.dfy` | `MessageLines` | CRLF-ended lines and the blank line that closes a header block (section 2.1 of RFC 9112) |
| `request.dfy` | `HttpRequest` | the buffer, the request line, and the three `>>` extractions |
| `routes.dfy` | `Routes` | the url tests both dispatchers use |
| `response.dfy` | `HttpResponse` | the responses the servers write, with their four status lines; a client-side reader that proves them well framed |
| `step8_server.dfy` | `Step8Server` | the full handler, twice: (1) as functions; (2) as `HandleClient`, a method that parses with `ParseIn` and answers with `RespondIn` over a `FileSystem` object whose file map `POST` updates in place; each method is proved equal to the functions |
| `step4_server.dfy` | `Step4Server` | the reduced server |
| `variants.dfy` | `Variants` | where the two servers agree, and where they do not |

Some behaviours of the code are easy to misread. The model follows the code
in each case:

- **No blank line.** A request without CRLF CRLF is not read as "no body".
  `headers_end` is `npos`, so `headers_end + 4` wraps around to 3 and the
  body is `request.substr(3)`. A request shorter than 3 characters makes
  `substr` throw, and the handler sends nothing. Then
  `Step8Server.ParseRequest` returns `None` and `Step8Server.Answer` gives
  the outcome `Aborted`; `Variants.EmptyRequestDiffers` shows the case.
- **NUL bytes.** The request is `std::string(buffer)`, so everything after
  the first NUL is dropped. A body that a POST stores therefore never holds
  a NUL, so a body containing NUL does not round-trip
  (`Step8Server.ClientOutcome`).
- **Percent escapes.** The echo route does not decode them.
  `GET /echo/hello%20world` answers `hello%20world` with
  `Content-Length: 13` (`Step4Server.EchoHelloWorld`).
- **Other methods on `/files/`.** A `/files/` request whose method is neither
  GET nor POST builds no response, and the handler sends zero bytes
  (`Step8Server.FilesOtherMethod`).
- **The header block.** It starts at offset 0, so it includes the request
  line. `User-Agent: ` is searched for anywhere in it.

## Model

| member | source | states |
|---|---|---|
| HttpRequest.RequestOf | Step8/src/server.cpp:15-26 | the request is the received text up to its first NUL: shorter than the 1024-byte buffer, NUL-free, and all of the received text when that holds no NUL |
| HttpRequest.RequestLineOf | Step8/src/server.cpp:27 | the request line is a prefix of the request; no CRLF starts inside it; it ends at the first CRLF or is the whole request |
| Strings.SubstrBeforeFind | Step8/src/server.cpp:27 | `substr(0, find(delim))` with its `npos` count is the text before the first delimiter |
| Strings.Find | Step8/src/server.cpp:36 | `find` returns the first occurrence at or after the start position, or `npos` exactly when there is none |
| Strings.Before | Step8/src/server.cpp:37 | the text before the first delimiter: a prefix, with no earlier occurrence, ending at an occurrence or at the end |
| Strings.Substr | Step8/src/server.cpp:37-38 | `substr(pos, count)` with `pos` in range: a prefix of the text from `pos`, `count` characters long, or all that is left when fewer remain |
| Strings.FindInSuffix | Step8/src/server.cpp:46 | searching from `k` finds the same occurrence as searching the suffix at `k`, shifted by `k` |
| Strings.SizeWrap | Step8/src/server.cpp:38 | `size_t` arithmetic: the result is reduced modulo 2^64 and so stays below it; SizeWrapSmall and NposPlusFour give its value in and out of range |
| Strings.PositionOrNpos | Step8/src/server.cpp:36 | a `find` result as `size_t`: the position, or `npos` when there is none. No contract of its own; SubstrBeforeFind and BodyStartValue use it |
| Strings.NposPlusFour | Step8/src/server.cpp:38 | `npos + 4` wraps around to 3 on a 64-bit `size_t` |
| Strings.CString | Step8/src/server.cpp:26 | `std::string(buffer)` is the prefix before the first NUL and holds no NUL |
| Strings.NatToDecimal | Step8/src/server.cpp:104 | `std::to_string` of a size is a canonical decimal, and "0" exactly for zero |
| Strings.DecimalRoundTrip | Step8/src/server.cpp:104 | reading back the digits `std::to_string` wrote gives the size |
| Strings.CanonicalDecimalRoundTrip | Step8/src/server.cpp:113 | every canonical decimal is the rendering of the number it denotes |
| Strings.IsSpace | Step8/src/server.cpp:33 | the six characters `>>` skips as whitespace in the C locale. No contract of its own; Extract and TakeWord state how `>>` uses it |
| HttpRequest.Extract | Step8/src/server.cpp:33 | one `>>`: skips leading whitespace, takes a whitespace-free word, and stops on whitespace; the word is empty exactly when only whitespace was left, and then the stream is exhausted |
| HttpRequest.TakeWord | Step8/src/server.cpp:33 | the longest whitespace-free run at the start, non-empty when the text starts with a non-space |
| HttpRequest.ExtractWord | Step8/src/server.cpp:33 | `>>` after whitespace reads a whole word and leaves the text after it |
| HttpRequest.ParseRequestLine | Step8/src/server.cpp:31-33 | `request_stream >> method >> url >> version`, also Step4/src/server.cpp:80-82: three `>>` in a row, each on what the one before left. No contract of its own; RequestLineWords, RequestLineTwoWords, RequestLineOneWord and RequestLineBlank state what it reads |
| HttpRequest.RequestLineWords | Step8/src/server.cpp:31-33 | verb, url and version are the first three whitespace-separated words of the request line, whatever whitespace surrounds them and whatever follows |
| HttpRequest.RequestLineTwoWords | Step8/src/server.cpp:31-33 | a request line of two words leaves the version empty |
| HttpRequest.RequestLineOneWord | Step8/src/server.cpp:31-33 | a request line of one word leaves url and version empty |
| HttpRequest.RequestLineBlank | Step8/src/server.cpp:31-33 | a blank request line leaves all three words empty |
| HttpRequest.RequestTextLine | Step8/src/server.cpp:27 | the request line of a request a client wrote is its first line |
| HttpRequest.RequestTextWords | Step8/src/server.cpp:31-33 | reading that line gives back the verb, url and version the client wrote |
| Step8Server.BodyStart | Step8/src/server.cpp:38 | `headers_end + 4` on a 64-bit `size_t`, with `npos` when there is no blank line. No contract of its own; BodyStartValue gives its value |
| Step8Server.BodyStartValue | Step8/src/server.cpp:36-38 | the body starts 4 past the first blank line, or at index 3 when there is none |
| Step8Server.BlankLineSplit | Step8/src/server.cpp:36-38 | the header block is the text before the first blank line; the request is header block, blank line and body; `substr` stays in range exactly when there is a blank line or the request has at least 3 characters |
| Step8Server.ParseRequest | Step8/src/server.cpp:26-48 | parsing fails (the `substr` throw) exactly when there is no blank line and fewer than 3 characters; otherwise it gives the header block before the first blank line and the body after it, or the body from index 3 when there is no blank line; verb, url and version are the words of the request line, and the User-Agent value is the one found in the header block |
| Step8Server.SplitAt | Step8/src/server.cpp:36-38 | with a blank line in the request, the request is the header block, the blank line, and the text from the body start |
| Step8Server.ParseAtBlankLine | Step8/src/server.cpp:36-38 | with the first blank line at `k`, the header block is the text before `k` and the body the text after `k + 4` |
| Step8Server.ParseRequestText | Step8/src/server.cpp:26-38 | a request a client wrote (request line, field lines, empty line, body) parses back to its verb, url, version and body |
| Step8Server.BodyIsSuffix | Step8/src/server.cpp:38 | the body is a tail of the request: exactly its last `|body|` characters, so made only of its characters |
| Step8Server.LineEndAfterMarker | Step8/src/server.cpp:44-46 | the line end searched for from the marker lies after the marker |
| Step8Server.SpanFrom | Step8/src/server.cpp:46-47 | the `size_t` count `end - start` takes the value up to the line end, or to the end of the block when no CRLF follows |
| Step8Server.UserAgent | Step8/src/server.cpp:41-48 | the value after the first `User-Agent: ` in the header block, up to the next CRLF or the end; empty when the marker is absent |
| Step8Server.NoMarkerAppend | Step8/src/server.cpp:44 | two marker-free texts joined at a line end hold no marker, since `User-Agent: ` holds no CR or LF |
| Step8Server.MarkerFirstAfter | Step8/src/server.cpp:44 | in text that holds no marker before a marker, `find` returns that marker's position |
| Step8Server.NoEarlierMarker | Step8/src/server.cpp:44 | a text before a marker holds no marker exactly when `find` sees no marker start inside it |
| Step8Server.UserAgentAfter | Step8/src/server.cpp:44-47 | when the text before a marker holds no marker, the value read is the text between that marker and the line end (or the end) |
| Step8Server.UserAgentOfRequest | Step8/src/server.cpp:41-48 | in a request whose field lines are marker-free lines, then `User-Agent: <ua>`, then any field lines, the value found is `<ua>` |
| Step8Server.UserAgentAbsent | Step8/src/server.cpp:41-48 | in a request none of whose field lines holds the marker, the value found is empty |
| Step8Server.FilePath | Step8/src/server.cpp:55-56 | the path is the base directory, `/`, and the url after `/files/` |
| Routes.FileName | Step8/src/server.cpp:55 | `url.substr(7)` is what follows `/files/` |
| Routes.EchoText | Step8/src/server.cpp:103 | `url.substr(6)` is what follows `/echo/` |
| Routes.FoundAtStart | Step8/src/server.cpp:54 | `url.find(prefix) == 0`. No contract of its own; FoundAtStartIsPrefix proves it is the prefix test |
| Routes.IsFilesUrl | Step8/src/server.cpp:54 | a url starting with `/files/`. No contract of its own; FoundAtStartIsPrefix ties it to the `find` test |
| Routes.IsRootUrl | Step8/src/server.cpp:97 | the url is `/` or `/index.html`. No contract of its own; RootAnyMethod and RoutesDisjoint |
| Routes.IsEchoUrl | Step8/src/server.cpp:102 | a url starting with `/echo/`. No contract of its own; FoundAtStartIsPrefix ties it to the `find` test |
| Routes.FoundAtStartIsPrefix | Step8/src/server.cpp:54 | `url.find(prefix) == 0` holds exactly when the url starts with the prefix |
| Routes.RoutesDisjoint | Step8/src/server.cpp:54-112 | files, root, echo and `/user-agent` urls never overlap, so the order of the tests only matters through the method checks |
| Step8Server.Respond | Step8/src/server.cpp:50-126 | no response exactly for `/files/` with a method other than GET or POST; the store changes only for a POST to `/files/` that opens its file, which then answers 201 and stores the body under the path |
| Step8Server.FilesOtherMethod | Step8/src/server.cpp:54-96 | `/files/` with a method other than GET or POST: no response, store untouched |
| Step8Server.GetMissingFile | Step8/src/server.cpp:58-81 | a GET of a file not in the store answers 404 |
| Step8Server.PostWriteFails | Step8/src/server.cpp:82-95 | a POST whose file cannot be opened answers 500 and writes nothing |
| Step8Server.PostThenGet | Step8/src/server.cpp:54-96 | a POST answers 201 and stores its body; a later GET of the same url answers 200 octet-stream with that body and changes nothing |
| Step8Server.PostLeavesOtherFiles | Step8/src/server.cpp:83-85 | a POST leaves every other path as it was |
| Step8Server.RootAnyMethod | Step8/src/server.cpp:97-101 | `/` and `/index.html` answer 200 with an empty body whatever the method |
| Step8Server.EchoRoute | Step8/src/server.cpp:102-111 | GET `/echo/<text>` answers 200 text/plain with `<text>` |
| Step8Server.UserAgentRoute | Step8/src/server.cpp:112-120 | GET `/user-agent` answers 200 text/plain with the User-Agent value |
| Step8Server.NotFoundOtherwise | Step8/src/server.cpp:121-126 | every request no route claims, including echo and `/user-agent` with a method other than GET, answers 404 |
| Step8Server.WireOf | Step8/src/server.cpp:128 | the bytes sent are empty exactly when no response was built |
| Step8Server.Answer | Step8/src/server.cpp:26-128 | the handler aborts exactly when `substr` throws, and then changes nothing |
| Step8Server.AnswerReadsBack | Step8/src/server.cpp:50-128 | what is sent is either nothing or a response a client reads back |
| Step8Server.AnswerParsed | Step8/src/server.cpp:50-128 | a parsed request is answered with the wire form of the route's response and the route's store |
| Step8Server.ClientOutcome | Step8/src/server.cpp:15-128 | no file is ever removed; every file a request writes is NUL-free and shorter than the buffer |
| Step8Server.EchoAnswer | Step8/src/server.cpp:102-111 | a parsed GET of an echo url is sent 200 text/plain with the text after `/echo/` |
| Step8Server.EchoRequest | Step8/src/server.cpp:102-111 | a client's GET of `/echo/<text>` is answered with `<text>`, whatever field lines and body follow |
| Step8Server.PostAnswer | Step8/src/server.cpp:82-89 | a parsed POST to `/files/` that opens its file is sent 201 and stores the body |
| Step8Server.GetAnswer | Step8/src/server.cpp:58-75 | a parsed GET of a stored file is sent 200 octet-stream with the file's content |
| Step8Server.PostRequest | Step8/src/server.cpp:82-89 | a client's POST to `/files/<name>` stores its body under the path and is answered 201 |
| Step8Server.GetRequest | Step8/src/server.cpp:58-75 | a client's GET of a stored file is answered with its content |
| Step8Server.PostThenGetRequests | Step8/src/server.cpp:54-96 | a body POSTed to `/files/<name>` is sent back whole by a later GET of that url |
| Step8Server.UserAgentAnswer | Step8/src/server.cpp:112-120 | a parsed GET of `/user-agent` is sent 200 text/plain with the User-Agent value |
| Step8Server.UserAgentRequest | Step8/src/server.cpp:41-120 | a client's GET of `/user-agent` whose field lines are marker-free lines, then `User-Agent: <ua>`, then any field lines, is answered with `<ua>` |
| Step8Server.UserAgentAbsentRequest | Step8/src/server.cpp:41-120 | a client's GET of `/user-agent` without a User-Agent field line is answered 200 text/plain with an empty body |
| Step8Server.FileSystem.ReadAll | Step8/src/server.cpp:59-68 | opening succeeds exactly when the path is in the directory, and then the content read is the file's |
| Step8Server.FileSystem.WriteAll | Step8/src/server.cpp:83-85 | when the file opens, it is replaced by the data and nothing else changes; otherwise the directory is unchanged |
| Step8Server.ParseIn | Step8/src/server.cpp:26-48 | the step-by-step parse gives what `ParseRequest` gives, `None` where `substr` throws |
| Step8Server.RespondIn | Step8/src/server.cpp:50-126 | the chain of routes, run over the mutable directory, builds the response `Respond` chooses and leaves the directory as `Respond` says |
| Step8Server.HandleClient | Step8/src/server.cpp:15-128 | the method over the mutable directory sends what `ClientOutcome` says, and leaves the directory in the state `ClientOutcome` says |
| HttpResponse.StatusLine | Step8/src/server.cpp:70-125 | the four status lines the handler writes (200, 201, 404, 500). No contract of its own; StatusOf proves each status has exactly one, and UntypedWire gives the literal bytes |
| HttpResponse.HeaderFields | Step8/src/server.cpp:70-125 | the optional `Content-Type` line, then `Content-Length` with `std::to_string` of the body length. No contract of its own; HeaderFieldsAreLines, ContentLengthRoundTrip and ParseSerialize state what a client reads from it |
| HttpResponse.Serialize | Step8/src/server.cpp:70-125 | every response string: status line, field lines, empty line, body; the Step4 strings at Step4/src/server.cpp:88-107 are the same. No contract of its own; ParseSerialize is its inverse, SerializeFramed and UntypedWire state its shape |
| HttpResponse.StatusOf | Step8/src/server.cpp:71 | each status line is recognised as its own status, and nothing else is |
| HttpResponse.MediaTypeName | Step8/src/server.cpp:72 | the two `Content-Type` values written: `application/octet-stream` and `text/plain`. No contract of its own; MediaTypeOf proves each type has exactly one |
| HttpResponse.MediaTypeOf | Step8/src/server.cpp:72 | each media type name is recognised as its own type, and nothing else is |
| HttpResponse.FieldValue | Step8/src/server.cpp:73 | a field line has a value for a name exactly when it starts with the name, and is name plus value |
| HttpResponse.ContentLengthRoundTrip | Step8/src/server.cpp:73 | the `Content-Length` line written for a size is read back as that size |
| HttpResponse.ParseSerialize | Step8/src/server.cpp:70-75 | a client reads back exactly the response written: status, content type, and a body as long as `Content-Length` says |
| HttpResponse.SerializeFramed | Step8/src/server.cpp:106-111 | a written response is never empty; its first blank line ends the header block right before the body |
| HttpResponse.UntypedWire | Step8/src/server.cpp:122-125 | a response without body type is its status line, `Content-Length: 0`, and the empty line |
| MessageLines.SplitLine | Step8/src/server.cpp:27 | a line cut at the first CRLF: line, CRLF and rest make up the text; None exactly when there is no CRLF |
| MessageLines.ReadFieldsOfLines | Step8/src/server.cpp:70-75 | reading the field lines of a header block back gives the lines written and the body after the empty line |
| MessageLines.FirstBlankLine | Step8/src/server.cpp:36 | in a message of CR-free lines, the first CRLF CRLF closes the field lines |
| MessageLines.MessageFramed | Step8/src/server.cpp:36-38 | such a message is at least body plus 4 long, and its first blank line sits right before the body |
| Step4Server.Dispatch | Step4/src/server.cpp:85-108 | the if/else chain: echo for a GET of `/echo/...`, then the root urls, then 404. No contract of its own; DispatchCases, EchoDispatch, RootDispatch and NotFoundDispatch |
| Step4Server.Route | Step4/src/server.cpp:75-108 | the response chosen from the words of the request line. No contract of its own; EchoRequest, RootRequest and NoUrlRequest |
| Step4Server.Answer | Step4/src/server.cpp:75-110 | the bytes handed to `send`. No contract of its own; AnswerFramed and ClientAnswer |
| Step4Server.ClientAnswer | Step4/src/server.cpp:64-108 | whatever arrived, the answer reads back as the response the route chose |
| Step4Server.EchoDispatch | Step4/src/server.cpp:88-97 | GET `/echo/<text>` answers 200 text/plain with `<text>`, and `/echo/` plus the body gives the url back |
| Step4Server.RootDispatch | Step4/src/server.cpp:98-102 | `/` and `/index.html` answer 200 empty whatever the method |
| Step4Server.NotFoundDispatch | Step4/src/server.cpp:103-108 | everything else answers 404 |
| Step4Server.DispatchCases | Step4/src/server.cpp:85-108 | exactly three answers, each if and only if its route matches: 200 text/plain for a GET of an echo url, 200 untyped for a root url, 404 otherwise; an untyped answer has an empty body |
| Step4Server.AnswerFramed | Step4/src/server.cpp:75-108 | the answer is never empty, has its first blank line right before the body, and reads back as the route's response |
| Step4Server.EchoRequest | Step4/src/server.cpp:76-97 | a client's GET of `/echo/<text>` is answered with `<text>`, whatever field lines and body follow |
| Step4Server.RootRequest | Step4/src/server.cpp:76-102 | a client's request for `/` or `/index.html` answers 200 empty whatever its method |
| Step4Server.NoUrlRequest | Step4/src/server.cpp:80-108 | a request line of at most one word leaves the url empty and answers 404 |
| Step4Server.EchoHelloWorld | Step4/src/server.cpp:88-97 | `GET /echo/hello%20world` answers the 13 characters `hello%20world`, and `Content-Length` is 13 |
| Variants.SameDispatch | Step8/src/server.cpp:97-126 | away from `/files/` and `/user-agent`, the full server picks the reduced server's response and leaves the files alone |
| Variants.SameAnswer | Step8/src/server.cpp:26-128 | on a request the full server parses, and whose url is neither a file nor `/user-agent`, both servers send the same bytes |
| Variants.EmptyRequestDiffers | Step8/src/server.cpp:36-38 | on the empty request the full server aborts; the reduced server answers 404 |

## Left out

- Sockets are not modelled. This covers `socket`, `bind`, `listen`, `accept`, `send`, `close`, `fork` and the accept loop. What `read` delivers is the `received` parameter, and the bytes passed to `send` are the `Sent` outcome.
- A failed `send` is not modelled: the handler has nothing left to do in that case but log it.
- A failed `read` (`bytes_read < 0`) is not modelled. In that case no response is sent and no file is touched.
- The `--directory` command-line option and the logging to `std::cout`/`std::cerr` are not modelled. The directory is the `base` parameter.
- Step8Server.FileSystem.ReadAll: does not model real file I/O. A GET's open succeeds exactly when the path is in the directory map. Unreadable files, directories and partial reads are not modelled.
- Step8Server.FileSystem.WriteAll: does not model real file I/O. Whether the open fails is the `openFails` parameter, and a write that opens is complete. Partial writes are not modelled.
- Path aliasing is not modelled: `..` in a file name, a repeated `/`, and symbolic links. Different path strings are different files.
- Step8Server.ParseRequest: requires the request to be shorter than `npos`. This always holds, since the request is at most 1023 characters.
- Every byte is modelled as a Dafny `char`. Multi-byte encodings are not modelled.
- Concurrency between forked handlers writing the same file is not modelled.
