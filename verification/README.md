# A verified model of the request pipeline of a small Java HTTP server

This project models, in Dafny, the request/response core of a small
threaded HTTP/1.x server. The model covers these parts:

- `HttpPipeline.process` (`Pipeline`, `Parser`, `Stream`, `RequestLine`). It reads one request
  from the connection's text, runs every registered handler in order on the
  same request and response, writes the response, and decides whether the
  connection stays open.
- The header table `HttpHeaders` (`Headers`) and the message objects
  `HttpRequest` and `HttpResponse` (`Messages`), including the keep-alive decision.
- The handlers: root listing, keep-alive, request log, comments and
  conditional requests (`Handlers`, `Comments`, `Conditional`).
- The `{}`-substituting `Logger` (`Logging`) and the in-memory comment store (`Comments`).

Everything is a pure function on immutable values. A handler's
`handle(request, response)` becomes a function from the exchange (request,
response, comment store, log lines) to a new exchange, or to the exception
it throws. Java's unchecked exceptions become a `Fault`:

- `IllegalArgument` for an unknown method name;
- `IndexOutOfBounds` for a blank header name or a form pair without `=`;
- `NumberFormat` for a non-numeric Content-Length;
- `NullPointer` for a comment post with no body, or a missing Last-Modified.

A fault that leaves `process` ends the cycle as `Crashed`. The connection is
then closed by the caller's `finally` block.

The Java library behaviour the code relies on is written out in `JavaText`:

- `trim` (drops characters up to U+0020);
- `split` (drops trailing empty pieces) and `split(_, 2)`;
- `indexOf`, `replace` and `startsWith`;
- ASCII `toUpperCase`;
- `Integer.parseInt`.

`BufferedReader.readLine` is modelled in `Stream`: a line ends at `\n`, `\r`
or `\r\n`. The regular expression `\w+ /.* HTTP/.*` is decided by
`RequestLine.IsRequestLine`. `RequestLine.RequestLineMatchesPattern` proves
that it accepts exactly the lines of that shape.

What the outside world supplies is a parameter (`Pipeline.Env`):

- the platform charset (`getBytes`);
- the date parser behind `headerTime.parse`, returning a point in time or nothing;
- `URLDecoder.decode`, returning a string or an error;
- the current time of a posted comment;
- the logger's timestamp;
- the Date header's text;
- the iteration order of a header `HashMap`. The cycle's contract holds for
  any order; the lemmas about the written headers take any order that lists
  each name of the table exactly once (`Pipeline.Enumerates`).

An I/O failure of a cycle is given as an `IoFailure`: a read that timed
out, a read that failed otherwise, or a write that failed.

Strings are sequences of Unicode scalar values (Dafny's `char`), not of
UTF-16 code units as in Java.

A response's protocol starts as `HTTP/1.1`, the initial value every message
gets (`HttpBase.java:31`). Only the request parser calls `setProtocol`, and
only on the request, so every status line the server writes starts with
`HTTP/1.1`, whatever protocol the request used: see `Messages.NewResponse` and
`Pipeline.Head`.

## Model

| member | source | states |
|---|---|---|
| Headers.AddLineSplitsAtFirstColon | src/main/java/io/github/chumper/webserver/core/http/HttpHeaders.java:26-33 | a header line is cut at its first colon only: the name is trimmed with its first letter upper-cased, and later colons stay in the trimmed value |
| Headers.GetAfterAddLine | src/main/java/io/github/chumper/webserver/core/http/HttpHeaders.java:26-39 | after adding a line, `get` of the stored name yields the trimmed value and every other name keeps its old value |
| Headers.AddLineLastWriteWins | src/main/java/io/github/chumper/webserver/core/http/HttpHeaders.java:30-31 | two lines whose names normalise alike leave one entry, holding the later value |
| Headers.StoredNameIdempotent | src/main/java/io/github/chumper/webserver/core/http/HttpHeaders.java:30-31 | the normalised name is a fixed point: storing a stored name again does not change it |
| Headers.StoredNameShape | src/main/java/io/github/chumper/webserver/core/http/HttpHeaders.java:30-31 | only the first character of the trimmed name is upper-cased; the rest is kept |
| Headers.LookupIsCaseSensitive | src/main/java/io/github/chumper/webserver/core/http/HttpHeaders.java:35-39 | lookups do not normalise: "content-length: 5" is stored as "Content-length" and is invisible to `get("Content-Length")` |
| Headers.GetNullable | src/main/java/io/github/chumper/webserver/core/http/HttpHeaders.java:35-39 | `get(null)` is null; otherwise the value is present exactly when the name is in the table |
| Headers.Get | src/main/java/io/github/chumper/webserver/core/http/HttpHeaders.java:35-39 | a lookup finds a value exactly when the name is in the table, and then it is the stored value |
| Headers.StoredName | src/main/java/io/github/chumper/webserver/core/http/HttpHeaders.java:30-31 | the stored name is as long as the trimmed name: only its first letter is changed |
| Headers.AddLine | src/main/java/io/github/chumper/webserver/core/http/HttpHeaders.java:26-33 | a line without a colon leaves the table unchanged; adding a line never removes a name |
| Headers.Put | src/main/java/io/github/chumper/webserver/core/http/HttpHeaders.java:45-50 | after `add(key, value)`, `get` of the trimmed key is the trimmed value and no other name changes |
| Headers.PutNullable | src/main/java/io/github/chumper/webserver/core/http/HttpHeaders.java:45-50 | `add(null, value)` leaves the table unchanged |
| Headers.Entry | src/main/java/io/github/chumper/webserver/core/http/HttpHeaders.java:26-33 | a line yields a pair exactly when it has a colon, and adding it puts exactly that pair |
| Headers.AddLines | src/main/java/io/github/chumper/webserver/core/pipeline/HttpPipeline.java:150 | adding the request's header lines succeeds iff no line has a blank name; the failure is an index error; the result is the table with the lines' pairs put in order |
| Headers.AddLinesLastWins | src/main/java/io/github/chumper/webserver/core/pipeline/HttpPipeline.java:150 | after the header lines, a name holds the value of the last line naming it, or its old value if no line names it |
| Messages.VersionText | src/main/java/io/github/chumper/webserver/core/http/HttpBase.java:9-21 | the two protocol names are "HTTP/1.0" and "HTTP/1.1" |
| Messages.ParseMethod | src/main/java/io/github/chumper/webserver/core/http/HttpBase.java:8 | `Method.valueOf` succeeds exactly on the three method names, each giving its method |
| Messages.ParseMethodName | src/main/java/io/github/chumper/webserver/core/http/HttpBase.java:8 | every method's name parses back to that method |
| Messages.ProtocolOf | src/main/java/io/github/chumper/webserver/core/pipeline/HttpPipeline.java:141-148 | the request's protocol is HTTP/1.0 iff the token is exactly "HTTP/1.0"; any other token leaves the default HTTP/1.1 |
| Messages.ProtocolOfVersionText | src/main/java/io/github/chumper/webserver/core/pipeline/HttpPipeline.java:141-148 | each protocol's name is read back as that protocol |
| Messages.NewRequest | src/main/java/io/github/chumper/webserver/core/http/HttpBase.java:26-31 | a new request is HTTP/1.1 with no headers and no content |
| Messages.NewResponse | src/main/java/io/github/chumper/webserver/core/http/HttpResponse.java:14-18 | a new response is "200 OK", HTTP/1.1, with no headers and an empty body |
| Messages.WriteText | src/main/java/io/github/chumper/webserver/core/http/HttpResponse.java:28-34 | `write(null)` changes nothing; otherwise the body grows by exactly the text's bytes at its end, and status, protocol and headers are kept |
| Messages.WriteBytes | src/main/java/io/github/chumper/webserver/core/http/HttpResponse.java:36-39 | the same for raw bytes |
| Messages.WriteAllAppends | src/main/java/io/github/chumper/webserver/core/http/HttpResponse.java:45-47 | writing several texts appends their encodings in order, so the content length grows by their total size |
| Messages.IsKeepAlive | src/main/java/io/github/chumper/webserver/core/http/HttpRequest.java:61-72 | without a Connection header, keep-alive iff HTTP/1.1; "close" never keeps; any other value keeps |
| Messages.KeepAliveMatrix | src/main/java/io/github/chumper/webserver/core/http/HttpRequest.java:62-70 | HTTP/1.0 closes by default and keeps with "keep-alive"; HTTP/1.1 keeps by default and closes with "close" |
| Messages.KeepAliveCloseIsCaseSensitive | src/main/java/io/github/chumper/webserver/core/http/HttpRequest.java:68-70 | "Close" is not "close": such a request is keep-alive |
| Handlers.ConnectionValue | src/main/java/io/github/chumper/webserver/handler/HttpKeepAliveHandler.java:20-24 | the announced value is "keep-alive" iff the request is keep-alive, and "close" otherwise |
| Handlers.KeepAlive | src/main/java/io/github/chumper/webserver/handler/HttpKeepAliveHandler.java:15-26 | the Connection header says "keep-alive" iff the request is keep-alive, and "close" iff not; no other header, the status or the body changes |
| Handlers.KeepAliveIdempotent | src/main/java/io/github/chumper/webserver/handler/HttpKeepAliveHandler.java:15-26 | running the keep-alive handler twice equals running it once |
| Handlers.KeepAliveHeaderMatrix | src/main/java/io/github/chumper/webserver/handler/HttpKeepAliveHandler.java:20-24 | the four protocol/Connection combinations announce close, keep-alive, close, keep-alive |
| Handlers.Root | src/main/java/io/github/chumper/webserver/handler/HttpRootHandler.java:14-24 | GET or HEAD of "/" appends the two link lines to the body; any other request leaves the response unchanged |
| Handlers.RootIgnoresPost | src/main/java/io/github/chumper/webserver/handler/HttpRootHandler.java:18 | a POST, even of "/", gets nothing from the root handler |
| Handlers.RootListing | src/main/java/io/github/chumper/webserver/handler/HttpRootHandler.java:19-22 | on a fresh response, the root listing is exactly the two lines, and the content length is their size |
| Conditional.DoesMatchOverAllPieces | src/main/java/io/github/chumper/webserver/handler/HttpETagHandler.java:122-134 | for a non-empty tag, an If-Match/If-None-Match value matches iff it is "*" after removing quotes, or one of its comma pieces is the tag after removing quotes and trimming; Java dropping trailing empty pieces never changes the answer |
| Conditional.WildcardMatches | src/main/java/io/github/chumper/webserver/handler/HttpETagHandler.java:124-126 | `*` and `"*"` match every tag |
| Conditional.TagListMatchesExactlyItsMembers | src/main/java/io/github/chumper/webserver/handler/HttpETagHandler.java:122-134 | a comma-joined list of quoted plain tags matches a tag iff the tag is in the list |
| Conditional.DoesMatch | src/main/java/io/github/chumper/webserver/handler/HttpETagHandler.java:122-134 | a value matches iff, without its quotes, it is `*`, or one of the pieces `split(",")` keeps is the tag once its quotes are removed and it is trimmed |
| Conditional.Step1 | src/main/java/io/github/chumper/webserver/handler/HttpETagHandler.java:39-51 | from If-Match on, a 412 needs If-Match, If-Unmodified-Since, or If-None-Match on POST; a 304 needs GET/HEAD with If-None-Match or If-Modified-Since; a missing-Last-Modified failure needs a date guard and no Last-Modified |
| Conditional.Step2 | src/main/java/io/github/chumper/webserver/handler/HttpETagHandler.java:53-74 | from If-Unmodified-Since on, a 412 needs If-Unmodified-Since or If-None-Match on POST; 304 and the missing-Last-Modified failure need what they need in step 1 |
| Conditional.Step3 | src/main/java/io/github/chumper/webserver/handler/HttpETagHandler.java:76-92 | from If-None-Match on, a 412 needs If-None-Match on POST; a 304 needs GET/HEAD with If-None-Match or If-Modified-Since; the missing-Last-Modified failure needs no If-None-Match, an If-Modified-Since and no Last-Modified |
| Conditional.Step4 | src/main/java/io/github/chumper/webserver/handler/HttpETagHandler.java:94-120 | If-Modified-Since never gives 412; without that header, or on POST, the evaluation proceeds; the missing-Last-Modified failure needs no Last-Modified |
| Conditional.Evaluate | src/main/java/io/github/chumper/webserver/handler/HttpETagHandler.java:29-37 | without an ETag, or without any of the four conditional headers, the evaluation proceeds; 412, 304 and the missing-Last-Modified failure each need the headers that lead to them |
| Conditional.Handle | src/main/java/io/github/chumper/webserver/handler/HttpETagHandler.java:28-37 | without an ETag the response is untouched; otherwise only the status can change, and only to 412 or 304; the only failure is a NullPointerException, and it needs a missing Last-Modified |
| Conditional.IfMatchMismatchFails | src/main/java/io/github/chumper/webserver/handler/HttpETagHandler.java:42-47 | If-Match present and not matching gives 412 |
| Conditional.IfMatchHitSkipsUnmodifiedSince | src/main/java/io/github/chumper/webserver/handler/HttpETagHandler.java:42-44 | a matching If-Match skips If-Unmodified-Since: the verdict is that of the request without both headers |
| Conditional.UnmodifiedSinceDecides | src/main/java/io/github/chumper/webserver/handler/HttpETagHandler.java:56-65 | a readable If-Unmodified-Since: Last-Modified strictly before it continues as if the header were absent; otherwise 412 |
| Conditional.UnreadableUnmodifiedSinceIgnored | src/main/java/io/github/chumper/webserver/handler/HttpETagHandler.java:66-69 | an If-Unmodified-Since the parser cannot read is ignored |
| Conditional.UnmodifiedSinceWithoutLastModifiedFails | src/main/java/io/github/chumper/webserver/handler/HttpETagHandler.java:58-59 | a readable If-Unmodified-Since with no Last-Modified on the response throws a NullPointerException |
| Conditional.IfNoneMatchDecides | src/main/java/io/github/chumper/webserver/handler/HttpETagHandler.java:80-87 | If-None-Match: no match proceeds; a match gives 304 for GET/HEAD and 412 for POST; If-Modified-Since is then never consulted |
| Conditional.IfModifiedSinceDecides | src/main/java/io/github/chumper/webserver/handler/HttpETagHandler.java:94-113 | If-Modified-Since counts only for GET/HEAD: Last-Modified strictly after it proceeds, otherwise 304; an unreadable If-Modified-Since or Last-Modified is ignored; a readable If-Modified-Since with no Last-Modified throws a NullPointerException |
| Comments.ToString | src/main/java/io/github/chumper/webserver/data/Comment.java:22-29 | a comment renders inside "{<br/>  posted: " … "<br/>}<br/><br/>", with its length fixed by its fields; the posted time comes right after the opening, then the name tag, name and message tag, and the message and closing right after that |
| Comments.MissingNameShownAsNull | src/main/java/io/github/chumper/webserver/data/Comment.java:26 | a missing name is shown as "null", like string concatenation with null |
| Comments.ToStringDetermines | src/main/java/io/github/chumper/webserver/data/Comment.java:22-29 | for comments whose fields contain no "<", equal renderings mean equal posted time, name and message (a missing field reads as "null") |
| Comments.All | src/test/java/io/github/chumper/webserver/util/InMemoryRepo.java:14-17 | the store lists its comments in insertion order |
| Comments.Add | src/test/java/io/github/chumper/webserver/util/InMemoryRepo.java:19-22 | adding appends the comment and keeps every earlier one |
| Comments.Clear | src/test/java/io/github/chumper/webserver/util/InMemoryRepo.java:24-27 | after clearing, nothing is listed |
| Comments.AddThenAll | src/test/java/io/github/chumper/webserver/util/InMemoryRepo.java:14-27 | a comment added is listed last; added after a clear, it is the only one |
| Comments.DecodePair | src/main/java/io/github/chumper/webserver/handler/HttpCommentHandler.java:81-84 | a pair without "=" throws an index error; otherwise the failure, if any, is a decoding error |
| Comments.DecodePairOfJoined | src/main/java/io/github/chumper/webserver/handler/HttpCommentHandler.java:81-84 | `name=value`, with an `=`-free name, decodes to the decoded name and the decoded value |
| Comments.DecodeAll | src/main/java/io/github/chumper/webserver/handler/HttpCommentHandler.java:80-88 | all pairs decode iff each does, position by position; a failure is the fault of some pair that fails |
| Comments.SplitQuery | src/main/java/io/github/chumper/webserver/handler/HttpCommentHandler.java:77-90 | the query parses iff every `&`-piece decodes; a parameter then holds the value of its last occurrence |
| Comments.EmptyQueryFails | src/main/java/io/github/chumper/webserver/handler/HttpCommentHandler.java:79-84 | an empty body throws an index error, because its single empty pair has no "=" |
| Comments.SplitQueryOfFormBody | src/main/java/io/github/chumper/webserver/handler/HttpCommentHandler.java:77-90 | a form body built from non-empty, separator-free pairs parses back to those pairs, last occurrence winning |
| Comments.Listing | src/main/java/io/github/chumper/webserver/handler/HttpCommentHandler.java:59 | the listing renders each stored comment in order |
| Comments.Post | src/main/java/io/github/chumper/webserver/handler/HttpCommentHandler.java:47-52 | a post with an `add` parameter stores a new comment from `name` and `message`; without it the store is cleared |
| Comments.Updated | src/main/java/io/github/chumper/webserver/handler/HttpCommentHandler.java:44-53 | only POST touches the store; a POST with no body throws a NullPointerException; a POST whose body fails to parse throws that fault |
| Comments.Render | src/main/java/io/github/chumper/webserver/handler/HttpCommentHandler.java:55-61 | the body gains every comment's rendering and then the form; status, protocol and headers are kept |
| Comments.MarkHtml | src/main/java/io/github/chumper/webserver/handler/HttpCommentHandler.java:39 | the Content-Type header becomes text/html and nothing else changes |
| Comments.Handle | src/main/java/io/github/chumper/webserver/handler/HttpCommentHandler.java:34-63 | paths outside "/comments" are untouched; under it, the prefix is cut, the page is marked HTML, the store is updated, and the listing plus form is appended |
| Comments.PostedCommentListedLast | src/main/java/io/github/chumper/webserver/handler/HttpCommentHandler.java:44-61 | a POST with `add` appends the new comment to the store and shows it last in the listing, just before the form |
| Comments.PostWithoutAddListsOnlyForm | src/main/java/io/github/chumper/webserver/handler/HttpCommentHandler.java:50-61 | a POST without `add` empties the store and the page shows only the form |
| Comments.EncodeListingAppend | src/main/java/io/github/chumper/webserver/handler/HttpCommentHandler.java:59 | the listing of a store with one more comment ends with that comment's rendering |
| Comments.FormFields | src/main/java/io/github/chumper/webserver/handler/HttpCommentHandler.java:65-72 | the form holds a field for each of "name", "message", "add" and "clear", the parameter names the post handling reads |
| Logging.BuildLine | src/main/java/io/github/chumper/webserver/util/Logger.java:19-31 | the loop over the arguments, replacing the first `{}` each time, computes the log line |
| Logging.Log | src/main/java/io/github/chumper/webserver/util/Logger.java:19-31 | with no arguments, or with no `{}` in the line, the line is the timestamp, " - " and the message unchanged |
| Logging.ExtraArgumentsIgnored | src/main/java/io/github/chumper/webserver/util/Logger.java:24-29 | arguments beyond the placeholders are dropped and leave the message unchanged |
| Logging.LogKeepsTimestamp | src/main/java/io/github/chumper/webserver/util/Logger.java:20-22 | with a brace-free timestamp, the line is the timestamp, " - ", and the substituted message |
| Logging.SubstituteFillsInOrder | src/main/java/io/github/chumper/webserver/util/Logger.java:24-29 | with brace-free pieces and arguments, the placeholders are filled left to right by the arguments; missing arguments leave `{}` |
| Logging.SubstituteKeepsBraceFreePrefix | src/main/java/io/github/chumper/webserver/util/Logger.java:25 | substitution never touches a brace-free prefix |
| Logging.InsertedPlaceholderIsFilled | src/main/java/io/github/chumper/webserver/util/Logger.java:25-27 | an argument that itself is `{}` is filled by the next argument, since the search restarts from the line's start |
| Stream.ReadLine | src/main/java/io/github/chumper/webserver/core/pipeline/HttpPipeline.java:120 | a line is the text up to the next terminator, which is consumed; `\r\n` counts as one terminator; none at end of input |
| Stream.ReadLineOfTerminated | src/main/java/io/github/chumper/webserver/core/pipeline/HttpPipeline.java:120 | a CRLF-terminated line is read back exactly |
| Stream.Collect | src/main/java/io/github/chumper/webserver/core/pipeline/HttpPipeline.java:125-133 | the collected lines are non-empty and start with the request line; none are collected when no input is ready or the first line is empty |
| Stream.CollectTerminated | src/main/java/io/github/chumper/webserver/core/pipeline/HttpPipeline.java:125-129 | a request line followed by CRLF-terminated header lines and an empty line yields exactly those lines, with reading continuing after the empty line |
| Stream.CollectUnterminated | src/main/java/io/github/chumper/webserver/core/pipeline/HttpPipeline.java:125-129 | after the request line, terminated header lines followed by a last line with no terminator: the loop keeps the terminated lines and drops the last one, since no input is ready once it is read; reading ends at the end of the text |
| Stream.CollectEndsAfterTerminator | src/main/java/io/github/chumper/webserver/core/pipeline/HttpPipeline.java:125-129 | after the request line, CRLF-terminated header lines and then the end of the input with no empty line: the last of them is read and dropped, since no input is ready after it, and only the lines before it are kept; reading ends at the end of the text |
| Parser.UnterminatedLastLineDropped | src/main/java/io/github/chumper/webserver/core/pipeline/HttpPipeline.java:116-133 | a request whose text ends in an unterminated line is read as if that line were absent: `ready()` is false once it is read, so it is never added |
| Stream.ReadContent | src/main/java/io/github/chumper/webserver/core/pipeline/HttpPipeline.java:152-161 | no input left gives ""; a non-numeric length throws only when input is left; otherwise the content is a prefix of the input, exactly `length` characters when that many have arrived |
| Stream.ReadContentLoop | src/main/java/io/github/chumper/webserver/core/pipeline/HttpPipeline.java:153-160 | the character-by-character loop computes that content |
| RequestLine.RequestLineMatchesPattern | src/main/java/io/github/chumper/webserver/core/pipeline/HttpPipeline.java:121 | the decision procedure accepts exactly the lines of the form word, " /", any text, " HTTP/", any text |
| RequestLine.RequestLineAccepted | src/main/java/io/github/chumper/webserver/core/pipeline/HttpPipeline.java:121 | a method-like word, a path and a version always form an accepted line |
| RequestLine.TokensOfRequestLine | src/main/java/io/github/chumper/webserver/core/pipeline/HttpPipeline.java:135-141 | an accepted line splits into at least three tokens, so `methodAndPath[1]` and `[2]` never fail; the first token is the word run |
| Parser.Tokens | src/main/java/io/github/chumper/webserver/core/pipeline/HttpPipeline.java:136 | the tokens contain no spaces and start with the method word |
| Parser.FromLines | src/main/java/io/github/chumper/webserver/core/pipeline/HttpPipeline.java:135-163 | an unknown method throws an illegal argument; a blank header name throws an index error; otherwise method, path and protocol come from the tokens, headers are the lines put in order, content is present iff Content-Length is, and is a prefix of what follows |
| Parser.CreateRequest | src/main/java/io/github/chumper/webserver/core/pipeline/HttpPipeline.java:116-133 | a request is produced (or fails) iff a first line was read, it matches the pattern and more input is ready; otherwise there is no request |
| Parser.RequestLineRoundTrip | src/main/java/io/github/chumper/webserver/core/pipeline/HttpPipeline.java:121-148 | a request line written from a method, a target and a version is accepted and tokenises back to those three |
| Parser.CreateRequestOfMessage | src/main/java/io/github/chumper/webserver/core/pipeline/HttpPipeline.java:120-133 | a written message's lines are collected back exactly before the headers are interpreted |
| Parser.FromRequestLine | src/main/java/io/github/chumper/webserver/core/pipeline/HttpPipeline.java:135-163 | a written request line with storable headers parses to its method, target and version, with the headers put in order |
| Parser.ParseRoundTrip | src/main/java/io/github/chumper/webserver/core/pipeline/HttpPipeline.java:116-164 | a written request is parsed back: same method, target and version, each header name holds its last value, and the only possible failure is a non-numeric Content-Length on a non-empty body |
| Parser.UnknownMethodFails | src/main/java/io/github/chumper/webserver/core/pipeline/HttpPipeline.java:138 | a first word that names no method throws an illegal argument |
| Parser.BlankHeaderNameFails | src/main/java/io/github/chumper/webserver/core/pipeline/HttpPipeline.java:150 | a header line with a blank name makes the whole request throw an index error |
| Parser.NoRequestCases | src/main/java/io/github/chumper/webserver/core/pipeline/HttpPipeline.java:120-133 | empty input, a first line not matching the pattern, or nothing after it, give no request |
| Parser.BodyRoundTrip | src/main/java/io/github/chumper/webserver/core/pipeline/HttpPipeline.java:152-161 | a request written with a final Content-Length of its body's size is parsed back with exactly that body |
| Parser.ReadExactLength | src/main/java/io/github/chumper/webserver/core/pipeline/HttpPipeline.java:155-158 | reading the content with its own length as the header reads it all |
| Parser.LastLengthWins | src/main/java/io/github/chumper/webserver/core/pipeline/HttpPipeline.java:150-152 | a final Content-Length line decides the length whatever earlier lines said |
| Parser.NoLengthNoContent | src/main/java/io/github/chumper/webserver/core/pipeline/HttpPipeline.java:152 | without a Content-Length header the request has no content |
| Pipeline.Apply | src/main/java/io/github/chumper/webserver/core/pipeline/HttpPipeline.java:65-67 | no handler changes the request's method, protocol, headers or content; only the keep-alive handler sets Connection; only the comment handler changes the store; only the log handler writes the log; only the comment and ETag handlers can throw |
| Pipeline.RunAll | src/main/java/io/github/chumper/webserver/core/pipeline/HttpPipeline.java:64-67 | the handler loop keeps the request's keep-alive decision; a fault needs a handler that can throw; with no comment handler the store is unchanged |
| Pipeline.RunAllAppend | src/main/java/io/github/chumper/webserver/core/pipeline/HttpPipeline.java:65-67 | running two handler lists in turn is running the first, then, unless it threw, the second on its result |
| Pipeline.ConnectionAnnounced | src/main/java/io/github/chumper/webserver/handler/HttpKeepAliveHandler.java:20-24 | with the keep-alive handler registered, a completed loop leaves Connection saying what the request decided, whatever ran before or after it |
| Pipeline.ConnectionKept | src/main/java/io/github/chumper/webserver/handler/HttpKeepAliveHandler.java:20-24 | once announced, the Connection value survives every later handler |
| Pipeline.ConnectionMatchesState | src/main/java/io/github/chumper/webserver/core/pipeline/HttpPipeline.java:72-75 | the cycle continues iff the response's Connection header says "keep-alive" |
| Pipeline.Process | src/main/java/io/github/chumper/webserver/core/pipeline/HttpPipeline.java:49-82 | a cycle continues iff there was no I/O failure, a request was parsed, no handler threw, and the request is keep-alive; a crash needs a failing parse or a handler that can throw; bytes are only sent for a parsed request; a read that times out or fails otherwise runs no handler, leaves the comment store unchanged, writes nothing and adds exactly one log line |
| Pipeline.NoRequestDiscards | src/main/java/io/github/chumper/webserver/core/pipeline/HttpPipeline.java:56-59 | an unreadable request closes the connection with nothing written |
| Pipeline.Head | src/main/java/io/github/chumper/webserver/core/pipeline/HttpPipeline.java:92-101 | the head is the status line with the protocol and status, "Date: " and the date, the Server line, Content-Length with the body's size, the response's headers, and an empty line |
| Pipeline.Wire | src/main/java/io/github/chumper/webserver/core/pipeline/HttpPipeline.java:87-106 | the bytes written are the encoded head followed by the body exactly when it is sent |
| Pipeline.HeadOmitsBody | src/main/java/io/github/chumper/webserver/core/pipeline/HttpPipeline.java:103-106 | HEAD gets exactly the head and GET gets the same head followed by the body |
| Pipeline.ContentLengthAnnounced | src/main/java/io/github/chumper/webserver/core/pipeline/HttpPipeline.java:95 | the Content-Length line gives the body's size, and `parseInt` reads that size back |
| JavaText.ParseInt | src/main/java/io/github/chumper/webserver/core/pipeline/HttpPipeline.java:157 | `Integer.parseInt` succeeds only on a sign or digit first, and its result is within the 32-bit range |
| JavaText.ParseIntOfDecimal | src/main/java/io/github/chumper/webserver/core/pipeline/HttpPipeline.java:157 | the decimal text of a 32-bit natural number parses back to it |
| Pipeline.HeaderLines | src/main/java/io/github/chumper/webserver/core/pipeline/HttpPipeline.java:97-99 | each header the iteration visits is written as "name: value" CRLF, in that order |
| Pipeline.EveryHeaderWritten | src/main/java/io/github/chumper/webserver/core/pipeline/HttpPipeline.java:97-99 | under any iteration order, every header of the response is written, once |
| Pipeline.HeaderOrderIrrelevant | src/main/java/io/github/chumper/webserver/core/pipeline/HttpPipeline.java:97-99 | two iteration orders of the same table write the same header lines, up to order |
| Pipeline.RequestLogLineText | src/main/java/io/github/chumper/webserver/handler/HttpRequestLogHandler.java:20 | the request log line reads "time - METHOD: status -> path" when none of them contains "{" |

## Left out

- The socket layer is not modelled. This covers `Server`, `HttpServer` and
  `SocketProcessor`: the accept loop, worker threads, the 3-second read
  timeout, and the repeat loop. One cycle is modelled, and its `State` and
  `Crashed` outcomes say what the caller does next.
- `HttpFileHandler`, the Mongo-backed comment repository, `Main` and the
  configuration are not part of this model. The handler order `Main`
  registers is just one value of the handler list.
- These are parameters of the model: `ConsoleLogger`'s console output,
  `Instant.now`, `new Date()`, `SimpleDateFormat`, `URLDecoder`,
  `String.getBytes` and `HashMap` iteration order.
- Stream.Collect: `BufferedReader.ready()` is modelled as "some input left in
  the text that has arrived". Timing, meaning data that arrives later, is not modelled.
- Stream.ReadContent: with a Content-Length of zero or less, or larger than
  what arrived, Java reads until the client closes the stream. The model
  reads everything that arrived, and models neither blocking nor the
  read timeout.
- Stream.ReadContent: the Content-Length is counted in Unicode scalar values,
  where Java's `read()` counts UTF-16 code units. A body holding a character
  beyond U+FFFF is therefore cut at a different place, and Java can stop
  inside a surrogate pair, which the model cannot express.
- Headers.StoredName: `toUpperCase` is ASCII-only here. Java also upper-cases
  non-ASCII first letters and can lengthen some (such as "ß").
- JavaText.ParseInt: accepts ASCII digits only. Java's `parseInt` also accepts
  other Unicode decimal digits.
- Pipeline.Wire: the body's size is a `nat`. The `int` overflow of a body
  over 2^31-1 bytes is not modelled.
- Pipeline.Process: a write that fails part-way is modelled as "unknown
  bytes sent" (`sent` is None). The bytes already on the wire are not modelled.
- Pipeline.Process: `text` is taken to be everything the client sent before
  it closed the connection. Java's `readLine` returns an unterminated last
  line only once the client has closed; on an open connection it blocks
  until the 3-second timeout, which is a `ReadTimeout` here. So
  `Stream.CollectUnterminated`, `Stream.CollectEndsAfterTerminator` and
  `Parser.UnterminatedLastLineDropped` describe a client that closed the
  connection.
- `UnsupportedEncodingException` in the comment handler's query parsing is left
  out. It cannot happen with "UTF-8", so its log line is not modelled.
- The logger formats arguments with `String.valueOf`. Here a method is shown
  by its name, and the socket by a string given with the timeout failure.
