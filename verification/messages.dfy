/** The request and response value objects (`HttpBase`, `HttpRequest`,
    `HttpResponse`) and the request's keep-alive rule. Java setters become
    datatype updates `r.(field := v)` and getters become field selections, so
    a value read back is the value stored. */
module Messages {
  import opened Common
  import opened JavaText
  import opened Headers

  /** The closed set of request methods. */
  datatype Method = GET | HEAD | POST

  datatype Version = Http10 | Http11

  /** The methods that only read: GET and HEAD. */
  predicate IsSafe(m: Method) { m == GET || m == HEAD }

  function MethodName(m: Method): string
  {
    match m
    case GET => "GET"
    case HEAD => "HEAD"
    case POST => "POST"
  }

  /** `Version.toString()`. */
  function VersionText(v: Version): (s: string)
    ensures |s| == 8 && s[..7] == "HTTP/1."
    ensures s[7] == (if v == Http10 then '0' else '1')
  {
    match v
    case Http10 => "HTTP/1.0"
    case Http11 => "HTTP/1.1"
  }

  /** `Method.valueOf(token)`: the method whose name is exactly `token`; None
      stands for the IllegalArgumentException thrown for any other token. */
  function ParseMethod(token: string): (r: Option<Method>)
    ensures r.Some? ==> MethodName(r.value) == token
    ensures r.None? ==> forall m: Method :: MethodName(m) != token
  {
    if token == "GET" then Some(GET)
    else if token == "HEAD" then Some(HEAD)
    else if token == "POST" then Some(POST)
    else None
  }

  lemma ParseMethodName(m: Method)
    ensures ParseMethod(MethodName(m)) == Some(m)
  {
  }

  /** The protocol a freshly created request or response carries. */
  const DefaultProtocol: Version := Http11

  /** The status a freshly created response carries. */
  const StatusOk: string := "200 OK"

  /** The version named by the third token of a request line; any token other
      than the two version names leaves the default in place. */
  function ProtocolOf(token: string): (v: Version)
    ensures v == Http10 <==> token == VersionText(Http10)
  {
    if token == "HTTP/1.1" then Http11
    else if token == "HTTP/1.0" then Http10
    else DefaultProtocol
  }

  lemma ProtocolOfVersionText(v: Version)
    ensures ProtocolOf(VersionText(v)) == v
  {
  }

  /** A request: what the parser read. `content` is None when no Content-Length
      header announced a body (the Java field stays null). */
  datatype Request = Request(
    verb: Method,       // the request method (`method` is a Dafny keyword)
    path: string,
    protocol: Version,
    headers: Table,
    content: Option<string>)

  /** A response: status line text, protocol, headers and the body buffer. */
  datatype Response = Response(
    status: string,
    protocol: Version,
    headers: Table,
    body: seq<byte>)

  /** `new HttpRequest()` after the parser stored method and path: default
      protocol, its own empty header table, no content. */
  function NewRequest(verb: Method, path: string): (r: Request)
    ensures r.protocol == Http11 && r.headers == Empty && r.content.None?
    ensures r.verb == verb && r.path == path
  {
    Request(verb, path, DefaultProtocol, Empty, None)
  }

  /** `new HttpResponse()`: "200 OK", HTTP/1.1, its own empty header table and
      an empty body. */
  function NewResponse(): (r: Response)
    ensures r.status == "200 OK" && r.protocol == Http11
    ensures r.headers == Empty && ContentLengthOf(r) == 0
  {
    Response(StatusOk, DefaultProtocol, Empty, [])
  }

  /** `getContentLength()`: the number of bytes written so far. */
  function ContentLengthOf(r: Response): nat
  {
    |r.body|
  }

  /** `write(String)`: the text's bytes go to the end of the body; `write(null)`
      changes nothing. Status, protocol and headers are untouched. */
  function WriteText(r: Response, text: Option<string>, charset: Charset): (r': Response)
    ensures r'.status == r.status && r'.protocol == r.protocol && r'.headers == r.headers
    ensures text.None? ==> r'.body == r.body
    ensures text.Some? ==> |r'.body| == |r.body| + |charset(text.value)|
    ensures text.Some? ==> r'.body[..|r.body|] == r.body && r'.body[|r.body|..] == charset(text.value)
  {
    match text
    case None => r
    case Some(s) => r.(body := r.body + charset(s))
  }

  /** `write(byte[])`: the bytes go to the end of the body; a null array
      changes nothing. */
  function WriteBytes(r: Response, bytes: Option<seq<byte>>): (r': Response)
    ensures r'.status == r.status && r'.protocol == r.protocol && r'.headers == r.headers
    ensures bytes.None? ==> r'.body == r.body
    ensures bytes.Some? ==> |r'.body| == |r.body| + |bytes.value|
    ensures bytes.Some? ==> r'.body[..|r.body|] == r.body && r'.body[|r.body|..] == bytes.value
  {
    match bytes
    case None => r
    case Some(b) => r.(body := r.body + b)
  }

  /** Several `write(String)` calls in order. */
  function WriteAll(r: Response, texts: seq<string>, charset: Charset): Response
    decreases |texts|
  {
    if texts == [] then r else WriteAll(WriteText(r, Some(texts[0]), charset), texts[1..], charset)
  }

  /** The bytes of several texts, one after the other. */
  function EncodeAll(texts: seq<string>, charset: Charset): seq<byte>
    decreases |texts|
  {
    if texts == [] then [] else charset(texts[0]) + EncodeAll(texts[1..], charset)
  }

  /** The body only grows: after any sequence of writes it is the old body
      followed by every text's bytes in order, and the content length is the
      total number of bytes appended. */
  lemma {:induction false} WriteAllAppends(r: Response, texts: seq<string>, charset: Charset)
    ensures WriteAll(r, texts, charset).body == r.body + EncodeAll(texts, charset)
    ensures ContentLengthOf(WriteAll(r, texts, charset)) == ContentLengthOf(r) + |EncodeAll(texts, charset)|
    ensures WriteAll(r, texts, charset).status == r.status
    ensures WriteAll(r, texts, charset).headers == r.headers
    ensures WriteAll(r, texts, charset).protocol == r.protocol
    decreases |texts|
  {
    if texts != [] {
      var r1 := WriteText(r, Some(texts[0]), charset);
      WriteAllAppends(r1, texts[1..], charset);
      assert r.body + charset(texts[0]) + EncodeAll(texts[1..], charset)
          == r.body + EncodeAll(texts, charset);
    }
  }

  /** `isKeepAlive()`: with no Connection header, HTTP/1.1 keeps the connection
      and HTTP/1.0 does not; a Connection header equal to "close" (exactly)
      closes it; any other Connection value keeps it, for both versions. */
  function IsKeepAlive(req: Request): (keep: bool)
    ensures Get(req.headers, Connection).None? ==> (keep <==> req.protocol == Http11)
    ensures Get(req.headers, Connection) == Some("close") ==> !keep
    ensures Get(req.headers, Connection).Some? && Get(req.headers, Connection) != Some("close") ==> keep
  {
    var connection := Get(req.headers, Connection);
    if req.protocol == Http10 && connection.None? then false
    else if req.protocol == Http11 && connection.None? then true
    else
      // both versions are covered above, so the header is present here: the
      // dereference in the Java code cannot meet a null
      assert connection.Some? by { assert req.protocol == Http10 || req.protocol == Http11; }
      connection.value != "close"
  }

  /** The four literal outcomes: 1.0 alone closes, 1.0 with "keep-alive" keeps,
      1.1 alone keeps, 1.1 with "close" closes. */
  lemma KeepAliveMatrix(m: Method, path: string)
    ensures !IsKeepAlive(NewRequest(m, path).(protocol := Http10))
    ensures IsKeepAlive(NewRequest(m, path).(protocol := Http10, headers := Empty[Connection := "keep-alive"]))
    ensures IsKeepAlive(NewRequest(m, path))
    ensures !IsKeepAlive(NewRequest(m, path).(headers := Empty[Connection := "close"]))
  {
  }

  /** The value comparison is case-sensitive: "Close" keeps the connection. */
  lemma KeepAliveCloseIsCaseSensitive(req: Request)
    requires Get(req.headers, Connection) == Some("Close")
    ensures IsKeepAlive(req)
  {
    assert "Close" != "close" by { assert "Close"[0] != "close"[0]; }
  }
}
