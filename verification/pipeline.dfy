/** `HttpPipeline.process`: one request cycle on a connection. The request is
    parsed from what arrived, every registered handler runs once in
    registration order on the same request and response, the response is
    written, and the connection stays open exactly when the request is
    keep-alive. */
module Pipeline {
  import opened Common
  import opened JavaText
  import opened Headers
  import opened Messages
  import opened Stream
  import opened Parser
  import opened Handlers
  import opened Logging
  import Conditional
  import Comments

  /** The handlers the server can register (`Main` registers them in this order). */
  datatype Handler = RootHandler | CommentHandler | ETagHandler | KeepAliveHandler | RequestLogHandler

  /** What the outside world supplies to a cycle. */
  datatype Env = Env(
    charset: Charset,                   // String.getBytes
    parse: Conditional.DateParser,      // HttpHeaders.headerTime.parse
    decode: Comments.UrlDecoder,        // URLDecoder.decode(_, "UTF-8")
    now: string,                        // Instant.now().toString(), the posted time of a comment
    clock: string,                      // the logger's timestamp
    date: string,                       // headerTime.format(new Date()), the Date header
    iterate: Table -> seq<string>)      // the HashMap's iteration order over a header table

  /** What the handlers share during a cycle: the request, the response, the
      comment store and the log lines written so far. */
  datatype Exchange = Exchange(req: Request, resp: Response, repo: Comments.Repo, log: seq<string>)

  const RequestLogFormat: string := "{}: {} -> {}"

  /** The line `HttpRequestLogHandler` logs: method, status and path. */
  function RequestLogLine(req: Request, resp: Response, clock: string): string
  {
    Log(clock, RequestLogFormat, [MethodName(req.verb), resp.status, req.path])
  }

  /** Whether a handler can throw while handling: only these two read input
      that can be malformed. */
  predicate MayFail(h: Handler) { h == CommentHandler || h == ETagHandler }

  /** One handler's `handle(request, response)`. No handler changes the
      request's method, protocol, headers or content, and none but the
      keep-alive handler touches the response's Connection header. */
  function Apply(h: Handler, x: Exchange, env: Env): (r: Result<Exchange>)
    ensures r.Err? ==> MayFail(h)
    ensures r.Ok? ==> r.value.req.verb == x.req.verb && r.value.req.protocol == x.req.protocol
    ensures r.Ok? ==> r.value.req.headers == x.req.headers && r.value.req.content == x.req.content
    ensures r.Ok? && h != KeepAliveHandler ==> Get(r.value.resp.headers, Connection) == Get(x.resp.headers, Connection)
    ensures r.Ok? && h == KeepAliveHandler ==> Get(r.value.resp.headers, Connection) == Some(ConnectionValue(x.req))
    ensures r.Ok? && h != CommentHandler ==> r.value.repo == x.repo
    ensures r.Ok? && h != RequestLogHandler ==> r.value.log == x.log
    ensures r.Ok? && h == RequestLogHandler ==> r.value.log == x.log + [RequestLogLine(x.req, x.resp, env.clock)]
  {
    match h
    case RootHandler => Ok(x.(resp := Root(x.req, x.resp, env.charset)))
    case CommentHandler =>
      assert Connection != ContentType by { assert |Connection| != |ContentType|; }
      (match Comments.Handle(x.req, x.resp, x.repo, env.now, env.decode, env.charset)
       case Err(f) => Err(f)
       case Ok((req, resp, repo)) => Ok(x.(req := req, resp := resp, repo := repo)))
    case ETagHandler =>
      (match Conditional.Handle(x.req, x.resp, env.parse)
       case Err(f) => Err(f)
       case Ok(resp) => Ok(x.(resp := resp)))
    case KeepAliveHandler => Ok(x.(resp := KeepAlive(x.req, x.resp)))
    case RequestLogHandler => Ok(x.(log := x.log + [RequestLogLine(x.req, x.resp, env.clock)]))
  }

  /** Where the handler loop stopped: the exchange after the last handler that
      completed, and the exception that ended the loop early, if any. */
  datatype Run = Run(x: Exchange, fault: Option<Fault>)

  /** The handler loop of `process`: each handler in order, until one throws.
      The request's keep-alive decision is the same after the loop as before. */
  function RunAll(hs: seq<Handler>, x: Exchange, env: Env): (r: Run)
    ensures r.x.req.verb == x.req.verb && r.x.req.protocol == x.req.protocol
    ensures r.x.req.headers == x.req.headers && r.x.req.content == x.req.content
    ensures IsKeepAlive(r.x.req) == IsKeepAlive(x.req)
    ensures r.fault.Some? ==> exists i :: 0 <= i < |hs| && MayFail(hs[i])
    ensures (forall i :: 0 <= i < |hs| ==> hs[i] != CommentHandler) ==> r.x.repo == x.repo
    decreases |hs|
  {
    if hs == [] then Run(x, None)
    else
      match Apply(hs[0], x, env)
      case Err(f) => Run(x, Some(f))
      case Ok(y) =>
        var r := RunAll(hs[1..], y, env);
        assert forall i :: 0 <= i < |hs[1..]| ==> hs[1..][i] == hs[i + 1];
        r
  }

  // ---------------------------------------------------------------- response

  const ServerLine: string := "Server: SimpleHttpServer\r\n"

  /** One header as written: name, ": ", value, CRLF. */
  function HeaderLine(name: string, value: string): string
  {
    name + ": " + value + CRLF
  }

  /** The header lines in the given iteration order; names the table does not hold are skipped. */
  function HeaderLines(t: Table, order: seq<string>): (ls: seq<string>)
    ensures (forall i :: 0 <= i < |order| ==> order[i] in t) ==>
      |ls| == |order| && forall i :: 0 <= i < |order| ==> ls[i] == HeaderLine(order[i], t[order[i]])
    decreases |order|
  {
    if order == [] then []
    else
      var rest := HeaderLines(t, order[1..]);
      assert (forall i :: 0 <= i < |order| ==> order[i] in t) ==> forall i :: 0 <= i < |order[1..]| ==> order[1..][i] in t;
      if order[0] in t then [HeaderLine(order[0], t[order[0]])] + rest else rest
  }

  /** An iteration order of a table: every name it holds, each exactly once. */
  predicate Enumerates(order: seq<string>, t: Table)
  {
    && (forall i :: 0 <= i < |order| ==> order[i] in t)
    && (forall k :: k in t ==> k in order)
    && (forall i, j :: 0 <= i < j < |order| ==> order[i] != order[j])
  }

  /** The status line, Date, Server and Content-Length, the response's own
      headers, and the empty line. The Content-Length line counts the body's
      bytes whether or not the body is sent. */
  function Head(resp: Response, date: string, order: seq<string>): (ls: seq<string>)
    ensures |ls| == 5 + |HeaderLines(resp.headers, order)|
    ensures ls[0] == VersionText(resp.protocol) + " " + resp.status + CRLF
    ensures ls[1] == "Date: " + date + CRLF && ls[2] == ServerLine
    ensures ls[3] == "Content-Length: " + Decimal(|resp.body|) + CRLF
    ensures ls[4..|ls| - 1] == HeaderLines(resp.headers, order) && ls[|ls| - 1] == CRLF
  {
    [VersionText(resp.protocol) + " " + resp.status + CRLF,
     "Date: " + date + CRLF,
     ServerLine,
     "Content-Length: " + Decimal(|resp.body|) + CRLF]
    + HeaderLines(resp.headers, order) + [CRLF]
  }

  /** Whether `sendResponse` writes the body: only a non-empty one, and never for HEAD. */
  predicate SendsBody(req: Request, resp: Response)
  {
    |resp.body| > 0 && req.verb != HEAD
  }

  /** The bytes `sendResponse` writes: the head in the platform charset, then
      the body's bytes as they are. */
  function Wire(req: Request, resp: Response, date: string, order: seq<string>, charset: Charset): (w: seq<byte>)
    ensures |w| == |EncodeAll(Head(resp, date, order), charset)| + if SendsBody(req, resp) then |resp.body| else 0
    ensures w[..|EncodeAll(Head(resp, date, order), charset)|] == EncodeAll(Head(resp, date, order), charset)
    ensures SendsBody(req, resp) ==> w[|w| - |resp.body|..] == resp.body
  {
    var head := EncodeAll(Head(resp, date, order), charset);
    var w := head + if SendsBody(req, resp) then resp.body else [];
    assert w[..|head|] == head;
    w
  }

  // ---------------------------------------------------------------- cycle

  /** `SocketHandler.State`: keep the connection for another request, or close it. */
  datatype State = Continue | Discard

  /** The I/O exceptions `process` catches: a read that timed out (the
      socket's description is logged), a read that failed otherwise, or a
      write that failed. For the last two the exception's message is passed
      to the logger, whose template has no placeholder for it. */
  datatype IoFailure = ReadTimeout(socket: string) | ReadError(message: string) | WriteError(message: string)

  const TimeoutMessage: string := "Socket was inactive for too long, closing {}"
  const IoErrorMessage: string := "Error while converting the HttpInputStream to a HttpRequest: "

  /** How a cycle ends. `Done`: `process` returned `state`; `sent` is what was
      written (None when a write failed part-way). `Crashed`: an unchecked
      exception left `process`, nothing was written and the connection is
      closed by the caller. The comment store and the log are carried on. */
  datatype Cycle =
    | Done(state: State, sent: Option<seq<byte>>, repo: Comments.Repo, log: seq<string>)
    | Crashed(fault: Fault, repo: Comments.Repo, log: seq<string>)

  /** `process(socket)` on the text that arrived, with the registered
      handlers, the comment store and the log before the cycle. */
  function Process(text: string, hs: seq<Handler>, repo: Comments.Repo, log: seq<string>, env: Env,
                   failure: Option<IoFailure>): (r: Cycle)
    ensures r.Done? && r.state == Continue <==>
      failure.None? && CreateRequest(text).Parsed? &&
      RunAll(hs, Exchange(CreateRequest(text).req, NewResponse(), repo, log), env).fault.None? &&
      IsKeepAlive(CreateRequest(text).req)
    ensures r.Crashed? ==> CreateRequest(text).Failed? || exists i :: 0 <= i < |hs| && MayFail(hs[i])
    ensures r.Done? && r.sent.Some? && r.sent.value != [] ==> CreateRequest(text).Parsed?
    ensures failure.Some? && !failure.value.WriteError? ==>
      r.Done? && r.state == Discard && r.sent == Some([]) && r.repo == repo &&
      |r.log| == |log| + 1 && r.log[..|log|] == log
  {
    if failure.Some? && failure.value.ReadTimeout? then
      Done(Discard, Some([]), repo, log + [Log(env.clock, TimeoutMessage, [failure.value.socket])])
    else if failure.Some? && failure.value.ReadError? then
      Done(Discard, Some([]), repo, log + [Log(env.clock, IoErrorMessage, [failure.value.message])])
    else
      match CreateRequest(text)
      case NoRequest => Done(Discard, Some([]), repo, log)
      case Failed(f) => Crashed(f, repo, log)
      case Parsed(req) =>
        var run := RunAll(hs, Exchange(req, NewResponse(), repo, log), env);
        match run.fault
        case Some(f) => Crashed(f, run.x.repo, run.x.log)
        case None =>
          var x := run.x;
          if failure.Some? then
            Done(Discard, None, x.repo, x.log + [Log(env.clock, IoErrorMessage, [failure.value.message])])
          else
            var sent := Wire(x.req, x.resp, env.date, env.iterate(x.resp.headers), env.charset);
            Done(if IsKeepAlive(x.req) then Continue else Discard, Some(sent), x.repo, x.log)
  }

  // ---------------------------------------------------------------- lemmas

  /** Registering two lists of handlers one after the other runs the first
      list, then (unless it threw) the second on what the first left. */
  lemma {:induction false} RunAllAppend(a: seq<Handler>, b: seq<Handler>, x: Exchange, env: Env)
    ensures RunAll(a + b, x, env) ==
      if RunAll(a, x, env).fault.Some? then RunAll(a, x, env) else RunAll(b, RunAll(a, x, env).x, env)
    decreases |a|
  {
    if a == [] {
      assert a + b == b;
    } else {
      assert (a + b)[0] == a[0] && (a + b)[1..] == a[1..] + b;
      match Apply(a[0], x, env)
      case Err(_) =>
      case Ok(y) => RunAllAppend(a[1..], b, y, env);
    }
  }

  /** With the keep-alive handler registered, a loop that completes leaves
      the Connection header saying what the request decided, whatever the
      other handlers did before or after it. */
  lemma {:induction false} ConnectionAnnounced(hs: seq<Handler>, x: Exchange, env: Env)
    requires KeepAliveHandler in hs
    requires RunAll(hs, x, env).fault.None?
    ensures Get(RunAll(hs, x, env).x.resp.headers, Connection) == Some(ConnectionValue(x.req))
    decreases |hs|
  {
    var y := Apply(hs[0], x, env).value;
    if hs[0] == KeepAliveHandler {
      ConnectionKept(hs[1..], y, env);
    } else {
      assert KeepAliveHandler in hs[1..];
      ConnectionAnnounced(hs[1..], y, env);
      assert IsKeepAlive(y.req) == IsKeepAlive(x.req);
    }
  }

  /** Handlers other than keep-alive leave the Connection header alone, and
      the keep-alive handler writes the same value again. */
  lemma {:induction false} ConnectionKept(hs: seq<Handler>, x: Exchange, env: Env)
    requires Get(x.resp.headers, Connection) == Some(ConnectionValue(x.req))
    ensures var r := RunAll(hs, x, env); Get(r.x.resp.headers, Connection) == Some(ConnectionValue(r.x.req))
    decreases |hs|
  {
    if hs != [] {
      match Apply(hs[0], x, env)
      case Err(_) =>
      case Ok(y) =>
        assert IsKeepAlive(y.req) == IsKeepAlive(x.req);
        ConnectionKept(hs[1..], y, env);
    }
  }

  /** What the client reads in the Connection header agrees with what the
      server does with the connection: "keep-alive" exactly when it stays open. */
  lemma ConnectionMatchesState(text: string, hs: seq<Handler>, repo: Comments.Repo, log: seq<string>, env: Env)
    requires KeepAliveHandler in hs
    requires CreateRequest(text).Parsed?
    requires RunAll(hs, Exchange(CreateRequest(text).req, NewResponse(), repo, log), env).fault.None?
    ensures var r := Process(text, hs, repo, log, env, None);
      var final := RunAll(hs, Exchange(CreateRequest(text).req, NewResponse(), repo, log), env).x;
      r.Done? && (r.state == Continue <==> Get(final.resp.headers, Connection) == Some(KeepAliveToken))
  {
    var x := Exchange(CreateRequest(text).req, NewResponse(), repo, log);
    ConnectionAnnounced(hs, x, env);
  }

  /** A HEAD request gets the same head as the GET for the same response, and
      nothing after it; the GET gets the body after that head. */
  lemma HeadOmitsBody(req: Request, resp: Response, date: string, order: seq<string>, charset: Charset)
    requires |resp.body| > 0
    ensures Wire(req.(verb := HEAD), resp, date, order, charset) == EncodeAll(Head(resp, date, order), charset)
    ensures Wire(req.(verb := GET), resp, date, order, charset) ==
            Wire(req.(verb := HEAD), resp, date, order, charset) + resp.body
  {
    var head := EncodeAll(Head(resp, date, order), charset);
    var g := Wire(req.(verb := GET), resp, date, order, charset);
    assert g == g[..|head|] + g[|g| - |resp.body|..];
  }

  /** The Content-Length line announces the body's size, read back as `parseInt` would. */
  lemma ContentLengthAnnounced(resp: Response, date: string, order: seq<string>)
    requires |resp.body| <= IntMax
    ensures var line := Head(resp, date, order)[3];
      line == ContentLength + ": " + Decimal(|resp.body|) + CRLF && ParseInt(Decimal(|resp.body|)) == Some(|resp.body|)
  {
    ParseIntOfDecimal(|resp.body|);
  }

  /** Under any iteration order, each header of the response is written once. */
  lemma EveryHeaderWritten(t: Table, order: seq<string>, k: string)
    requires Enumerates(order, t) && k in t
    ensures HeaderLine(k, t[k]) in HeaderLines(t, order)
    ensures |HeaderLines(t, order)| == |t|
  {
    var i :| 0 <= i < |order| && order[i] == k;
    assert HeaderLines(t, order)[i] == HeaderLine(k, t[k]);
    DistinctSize(order, t);
  }

  lemma DistinctSize(order: seq<string>, t: Table)
    requires Enumerates(order, t)
    ensures |order| == |t|
  {
    DistinctCard(order);
    assert (set i | 0 <= i < |order| :: order[i]) == t.Keys;
  }

  lemma {:induction false} DistinctCard(s: seq<string>)
    requires forall i, j :: 0 <= i < j < |s| ==> s[i] != s[j]
    ensures |set i | 0 <= i < |s| :: s[i]| == |s|
    decreases |s|
  {
    if s != [] {
      var last := |s| - 1;
      var init := s[..last];
      DistinctCard(init);
      assert (set i | 0 <= i < |s| :: s[i]) == (set i | 0 <= i < |init| :: init[i]) + {s[last]};
      assert s[last] !in (set i | 0 <= i < |init| :: init[i]);
    }
  }

  /** The header lines written do not depend on the table's iteration order,
      up to their order. */
  lemma HeaderOrderIrrelevant(t: Table, o1: seq<string>, o2: seq<string>)
    requires Enumerates(o1, t) && Enumerates(o2, t)
    ensures multiset(HeaderLines(t, o1)) == multiset(HeaderLines(t, o2))
  {
    DistinctMultiset(o1);
    DistinctMultiset(o2);
    assert multiset(o1) == multiset(o2) by {
      forall k ensures multiset(o1)[k] == multiset(o2)[k] {
        assert k in o1 <==> k in o2;
      }
    }
    LinesFollowNames(t, o1, o2);
  }

  lemma {:induction false} DistinctMultiset(s: seq<string>)
    requires forall i, j :: 0 <= i < j < |s| ==> s[i] != s[j]
    ensures forall k :: multiset(s)[k] == if k in s then 1 else 0
    decreases |s|
  {
    if s != [] {
      var last := |s| - 1;
      DistinctMultiset(s[..last]);
      assert s == s[..last] + [s[last]];
      assert s[last] !in s[..last];
      forall k ensures multiset(s)[k] == if k in s then 1 else 0 {
        assert k in s <==> k in s[..last] || k == s[last];
      }
    }
  }

  /** Orders that hold the same names give the same header lines, up to order. */
  lemma {:induction false} LinesFollowNames(t: Table, o1: seq<string>, o2: seq<string>)
    requires multiset(o1) == multiset(o2)
    ensures multiset(HeaderLines(t, o1)) == multiset(HeaderLines(t, o2))
    decreases |o1|
  {
    if o1 != [] {
      var k := o1[0];
      assert k in multiset(o2);
      var j :| 0 <= j < |o2| && o2[j] == k;
      var rest2 := RemoveAt(o2, j);
      MultisetOfTail(o1);
      LinesFollowNames(t, o1[1..], rest2);
      LinesRemoveAt(t, o2, j);
      LinesOfHead(t, o1);
    }
  }

  /** The lines of a non-empty order are those of its head, then of its tail. */
  lemma LinesOfHead(t: Table, o: seq<string>)
    requires o != []
    ensures multiset(HeaderLines(t, o)) == multiset(HeaderLines(t, [o[0]])) + multiset(HeaderLines(t, o[1..]))
  {
    LinesAppend(t, [o[0]], o[1..]);
    assert [o[0]] + o[1..] == o;
  }

  lemma MultisetOfTail(o: seq<string>)
    requires o != []
    ensures multiset(o[1..]) == multiset(o) - multiset{o[0]}
  {
    assert o == [o[0]] + o[1..];
  }

  /** The sequence without its element at `j`. */
  function RemoveAt(s: seq<string>, j: nat): (r: seq<string>)
    requires j < |s|
    ensures multiset(r) == multiset(s) - multiset{s[j]}
  {
    assert s == s[..j] + [s[j]] + s[j + 1..];
    s[..j] + s[j + 1..]
  }

  lemma LinesRemoveAt(t: Table, s: seq<string>, j: nat)
    requires j < |s|
    ensures multiset(HeaderLines(t, s)) == multiset(HeaderLines(t, [s[j]])) + multiset(HeaderLines(t, RemoveAt(s, j)))
  {
    assert s == s[..j] + ([s[j]] + s[j + 1..]);
    LinesAppend(t, s[..j], [s[j]] + s[j + 1..]);
    LinesAppend(t, [s[j]], s[j + 1..]);
    LinesAppend(t, s[..j], s[j + 1..]);
  }

  lemma {:induction false} LinesAppend(t: Table, a: seq<string>, b: seq<string>)
    ensures HeaderLines(t, a + b) == HeaderLines(t, a) + HeaderLines(t, b)
    decreases |a|
  {
    if a == [] {
      assert a + b == b;
    } else {
      assert (a + b)[0] == a[0] && (a + b)[1..] == a[1..] + b;
      LinesAppend(t, a[1..], b);
    }
  }

  /** A request that cannot be read closes the connection with nothing written. */
  lemma NoRequestDiscards(text: string, hs: seq<Handler>, repo: Comments.Repo, log: seq<string>, env: Env,
                          failure: Option<IoFailure>)
    requires CreateRequest(text) == NoRequest
    requires failure.None? || failure.value.WriteError?
    ensures Process(text, hs, repo, log, env, failure) == Done(Discard, Some([]), repo, log)
  {
  }

  /** The request-log line as printed: with no "{" in the timestamp, method,
      status or path, it reads "time - METHOD: status -> path". */
  lemma RequestLogLineText(req: Request, resp: Response, clock: string)
    requires '{' !in clock && '{' !in resp.status && '{' !in req.path
    ensures RequestLogLine(req, resp, clock) ==
            clock + Separator + MethodName(req.verb) + ": " + resp.status + " -> " + req.path
  {
    var args := [MethodName(req.verb), resp.status, req.path];
    assert '{' !in MethodName(req.verb) by { MethodNameIsWord(req.verb); }
    RequestLogTemplate();
    RequestLogPiecesBraceFree();
    LogOfPieces(clock, RequestLogPieces, args);
    RequestLogPiecesFill(args);
    var head := clock + Separator;
    AppendAssoc(head, args[0] + ": " + args[1] + " -> ", args[2]);
    AppendAssoc(head, args[0] + ": " + args[1], " -> ");
    AppendAssoc(head, args[0] + ": ", args[1]);
    AppendAssoc(head, args[0], ": ");
  }

  /** The request-log format as literal pieces around its three placeholders. */
  const RequestLogPieces: seq<string> := ["", ": ", " -> ", ""]

  lemma RequestLogPiecesBraceFree()
    ensures forall i :: 0 <= i < |RequestLogPieces| ==> '{' !in RequestLogPieces[i]
  {
  }

  lemma RequestLogPiecesFill(args: seq<string>)
    requires |args| == 3
    ensures Fill(RequestLogPieces, args) == args[0] + ": " + args[1] + " -> " + args[2]
  {
    var p1, p2, p3 := RequestLogPieces[1..], RequestLogPieces[2..], RequestLogPieces[3..];
    assert p1[1..] == p2 && p2[1..] == p3 && p3 == [""];
    assert args[1..][1..] == args[2..] && args[2..][1..] == [];
    var tail := Fill(p2, args[2..]);
    assert tail == " -> " + args[2] + "";
    assert " -> " + args[2] + "" == " -> " + args[2];
    assert Fill(p1, args[1..]) == ": " + args[1] + tail;
    AppendAssoc(args[0] + ": " + args[1], " -> ", args[2]);
    AppendAssoc(args[0] + ": ", args[1], " -> " + args[2]);
    AppendAssoc(args[0], ": ", args[1] + (" -> " + args[2]));
  }

  lemma RequestLogTemplate()
    ensures Template(RequestLogPieces) == RequestLogFormat
  {
    var p := RequestLogPieces;
    assert p[1..][1..] == p[2..] && p[2..][1..] == p[3..] && p[3..] == [""];
    assert Template(p[2..]) == " -> " + Delimiter + "";
    assert Template(p[1..]) == ": " + Delimiter + " -> " + Delimiter;
  }
}
