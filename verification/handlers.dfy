/** The two handlers that only look at the request and touch the response:
    `HttpKeepAliveHandler`, which announces the connection decision in a
    Connection header, and `HttpRootHandler`, which lists the two endpoints. */
module Handlers {
  import opened Common
  import opened JavaText
  import opened Headers
  import opened Messages

  const KeepAliveToken: string := "keep-alive"
  const CloseToken: string := "close"

  /** The Connection value the keep-alive handler writes for a request. */
  function ConnectionValue(req: Request): (v: string)
    ensures v == KeepAliveToken <==> IsKeepAlive(req)
    ensures v == CloseToken <==> !IsKeepAlive(req)
  {
    assert KeepAliveToken != CloseToken by { assert |KeepAliveToken| != |CloseToken|; }
    if IsKeepAlive(req) then KeepAliveToken else CloseToken
  }

  lemma FixedNamesAreTrimmed()
    ensures Trim(Connection) == Connection
    ensures Trim(KeepAliveToken) == KeepAliveToken && Trim(CloseToken) == CloseToken
    ensures Trim(ContentType) == ContentType
  {
    TrimNoop(Connection);
    TrimNoop(KeepAliveToken);
    TrimNoop(CloseToken);
    TrimNoop(ContentType);
  }

  /** `HttpKeepAliveHandler.handle`: the response's Connection header says
      "keep-alive" exactly when the request is keep-alive and "close" otherwise,
      replacing whatever was there; status, body, protocol and every other
      header stay as they were. */
  function KeepAlive(req: Request, resp: Response): (r: Response)
    ensures Get(r.headers, Connection) == Some(KeepAliveToken) <==> IsKeepAlive(req)
    ensures Get(r.headers, Connection) == Some(CloseToken) <==> !IsKeepAlive(req)
    ensures forall k :: k != Connection ==> Get(r.headers, k) == Get(resp.headers, k)
    ensures r.headers.Keys == resp.headers.Keys + {Connection}
    ensures r.status == resp.status && r.body == resp.body && r.protocol == resp.protocol
  {
    FixedNamesAreTrimmed();
    resp.(headers := Put(resp.headers, Connection, ConnectionValue(req)))
  }

  /** Running the keep-alive handler twice is running it once. */
  lemma KeepAliveIdempotent(req: Request, resp: Response)
    ensures KeepAlive(req, KeepAlive(req, resp)) == KeepAlive(req, resp)
  {
    var once := KeepAlive(req, resp);
    var twice := KeepAlive(req, once);
    assert twice.headers == once.headers by {
      assert twice.headers.Keys == once.headers.Keys;
      forall k | k in once.headers ensures twice.headers[k] == once.headers[k] {
        assert Get(twice.headers, k) == Get(once.headers, k) by {
          if k == Connection {
            ConnectionValueIsToken(req);
          }
        }
      }
    }
  }

  lemma ConnectionValueIsToken(req: Request)
    ensures ConnectionValue(req) == KeepAliveToken || ConnectionValue(req) == CloseToken
  {
  }

  /** The four outcomes of the keep-alive matrix, as they reach the client. */
  lemma KeepAliveHeaderMatrix(m: Method, path: string, resp: Response)
    ensures Get(KeepAlive(NewRequest(m, path).(protocol := Http10), resp).headers, Connection) == Some(CloseToken)
    ensures Get(KeepAlive(NewRequest(m, path), resp).headers, Connection) == Some(KeepAliveToken)
    ensures Get(KeepAlive(NewRequest(m, path).(headers := Empty[Connection := CloseToken]), resp).headers, Connection)
            == Some(CloseToken)
    ensures Get(KeepAlive(NewRequest(m, path).(protocol := Http10, headers := Empty[Connection := KeepAliveToken]), resp).headers,
                Connection) == Some(KeepAliveToken)
  {
    KeepAliveMatrix(m, path);
  }

  const FilesLine: string := "Files   : /files\r\n"
  const CommentsLine: string := "Comments: /comments\r\n"

  /** `HttpRootHandler.handle`: a GET or HEAD for exactly "/" appends the two
      endpoint lines to the body; every other request leaves the response as
      it is. Status, headers and protocol are never touched. */
  function Root(req: Request, resp: Response, charset: Charset): (r: Response)
    ensures r.status == resp.status && r.headers == resp.headers && r.protocol == resp.protocol
    ensures IsSafe(req.verb) && req.path == "/" ==>
      r.body == resp.body + charset(FilesLine) + charset(CommentsLine)
    ensures !IsSafe(req.verb) || req.path != "/" ==> r == resp
  {
    if IsSafe(req.verb) && req.path == "/" then
      var first := WriteText(resp, Some(FilesLine), charset);
      var second := WriteText(first, Some(CommentsLine), charset);
      assert second.body == first.body + charset(CommentsLine);
      assert first.body == resp.body + charset(FilesLine);
      second
    else resp
  }

  /** A POST to "/" gets no listing. */
  lemma RootIgnoresPost(path: string, resp: Response, charset: Charset)
    ensures Root(NewRequest(POST, path), resp, charset) == resp
  {
  }

  /** The listing of a fresh response is the two lines, in order, and its
      content length is their combined byte count. */
  lemma RootListing(m: Method, charset: Charset)
    requires IsSafe(m)
    ensures Root(NewRequest(m, "/"), NewResponse(), charset).body == charset(FilesLine) + charset(CommentsLine)
    ensures ContentLengthOf(Root(NewRequest(m, "/"), NewResponse(), charset)) == |charset(FilesLine)| + |charset(CommentsLine)|
  {
  }
}
