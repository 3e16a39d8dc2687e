/** `HttpPipeline.createRequest`: turning the text that arrived on a connection
    into a request. The first line must match the request-line pattern; the
    lines up to the first empty one are collected while input is ready; the
    first of them gives method, path and protocol, the others go into the
    header table, and a Content-Length header makes the parser read a body. */
module Parser {
  import opened Common
  import opened JavaText
  import opened Headers
  import opened Messages
  import opened Stream
  import opened RequestLine

  /** How `createRequest` ends: an empty Optional (the connection is dropped),
      an uncaught exception, or a request. */
  datatype Outcome = NoRequest | Failed(fault: Fault) | Parsed(req: Request)

  /** The request line's tokens: `rawFirstLine.split(" ")`. */
  function Tokens(first: string): (ts: seq<string>)
    requires IsRequestLine(first)
    ensures |ts| >= 3 && ts[0] == first[..WordPrefix(first)]
    ensures forall i :: 0 <= i < |ts| ==> ' ' !in ts[i]
  {
    TokensOfRequestLine(first);
    Split(first, ' ')
  }

  /** Everything `createRequest` does once the request line is accepted and
      at least that line was collected: `lines` are the other collected lines
      and `rest` is the unread input. The method is resolved first, then the
      header lines are added in order, then the body is read. */
  function FromLines(first: string, lines: seq<string>, rest: string): (r: Outcome)
    requires IsRequestLine(first)
    ensures r != NoRequest
    ensures r == Failed(IllegalArgument) <==> ParseMethod(Tokens(first)[0]).None?
    ensures ParseMethod(Tokens(first)[0]).Some? ==>
      (r == Failed(IndexOutOfBounds) <==> exists i :: 0 <= i < |lines| && !Storable(lines[i]))
    ensures r.Parsed? ==> MethodName(r.req.verb) == Tokens(first)[0] && r.req.path == Tokens(first)[1]
    ensures r.Parsed? ==> (r.req.protocol == Http10 <==> Tokens(first)[2] == "HTTP/1.0")
    ensures r.Parsed? ==> (forall i :: 0 <= i < |lines| ==> Storable(lines[i])) &&
                          r.req.headers == PutAll(Empty, Entries(lines))
    ensures r.Parsed? ==> (r.req.content.Some? <==> ContentLength in r.req.headers)
    ensures r.Parsed? && r.req.content.Some? ==> StartsWith(rest, r.req.content.value)
    ensures r.Failed? && r.fault == NumberFormat ==> rest != [] && ContentLength in AddLines(Empty, lines).value
  {
    var tokens := Tokens(first);
    match ParseMethod(tokens[0])
    case None => Failed(IllegalArgument)
    case Some(m) =>
      var req := NewRequest(m, tokens[1]).(protocol := ProtocolOf(tokens[2]));
      match AddLines(req.headers, lines)
      case Err(f) => Failed(f)
      case Ok(headers) =>
        match Get(headers, ContentLength)
        case None => Parsed(req.(headers := headers))
        case Some(length) =>
          match ReadContent(rest, length)
          case Err(f) => Failed(f)
          case Ok(body) => Parsed(req.(headers := headers, content := Some(body)))
  }

  /** `createRequest` on the whole text that arrived. */
  function CreateRequest(text: string): (r: Outcome)
    ensures r != NoRequest <==>
      ReadLine(text, 0).Some? && IsRequestLine(ReadLine(text, 0).value.0) && Ready(text, ReadLine(text, 0).value.1)
  {
    match ReadLine(text, 0)
    case None => NoRequest
    case Some((first, pos)) =>
      if !IsRequestLine(first) then NoRequest
      else
        var (lines, start) := Collect(text, pos, first);
        if lines == [] then NoRequest
        else FromLines(first, lines[1..], text[start..])
  }

  // ---------------------------------------------------------------- encoding

  /** A request target the pattern and the tokenizer take back unchanged: a
      slash, then characters that are neither spaces nor line terminators. */
  predicate IsTarget(target: string)
  {
    |target| >= 1 && target[0] == '/' && ' ' !in target && AllDot(target)
  }

  /** The request line a client writes. */
  function RequestLineText(m: Method, target: string, v: Version): string
  {
    JoinWith([MethodName(m), target, VersionText(v)], ' ')
  }

  /** A whole request as a client writes it: the request line, the header
      lines, an empty line, the body. */
  function Message(m: Method, target: string, v: Version, lines: seq<string>, body: string): string
  {
    RequestLineText(m, target, v) + CRLF + Terminated(lines) + CRLF + body
  }

  // ---------------------------------------------------------------- lemmas

  lemma MethodNameIsWord(m: Method)
    ensures |MethodName(m)| >= 1 && AllWord(MethodName(m)) && ' ' !in MethodName(m)
  {
    match m
    case GET => assert MethodName(m) == ['G', 'E', 'T'];
    case HEAD => assert MethodName(m) == ['H', 'E', 'A', 'D'];
    case POST => assert MethodName(m) == ['P', 'O', 'S', 'T'];
  }

  lemma VersionTextShape(v: Version)
    ensures VersionText(v) == "HTTP/" + VersionText(v)[5..]
    ensures AllDot(VersionText(v)[5..]) && ' ' !in VersionText(v)
  {
    var s := VersionText(v);
    assert s[..7] == "HTTP/1.";
    assert s == s[..5] + s[5..];
    assert s[5..] == [s[5], s[6], s[7]];
    assert forall i :: 0 <= i < 8 ==> s[i] != ' ' by {
      assert forall i :: 0 <= i < 7 ==> s[i] == s[..7][i];
    }
  }

  /** The request line a client writes splits back into its three parts and is accepted. */
  lemma RequestLineRoundTrip(m: Method, target: string, v: Version)
    requires IsTarget(target)
    ensures IsRequestLine(RequestLineText(m, target, v))
    ensures Tokens(RequestLineText(m, target, v)) == [MethodName(m), target, VersionText(v)]
    ensures forall i :: 0 <= i < |RequestLineText(m, target, v)| ==> !IsTerminator(RequestLineText(m, target, v)[i])
  {
    var name, version := MethodName(m), VersionText(v);
    MethodNameIsWord(m);
    VersionTextShape(v);
    SplitOfJoin([name, target, version], ' ');
    RequestLineLayout(m, target, v);
    assert AllDot(target[1..]);
    RequestLineAccepted(name, target[1..], version[5..]);
    RequestLineIsDots(m, target, v);
  }

  /** The request line read as the pattern's parts: word, " /", the rest of the
      target, " HTTP/", the rest of the version. */
  lemma RequestLineLayout(m: Method, target: string, v: Version)
    requires IsTarget(target)
    ensures RequestLineText(m, target, v) ==
      MethodName(m) + " /" + target[1..] + VersionMarker + VersionText(v)[5..]
  {
    var name, version := MethodName(m), VersionText(v);
    VersionTextShape(v);
    var ps := [name, target, version];
    assert ps[1..] == [target, version] && [target, version][1..] == [version];
    assert JoinWith([target, version], ' ') == target + [' '] + version;
    assert JoinWith(ps, ' ') == name + [' '] + (target + [' '] + version);
    assert target == ['/'] + target[1..];
  }

  /** Every character of a written request line is a `.` of the pattern, so
      none ends the line. */
  lemma RequestLineIsDots(m: Method, target: string, v: Version)
    requires IsTarget(target)
    ensures forall i :: 0 <= i < |RequestLineText(m, target, v)| ==> !IsTerminator(RequestLineText(m, target, v)[i])
  {
    var name, version := MethodName(m), VersionText(v);
    MethodNameIsWord(m);
    VersionTextShape(v);
    RequestLineLayout(m, target, v);
    MarkerIsDot();
    assert AllDot(name) by {
      forall i | 0 <= i < |name| ensures IsDotChar(name[i]) { assert IsWordChar(name[i]); }
    }
    AllDotConcat(" /", target[1..]);
    AllDotConcat(name, " /" + target[1..]);
    AllDotConcat(VersionMarker, version[5..]);
    AllDotConcat(name + " /" + target[1..], VersionMarker + version[5..]);
    assert name + " /" + target[1..] + (VersionMarker + version[5..]) == RequestLineText(m, target, v);
  }

  /** A request as a client writes it reaches the steps after the header loop
      with its header lines and its body intact. */
  lemma CreateRequestOfMessage(m: Method, target: string, v: Version, lines: seq<string>, body: string)
    requires IsTarget(target)
    requires AllPlain(lines)
    ensures IsRequestLine(RequestLineText(m, target, v))
    ensures CreateRequest(Message(m, target, v, lines, body)) == FromLines(RequestLineText(m, target, v), lines, body)
  {
    var first := RequestLineText(m, target, v);
    var text := Message(m, target, v, lines, body);
    RequestLineRoundTrip(m, target, v);
    AcceptedLineNotEmpty(first);
    var pos, start := MessageReads(text, first, lines, body);
    CreateRequestAfterCollect(text, first, pos, lines, start);
  }

  /** A client that sends its last header line without the empty line after
      it loses that line: once it is read nothing is ready, so the loop drops
      it. The request is the one the earlier header lines make, with an empty
      rest, exactly as if the empty line had followed them. */
  lemma UnterminatedLastLineDropped(m: Method, target: string, v: Version, lines: seq<string>, last: string)
    requires IsTarget(target)
    requires AllPlain(lines) && IsPlainLine(last)
    ensures CreateRequest(RequestLineText(m, target, v) + CRLF + Terminated(lines) + last) ==
            CreateRequest(Message(m, target, v, lines, []))
  {
    var first := RequestLineText(m, target, v);
    var text := first + CRLF + Terminated(lines) + last;
    RequestLineRoundTrip(m, target, v);
    AcceptedLineNotEmpty(first);
    AppendAssoc(first + CRLF, Terminated(lines), last);
    var pos := FirstLineReads(text, first, Terminated(lines) + last);
    CollectUnterminated(text, pos, first, lines, last);
    CreateRequestAfterCollect(text, first, pos, lines, |text|);
    assert text[|text|..] == [];
    assert CreateRequest(text) == FromLines(first, lines, []);
    CreateRequestOfMessage(m, target, v, lines, []);
  }

  lemma AcceptedLineNotEmpty(line: string)
    requires IsRequestLine(line)
    ensures line != []
  {
  }

  /** How the reader goes through a written message: the first line, then the
      header lines up to the empty one, then the body is what is left. */
  lemma MessageReads(text: string, first: string, lines: seq<string>, body: string) returns (pos: nat, start: nat)
    requires first != [] && forall i :: 0 <= i < |first| ==> !IsTerminator(first[i])
    requires AllPlain(lines)
    requires text == first + CRLF + Terminated(lines) + CRLF + body
    ensures ReadLine(text, 0) == Some((first, pos))
    ensures Collect(text, pos, first) == ([first] + lines, start)
    ensures start <= |text| && text[start..] == body
  {
    var tail := Terminated(lines) + CRLF + body;
    AppendAssoc(first + CRLF, Terminated(lines) + CRLF, body);
    AppendAssoc(first + CRLF, Terminated(lines), CRLF);
    pos := FirstLineReads(text, first, tail);
    start := CollectHeaderLines(text, pos, first, lines, body);
  }

  /** The request line is read whole, and the reader stands at what follows it. */
  lemma FirstLineReads(text: string, first: string, tail: string) returns (pos: nat)
    requires forall i :: 0 <= i < |first| ==> !IsTerminator(first[i])
    requires text == first + CRLF + tail
    ensures ReadLine(text, 0) == Some((first, pos))
    ensures pos <= |text| && text[pos..] == tail
  {
    assert text[0..] == text;
    SkipTerminated(text, 0, first, tail);
    pos := |first| + 2;
  }

  /** From just after the request line, the loop collects the header lines and
      stops past the empty line, where the body begins. */
  lemma CollectHeaderLines(text: string, pos: nat, first: string, lines: seq<string>, body: string) returns (start: nat)
    requires first != [] && AllPlain(lines)
    requires pos <= |text| && text[pos..] == Terminated(lines) + CRLF + body
    ensures Collect(text, pos, first) == ([first] + lines, start)
    ensures start <= |text| && text[start..] == body
  {
    CollectTerminated(text, pos, first, lines, body);
    start := pos + |Terminated(lines)| + 2;
    assert text[start..] == text[pos..][|Terminated(lines)| + 2..];
    assert (Terminated(lines) + CRLF + body)[|Terminated(lines)| + 2..] == body;
  }

  /** Once the request line is read and the loop has collected it with more
      lines, `createRequest` continues with those lines and the unread rest. */
  lemma CreateRequestAfterCollect(text: string, first: string, pos: nat, lines: seq<string>, start: nat)
    requires ReadLine(text, 0) == Some((first, pos)) && IsRequestLine(first)
    requires Collect(text, pos, first) == ([first] + lines, start)
    ensures start <= |text|
    ensures CreateRequest(text) == FromLines(first, lines, text[start..])
  {
    assert ([first] + lines)[1..] == lines;
  }

  /** After a request line a client wrote, the steps that follow the header
      loop give back its method, target and version, the header table the
      lines make, and the body `ReadContent` takes when a length is announced. */
  lemma FromRequestLine(m: Method, target: string, v: Version, lines: seq<string>, rest: string)
    requires IsTarget(target)
    requires AllStorable(lines)
    ensures IsRequestLine(RequestLineText(m, target, v))
    ensures var t := PutAll(Empty, Entries(lines));
      FromLines(RequestLineText(m, target, v), lines, rest) ==
        match Get(t, ContentLength)
        case None => Parsed(Request(m, target, v, t, None))
        case Some(length) =>
          match ReadContent(rest, length)
          case Err(f) => Failed(f)
          case Ok(c) => Parsed(Request(m, target, v, t, Some(c)))
  {
    var first := RequestLineText(m, target, v);
    RequestLineFields(m, target, v);
    var req := NewRequest(m, target).(protocol := v);
    assert req == Request(m, target, v, Empty, None);
    var t := AddLines(Empty, lines);
    assert t == Ok(PutAll(Empty, Entries(lines)));
  }

  /** A written request line's tokens give back the method, the target and the protocol. */
  lemma RequestLineFields(m: Method, target: string, v: Version)
    requires IsTarget(target)
    ensures IsRequestLine(RequestLineText(m, target, v))
    ensures ParseMethod(Tokens(RequestLineText(m, target, v))[0]) == Some(m)
    ensures Tokens(RequestLineText(m, target, v))[1] == target
    ensures ProtocolOf(Tokens(RequestLineText(m, target, v))[2]) == v
  {
    RequestLineRoundTrip(m, target, v);
    ParseMethodName(m);
    ProtocolOfVersionText(v);
  }

  /** The round trip: a request as a client writes it is parsed back to its
      method, target and version, and every header name holds the value of
      the last line naming it. It fails only on a malformed length with a
      body to read. */
  lemma ParseRoundTrip(m: Method, target: string, v: Version, lines: seq<string>, body: string)
    requires IsTarget(target)
    requires AllPlain(lines) && AllStorable(lines)
    ensures var r := CreateRequest(Message(m, target, v, lines, body));
      var length := Latest(Entries(lines), ContentLength);
      && (r.Parsed? <==> length.None? || body == [] || ParseInt(length.value).Some?)
      && (r.Failed? ==> r.fault == NumberFormat)
      && (r.Parsed? ==> r.req.verb == m && r.req.path == target && r.req.protocol == v)
      && (r.Parsed? ==> forall k :: Get(r.req.headers, k) == Latest(Entries(lines), k))
      && (r.Parsed? ==> r.req.content == if length.None? then None else Some(ReadContent(body, length.value).value))
  {
    CreateRequestOfMessage(m, target, v, lines, body);
    FromRequestLine(m, target, v, lines, body);
    forall k ensures Get(PutAll(Empty, Entries(lines)), k) == Latest(Entries(lines), k) {
      PutAllLastWins(Empty, Entries(lines), k);
    }
  }

  /** A request line whose method token names no method throws, whatever follows. */
  lemma UnknownMethodFails(first: string, lines: seq<string>, rest: string)
    requires IsRequestLine(first) && ParseMethod(first[..WordPrefix(first)]).None?
    ensures FromLines(first, lines, rest) == Failed(IllegalArgument)
  {
  }

  /** A header line with a blank name throws, once the method is known. */
  lemma BlankHeaderNameFails(m: Method, target: string, v: Version, lines: seq<string>, body: string, i: nat)
    requires IsTarget(target)
    requires AllPlain(lines)
    requires i < |lines| && !Storable(lines[i])
    ensures CreateRequest(Message(m, target, v, lines, body)) == Failed(IndexOutOfBounds)
  {
    CreateRequestOfMessage(m, target, v, lines, body);
    RequestLineRoundTrip(m, target, v);
    ParseMethodName(m);
  }

  /** The connection is dropped without a request when nothing arrived, when
      the first line does not match, or when nothing follows the first line. */
  lemma NoRequestCases(text: string)
    ensures text == [] ==> CreateRequest(text) == NoRequest
    ensures ReadLine(text, 0).Some? && !IsRequestLine(ReadLine(text, 0).value.0) ==> CreateRequest(text) == NoRequest
    ensures ReadLine(text, 0).Some? && ReadLine(text, 0).value.1 == |text| ==> CreateRequest(text) == NoRequest
  {
  }

  /** The line announcing a body of `n` characters. */
  function ContentLengthLine(n: nat): string
  {
    ContentLength + ": " + Decimal(n)
  }

  lemma ContentLengthNameFacts()
    ensures ':' !in ContentLength
    ensures Trim(ContentLength) == ContentLength && StoredName(ContentLength) == ContentLength
    ensures forall i :: 0 <= i < |ContentLength| ==> !IsTerminator(ContentLength[i])
  {
    assert |ContentLength| == 14;
    assert forall i :: 0 <= i < 14 ==> ContentLength[i] != ':' && !IsTerminator(ContentLength[i]);
    TrimNoop(ContentLength);
  }

  lemma ContentLengthLineEntry(n: nat)
    ensures IsPlainLine(ContentLengthLine(n)) && Storable(ContentLengthLine(n))
    ensures Entry(ContentLengthLine(n)) == Some((ContentLength, Decimal(n)))
  {
    var d := Decimal(n);
    ContentLengthNameFacts();
    assert ContentLengthLine(n) == ContentLength + [':'] + ([' '] + d);
    SplitFirstAfter(ContentLength, ':', [' '] + d);
    DecimalIsTrimmed(n);
    ContentLengthLinePlain(n);
  }

  lemma DecimalIsTrimmed(n: nat)
    ensures Trim([' '] + Decimal(n)) == Decimal(n)
  {
    var d := Decimal(n);
    TrimDropsLeadingBlank(' ', d);
    assert IsDigit(d[0]) && IsDigit(d[|d| - 1]);
    TrimNoop(d);
  }

  lemma ContentLengthLinePlain(n: nat)
    ensures IsPlainLine(ContentLengthLine(n))
  {
    var d := Decimal(n);
    var line := ContentLengthLine(n);
    ContentLengthNameFacts();
    forall i | 0 <= i < |line| ensures !IsTerminator(line[i]) {
      if i >= |ContentLength| + 2 {
        assert line[i] == d[i - |ContentLength| - 2];
        assert IsDigit(d[i - |ContentLength| - 2]);
      } else if i >= |ContentLength| {
        assert line[i] == ": "[i - |ContentLength|];
      } else {
        assert line[i] == ContentLength[i];
      }
    }
  }

  /** A body announced by a final Content-Length line with its exact length is
      read back whole; without any Content-Length line no body is read. */
  lemma BodyRoundTrip(m: Method, target: string, v: Version, lines: seq<string>, body: string)
    requires IsTarget(target)
    requires AllPlain(lines) && AllStorable(lines)
    requires |body| <= IntMax
    ensures var r := CreateRequest(Message(m, target, v, lines + [ContentLengthLine(|body|)], body));
      r.Parsed? && r.req.content == Some(body)
  {
    var all := lines + [ContentLengthLine(|body|)];
    ContentLengthLineEntry(|body|);
    assert AllPlain(all) && AllStorable(all);
    LastLengthWins(lines, |body|);
    ReadExactLength(body);
    CreateRequestOfMessage(m, target, v, all, body);
    FromRequestLine(m, target, v, all, body);
    var t := PutAll(Empty, Entries(all));
    assert FromLines(RequestLineText(m, target, v), all, body) == Parsed(Request(m, target, v, t, Some(body)));
  }

  /** A body read with its own length as the announced length comes back whole. */
  lemma ReadExactLength(body: string)
    requires |body| <= IntMax
    ensures ReadContent(body, Decimal(|body|)) == Ok(body)
  {
    ParseIntOfDecimal(|body|);
    assert body[..|body|] == body;
  }

  /** A final Content-Length line decides the announced length. */
  lemma LastLengthWins(lines: seq<string>, n: nat)
    requires AllStorable(lines)
    ensures AllStorable(lines + [ContentLengthLine(n)])
    ensures Get(PutAll(Empty, Entries(lines + [ContentLengthLine(n)])), ContentLength) == Some(Decimal(n))
  {
    ContentLengthLineEntry(n);
    var all := lines + [ContentLengthLine(n)];
    EntriesAppend(lines, [ContentLengthLine(n)]);
    assert Entries([ContentLengthLine(n)]) == [(ContentLength, Decimal(n))];
    var es := Entries(all);
    assert es[|es| - 1] == (ContentLength, Decimal(n));
    assert Latest(es, ContentLength) == Some(Decimal(n));
    PutAllLastWins(Empty, es, ContentLength);
  }

  /** Without a Content-Length line the body stays unread and the content null. */
  lemma NoLengthNoContent(m: Method, target: string, v: Version, lines: seq<string>, body: string)
    requires IsTarget(target)
    requires AllPlain(lines) && AllStorable(lines)
    requires forall i :: 0 <= i < |Entries(lines)| ==> Entries(lines)[i].0 != ContentLength
    ensures var r := CreateRequest(Message(m, target, v, lines, body));
      r.Parsed? && r.req.content == None
  {
    ParseRoundTrip(m, target, v, lines, body);
  }
}
