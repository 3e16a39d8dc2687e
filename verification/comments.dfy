/** The comment board: the `Comment` entity and its HTML rendering, the
    in-memory repository (`InMemoryRepo`), the form-body decoder `splitQuery`,
    and `HttpCommentHandler`, which adds or clears comments on POST and lists
    them followed by the form. */
module Comments {
  import opened Common
  import opened JavaText
  import opened Headers
  import opened Messages
  import opened Handlers

  // ---------------------------------------------------------------- comment

  /** A comment. `posted` is the text of the Instant it was created at
      (`Instant.toString`); name and message are null when the form did not
      send them. */
  datatype Comment = Comment(posted: string, name: Option<string>, message: Option<string>)

  /** How Java's string concatenation shows a possibly-null String. */
  function Shown(s: Option<string>): string
  {
    match s
    case None => "null"
    case Some(t) => t
  }

  const Open: string := "{<br/>  posted: "
  const NameTag: string := "<br/>  name: "
  const MessageTag: string := "<br/>  message: "
  const Close: string := "<br/>}<br/><br/>"

  /** `Comment.toString()`: posted, name and message in that order, each on
      its own `<br/>`-separated line inside braces. */
  function ToString(c: Comment): (s: string)
    ensures |s| == |Open| + |c.posted| + |NameTag| + |Shown(c.name)| + |MessageTag| + |Shown(c.message)| + |Close|
    ensures s[..|Open|] == Open
    ensures s[|s| - |Close|..] == Close
    ensures OccursAt(s, c.posted, |Open|)
    ensures OccursAt(s, NameTag + Shown(c.name) + MessageTag, |Open| + |c.posted|)
    ensures OccursAt(s, MessageTag + Shown(c.message) + Close, |Open| + |c.posted| + |NameTag| + |Shown(c.name)|)
  {
    FieldsInPlace(Open, c.posted, NameTag, Shown(c.name), MessageTag, Shown(c.message), Close);
    Open + c.posted + NameTag + Shown(c.name) + MessageTag + Shown(c.message) + Close
  }

  /** Where each field and tag sits in a rendering glued from seven pieces. */
  lemma FieldsInPlace(o: string, p: string, nt: string, n: string, mt: string, m: string, cl: string)
    ensures |o + p + nt + n + mt + m + cl| == |o| + |p| + |nt| + |n| + |mt| + |m| + |cl|
    ensures (o + p + nt + n + mt + m + cl)[..|o|] == o
    ensures (o + p + nt + n + mt + m + cl)[|o + p + nt + n + mt + m + cl| - |cl|..] == cl
    ensures OccursAt(o + p + nt + n + mt + m + cl, p, |o|)
    ensures OccursAt(o + p + nt + n + mt + m + cl, nt + n + mt, |o| + |p|)
    ensures OccursAt(o + p + nt + n + mt + m + cl, mt + m + cl, |o| + |p| + |nt| + |n|)
  {
    var s := o + p + nt + n + mt + m + cl;
    assert s[|o|..|o| + |p|] == p;
    assert s[|o| + |p|..|o| + |p| + |nt + n + mt|] == nt + n + mt;
    assert s[|o| + |p| + |nt| + |n|..] == mt + m + cl;
    assert s[..|o|] == o;
    assert s[|s| - |cl|..] == cl;
  }

  /** A missing name is shown exactly like the name "null". */
  lemma MissingNameShownAsNull(posted: string, message: Option<string>)
    ensures ToString(Comment(posted, None, message)) == ToString(Comment(posted, Some("null"), message))
  {
  }

  /** Two equal texts that both continue after their first `c` are cut there alike. */
  lemma CutAtFirst(a: string, x: string, b: string, y: string, c: char)
    requires c !in a && c !in b
    requires a + [c] + x == b + [c] + y
    ensures a == b && x == y
  {
    var s := a + [c] + x;
    IndexOfCharAfter(a, c, x);
    IndexOfCharAfter(b, c, y);
    assert a == s[..|a|] && b == s[..|b|];
    assert x == s[|a| + 1..] && y == s[|b| + 1..];
  }

  /** The fields of a comment contain no `<`, so the rendering can be read back. */
  predicate Readable(c: Comment)
  {
    '<' !in c.posted && '<' !in Shown(c.name) && '<' !in Shown(c.message)
  }

  /** The text after the posted field, cut at the `<` opening each separator. */
  function AfterMessage(c: Comment): string { Close[1..] }
  function AfterName(c: Comment): string { MessageTag[1..] + Shown(c.message) + ['<'] + AfterMessage(c) }
  function AfterPosted(c: Comment): string { NameTag[1..] + Shown(c.name) + ['<'] + AfterName(c) }

  lemma ToStringLayout(c: Comment)
    ensures ToString(c) == Open + (c.posted + ['<'] + AfterPosted(c))
  {
    ConcatAtMarks(Open, c.posted, NameTag, Shown(c.name), MessageTag, Shown(c.message), Close);
  }

  /** Three texts opening with '<' glued between fields: the text is the same
      when each is split into its '<' and the remainder. */
  lemma ConcatAtMarks(o: string, p: string, nt: string, n: string, mt: string, m: string, cl: string)
    requires nt != [] && nt[0] == '<' && mt != [] && mt[0] == '<' && cl != [] && cl[0] == '<'
    ensures o + p + nt + n + mt + m + cl ==
            o + (p + ['<'] + (nt[1..] + n + ['<'] + (mt[1..] + m + ['<'] + cl[1..])))
  {
    assert nt == ['<'] + nt[1..] && mt == ['<'] + mt[1..] && cl == ['<'] + cl[1..];
  }

  /** The rendering of a readable comment determines what it shows: equal
      texts mean equal posted, name and message fields (up to null being shown
      as "null"). */
  lemma ToStringDetermines(c1: Comment, c2: Comment)
    requires Readable(c1) && Readable(c2)
    requires ToString(c1) == ToString(c2)
    ensures c1.posted == c2.posted
    ensures Shown(c1.name) == Shown(c2.name)
    ensures Shown(c1.message) == Shown(c2.message)
  {
    ToStringLayout(c1);
    ToStringLayout(c2);
    var s := ToString(c1);
    assert c1.posted + ['<'] + AfterPosted(c1) == s[|Open|..] == c2.posted + ['<'] + AfterPosted(c2);
    CutAtFirst(c1.posted, AfterPosted(c1), c2.posted, AfterPosted(c2), '<');
    var n := |NameTag[1..]|;
    assert Shown(c1.name) + ['<'] + AfterName(c1) == AfterPosted(c1)[n..];
    assert Shown(c2.name) + ['<'] + AfterName(c2) == AfterPosted(c2)[n..];
    CutAtFirst(Shown(c1.name), AfterName(c1), Shown(c2.name), AfterName(c2), '<');
    var m := |MessageTag[1..]|;
    assert Shown(c1.message) + ['<'] + AfterMessage(c1) == AfterName(c1)[m..];
    assert Shown(c2.message) + ['<'] + AfterMessage(c2) == AfterName(c2)[m..];
    CutAtFirst(Shown(c1.message), AfterMessage(c1), Shown(c2.message), AfterMessage(c2), '<');
  }

  // ---------------------------------------------------------------- repository

  /** The in-memory repository: the comments in insertion order. */
  type Repo = seq<Comment>

  /** `all()`: the comments in the order they were added; reading changes nothing. */
  function All(repo: Repo): (cs: seq<Comment>)
    ensures |cs| == |repo| && forall i :: 0 <= i < |repo| ==> cs[i] == repo[i]
  {
    repo
  }

  /** `add(c)`: one more comment at the end, the earlier ones unchanged. */
  function Add(repo: Repo, c: Comment): (r: Repo)
    ensures |r| == |repo| + 1 && r[..|repo|] == repo && r[|repo|] == c
  {
    repo + [c]
  }

  /** `clear()`: nothing is left. */
  function Clear(repo: Repo): (r: Repo)
    ensures All(r) == []
  {
    []
  }

  lemma AddThenAll(repo: Repo, c: Comment)
    ensures All(Add(repo, c)) == All(repo) + [c]
    ensures All(Add(Clear(repo), c)) == [c]
  {
  }

  // ---------------------------------------------------------------- query

  /** `URLDecoder.decode(s, "UTF-8")`; None is the IllegalArgumentException
      it throws for a malformed escape, which the handler does not catch. */
  type UrlDecoder = string -> Option<string>

  /** One `name=value` pair: cut at the first '=', both sides decoded. A pair
      without '=' makes `substring(0, -1)` throw. */
  function DecodePair(pair: string, decode: UrlDecoder): (r: Result<(string, string)>)
    ensures '=' !in pair <==> r == Err(IndexOutOfBounds)
    ensures r.Err? ==> r.fault == IndexOutOfBounds || r.fault == IllegalArgument
  {
    match SplitFirst(pair, '=')
    case None => Err(IndexOutOfBounds)
    case Some(parts) =>
      match decode(parts.0)
      case None => Err(IllegalArgument)
      case Some(name) =>
        match decode(parts.1)
        case None => Err(IllegalArgument)
        case Some(value) => Ok((name, value))
  }

  lemma DecodePairOfJoined(name: string, value: string, decode: UrlDecoder)
    requires '=' !in name && decode(name).Some? && decode(value).Some?
    ensures DecodePair(name + "=" + value, decode) == Ok((decode(name).value, decode(value).value))
  {
    SplitFirstAfter(name, '=', value);
  }

  /** The pair at `i` fails with `f`, and every pair before it decodes. */
  predicate FirstFailureAt(pairs: seq<string>, decode: UrlDecoder, i: nat, f: Fault)
  {
    i < |pairs| && DecodePair(pairs[i], decode) == Err(f) &&
    forall j :: 0 <= j < i ==> DecodePair(pairs[j], decode).Ok?
  }

  /** Every pair decoded in order; the first pair that fails decides the error. */
  function DecodeAll(pairs: seq<string>, decode: UrlDecoder): (r: Result<seq<(string, string)>>)
    ensures r.Ok? <==> forall i :: 0 <= i < |pairs| ==> DecodePair(pairs[i], decode).Ok?
    ensures r.Ok? ==> |r.value| == |pairs|
    ensures r.Ok? ==> forall i :: 0 <= i < |pairs| ==> r.value[i] == DecodePair(pairs[i], decode).value
    ensures r.Err? ==> exists i: nat :: FirstFailureAt(pairs, decode, i, r.fault)
    decreases |pairs|
  {
    if pairs == [] then Ok([])
    else
      match DecodePair(pairs[0], decode)
      case Err(f) =>
        assert FirstFailureAt(pairs, decode, 0, f);
        Err(f)
      case Ok(kv) =>
        match DecodeAll(pairs[1..], decode)
        case Err(f) =>
          var i: nat :| FirstFailureAt(pairs[1..], decode, i, f);
          assert FirstFailureAt(pairs, decode, i + 1, f);
          Err(f)
        case Ok(rest) => Ok([kv] + rest)
  }

  /** `splitQuery(query)`: split on '&' (Java drops trailing empty pieces),
      decode every pair, put them in order. Fails on the first bad pair. */
  function SplitQuery(query: string, decode: UrlDecoder): (r: Result<map<string, string>>)
    ensures r.Ok? <==> forall i :: 0 <= i < |Split(query, '&')| ==> DecodePair(Split(query, '&')[i], decode).Ok?
    ensures r.Ok? ==> forall k :: Get(r.value, k) == Latest(DecodeAll(Split(query, '&'), decode).value, k)
  {
    match DecodeAll(Split(query, '&'), decode)
    case Err(f) => Err(f)
    case Ok(kvs) =>
      assert forall k :: Get(PutAll(map[], kvs), k) == Latest(kvs, k) by {
        forall k ensures Get(PutAll(map[], kvs), k) == Latest(kvs, k) {
          PutAllLastWins(map[], kvs, k);
        }
      }
      Ok(PutAll(map[], kvs))
  }

  /** An empty body is one pair without '=': `splitQuery("")` throws. */
  lemma EmptyQueryFails(decode: UrlDecoder)
    ensures SplitQuery("", decode) == Err(IndexOutOfBounds)
  {
    assert Split("", '&') == [""];
  }

  /** A form body as a browser sends it: `name=value` pairs joined by '&'. */
  function Pair(kv: (string, string)): string { kv.0 + "=" + kv.1 }

  /** The encoded pairs, one per parameter. */
  function Pairs(kvs: seq<(string, string)>): (ps: seq<string>)
    ensures |ps| == |kvs| && forall i :: 0 <= i < |kvs| ==> ps[i] == Pair(kvs[i])
  {
    seq(|kvs|, i requires 0 <= i < |kvs| => Pair(kvs[i]))
  }

  function FormBody(kvs: seq<(string, string)>): string
  {
    JoinWith(Pairs(kvs), '&')
  }

  /** Names and values free of '&' and '=' that decode to themselves survive the
      round trip: `splitQuery` of the encoded body yields exactly the pairs,
      the last one winning for a repeated name. */
  lemma SplitQueryOfFormBody(kvs: seq<(string, string)>, decode: UrlDecoder)
    requires |kvs| >= 1
    requires forall i :: 0 <= i < |kvs| ==>
      '&' !in kvs[i].0 && '&' !in kvs[i].1 && '=' !in kvs[i].0 &&
      decode(kvs[i].0) == Some(kvs[i].0) && decode(kvs[i].1) == Some(kvs[i].1)
    ensures SplitQuery(FormBody(kvs), decode).Ok?
    ensures forall k :: Get(SplitQuery(FormBody(kvs), decode).value, k) == Latest(kvs, k)
  {
    PairsDecode(kvs, decode);
    SplitOfJoin(Pairs(kvs), '&');
  }

  /** Each encoded pair is a non-empty piece without '&' that decodes back. */
  lemma PairsDecode(kvs: seq<(string, string)>, decode: UrlDecoder)
    requires forall i :: 0 <= i < |kvs| ==>
      '&' !in kvs[i].0 && '&' !in kvs[i].1 && '=' !in kvs[i].0 &&
      decode(kvs[i].0) == Some(kvs[i].0) && decode(kvs[i].1) == Some(kvs[i].1)
    ensures forall i :: 0 <= i < |Pairs(kvs)| ==> '&' !in Pairs(kvs)[i] && Pairs(kvs)[i] != []
    ensures DecodeAll(Pairs(kvs), decode) == Ok(kvs)
  {
    var pairs := Pairs(kvs);
    forall i | 0 <= i < |pairs|
      ensures '&' !in pairs[i] && pairs[i] != []
      ensures DecodePair(pairs[i], decode) == Ok(kvs[i])
    {
      PairDecodes(kvs[i], decode);
    }
    assert DecodeAll(pairs, decode).value == kvs;
  }

  lemma PairDecodes(kv: (string, string), decode: UrlDecoder)
    requires '&' !in kv.0 && '&' !in kv.1 && '=' !in kv.0
    requires decode(kv.0) == Some(kv.0) && decode(kv.1) == Some(kv.1)
    ensures '&' !in Pair(kv) && Pair(kv) != []
    ensures DecodePair(Pair(kv), decode) == Ok(kv)
  {
    assert Pair(kv) == kv.0 + ['='] + kv.1;
    assert Pair(kv)[|kv.0|] == '=';
    DecodePairOfJoined(kv.0, kv.1, decode);
  }

  // ---------------------------------------------------------------- handler

  const CommentsPrefix: string := "/comments"
  const TextHtml: string := "text/html"

  /** The HTML attribute that names a form field: the parameter name the
      browser posts the field's value under. */
  function FieldName(key: string): string { "name=\"" + key + "\"" }

  const NameInput: string := "  <input type=\"text\" " + FieldName("name") + " value=\"Name\"><br><br>\n"
  const MessageInput: string := "  <textarea " + FieldName("message") + ">Message</textarea><br><br>\n"
  const AddButton: string := "  <input type=\"submit\" " + FieldName("add") + " value=\"Submit\">\n"
  const ClearButton: string := "  <input type=\"submit\" " + FieldName("clear") + " value=\"Clear\">\n"

  /** `getForm()`: the HTML form for adding or clearing comments, posting back
      to the same page, line by line. */
  const FormLines: seq<string> :=
    ["<form method=\"post\">\n", NameInput, MessageInput, AddButton, ClearButton, "</form>"]
  const Form: string := Concat(FormLines)

  /** The parameter names the form's fields post under: the ones `Post` reads,
      "name", "message", and "add" on the Submit button, and "clear" on the
      Clear button, which `Post` does not read: that button clears the board
      because "add" is then absent. */
  const FormKeys: seq<string> := ["name", "message", "add", "clear"]

  /** Each of the form's fields is present in the form. */
  lemma FormFields(key: string)
    requires key in FormKeys
    ensures Contains(Form, FieldName(key))
  {
    var pat := FieldName(key);
    var submit := "  <input type=\"submit\" ";
    var k, at: nat;
    if key == "name" {
      var text := "  <input type=\"text\" ";
      OccursBetween(text, pat, " value=\"Name\"><br><br>\n");
      k, at := 1, |text|;
    } else if key == "message" {
      var area := "  <textarea ";
      OccursBetween(area, pat, ">Message</textarea><br><br>\n");
      k, at := 2, |area|;
    } else if key == "add" {
      OccursBetween(submit, pat, " value=\"Submit\">\n");
      k, at := 3, |submit|;
    } else {
      OccursBetween(submit, pat, " value=\"Clear\">\n");
      k, at := 4, |submit|;
    }
    OccursInConcat(FormLines, k, pat, at);
  }

  /** Every comment's rendering, in repository order. */
  function Listing(repo: Repo): (texts: seq<string>)
    ensures |texts| == |repo| && forall i :: 0 <= i < |repo| ==> texts[i] == ToString(repo[i])
  {
    seq(|repo|, i requires 0 <= i < |repo| => ToString(repo[i]))
  }

  /** What a POST does to the repository: with an "add" parameter one comment
      (now, name, message) is appended, otherwise the repository is cleared. */
  function Post(repo: Repo, params: map<string, string>, now: string): (r: Repo)
    ensures Get(params, "add").Some? ==> r == Add(repo, Comment(now, Get(params, "name"), Get(params, "message")))
    ensures Get(params, "add").None? ==> r == []
  {
    if Get(params, "add").Some? then Add(repo, Comment(now, Get(params, "name"), Get(params, "message")))
    else Clear(repo)
  }

  /** The repository after the request: only a POST changes it, a POST
      without content dereferences null, and a body `splitQuery` rejects
      raises its exception. */
  function Updated(req: Request, repo: Repo, now: string, decode: UrlDecoder): (r: Result<Repo>)
    ensures req.verb != POST ==> r == Ok(repo)
    ensures req.verb == POST && req.content.None? ==> r == Err(NullPointer)
    ensures req.verb == POST && req.content.Some? ==> (r.Ok? <==> SplitQuery(req.content.value, decode).Ok?)
    ensures r.Ok? && req.verb == POST ==> r.value == Post(repo, SplitQuery(req.content.value, decode).value, now)
  {
    if req.verb != POST then Ok(repo)
    else
      match req.content
      case None => Err(NullPointer)
      case Some(query) =>
        match SplitQuery(query, decode)
        case Err(f) => Err(f)
        case Ok(params) => Ok(Post(repo, params, now))
  }

  /** The listing: every comment's rendering in order, then the form, appended
      to the body; nothing else about the response changes. */
  function Render(resp: Response, repo: Repo, charset: Charset): (r: Response)
    ensures r.status == resp.status && r.protocol == resp.protocol && r.headers == resp.headers
    ensures r.body == resp.body + EncodeAll(Listing(repo), charset) + charset(Form)
  {
    var listed := WriteAll(resp, Listing(repo), charset);
    WriteAllAppends(resp, Listing(repo), charset);
    WriteText(listed, Some(Form), charset)
  }

  /** `add(CONTENT_TYPE, "text/html")` on the response headers. */
  function MarkHtml(resp: Response): (r: Response)
    ensures Get(r.headers, ContentType) == Some(TextHtml)
    ensures forall k :: k != ContentType ==> Get(r.headers, k) == Get(resp.headers, k)
    ensures r.status == resp.status && r.protocol == resp.protocol && r.body == resp.body
  {
    FixedNamesAreTrimmed();
    TrimNoop(TextHtml);
    resp.(headers := Put(resp.headers, ContentType, TextHtml))
  }

  /** `HttpCommentHandler.handle`. Outside "/comments" nothing changes. Under
      it: Content-Type becomes "text/html", the prefix is cut from the path, a
      POST adds or clears as its decoded body says, and the body receives every
      comment followed by the form. Every failure is a POST's. */
  function Handle(req: Request, resp: Response, repo: Repo, now: string, decode: UrlDecoder, charset: Charset)
    : (r: Result<(Request, Response, Repo)>)
    ensures !StartsWith(req.path, CommentsPrefix) ==> r == Ok((req, resp, repo))
    ensures StartsWith(req.path, CommentsPrefix) ==>
      (r.Ok? <==> Updated(req, repo, now, decode).Ok?) &&
      (r.Err? ==> r.fault == Updated(req, repo, now, decode).fault)
    ensures r.Ok? && StartsWith(req.path, CommentsPrefix) ==>
      var (req', resp', repo') := r.value;
      && repo' == Updated(req, repo, now, decode).value
      && req' == req.(path := req.path[|CommentsPrefix|..])
      && Get(resp'.headers, ContentType) == Some(TextHtml)
      && (forall k :: k != ContentType ==> Get(resp'.headers, k) == Get(resp.headers, k))
      && resp'.status == resp.status && resp'.protocol == resp.protocol
      && resp'.body == resp.body + EncodeAll(Listing(repo'), charset) + charset(Form)
  {
    if !StartsWith(req.path, CommentsPrefix) then Ok((req, resp, repo))
    else
      match Updated(req, repo, now, decode)
      case Err(f) => Err(f)
      case Ok(repo') =>
        Ok((req.(path := req.path[|CommentsPrefix|..]), Render(MarkHtml(resp), repo', charset), repo'))
  }

  /** Posting a comment shows it last, right before the form. */
  lemma {:induction false} PostedCommentListedLast(req: Request, resp: Response, repo: Repo, now: string, decode: UrlDecoder, charset: Charset)
    requires StartsWith(req.path, CommentsPrefix) && req.verb == POST && req.content.Some?
    requires SplitQuery(req.content.value, decode).Ok?
    requires Get(SplitQuery(req.content.value, decode).value, "add").Some?
    ensures Handle(req, resp, repo, now, decode, charset).Ok?
    ensures var params := SplitQuery(req.content.value, decode).value;
      var c := Comment(now, Get(params, "name"), Get(params, "message"));
      Handle(req, resp, repo, now, decode, charset).value.1.body
        == resp.body + EncodeAll(Listing(repo), charset) + charset(ToString(c)) + charset(Form)
  {
    var params := SplitQuery(req.content.value, decode).value;
    var c := Comment(now, Get(params, "name"), Get(params, "message"));
    assert Updated(req, repo, now, decode) == Ok(repo + [c]);
    HandleListsRepository(req, resp, repo, repo + [c], now, decode, charset);
    var body := Handle(req, resp, repo, now, decode, charset).value.1.body;
    ListingAfterAdd(resp.body, repo, c, charset, body);
  }

  lemma ListingAfterAdd(prior: seq<byte>, repo: Repo, c: Comment, charset: Charset, body: seq<byte>)
    requires body == prior + EncodeAll(Listing(repo + [c]), charset) + charset(Form)
    ensures body == prior + EncodeAll(Listing(repo), charset) + charset(ToString(c)) + charset(Form)
  {
    EncodeListingAppend(repo, c, charset);
  }

  lemma {:induction false} HandleListsRepository(req: Request, resp: Response, repo: Repo, repo': Repo, now: string,
                                                 decode: UrlDecoder, charset: Charset)
    requires StartsWith(req.path, CommentsPrefix)
    requires Updated(req, repo, now, decode) == Ok(repo')
    ensures Handle(req, resp, repo, now, decode, charset).Ok?
    ensures Handle(req, resp, repo, now, decode, charset).value.1.body
            == resp.body + EncodeAll(Listing(repo'), charset) + charset(Form)
  {
  }

  lemma {:induction false} EncodeListingAppend(repo: Repo, c: Comment, charset: Charset)
    ensures EncodeAll(Listing(repo + [c]), charset) == EncodeAll(Listing(repo), charset) + charset(ToString(c))
    decreases |repo|
  {
    if repo == [] {
      assert Listing([c]) == [ToString(c)];
      assert Listing([c])[1..] == [];
    } else {
      assert Listing(repo + [c])[1..] == Listing(repo[1..] + [c]);
      assert Listing(repo)[1..] == Listing(repo[1..]);
      assert (repo + [c])[0] == repo[0];
      EncodeListingAppend(repo[1..], c, charset);
    }
  }

  /** Posting without "add" empties the board: only the form is listed. */
  lemma {:induction false} PostWithoutAddListsOnlyForm(req: Request, resp: Response, repo: Repo, now: string, decode: UrlDecoder, charset: Charset)
    requires StartsWith(req.path, CommentsPrefix) && req.verb == POST && req.content.Some?
    requires SplitQuery(req.content.value, decode).Ok?
    requires Get(SplitQuery(req.content.value, decode).value, "add").None?
    ensures Handle(req, resp, repo, now, decode, charset).Ok?
    ensures Handle(req, resp, repo, now, decode, charset).value.2 == []
    ensures Handle(req, resp, repo, now, decode, charset).value.1.body == resp.body + charset(Form)
  {
    assert Listing([]) == [];
  }
}
