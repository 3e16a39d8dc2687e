/** The conditional-request evaluator (`HttpETagHandler`): five guarded steps in
    the precedence order of section 6 of RFC 7232 — If-Match, If-Unmodified-Since,
    If-None-Match, If-Modified-Since, then a no-op for ranges — run only when the
    response already carries an ETag. As in the code, entity tags are compared
    strictly (no weak comparison), If-Unmodified-Since passes only for a strictly
    earlier Last-Modified, and a date that does not parse disables its step. */
module Conditional {
  import opened Common
  import opened JavaText
  import opened Headers
  import opened Messages

  const PreconditionFailed: string := "412 Precondition failed"
  const NotModified: string := "304 Not modified"

  /** `SimpleDateFormat.parse` of a header date: the instant in milliseconds, or
      None where the Java code catches a ParseException. */
  type DateParser = string -> Option<int>

  /** The outcome of the evaluation. `MissingLastModified` is the
      NullPointerException raised when a date guard parses but the response has
      no Last-Modified header to compare with. */
  datatype Verdict = Proceed | Fail412 | NotModified304 | MissingLastModified

  // ---------------------------------------------------------------- matching

  /** Some token, with its quotes removed and then trimmed, is exactly `etag`. */
  function AnyTokenIs(tokens: seq<string>, etag: string): (b: bool)
    ensures b <==> exists i :: 0 <= i < |tokens| && Trim(RemoveAll(tokens[i], '"')) == etag
  {
    if tokens == [] then false
    else Trim(RemoveAll(tokens[0], '"')) == etag || AnyTokenIs(tokens[1..], etag)
  }

  /** `doesMatch(value, etag)`: the value without its quotes is the wildcard `*`,
      or one of its comma-separated tokens names the tag exactly. */
  function DoesMatch(value: string, etag: string): (b: bool)
    ensures b <==> (RemoveAll(value, '"') == "*" ||
                    exists i :: 0 <= i < |Split(value, ',')| && Trim(RemoveAll(Split(value, ',')[i], '"')) == etag)
  {
    RemoveAll(value, '"') == "*" || AnyTokenIs(Split(value, ','), etag)
  }

  /** For a non-empty tag, Java's dropping of trailing empty tokens makes no
      difference: matching is a search over every comma-separated piece. */
  lemma DoesMatchOverAllPieces(value: string, etag: string)
    requires etag != []
    ensures DoesMatch(value, etag) <==>
      RemoveAll(value, '"') == "*" || AnyTokenIs(SplitAll(value, ','), etag)
  {
    var all := SplitAll(value, ',');
    var kept := Split(value, ',');
    if ',' !in value {
      assert IndexOfChar(value, ',') == None;
      assert kept == all;
    } else if AnyTokenIs(all, etag) {
      var i :| 0 <= i < |all| && Trim(RemoveAll(all[i], '"')) == etag;
      assert kept[i] == all[i];
    }
  }

  /** The wildcard matches every tag, bare or quoted. */
  lemma WildcardMatches(etag: string)
    ensures DoesMatch("*", etag)
    ensures DoesMatch("\"*\"", etag)
  {
    RemoveAllAppend("\"", "*\"", '"');
    RemoveAllAppend("*", "\"", '"');
    assert "\"" + "*\"" == "\"*\"";
    assert "*" + "\"" == "*\"";
  }

  function Quoted(tag: string): string { "\"" + tag + "\"" }

  /** The pieces of a list of quoted tags as clients write it: `"a", "b"`. */
  function TagPieces(tags: seq<string>): (ps: seq<string>)
    ensures |ps| == |tags|
  {
    seq(|tags|, i requires 0 <= i < |tags| => if i == 0 then Quoted(tags[i]) else " " + Quoted(tags[i]))
  }

  /** The header value listing `tags`, each quoted, separated by ", ". */
  function TagList(tags: seq<string>): string
  {
    JoinWith(TagPieces(tags), ',')
  }

  /** A tag that is not the wildcard and survives quoting and splitting intact. */
  predicate PlainTag(t: string)
  {
    t != [] && t != "*" && '"' !in t && ',' !in t && Trim(t) == t
  }

  lemma UnquoteQuoted(t: string)
    requires '"' !in t
    ensures RemoveAll(Quoted(t), '"') == t
  {
    var q: string := "\"";
    assert RemoveAll(q, '"') == [] by { assert q[1..] == []; }
    RemoveAllAppend(q, t, '"');
    RemoveAllAppend(q + t, q, '"');
    assert Quoted(t) == (q + t) + q;
  }

  /** Each piece of a tag list, unquoted and trimmed, is its tag. */
  lemma QuotedPieceYieldsTag(t: string, lead: bool)
    requires PlainTag(t)
    ensures Trim(RemoveAll(if lead then " " + Quoted(t) else Quoted(t), '"')) == t
  {
    UnquoteQuoted(t);
    if lead {
      var sp: string := " ";
      RemoveAllAppend(sp, Quoted(t), '"');
      assert RemoveAll(sp, '"') == sp;
      assert sp + t == [' '] + t;
      TrimDropsLeadingBlank(' ', t);
    }
  }

  lemma TagListIsNotWildcard(tags: seq<string>)
    requires |tags| >= 1 && forall i :: 0 <= i < |tags| ==> PlainTag(tags[i])
    ensures RemoveAll(TagList(tags), '"') != "*"
  {
    var ps := TagPieces(tags);
    UnquoteQuoted(tags[0]);
    if |tags| == 1 {
      assert TagList(tags) == Quoted(tags[0]);
    } else {
      var rest := JoinWith(ps[1..], ',');
      assert TagList(tags) == ps[0] + [','] + rest;
      RemoveAllAppend(ps[0] + [','], rest, '"');
      RemoveAllAppend(ps[0], [','], '"');
      assert |RemoveAll(TagList(tags), '"')| >= |tags[0]| + 1;
    }
  }

  lemma PieceIsPlain(t: string, lead: bool)
    requires PlainTag(t)
    ensures var p := if lead then " " + Quoted(t) else Quoted(t);
      p != [] && ',' !in p
  {
    var q: string := "\"";
    assert ',' !in q;
    assert Quoted(t) == q + t + q;
    assert ',' !in Quoted(t) by {
      forall i | 0 <= i < |Quoted(t)| ensures Quoted(t)[i] != ',' {
        if i == 0 || i == |t| + 1 { } else { assert Quoted(t)[i] == t[i - 1]; }
      }
    }
    if lead {
      var sp: string := " ";
      assert ',' !in sp + Quoted(t) by {
        forall i | 0 <= i < |sp + Quoted(t)| ensures (sp + Quoted(t))[i] != ',' {
          if i > 0 { assert (sp + Quoted(t))[i] == Quoted(t)[i - 1]; }
        }
      }
    }
  }

  lemma TagPiecesMatchTheirTags(tags: seq<string>, etag: string)
    requires forall i :: 0 <= i < |tags| ==> PlainTag(tags[i])
    ensures AnyTokenIs(TagPieces(tags), etag) <==> etag in tags
  {
    var ps := TagPieces(tags);
    forall i | 0 <= i < |ps|
      ensures Trim(RemoveAll(ps[i], '"')) == tags[i]
    {
      QuotedPieceYieldsTag(tags[i], i > 0);
    }
    if etag in tags {
      var i :| 0 <= i < |tags| && tags[i] == etag;
      assert Trim(RemoveAll(ps[i], '"')) == etag;
    }
  }

  /** A list of plain tags, written the way clients write If-Match and
      If-None-Match, matches exactly the tags it lists. */
  lemma TagListMatchesExactlyItsMembers(tags: seq<string>, etag: string)
    requires |tags| >= 1 && forall i :: 0 <= i < |tags| ==> PlainTag(tags[i])
    ensures DoesMatch(TagList(tags), etag) <==> etag in tags
  {
    var ps := TagPieces(tags);
    forall i | 0 <= i < |ps|
      ensures ',' !in ps[i] && ps[i] != []
    {
      PieceIsPlain(tags[i], i > 0);
    }
    SplitOfJoin(ps, ',');
    TagListIsNotWildcard(tags);
    TagPiecesMatchTheirTags(tags, etag);
  }

  // ---------------------------------------------------------------- the steps

  /** The table carries a header of that name. */
  predicate Has(t: Table, name: string)
  {
    Get(t, name).Some?
  }

  /** What a 412 needs: a tag list or date guard that was asked for, or
      If-None-Match on a method other than GET and HEAD. */
  predicate MayFail(req: Request)
  {
    Has(req.headers, IfMatch) || Has(req.headers, IfUnmodifiedSince) ||
    (Has(req.headers, IfNoneMatch) && !IsSafe(req.verb))
  }

  /** What a 304 needs: GET or HEAD, with If-None-Match or If-Modified-Since. */
  predicate MayBeNotModified(req: Request)
  {
    IsSafe(req.verb) && (Has(req.headers, IfNoneMatch) || Has(req.headers, IfModifiedSince))
  }

  /** What the null dereference needs: a date guard, and no Last-Modified. */
  predicate MayMissLastModified(req: Request, resp: Response)
  {
    !Has(resp.headers, LastModified) && (Has(req.headers, IfUnmodifiedSince) || Has(req.headers, IfModifiedSince))
  }

  /** Step 1, If-Match: a tag list that does not match fails with 412; a match
      goes straight to step 3; no header goes on to step 2. */
  function Step1(req: Request, resp: Response, etag: string, parse: DateParser): (v: Verdict)
    ensures v == Fail412 ==> MayFail(req)
    ensures v == NotModified304 ==> MayBeNotModified(req)
    ensures v == MissingLastModified ==> MayMissLastModified(req, resp)
  {
    match Get(req.headers, IfMatch)
    case Some(v) => if DoesMatch(v, etag) then Step3(req, resp, etag, parse) else Fail412
    case None => Step2(req, resp, etag, parse)
  }

  /** Step 2, If-Unmodified-Since: continue only when Last-Modified is strictly
      before the given date; a date that does not parse skips the step.
      If-Match is no longer consulted. */
  function Step2(req: Request, resp: Response, etag: string, parse: DateParser): (v: Verdict)
    ensures v == Fail412 ==>
      Has(req.headers, IfUnmodifiedSince) || (Has(req.headers, IfNoneMatch) && !IsSafe(req.verb))
    ensures v == NotModified304 ==> MayBeNotModified(req)
    ensures v == MissingLastModified ==> MayMissLastModified(req, resp)
  {
    match Get(req.headers, IfUnmodifiedSince)
    case None => Step3(req, resp, etag, parse)
    case Some(since) =>
      match parse(since)
      case None => Step3(req, resp, etag, parse)
      case Some(limit) =>
        match Get(resp.headers, LastModified)
        case None => MissingLastModified
        case Some(modified) =>
          match parse(modified)
          case None => Step3(req, resp, etag, parse)
          case Some(stamp) => if stamp < limit then Step3(req, resp, etag, parse) else Fail412
  }

  /** Step 3, If-None-Match: no match ends the evaluation unchanged (step 5);
      a match is 304 for GET and HEAD and 412 otherwise; no header goes on to
      step 4. Only If-None-Match and If-Modified-Since are consulted. */
  function Step3(req: Request, resp: Response, etag: string, parse: DateParser): (v: Verdict)
    ensures v == Fail412 ==> Has(req.headers, IfNoneMatch) && !IsSafe(req.verb)
    ensures v == NotModified304 ==> MayBeNotModified(req)
    ensures v == MissingLastModified ==>
      !Has(req.headers, IfNoneMatch) && Has(req.headers, IfModifiedSince) && !Has(resp.headers, LastModified)
  {
    match Get(req.headers, IfNoneMatch)
    case Some(v) =>
      if !DoesMatch(v, etag) then Step5()
      else if IsSafe(req.verb) then NotModified304
      else Fail412
    case None => Step4(req, resp, etag, parse)
  }

  /** Step 4, If-Modified-Since, for GET and HEAD only: a Last-Modified strictly
      after the date continues, anything else is 304; an unparseable date
      continues. It never fails with 412. */
  function Step4(req: Request, resp: Response, etag: string, parse: DateParser): (v: Verdict)
    ensures v != Fail412
    ensures !IsSafe(req.verb) || !Has(req.headers, IfModifiedSince) ==> v == Proceed
    ensures v == MissingLastModified ==> !Has(resp.headers, LastModified)
  {
    if IsSafe(req.verb) && Get(req.headers, IfModifiedSince).Some? then
      match parse(Get(req.headers, IfModifiedSince).value)
      case None => Step5()
      case Some(since) =>
        match Get(resp.headers, LastModified)
        case None => MissingLastModified
        case Some(modified) =>
          match parse(modified)
          case None => Step5()
          case Some(stamp) => if stamp > since then Step5() else NotModified304
    else Proceed
  }

  /** Step 5: ranges are not supported, nothing happens. */
  function Step5(): Verdict { Proceed }

  /** The whole chain. A response without an ETag, or a request without any of
      the four conditional headers, is left alone; every other outcome needs
      the headers that lead to it. */
  function Evaluate(req: Request, resp: Response, parse: DateParser): (v: Verdict)
    ensures !Has(resp.headers, ETag) ==> v == Proceed
    ensures (!Has(req.headers, IfMatch) && !Has(req.headers, IfUnmodifiedSince) &&
             !Has(req.headers, IfNoneMatch) && !Has(req.headers, IfModifiedSince)) ==> v == Proceed
    ensures v == Fail412 ==> MayFail(req)
    ensures v == NotModified304 ==> MayBeNotModified(req)
    ensures v == MissingLastModified ==> MayMissLastModified(req, resp)
  {
    match Get(resp.headers, ETag)
    case None => Proceed
    case Some(etag) => Step1(req, resp, etag, parse)
  }

  /** `handle(request, response)`: the only possible change is the status, set
      once to 412 or 304; headers, body, protocol and the request stay as they
      are. The one failure is the null dereference of a missing Last-Modified. */
  function Handle(req: Request, resp: Response, parse: DateParser): (r: Result<Response>)
    ensures Get(resp.headers, ETag).None? ==> r == Ok(resp)
    ensures r.Ok? ==> r.value == resp.(status := r.value.status)
    ensures r.Ok? ==> r.value.status == resp.status || r.value.status == PreconditionFailed || r.value.status == NotModified
    ensures r.Err? ==> r.fault == NullPointer && Get(resp.headers, LastModified).None?
  {
    match Evaluate(req, resp, parse)
    case Proceed => Ok(resp)
    case Fail412 => Ok(resp.(status := PreconditionFailed))
    case NotModified304 => Ok(resp.(status := NotModified))
    case MissingLastModified => Err(NullPointer)
  }

  // ---------------------------------------------------------------- precedence

  /** The request with one header taken away. */
  function Without(req: Request, name: string): Request
  {
    req.(headers := req.headers - {name})
  }

  lemma DistinctNames()
    ensures IfMatch != IfUnmodifiedSince && IfMatch != IfNoneMatch && IfMatch != IfModifiedSince
    ensures IfUnmodifiedSince != IfNoneMatch && IfUnmodifiedSince != IfModifiedSince
    ensures IfNoneMatch != IfModifiedSince
  {
    assert |IfMatch| == 8 && |IfNoneMatch| == 13 && |IfModifiedSince| == 17 && |IfUnmodifiedSince| == 19;
  }

  lemma GetWithout(t: Table, gone: string, name: string)
    requires gone != name
    ensures Get(t - {gone}, name) == Get(t, name)
  {
  }

  /** If-Match present and not matching: 412, whatever else the request says. */
  lemma IfMatchMismatchFails(req: Request, resp: Response, parse: DateParser)
    requires Get(resp.headers, ETag).Some?
    requires Get(req.headers, IfMatch).Some?
    requires !DoesMatch(Get(req.headers, IfMatch).value, Get(resp.headers, ETag).value)
    ensures Handle(req, resp, parse) == Ok(resp.(status := PreconditionFailed))
  {
  }

  /** If-Match present and matching: If-Unmodified-Since is never looked at and
      the outcome is that of the request without both headers (step 3 on). */
  lemma IfMatchHitSkipsUnmodifiedSince(req: Request, resp: Response, parse: DateParser)
    requires Get(resp.headers, ETag).Some?
    requires Get(req.headers, IfMatch).Some?
    requires DoesMatch(Get(req.headers, IfMatch).value, Get(resp.headers, ETag).value)
    ensures Evaluate(req, resp, parse) == Evaluate(Without(Without(req, IfMatch), IfUnmodifiedSince), resp, parse)
  {
    var req' := Without(Without(req, IfMatch), IfUnmodifiedSince);
    DistinctNames();
    GetWithout(req.headers, IfMatch, IfUnmodifiedSince);
    GetWithout(req.headers - {IfMatch}, IfUnmodifiedSince, IfNoneMatch);
    GetWithout(req.headers, IfMatch, IfNoneMatch);
    GetWithout(req.headers - {IfMatch}, IfUnmodifiedSince, IfModifiedSince);
    GetWithout(req.headers, IfMatch, IfModifiedSince);
    assert Get(req'.headers, IfMatch).None?;
    assert Get(req'.headers, IfUnmodifiedSince).None?;
  }

  /** If-Unmodified-Since with both dates readable and no If-Match: it passes
      (and evaluation goes on as if it were absent) exactly when Last-Modified
      is strictly earlier; equal dates fail with 412. */
  lemma UnmodifiedSinceDecides(req: Request, resp: Response, parse: DateParser, limit: int, stamp: int)
    requires Get(resp.headers, ETag).Some?
    requires Get(req.headers, IfMatch).None?
    requires Get(req.headers, IfUnmodifiedSince).Some? && parse(Get(req.headers, IfUnmodifiedSince).value) == Some(limit)
    requires Get(resp.headers, LastModified).Some? && parse(Get(resp.headers, LastModified).value) == Some(stamp)
    ensures stamp < limit ==> Evaluate(req, resp, parse) == Evaluate(Without(req, IfUnmodifiedSince), resp, parse)
    ensures stamp >= limit ==> Evaluate(req, resp, parse) == Fail412
  {
    DistinctNames();
    GetWithout(req.headers, IfUnmodifiedSince, IfMatch);
    GetWithout(req.headers, IfUnmodifiedSince, IfNoneMatch);
    GetWithout(req.headers, IfUnmodifiedSince, IfModifiedSince);
  }

  /** An If-Unmodified-Since date, or a Last-Modified, that does not parse
      makes the step behave as if the header were absent. */
  lemma UnreadableUnmodifiedSinceIgnored(req: Request, resp: Response, parse: DateParser)
    requires Get(resp.headers, ETag).Some?
    requires Get(req.headers, IfMatch).None?
    requires Get(req.headers, IfUnmodifiedSince).Some?
    requires parse(Get(req.headers, IfUnmodifiedSince).value).None?
          || (Get(resp.headers, LastModified).Some? && parse(Get(resp.headers, LastModified).value).None?)
    ensures Evaluate(req, resp, parse) == Evaluate(Without(req, IfUnmodifiedSince), resp, parse)
  {
    DistinctNames();
    GetWithout(req.headers, IfUnmodifiedSince, IfMatch);
    GetWithout(req.headers, IfUnmodifiedSince, IfNoneMatch);
    GetWithout(req.headers, IfUnmodifiedSince, IfModifiedSince);
  }

  /** A readable If-Unmodified-Since against a response without Last-Modified
      dereferences null. */
  lemma UnmodifiedSinceWithoutLastModifiedFails(req: Request, resp: Response, parse: DateParser)
    requires Get(resp.headers, ETag).Some?
    requires Get(req.headers, IfMatch).None?
    requires Get(req.headers, IfUnmodifiedSince).Some? && parse(Get(req.headers, IfUnmodifiedSince).value).Some?
    requires Get(resp.headers, LastModified).None?
    ensures Handle(req, resp, parse) == Err(NullPointer)
  {
  }

  /** Once evaluation reaches If-None-Match (no If-Match, no If-Unmodified-Since)
      and that header is present: a match gives 304 for GET and HEAD and 412 for
      POST, no match leaves the status alone, and If-Modified-Since is never
      consulted either way. */
  lemma IfNoneMatchDecides(req: Request, resp: Response, parse: DateParser)
    requires Get(resp.headers, ETag).Some?
    requires Get(req.headers, IfMatch).None? && Get(req.headers, IfUnmodifiedSince).None?
    requires Get(req.headers, IfNoneMatch).Some?
    ensures var hit := DoesMatch(Get(req.headers, IfNoneMatch).value, Get(resp.headers, ETag).value);
      Evaluate(req, resp, parse) ==
        if !hit then Proceed else if req.verb == POST then Fail412 else NotModified304
    ensures Evaluate(req, resp, parse) == Evaluate(Without(req, IfModifiedSince), resp, parse)
  {
    DistinctNames();
    GetWithout(req.headers, IfModifiedSince, IfMatch);
    GetWithout(req.headers, IfModifiedSince, IfUnmodifiedSince);
    GetWithout(req.headers, IfModifiedSince, IfNoneMatch);
  }

  /** With none of the first three headers: POST is never affected by
      If-Modified-Since. For GET and HEAD with a readable date: 304 unless
      Last-Modified is strictly later; a Last-Modified that does not parse
      changes nothing; a missing Last-Modified dereferences null. An
      unreadable If-Modified-Since changes nothing. */
  lemma IfModifiedSinceDecides(req: Request, resp: Response, parse: DateParser)
    requires Get(resp.headers, ETag).Some?
    requires Get(req.headers, IfMatch).None? && Get(req.headers, IfUnmodifiedSince).None?
    requires Get(req.headers, IfNoneMatch).None?
    ensures (req.verb == POST || Get(req.headers, IfModifiedSince).None?) ==> Evaluate(req, resp, parse) == Proceed
    ensures (req.verb != POST && Get(req.headers, IfModifiedSince).Some? &&
             parse(Get(req.headers, IfModifiedSince).value).None?) ==> Evaluate(req, resp, parse) == Proceed
    ensures (req.verb != POST && Get(req.headers, IfModifiedSince).Some? &&
             parse(Get(req.headers, IfModifiedSince).value).Some? &&
             Get(resp.headers, LastModified).Some? && parse(Get(resp.headers, LastModified).value).Some?) ==>
              Evaluate(req, resp, parse) ==
                if parse(Get(resp.headers, LastModified).value).value > parse(Get(req.headers, IfModifiedSince).value).value
                then Proceed else NotModified304
    ensures (req.verb != POST && Get(req.headers, IfModifiedSince).Some? &&
             parse(Get(req.headers, IfModifiedSince).value).Some? &&
             Get(resp.headers, LastModified).Some? && parse(Get(resp.headers, LastModified).value).None?) ==>
              Evaluate(req, resp, parse) == Proceed
    ensures (req.verb != POST && Get(req.headers, IfModifiedSince).Some? &&
             parse(Get(req.headers, IfModifiedSince).value).Some? &&
             Get(resp.headers, LastModified).None?) ==>
              Evaluate(req, resp, parse) == MissingLastModified
  {
  }
}
