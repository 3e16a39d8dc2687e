/** The header table of a request or a response (`HttpHeaders`): one value per
    name, names compared exactly. A raw `Name: value` line is stored under the
    trimmed name with its first letter upper-cased; a name given directly is
    only trimmed. */
module Headers {
  import opened Common
  import opened JavaText

  const Connection: string := "Connection"
  const ContentType: string := "Content-Type"
  const ContentLength: string := "Content-Length"
  const LastModified: string := "Last-Modified"
  const IfMatch: string := "If-Match"
  const IfNoneMatch: string := "If-None-Match"
  const IfModifiedSince: string := "If-Modified-Since"
  const IfUnmodifiedSince: string := "If-Unmodified-Since"
  const ETag: string := "ETag"

  /** Header name to value; a name occurs at most once by construction. */
  type Table = map<string, string>

  /** The table every request and response starts with. */
  const Empty: Table := map[]

  /** `get(name)`: exact, case-sensitive lookup. */
  function Get(t: Table, name: string): (r: Option<string>)
    ensures r.Some? <==> name in t
    ensures r.Some? ==> r.value == t[name]
  {
    Find(t, name)
  }

  /** `get(null)` is null; any other name is looked up exactly. */
  function GetNullable(t: Table, name: Option<string>): (r: Option<string>)
    ensures name.None? ==> r.None?
    ensures name.Some? ==> (r.Some? <==> name.value in t)
    ensures r.Some? ==> r.value == t[name.value]
  {
    match name
    case None => None
    case Some(n) => Get(t, n)
  }

  /** The name under which `add(String)` stores the text before the colon: the
      trimmed text with its first character upper-cased and the rest untouched. */
  function StoredName(raw: string): (k: string)
    requires Trim(raw) != []
    ensures |k| == |Trim(raw)|
  {
    var n := Trim(raw);
    [UpperAscii(n[0])] + n[1..]
  }

  /** A raw line `add(String)` accepts without throwing: one without a colon, or
      one whose text before the first colon is not blank (an empty name makes
      `substring(0, 1)` fail). */
  predicate Storable(line: string)
  {
    match SplitFirst(line, ':')
    case None => true
    case Some(parts) => Trim(parts.0) != []
  }

  /** `add(String)`: a line without a colon is ignored; otherwise the line is cut
      at its first colon and the pair (stored name, trimmed rest) replaces any
      earlier value under that name. */
  function AddLine(t: Table, line: string): (r: Table)
    requires Storable(line)
    ensures ':' !in line ==> r == t
    ensures t.Keys <= r.Keys
  {
    match SplitFirst(line, ':')
    case None => t
    case Some(parts) => t[StoredName(parts.0) := Trim(parts.1)]
  }

  /** `add(key, value)`: both trimmed, no upper-casing; the value is then what
      `get` returns for the trimmed key, and every other name is untouched. */
  function Put(t: Table, key: string, value: string): (r: Table)
    ensures Get(r, Trim(key)) == Some(Trim(value))
    ensures forall k :: k != Trim(key) ==> Get(r, k) == Get(t, k)
  {
    t[Trim(key) := Trim(value)]
  }

  /** `add(null, value)` does nothing. */
  function PutNullable(t: Table, key: Option<string>, value: string): (r: Table)
    ensures key.None? ==> r == t
    ensures key.Some? ==> Get(r, Trim(key.value)) == Some(Trim(value))
    ensures key.Some? ==> forall k :: k != Trim(key.value) ==> Get(r, k) == Get(t, k)
  {
    match key
    case None => t
    case Some(k) => Put(t, k, value)
  }

  /** Every line is storable. */
  predicate AllStorable(lines: seq<string>)
  {
    forall i :: 0 <= i < |lines| ==> Storable(lines[i])
  }

  /** The (name, value) pair a storable line puts in the table, if any. */
  function Entry(line: string): (e: Option<(string, string)>)
    requires Storable(line)
    ensures e.None? <==> ':' !in line
    ensures forall t: Table :: AddLine(t, line) == if e.None? then t else t[e.value.0 := e.value.1]
  {
    match SplitFirst(line, ':')
    case None => None
    case Some(parts) => Some((StoredName(parts.0), Trim(parts.1)))
  }

  /** The pairs of the lines that have a colon, in order. */
  function Entries(lines: seq<string>): seq<(string, string)>
    requires AllStorable(lines)
    decreases |lines|
  {
    if lines == [] then []
    else (if Entry(lines[0]).None? then [] else [Entry(lines[0]).value]) + Entries(lines[1..])
  }

  /** `lines.forEach(headers::add)`: every line added in order; the first line
      whose name is blank throws. The table then holds exactly the pairs of
      the lines, put in order. */
  function AddLines(t: Table, lines: seq<string>): (r: Result<Table>)
    ensures r.Ok? <==> forall i :: 0 <= i < |lines| ==> Storable(lines[i])
    ensures r.Err? ==> r.fault == IndexOutOfBounds
    ensures r.Ok? ==> r.value == PutAll(t, Entries(lines))
    decreases |lines|
  {
    if lines == [] then Ok(t)
    else if !Storable(lines[0]) then Err(IndexOutOfBounds)
    else
      var rest := AddLines(AddLine(t, lines[0]), lines[1..]);
      if rest.Ok? then
        EntriesStep(t, lines);
        rest
      else rest
  }

  /** Putting the pairs of some lines is putting the first line's, then the rest's. */
  lemma EntriesStep(t: Table, lines: seq<string>)
    requires lines != [] && AllStorable(lines)
    ensures PutAll(t, Entries(lines)) == PutAll(AddLine(t, lines[0]), Entries(lines[1..]))
  {
    var e := Entry(lines[0]);
    var tail := Entries(lines[1..]);
    if e.None? {
      assert Entries(lines) == tail by { assert [] + tail == tail; }
    } else {
      assert Entries(lines) == [e.value] + tail;
      PutAllCons(t, e.value, tail);
    }
  }

  /** After the header lines of a request, a name holds the value of the last
      line naming it, or what it held before when no line names it. */
  lemma AddLinesLastWins(t: Table, lines: seq<string>, name: string)
    requires forall i :: 0 <= i < |lines| ==> Storable(lines[i])
    ensures Get(AddLines(t, lines).value, name) ==
      if Latest(Entries(lines), name).Some? then Latest(Entries(lines), name) else Get(t, name)
  {
    PutAllLastWins(t, Entries(lines), name);
  }

  /** The pairs of two runs of lines are the pairs of each, in order. */
  lemma {:induction false} EntriesAppend(a: seq<string>, b: seq<string>)
    requires AllStorable(a) && AllStorable(b)
    ensures AllStorable(a + b)
    ensures Entries(a + b) == Entries(a) + Entries(b)
    decreases |a|
  {
    if a != [] {
      assert (a + b)[1..] == a[1..] + b;
      assert (a + b)[0] == a[0];
      EntriesAppend(a[1..], b);
    } else {
      assert a + b == b;
    }
  }

  // ---------------------------------------------------------------- lemmas

  /** A line is cut at its first colon only: later colons belong to the value. */
  lemma AddLineSplitsAtFirstColon(t: Table, name: string, value: string)
    requires ':' !in name && Trim(name) != []
    ensures Storable(name + ":" + value)
    ensures AddLine(t, name + ":" + value) == t[StoredName(name) := Trim(value)]
  {
    SplitFirstAfter(name, ':', value);
  }

  /** After adding a line, `get` of its stored name yields the trimmed value,
      and every other name keeps what it had. */
  lemma GetAfterAddLine(t: Table, name: string, value: string, other: string)
    requires ':' !in name && Trim(name) != []
    requires other != StoredName(name)
    ensures Storable(name + ":" + value)
    ensures Get(AddLine(t, name + ":" + value), StoredName(name)) == Some(Trim(value))
    ensures Get(AddLine(t, name + ":" + value), other) == Get(t, other)
  {
    AddLineSplitsAtFirstColon(t, name, value);
  }

  /** Two lines whose names normalise alike: the later value wins. */
  lemma AddLineLastWriteWins(t: Table, n1: string, v1: string, n2: string, v2: string)
    requires ':' !in n1 && Trim(n1) != []
    requires ':' !in n2 && Trim(n2) != []
    requires StoredName(n1) == StoredName(n2)
    ensures Storable(n1 + ":" + v1) && Storable(n2 + ":" + v2)
    ensures Get(AddLine(AddLine(t, n1 + ":" + v1), n2 + ":" + v2), StoredName(n1)) == Some(Trim(v2))
    ensures AddLine(AddLine(t, n1 + ":" + v1), n2 + ":" + v2).Keys == t.Keys + {StoredName(n1)}
  {
    AddLineSplitsAtFirstColon(t, n1, v1);
    AddLineSplitsAtFirstColon(AddLine(t, n1 + ":" + v1), n2, v2);
  }

  /** Normalisation is idempotent: a stored name, read as a raw name again, is
      stored under itself. */
  lemma StoredNameIdempotent(raw: string)
    requires Trim(raw) != []
    ensures Trim(StoredName(raw)) != []
    ensures StoredName(StoredName(raw)) == StoredName(raw)
  {
    var n := Trim(raw);
    var k := StoredName(raw);
    assert k == [UpperAscii(n[0])] + n[1..];
    assert !IsBlank(n[0]) && !IsBlank(n[|n| - 1]);
    assert !IsBlank(k[0]);
    assert !IsBlank(k[|k| - 1]) by {
      if |k| > 1 {
        assert k[|k| - 1] == n[|n| - 1];
      }
    }
    TrimNoop(k);
    assert UpperAscii(k[0]) == k[0];
    assert k[1..] == n[1..];
  }

  /** The first letter of the name is upper-cased, the rest is kept. */
  lemma StoredNameShape(raw: string)
    requires Trim(raw) != []
    ensures StoredName(raw)[0] == UpperAscii(Trim(raw)[0])
    ensures StoredName(raw)[1..] == Trim(raw)[1..]
  {
  }

  /** Lookups do not normalise: "content-length: 5" is stored under
      "Content-length" and is invisible to `get("Content-Length")`. */
  lemma LookupIsCaseSensitive()
    ensures Storable("content-length: 5")
    ensures Get(AddLine(Empty, "content-length: 5"), "Content-length") == Some("5")
    ensures Get(AddLine(Empty, "content-length: 5"), ContentLength) == None
  {
    LowerCaseLengthLine();
    AddLineSplitsAtFirstColon(Empty, "content-length", " 5");
    LengthNamesDiffer();
  }

  lemma LengthNamesDiffer()
    ensures "Content-length" != ContentLength
  {
    assert "Content-length"[8] != ContentLength[8];
  }

  lemma LowerCaseLengthLine()
    ensures "content-length" + ":" + " 5" == "content-length: 5"
    ensures ':' !in "content-length" && Trim("content-length") != []
    ensures StoredName("content-length") == "Content-length"
    ensures Trim(" 5") == "5"
  {
    assert "content-length" + ":" + " 5" == "content-length: 5";
    assert ':' !in "content-length";
    LowerCaseLengthName();
    TrimmedFive();
  }

  lemma LowerCaseLengthName()
    ensures Trim("content-length") == "content-length"
    ensures StoredName("content-length") == "Content-length"
  {
    var name := "content-length";
    TrimNoop(name);
    assert name[0] == 'c' && UpperAscii('c') == 'C';
    assert StoredName(name) == [UpperAscii(name[0])] + name[1..];
    assert name[1..] == "ontent-length";
    assert ['C'] + "ontent-length" == "Content-length";
  }

  lemma TrimmedFive()
    ensures Trim(" 5") == "5"
  {
    TrimDropsLeadingBlank(' ', "5");
    TrimNoop("5");
    assert [' '] + "5" == " 5";
  }
}
