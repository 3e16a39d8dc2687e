/** The handful of `java.lang.String` / `Integer` operations the server relies on,
    written out with the exact edge cases of the Java library: `trim`, `split` with
    a one-character pattern (and with limit 2), `indexOf`, `replace` of one
    character by nothing, ASCII upper-casing, decimal rendering of an `int`, and
    `Integer.parseInt`. */
module JavaText {
  import opened Common

  // ---------------------------------------------------------------- trim

  /** The characters `String.trim` removes: every code point up to U+0020. */
  predicate IsBlank(c: char) { c <= ' ' }

  function LeadingBlanks(s: string): (n: nat)
    ensures n <= |s|
    ensures forall i :: 0 <= i < n ==> IsBlank(s[i])
    ensures n == |s| || !IsBlank(s[n])
  {
    if s != [] && IsBlank(s[0]) then 1 + LeadingBlanks(s[1..]) else 0
  }

  function TrailingBlanks(s: string): (n: nat)
    ensures n <= |s|
    ensures forall i :: |s| - n <= i < |s| ==> IsBlank(s[i])
    ensures n == |s| || !IsBlank(s[|s| - n - 1])
  {
    if s != [] && IsBlank(s[|s| - 1]) then 1 + TrailingBlanks(s[..|s| - 1]) else 0
  }

  /** `String.trim`: the longest middle part of `s` that neither starts nor ends
      with a blank; everything cut away on either side is blank. */
  function Trim(s: string): (r: string)
    ensures LeadingBlanks(s) + |r| <= |s|
    ensures r == s[LeadingBlanks(s)..LeadingBlanks(s) + |r|]
    ensures forall i :: 0 <= i < LeadingBlanks(s) ==> IsBlank(s[i])
    ensures forall i :: LeadingBlanks(s) + |r| <= i < |s| ==> IsBlank(s[i])
    ensures r == [] || (!IsBlank(r[0]) && !IsBlank(r[|r| - 1]))
  {
    var t := s[LeadingBlanks(s)..];
    t[..|t| - TrailingBlanks(t)]
  }

  /** A string that neither starts nor ends with a blank is its own trim. */
  lemma TrimNoop(s: string)
    requires s == [] || (!IsBlank(s[0]) && !IsBlank(s[|s| - 1]))
    ensures Trim(s) == s
  {
    assert LeadingBlanks(s) == 0;
    assert TrailingBlanks(s) == 0;
  }

  lemma TrimIdempotent(s: string)
    ensures Trim(Trim(s)) == Trim(s)
  {
    TrimNoop(Trim(s));
  }

  /** A blank in front of a string does not survive the trim. */
  lemma TrimDropsLeadingBlank(c: char, s: string)
    requires IsBlank(c)
    ensures Trim([c] + s) == Trim(s)
  {
    var t := [c] + s;
    assert t[1..] == s;
    assert LeadingBlanks(t) == 1 + LeadingBlanks(s);
    assert t[LeadingBlanks(t)..] == s[LeadingBlanks(s)..];
  }

  // ---------------------------------------------------------------- indexOf

  function IndexOfChar(s: string, c: char): (r: Option<nat>)
    ensures r.None? <==> c !in s
    ensures r.Some? ==> r.value < |s| && s[r.value] == c && c !in s[..r.value]
  {
    if s == [] then None
    else if s[0] == c then Some(0)
    else
      match IndexOfChar(s[1..], c)
      case None => None
      case Some(i) =>
        assert s[..i + 1] == [s[0]] + s[1..][..i];
        Some(i + 1)
  }

  lemma IndexOfCharAfter(a: string, c: char, b: string)
    requires c !in a
    ensures IndexOfChar(a + [c] + b, c) == Some(|a|)
  {
    var s := a + [c] + b;
    assert s[|a|] == c;
    assert s[..|a|] == a;
  }

  /** `pat` occurs in `s` starting at index `i`. */
  predicate OccursAt(s: string, pat: string, i: nat)
  {
    i + |pat| <= |s| && s[i..i + |pat|] == pat
  }

  /** `s.startsWith(p)`. */
  predicate StartsWith(s: string, p: string)
  {
    |p| <= |s| && s[..|p|] == p
  }

  /** `s.indexOf(pat)`: the leftmost occurrence of `pat`, if any. */
  function IndexOf(s: string, pat: string): (r: Option<nat>)
    ensures r.Some? ==> OccursAt(s, pat, r.value)
    ensures r.Some? ==> forall j :: 0 <= j < r.value ==> !OccursAt(s, pat, j)
    ensures r.None? ==> forall j :: 0 <= j <= |s| ==> !OccursAt(s, pat, j)
  {
    IndexOfFrom(s, pat, 0)
  }

  function IndexOfFrom(s: string, pat: string, k: nat): (r: Option<nat>)
    requires k <= |s|
    requires forall j :: 0 <= j < k ==> !OccursAt(s, pat, j)
    ensures r.Some? ==> k <= r.value && OccursAt(s, pat, r.value)
    ensures r.Some? ==> forall j :: 0 <= j < r.value ==> !OccursAt(s, pat, j)
    ensures r.None? ==> forall j :: 0 <= j <= |s| ==> !OccursAt(s, pat, j)
    decreases |s| - k
  {
    if OccursAt(s, pat, k) then Some(k)
    else if k == |s| then None
    else IndexOfFrom(s, pat, k + 1)
  }

  /** The leftmost occurrence is the one `indexOf` reports. */
  lemma IndexOfIsLeftmost(s: string, pat: string, i: nat)
    requires OccursAt(s, pat, i)
    requires forall j :: 0 <= j < i ==> !OccursAt(s, pat, j)
    ensures IndexOf(s, pat) == Some(i)
  {
  }

  lemma IndexOfAbsent(s: string, pat: string)
    requires forall j :: 0 <= j <= |s| ==> !OccursAt(s, pat, j)
    ensures IndexOf(s, pat) == None
  {
  }

  /** `s.contains(pat)`. */
  predicate Contains(s: string, pat: string)
  {
    exists i :: 0 <= i <= |s| && OccursAt(s, pat, i)
  }

  /** An occurrence between two texts starts where the first one ends. */
  lemma OccursBetween(a: string, pat: string, b: string)
    ensures OccursAt(a + pat + b, pat, |a|)
  {
    assert (a + pat + b)[|a|..|a| + |pat|] == pat;
  }

  /** Text in front moves an occurrence right. */
  lemma OccursAfter(a: string, s: string, pat: string, i: nat)
    requires OccursAt(s, pat, i)
    ensures OccursAt(a + s, pat, |a| + i)
  {
    assert (a + s)[|a| + i..|a| + i + |pat|] == s[i..i + |pat|];
  }

  /** Text behind leaves an occurrence where it is. */
  lemma OccursBefore(s: string, b: string, pat: string, i: nat)
    requires OccursAt(s, pat, i)
    ensures OccursAt(s + b, pat, i)
  {
    assert (s + b)[i..i + |pat|] == s[i..i + |pat|];
  }

  /** Texts written one after the other. */
  function Concat(ss: seq<string>): string
  {
    if ss == [] then "" else ss[0] + Concat(ss[1..])
  }

  /** What one of the texts holds, their concatenation holds, past the texts
      before it. */
  lemma {:induction false} OccursInConcat(ss: seq<string>, k: nat, pat: string, i: nat)
    requires k < |ss| && OccursAt(ss[k], pat, i)
    ensures OccursAt(Concat(ss), pat, |Concat(ss[..k])| + i)
    decreases k
  {
    if k == 0 {
      OccursBefore(ss[0], Concat(ss[1..]), pat, i);
      assert ss[..k] == [];
    } else {
      var before := ss[1..][..k - 1];
      OccursInConcat(ss[1..], k - 1, pat, i);
      OccursAfter(ss[0], Concat(ss[1..]), pat, |Concat(before)| + i);
      assert ss[..k] == [ss[0]] + before;
      assert Concat(ss[..k]) == ss[0] + Concat(before);
    }
  }

  // ---------------------------------------------------------------- split

  /** Every piece between occurrences of `c`, including empty ones. */
  function SplitAll(s: string, c: char): (ps: seq<string>)
    ensures |ps| >= 1
    ensures forall i :: 0 <= i < |ps| ==> c !in ps[i]
    decreases |s|
  {
    match IndexOfChar(s, c)
    case None => [s]
    case Some(i) => [s[..i]] + SplitAll(s[i + 1..], c)
  }

  /** The pieces glued back together with `c` between them. */
  function JoinWith(ps: seq<string>, c: char): string
  {
    if ps == [] then []
    else if |ps| == 1 then ps[0]
    else ps[0] + [c] + JoinWith(ps[1..], c)
  }

  lemma SplitAllAfter(a: string, c: char, b: string)
    requires c !in a
    ensures SplitAll(a + [c] + b, c) == [a] + SplitAll(b, c)
  {
    var s := a + [c] + b;
    IndexOfCharAfter(a, c, b);
    assert s[..|a|] == a;
    assert s[|a| + 1..] == b;
  }

  /** Splitting loses nothing: the pieces rejoin to the original text. */
  lemma {:induction false} SplitJoin(s: string, c: char)
    ensures JoinWith(SplitAll(s, c), c) == s
    decreases |s|
  {
    match IndexOfChar(s, c)
    case None =>
    case Some(i) =>
      var b := s[i + 1..];
      assert s == s[..i] + [c] + b;
      SplitJoin(b, c);
  }

  /** Joining pieces that do not contain `c` and splitting again gives the pieces back. */
  lemma {:induction false} JoinSplit(ps: seq<string>, c: char)
    requires |ps| >= 1
    requires forall i :: 0 <= i < |ps| ==> c !in ps[i]
    ensures SplitAll(JoinWith(ps, c), c) == ps
    decreases |ps|
  {
    if |ps| == 1 {
      assert IndexOfChar(ps[0], c) == None;
    } else {
      JoinSplit(ps[1..], c);
      SplitAllAfter(ps[0], c, JoinWith(ps[1..], c));
    }
  }

  /** Java's `split` drops the empty strings at the end of the piece list. */
  function DropTrailingEmpty(ps: seq<string>): (r: seq<string>)
    ensures |r| <= |ps| && r == ps[..|r|]
    ensures r == [] || r[|r| - 1] != []
    ensures forall i :: |r| <= i < |ps| ==> ps[i] == []
  {
    if ps != [] && ps[|ps| - 1] == [] then DropTrailingEmpty(ps[..|ps| - 1]) else ps
  }

  /** `s.split(c)` for a one-character pattern `c`: the text itself when `c` does
      not occur, otherwise all pieces without the trailing empty ones. */
  function Split(s: string, c: char): (r: seq<string>)
    ensures forall i :: 0 <= i < |r| ==> c !in r[i]
    ensures c in s ==> r == [] || r[|r| - 1] != []
    ensures c in s ==> |r| <= |SplitAll(s, c)| && r == SplitAll(s, c)[..|r|]
    ensures c in s ==> forall i :: |r| <= i < |SplitAll(s, c)| ==> SplitAll(s, c)[i] == []
  {
    if c !in s then [s] else DropTrailingEmpty(SplitAll(s, c))
  }

  /** A list of non-empty pieces without `c` survives join-then-split unchanged. */
  lemma SplitOfJoin(ps: seq<string>, c: char)
    requires |ps| >= 1
    requires forall i :: 0 <= i < |ps| ==> c !in ps[i] && ps[i] != []
    ensures Split(JoinWith(ps, c), c) == ps
  {
    JoinSplit(ps, c);
    if |ps| == 1 {
      assert JoinWith(ps, c) == ps[0];
    } else {
      assert JoinWith(ps, c) == ps[0] + [c] + JoinWith(ps[1..], c);
      assert JoinWith(ps, c)[|ps[0]|] == c;
    }
  }

  /** `s.split(c, 2)`: the text before the first `c` and everything after it, or
      nothing when `c` does not occur. */
  function SplitFirst(s: string, c: char): (r: Option<(string, string)>)
    ensures r.None? <==> c !in s
    ensures r.Some? ==> s == r.value.0 + [c] + r.value.1 && c !in r.value.0
  {
    match IndexOfChar(s, c)
    case None => None
    case Some(i) =>
      assert s == s[..i] + [c] + s[i + 1..];
      Some((s[..i], s[i + 1..]))
  }

  lemma SplitFirstAfter(a: string, c: char, b: string)
    requires c !in a
    ensures SplitFirst(a + [c] + b, c) == Some((a, b))
  {
    var s := a + [c] + b;
    IndexOfCharAfter(a, c, b);
    assert s[..|a|] == a;
    assert s[|a| + 1..] == b;
  }

  // ---------------------------------------------------------------- replace

  /** `s.replace(c, "")`: `s` with every `c` deleted. */
  function RemoveAll(s: string, c: char): (r: string)
    ensures c !in r
    ensures |r| <= |s|
    ensures c !in s ==> r == s
  {
    if s == [] then []
    else (if s[0] == c then [] else [s[0]]) + RemoveAll(s[1..], c)
  }

  lemma {:induction false} RemoveAllAppend(a: string, b: string, c: char)
    ensures RemoveAll(a + b, c) == RemoveAll(a, c) + RemoveAll(b, c)
    decreases |a|
  {
    if a != [] {
      assert (a + b)[1..] == a[1..] + b;
      RemoveAllAppend(a[1..], b, c);
    } else {
      assert a + b == b;
    }
  }

  // ---------------------------------------------------------------- case

  /** `toUpperCase` restricted to ASCII: a-z become A-Z, everything else stays. */
  function UpperAscii(ch: char): (u: char)
    ensures 'a' <= ch <= 'z' ==> 'A' <= u <= 'Z' && u as int == ch as int - 32
    ensures !('a' <= ch <= 'z') ==> u == ch
  {
    if 'a' <= ch <= 'z' then (ch as int - 32) as char else ch
  }

  // ---------------------------------------------------------------- integers

  const IntMin: int := -0x8000_0000
  const IntMax: int := 0x7fff_ffff

  predicate IsDigit(c: char) { '0' <= c <= '9' }

  predicate AllDigits(s: string) { forall i :: 0 <= i < |s| ==> IsDigit(s[i]) }

  function DigitChar(d: nat): (c: char)
    requires d < 10
    ensures IsDigit(c) && c as int - '0' as int == d
  {
    ('0' as int + d) as char
  }

  /** The value of a string of decimal digits, most significant first. */
  function DigitsValue(s: string): nat
    requires AllDigits(s)
  {
    if s == [] then 0 else DigitsValue(s[..|s| - 1]) * 10 + (s[|s| - 1] as int - '0' as int)
  }

  /** The decimal rendering of a natural number (`String.valueOf(int)` for n >= 0):
      digits only, without a leading zero. */
  function Decimal(n: nat): (r: string)
    ensures |r| >= 1 && AllDigits(r)
    ensures |r| > 1 ==> r[0] != '0'
  {
    if n < 10 then [DigitChar(n)] else Decimal(n / 10) + [DigitChar(n % 10)]
  }

  /** `Integer.parseInt`: an optional sign followed by at least one decimal digit,
      within the 32-bit range; anything else is a NumberFormatException (None). */
  function ParseInt(s: string): (r: Option<int>)
    ensures r.Some? ==> IntMin <= r.value <= IntMax
    ensures r.Some? ==> s != [] && (IsDigit(s[0]) || s[0] == '-' || s[0] == '+')
  {
    if s == [] then None
    else
      var digits := if s[0] == '-' || s[0] == '+' then s[1..] else s;
      if digits == [] || !AllDigits(digits) then None
      else
        var mag: int := DigitsValue(digits);
        var v := if s[0] == '-' then -mag else mag;
        if IntMin <= v <= IntMax then Some(v) else None
  }

  lemma {:induction false} DigitsValueOfDecimal(n: nat)
    ensures DigitsValue(Decimal(n)) == n
  {
    if n >= 10 {
      var r := Decimal(n);
      DigitsValueOfDecimal(n / 10);
      assert r[..|r| - 1] == Decimal(n / 10);
    }
  }

  /** Rendering an `int` length and parsing it back gives the same number. */
  lemma ParseIntOfDecimal(n: nat)
    requires n <= IntMax
    ensures ParseInt(Decimal(n)) == Some(n)
  {
    DigitsValueOfDecimal(n);
    var r := Decimal(n);
    assert IsDigit(r[0]);
  }
}
