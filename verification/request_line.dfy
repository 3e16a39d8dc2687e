/** The first-line test of `createRequest`: `line.matches("\\w+ /.* HTTP/.*")`,
    a full match of the Java regular expression, and the space-separated
    tokens the parser then takes the method, path and version from. */
module RequestLine {
  import opened Common
  import opened JavaText

  /** `\w`: an ASCII letter, digit or underscore. */
  predicate IsWordChar(c: char)
  {
    'a' <= c <= 'z' || 'A' <= c <= 'Z' || '0' <= c <= '9' || c == '_'
  }

  /** `.`: any character except the Java line terminators. */
  predicate IsDotChar(c: char)
  {
    c != '\n' && c != '\r' && c != '\U{0085}' && c != '\U{2028}' && c != '\U{2029}'
  }

  predicate AllWord(s: string) { forall i :: 0 <= i < |s| ==> IsWordChar(s[i]) }
  predicate AllDot(s: string) { forall i :: 0 <= i < |s| ==> IsDotChar(s[i]) }

  /** The length of the longest prefix of word characters. */
  function WordPrefix(s: string): (n: nat)
    ensures n <= |s| && AllWord(s[..n])
    ensures n == |s| || !IsWordChar(s[n])
    decreases |s|
  {
    if s != [] && IsWordChar(s[0]) then
      var n := 1 + WordPrefix(s[1..]);
      assert s[..n] == [s[0]] + s[1..][..n - 1];
      n
    else 0
  }

  const VersionMarker: string := " HTTP/"

  /** The regular expression, decided the way a matcher must: the word run
      `\w+` cannot stop early because " /" has to follow it, every character
      after " /" must be a `.`, and " HTTP/" must occur somewhere among them. */
  predicate IsRequestLine(line: string)
  {
    var n := WordPrefix(line);
    1 <= n && n + 2 <= |line| && line[n] == ' ' && line[n + 1] == '/' &&
    AllDot(line[n + 2..]) && IndexOf(line[n + 2..], VersionMarker).Some?
  }

  /** The regular expression read literally: a word run, " /", any text, " HTTP/", any text. */
  predicate Shape(line: string, w: string, x: string, y: string)
  {
    line == w + " /" + x + VersionMarker + y && |w| >= 1 && AllWord(w) && AllDot(x) && AllDot(y)
  }

  lemma {:induction false} WordPrefixStopsAtSpace(w: string, rest: string)
    requires AllWord(w)
    ensures WordPrefix(w + [' '] + rest) == |w|
    decreases |w|
  {
    if w != [] {
      assert (w + [' '] + rest)[1..] == w[1..] + [' '] + rest;
      WordPrefixStopsAtSpace(w[1..], rest);
    } else {
      assert (w + [' '] + rest)[0] == ' ';
    }
  }

  lemma MarkerIsDot()
    ensures AllDot(VersionMarker)
  {
  }

  lemma AllDotConcat(a: string, b: string)
    ensures AllDot(a + b) <==> AllDot(a) && AllDot(b)
  {
    if AllDot(a + b) {
      forall i | 0 <= i < |a| ensures IsDotChar(a[i]) {
        assert a[i] == (a + b)[i];
      }
      forall i | 0 <= i < |b| ensures IsDotChar(b[i]) {
        assert b[i] == (a + b)[|a| + i];
      }
    }
    if AllDot(a) && AllDot(b) {
      forall i | 0 <= i < |a + b| ensures IsDotChar((a + b)[i]) {
        if i < |a| { assert (a + b)[i] == a[i]; } else { assert (a + b)[i] == b[i - |a|]; }
      }
    }
  }

  /** An accepted line has the pattern's shape, with these parts. */
  lemma RequestLineShape(line: string) returns (w: string, x: string, y: string)
    requires IsRequestLine(line)
    ensures Shape(line, w, x, y)
  {
    var n := WordPrefix(line);
    var rest := line[n + 2..];
    var k := IndexOf(rest, VersionMarker).value;
    w, x, y := line[..n], rest[..k], rest[k + 6..];
    assert rest == x + (VersionMarker + y) by {
      assert rest[k..k + 6] == VersionMarker;
      assert rest == rest[..k] + rest[k..k + 6] + rest[k + 6..];
    }
    assert line == w + " /" + rest by {
      assert line[n..n + 2] == " /";
      assert line == line[..n] + line[n..n + 2] + line[n + 2..];
    }
    AllDotConcat(x, VersionMarker + y);
    AllDotConcat(VersionMarker, y);
  }

  /** A line of the pattern's shape is accepted. */
  lemma ShapeIsRequestLine(line: string, w: string, x: string, y: string)
    requires Shape(line, w, x, y)
    ensures IsRequestLine(line)
  {
    MarkerIsDot();
    var rest := x + VersionMarker + y;
    assert line == w + [' '] + (['/'] + rest);
    WordPrefixStopsAtSpace(w, ['/'] + rest);
    var n := |w|;
    assert line[n + 2..] == rest;
    AllDotConcat(x, VersionMarker);
    AllDotConcat(x + VersionMarker, y);
    assert OccursAt(rest, VersionMarker, |x|) by {
      assert rest[|x|..|x| + 6] == VersionMarker;
    }
  }

  /** The decision procedure accepts exactly the lines the pattern describes. */
  lemma RequestLineMatchesPattern(line: string)
    ensures IsRequestLine(line) <==> exists w, x, y :: Shape(line, w, x, y)
  {
    if IsRequestLine(line) {
      var w, x, y := RequestLineShape(line);
    }
    if exists w, x, y :: Shape(line, w, x, y) {
      var w, x, y :| Shape(line, w, x, y);
      ShapeIsRequestLine(line, w, x, y);
    }
  }

  /** The usual request line is accepted. */
  lemma RequestLineAccepted(w: string, path: string, version: string)
    requires |w| >= 1 && AllWord(w) && AllDot(path) && AllDot(version)
    ensures IsRequestLine(w + " /" + path + VersionMarker + version)
  {
    RequestLineMatchesPattern(w + " /" + path + VersionMarker + version);
    assert Shape(w + " /" + path + VersionMarker + version, w, path, version);
  }

  /** Every character of a join of empty pieces is the separator. */
  lemma {:induction false} JoinOfEmpties(ps: seq<string>, c: char)
    requires forall i :: 0 <= i < |ps| ==> ps[i] == []
    ensures forall i :: 0 <= i < |JoinWith(ps, c)| ==> JoinWith(ps, c)[i] == c
    decreases |ps|
  {
    if |ps| > 1 {
      JoinOfEmpties(ps[1..], c);
      assert JoinWith(ps, c) == [c] + JoinWith(ps[1..], c);
    }
  }

  /** A text holding a character other than `c` keeps a non-empty piece. */
  lemma SplitKeepsNonBlank(s: string, c: char, i: nat)
    requires i < |s| && s[i] != c
    ensures exists j :: 0 <= j < |SplitAll(s, c)| && SplitAll(s, c)[j] != []
  {
    if forall j :: 0 <= j < |SplitAll(s, c)| ==> SplitAll(s, c)[j] == [] {
      SplitJoin(s, c);
      JoinOfEmpties(SplitAll(s, c), c);
    }
  }

  /** A non-empty piece is never among the trailing empties Java drops. */
  lemma SplitKeepsNonEmptyPiece(s: string, c: char, j: nat)
    requires c in s && j < |SplitAll(s, c)| && SplitAll(s, c)[j] != []
    ensures j < |Split(s, c)|
  {
  }

  lemma SplitAllTwoHeads(w: string, b: string, c: char) returns (p: string, q: string)
    requires c !in w && c in b
    ensures SplitAll(w + [c] + b, c) == [w, p] + SplitAll(q, c)
    ensures b == p + [c] + q && c !in p
  {
    SplitAllAfter(w, c, b);
    var parts := SplitFirst(b, c).value;
    p, q := parts.0, parts.1;
    SplitAllAfter(p, c, q);
  }

  /** A text cut at its first `c` into a `c`-free head and a remainder that
      still holds a character other than `c` after another `c`: splitting keeps
      at least three tokens, the head first. */
  lemma SplitKeepsThree(w: string, b: string, c: char, i: nat)
    requires c !in w && 0 < i < |b| && b[i - 1] == c && b[i] != c
    ensures |Split(w + [c] + b, c)| >= 3 && Split(w + [c] + b, c)[0] == w
  {
    var line := w + [c] + b;
    var p, q := SplitAllTwoHeads(w, b, c);
    assert |p| < i;
    assert q[i - |p| - 1] == b[i];
    SplitKeepsNonBlank(q, c, i - |p| - 1);
    var j :| 0 <= j < |SplitAll(q, c)| && SplitAll(q, c)[j] != [];
    assert SplitAll(line, c)[j + 2] != [];
    assert c in line by { assert line[|w|] == c; }
    SplitKeepsNonEmptyPiece(line, c, j + 2);
  }

  /** An accepted line splits into at least three tokens, the first being the
      word run: the array accesses `methodAndPath[1]` and `[2]` never fail. */
  lemma TokensOfRequestLine(line: string)
    requires IsRequestLine(line)
    ensures |Split(line, ' ')| >= 3
    ensures Split(line, ' ')[0] == line[..WordPrefix(line)]
  {
    var n := WordPrefix(line);
    var w := line[..n];
    var b := line[n + 1..];
    assert line == w + [' '] + b;
    assert ' ' !in w by {
      forall i | 0 <= i < |w| ensures w[i] != ' ' { assert IsWordChar(w[i]); }
    }
    var rest := line[n + 2..];
    var k := IndexOf(rest, VersionMarker).value;
    assert rest[k] == ' ' && rest[k + 1] == 'H' by {
      assert rest[k..k + 6] == VersionMarker;
      assert rest[k] == rest[k..k + 6][0] && rest[k + 1] == rest[k..k + 6][1];
    }
    assert b[1..] == rest;
    assert b[k + 1] == ' ' && b[k + 2] == 'H' by {
      assert b[k + 1] == b[1..][k] && b[k + 2] == b[1..][k + 1];
    }
    SplitKeepsThree(w, b, ' ', k + 2);
  }
}
