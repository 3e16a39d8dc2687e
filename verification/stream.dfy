/** The connection's input as `createRequest` consumes it through a
    `BufferedReader`: the whole text that has arrived plus a read position.
    `readLine` ends a line at "\n", "\r" or "\r\n"; `ready()` holds while
    unread characters remain; `read()` takes one character. */
module Stream {
  import opened Common
  import opened JavaText

  predicate IsTerminator(c: char) { c == '\n' || c == '\r' }

  /** Whether `ready()` answers true: some input is left. */
  predicate Ready(text: string, pos: nat) { pos < |text| }

  /** The first line terminator at or after `pos`, or the end of the text. */
  function LineEnd(text: string, pos: nat): (e: nat)
    requires pos <= |text|
    ensures pos <= e <= |text|
    ensures forall i :: pos <= i < e ==> !IsTerminator(text[i])
    ensures e < |text| ==> IsTerminator(text[e])
    decreases |text| - pos
  {
    if pos == |text| || IsTerminator(text[pos]) then pos else LineEnd(text, pos + 1)
  }

  /** `readLine()`: null at the end of the input; otherwise the characters up
      to the next terminator, and the position after that terminator ("\r\n"
      counts as one). */
  function ReadLine(text: string, pos: nat): (r: Option<(string, nat)>)
    requires pos <= |text|
    ensures r.None? <==> pos == |text|
    ensures r.Some? ==> pos + |r.value.0| <= |text| && r.value.0 == text[pos..pos + |r.value.0|]
    ensures r.Some? ==> forall i :: 0 <= i < |r.value.0| ==> !IsTerminator(r.value.0[i])
    ensures r.Some? ==> pos < r.value.1 <= |text| && pos + |r.value.0| <= r.value.1 <= pos + |r.value.0| + 2
  {
    if pos == |text| then None
    else
      var e := LineEnd(text, pos);
      var next :=
        if e == |text| then e
        else if text[e] == '\r' && e + 1 < |text| && text[e + 1] == '\n' then e + 2
        else e + 1;
      Some((text[pos..e], next))
  }

  const CRLF: string := "\r\n"

  /** A line followed by "\r\n" is read back whole, and the terminator is consumed. */
  lemma ReadLineOfTerminated(text: string, pos: nat, line: string, rest: string)
    requires forall i :: 0 <= i < |line| ==> !IsTerminator(line[i])
    requires pos <= |text| && text[pos..] == line + CRLF + rest
    ensures ReadLine(text, pos) == Some((line, pos + |line| + 2))
  {
    assert forall i :: pos <= i < pos + |line| ==> text[i] == text[pos..][i - pos] == line[i - pos];
    assert text[pos + |line|] == text[pos..][|line|] == '\r';
    assert text[pos + |line| + 1] == text[pos..][|line| + 1] == '\n';
    LineEndAt(text, pos, pos + |line|);
    assert text[pos..pos + |line|] == text[pos..][..|line|] == line;
  }

  lemma {:induction false} LineEndAt(text: string, pos: nat, e: nat)
    requires pos <= e < |text|
    requires forall i :: pos <= i < e ==> !IsTerminator(text[i])
    requires IsTerminator(text[e])
    ensures LineEnd(text, pos) == e
    decreases e - pos
  {
    if pos < e {
      LineEndAt(text, pos + 1, e);
    }
  }

  /** The header-collection loop of `createRequest`: while input is ready,
      stop at an empty line, otherwise keep the line and read the next. The
      result is the kept lines and the position the body starts at. The line
      read when input stops being ready is dropped. */
  function Collect(text: string, pos: nat, line: string): (r: (seq<string>, nat))
    requires pos <= |text|
    ensures pos <= r.1 <= |text|
    ensures r.0 == [] <==> !Ready(text, pos) || line == []
    ensures r.0 != [] ==> r.0[0] == line
    ensures forall i :: 0 <= i < |r.0| ==> r.0[i] != []
    decreases |text| - pos
  {
    if !Ready(text, pos) || line == [] then ([], pos)
    else
      var (next, pos') := ReadLine(text, pos).value;
      var (more, end) := Collect(text, pos', next);
      ([line] + more, end)
  }

  /** A line `readLine` returns whole: non-empty and free of terminators. */
  predicate IsPlainLine(line: string)
  {
    line != [] && forall i :: 0 <= i < |line| ==> !IsTerminator(line[i])
  }

  /** Every line is plain. */
  predicate AllPlain(lines: seq<string>)
  {
    forall i :: 0 <= i < |lines| ==> IsPlainLine(lines[i])
  }

  /** Lines as a client sends them, each followed by "\r\n". */
  function Terminated(lines: seq<string>): string
    decreases |lines|
  {
    if lines == [] then [] else lines[0] + CRLF + Terminated(lines[1..])
  }

  /** Plain lines, then an empty line, then anything: the loop keeps exactly
      the lines (after the one already read) and stops right after the empty
      line, where the body starts. */
  lemma {:induction false} CollectTerminated(text: string, pos: nat, line: string, lines: seq<string>, rest: string)
    requires line != []
    requires AllPlain(lines)
    requires pos <= |text| && text[pos..] == Terminated(lines) + CRLF + rest
    ensures Collect(text, pos, line) == ([line] + lines, pos + |Terminated(lines)| + 2)
    decreases |lines|
  {
    if lines == [] {
      CollectAtBlank(text, pos, line, rest);
    } else {
      var pos' := TerminatedStep(text, pos, lines, rest);
      CollectTerminated(text, pos', lines[0], lines[1..], rest);
      HeadThenTail(lines);
      CollectCons(text, pos, line, lines[0], pos', [lines[0]] + lines[1..], pos' + |Terminated(lines[1..])| + 2);
    }
  }

  lemma HeadThenTail(lines: seq<string>)
    requires lines != []
    ensures [lines[0]] + lines[1..] == lines
  {
  }

  /** Reading the first of several terminated lines leaves the rest of them. */
  lemma TerminatedStep(text: string, pos: nat, lines: seq<string>, rest: string) returns (pos': nat)
    requires lines != []
    requires AllPlain(lines)
    requires pos <= |text| && text[pos..] == Terminated(lines) + CRLF + rest
    ensures Ready(text, pos) && ReadLine(text, pos) == Some((lines[0], pos'))
    ensures pos' <= |text| && text[pos'..] == Terminated(lines[1..]) + CRLF + rest
    ensures IsPlainLine(lines[0]) && AllPlain(lines[1..])
    ensures pos' + |Terminated(lines[1..])| == pos + |Terminated(lines)|
  {
    TerminatedCons(lines, rest);
    assert IsPlainLine(lines[0]);
    SkipTerminated(text, pos, lines[0], Terminated(lines[1..]) + CRLF + rest);
    pos' := pos + |lines[0]| + 2;
    assert forall i :: 0 <= i < |lines[1..]| ==> lines[1..][i] == lines[i + 1];
  }

  /** Plain lines, then a last plain line with no terminator after it: once
      that line is read no input is ready, so the loop drops it and keeps only
      the lines before it, and reading ends at the end of the input. */
  lemma {:induction false} CollectUnterminated(text: string, pos: nat, line: string, lines: seq<string>, last: string)
    requires line != [] && AllPlain(lines) && IsPlainLine(last)
    requires pos <= |text| && text[pos..] == Terminated(lines) + last
    ensures Collect(text, pos, line) == ([line] + lines, |text|)
    decreases |lines|
  {
    if lines == [] {
      CollectAtLast(text, pos, line, last);
    } else {
      var pos' := UnterminatedStep(text, pos, lines, last);
      CollectUnterminated(text, pos', lines[0], lines[1..], last);
      HeadThenTail(lines);
      CollectCons(text, pos, line, lines[0], pos', [lines[0]] + lines[1..], |text|);
    }
  }

  /** Plain lines, each terminated, and then the end of the input with no
      empty line: once the last of them is read no input is ready, so the loop
      drops it too and keeps only the lines before it. */
  lemma {:induction false} CollectEndsAfterTerminator(text: string, pos: nat, line: string, lines: seq<string>)
    requires line != [] && lines != [] && AllPlain(lines)
    requires pos <= |text| && text[pos..] == Terminated(lines)
    ensures Collect(text, pos, line) == ([line] + lines[..|lines| - 1], |text|)
    decreases |lines|
  {
    var pos' := TerminatedFirst(text, pos, lines);
    if |lines| == 1 {
      CollectStep(text, pos, line, lines[0], pos');
      assert lines[..0] == [];
    } else {
      CollectEndsAfterTerminator(text, pos', lines[0], lines[1..]);
      var kept := [lines[0]] + lines[1..][..|lines| - 2];
      assert kept == lines[..|lines| - 1];
      CollectCons(text, pos, line, lines[0], pos', kept, |text|);
    }
  }

  /** Reading the first of several terminated lines that end the input. */
  lemma TerminatedFirst(text: string, pos: nat, lines: seq<string>) returns (pos': nat)
    requires lines != [] && AllPlain(lines)
    requires pos <= |text| && text[pos..] == Terminated(lines)
    ensures Ready(text, pos) && ReadLine(text, pos) == Some((lines[0], pos'))
    ensures pos' <= |text| && text[pos'..] == Terminated(lines[1..])
    ensures AllPlain(lines[1..])
    ensures |lines| == 1 ==> pos' == |text|
  {
    assert text[pos..] == Terminated(lines) + [];
    pos' := UnterminatedStep(text, pos, lines, []);
    assert text[pos'..] == Terminated(lines[1..]) + [];
    if |lines| == 1 {
      assert Terminated(lines[1..]) == [];
    }
  }

  /** Reading the first of several terminated lines before an unterminated one. */
  lemma UnterminatedStep(text: string, pos: nat, lines: seq<string>, last: string) returns (pos': nat)
    requires lines != [] && AllPlain(lines)
    requires pos <= |text| && text[pos..] == Terminated(lines) + last
    ensures Ready(text, pos) && ReadLine(text, pos) == Some((lines[0], pos'))
    ensures pos' <= |text| && text[pos'..] == Terminated(lines[1..]) + last
    ensures AllPlain(lines[1..])
  {
    TerminatedThen(lines, last);
    assert IsPlainLine(lines[0]);
    SkipTerminated(text, pos, lines[0], Terminated(lines[1..]) + last);
    pos' := pos + |lines[0]| + 2;
    assert forall i :: 0 <= i < |lines[1..]| ==> lines[1..][i] == lines[i + 1];
  }

  lemma TerminatedThen(lines: seq<string>, tail: string)
    requires lines != []
    ensures Terminated(lines) + tail == lines[0] + CRLF + (Terminated(lines[1..]) + tail)
  {
  }

  /** The last line alone: it is read, input stops being ready, and it is dropped. */
  lemma CollectAtLast(text: string, pos: nat, line: string, last: string)
    requires line != [] && IsPlainLine(last)
    requires pos <= |text| && text[pos..] == last
    ensures Collect(text, pos, line) == ([line], |text|)
  {
    assert forall i :: pos <= i < |text| ==> text[i] == last[i - pos];
    LineEndAtEnd(text, pos);
    assert text[pos..|text|] == last;
    CollectStep(text, pos, line, last, |text|);
    assert [line] + [] == [line];
  }

  lemma {:induction false} LineEndAtEnd(text: string, pos: nat)
    requires pos <= |text|
    requires forall i :: pos <= i < |text| ==> !IsTerminator(text[i])
    ensures LineEnd(text, pos) == |text|
    decreases |text| - pos
  {
    if pos < |text| {
      LineEndAtEnd(text, pos + 1);
    }
  }

  /** An empty line right away: the line already read is kept and the loop stops after the empty line. */
  lemma CollectAtBlank(text: string, pos: nat, line: string, rest: string)
    requires line != []
    requires pos <= |text| && text[pos..] == CRLF + rest
    ensures Collect(text, pos, line) == ([line], pos + 2)
  {
    assert text[pos..] == [] + CRLF + rest;
    ReadLineOfTerminated(text, pos, [], rest);
    assert Ready(text, pos) by { assert |text[pos..]| >= 2; }
    CollectStep(text, pos, line, [], pos + 2);
    assert Collect(text, pos + 2, []) == ([], pos + 2);
    assert [line] + [] == [line];
  }

  /** A kept line in front of what the loop collects from the next one. */
  lemma CollectCons(text: string, pos: nat, line: string, next: string, pos': nat, more: seq<string>, end: nat)
    requires line != [] && Ready(text, pos)
    requires ReadLine(text, pos) == Some((next, pos'))
    requires pos' <= |text| && Collect(text, pos', next) == (more, end)
    ensures Collect(text, pos, line) == ([line] + more, end)
  {
    CollectStep(text, pos, line, next, pos');
  }

  lemma TerminatedCons(lines: seq<string>, rest: string)
    requires lines != []
    ensures Terminated(lines) + CRLF + rest == lines[0] + CRLF + (Terminated(lines[1..]) + CRLF + rest)
    ensures |Terminated(lines)| == |lines[0]| + 2 + |Terminated(lines[1..])|
  {
  }

  /** One round of the loop: a non-empty line is kept and the next one read. */
  lemma CollectStep(text: string, pos: nat, line: string, next: string, pos': nat)
    requires line != [] && Ready(text, pos) && ReadLine(text, pos) == Some((next, pos'))
    ensures pos' <= |text|
    ensures Collect(text, pos, line) == ([line] + Collect(text, pos', next).0, Collect(text, pos', next).1)
  {
  }

  lemma SkipTerminated(text: string, pos: nat, line: string, tail: string)
    requires forall i :: 0 <= i < |line| ==> !IsTerminator(line[i])
    requires pos <= |text| && text[pos..] == line + CRLF + tail
    ensures Ready(text, pos)
    ensures ReadLine(text, pos) == Some((line, pos + |line| + 2))
    ensures text[pos + |line| + 2..] == tail
  {
    ReadLineOfTerminated(text, pos, line, tail);
    assert text[pos + |line| + 2..] == text[pos..][|line| + 2..];
  }

  /** The body loop of `createRequest`: characters are taken one at a time
      until the input ends or, after a character, the count equals
      `parseInt(length)`; `parseInt` is first called after the first
      character, so a missing body never meets a malformed length. A length
      below 1 is never reached and the loop reads everything. */
  function ReadContent(rest: string, length: string): (r: Result<string>)
    ensures rest == [] ==> r == Ok([])
    ensures r.Ok? ==> StartsWith(rest, r.value)
    ensures r.Err? <==> rest != [] && ParseInt(length).None?
    ensures r.Err? ==> r.fault == NumberFormat
    ensures rest != [] && ParseInt(length).Some? ==>
      |r.value| == if 1 <= ParseInt(length).value <= |rest| then ParseInt(length).value else |rest|
  {
    if rest == [] then Ok([])
    else
      match ParseInt(length)
      case None => Err(NumberFormat)
      case Some(n) => if 1 <= n <= |rest| then Ok(rest[..n]) else Ok(rest)
  }

  /** The body loop as the Java code runs it. */
  method ReadContentLoop(rest: string, length: string) returns (r: Result<string>)
    ensures r == ReadContent(rest, length)
  {
    var b: string := [];
    var k := 0;
    while k < |rest|
      invariant 0 <= k <= |rest| && b == rest[..k]
      invariant k > 0 ==> ParseInt(length).Some? && (ParseInt(length).value < 1 || ParseInt(length).value > k)
    {
      b := b + [rest[k]];
      k := k + 1;
      assert b == rest[..k];
      var n := ParseInt(length);
      if n.None? {
        return Err(NumberFormat);
      }
      if |b| == n.value {
        break;
      }
    }
    assert k == |rest| ==> b == rest;
    return Ok(b);
  }
}
