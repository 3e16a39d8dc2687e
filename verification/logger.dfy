/** `Logger.log`: the line handed to `doLog` is the timestamp, " - ", then the
    message, in which every argument in turn replaces the leftmost "{}" still
    present in the whole line built so far. The timestamp (`Instant.now()`)
    is a parameter; arguments are given as the strings `String.valueOf`
    makes of them. */
module Logging {
  import opened Common
  import opened JavaText

  const Delimiter: string := "{}"
  const Separator: string := " - "

  /** The substitution loop: each argument replaces the leftmost "{}", or is
      dropped when none is left. */
  function Substitute(s: string, args: seq<string>): string
    decreases |args|
  {
    if args == [] then s
    else
      match IndexOf(s, Delimiter)
      case None => Substitute(s, args[1..])
      case Some(i) => Substitute(s[..i] + args[0] + s[i + 2..], args[1..])
  }

  /** The line `log(msg, args)` passes to `doLog`, once. Without arguments, or
      when the line holds no "{}", it is the timestamp, the separator and the
      message as given. */
  function Log(timestamp: string, msg: string, args: seq<string>): (line: string)
    ensures args == [] ==> line == timestamp + Separator + msg
    ensures IndexOf(timestamp + Separator + msg, Delimiter) == None ==> line == timestamp + Separator + msg
  {
    var s := timestamp + Separator + msg;
    if IndexOf(s, Delimiter) == None then
      ExtraArgumentsIgnored(s, args);
      Substitute(s, args)
    else Substitute(s, args)
  }

  /** `log` as the Java code runs it, with a builder and one pass over the
      arguments. */
  method BuildLine(timestamp: string, msg: string, args: seq<string>) returns (line: string)
    ensures line == Log(timestamp, msg, args)
  {
    var builder := timestamp + Separator + msg;
    var k := 0;
    while k < |args|
      invariant 0 <= k <= |args|
      invariant Substitute(builder, args[k..]) == Log(timestamp, msg, args)
    {
      assert args[k..][0] == args[k] && args[k..][1..] == args[k + 1..];
      var index := IndexOf(builder, Delimiter);
      if index.Some? {
        builder := builder[..index.value] + args[k] + builder[index.value + 2..];
      }
      k := k + 1;
    }
    assert args[k..] == [];
    line := builder;
  }

  /** A text without "{" holds no placeholder. */
  lemma NoBraceNoPlaceholder(s: string)
    requires '{' !in s
    ensures IndexOf(s, Delimiter) == None
  {
    forall j | 0 <= j <= |s| ensures !OccursAt(s, Delimiter, j) {
      if j + 2 <= |s| {
        assert s[j..j + 2][0] == s[j];
      }
    }
    IndexOfAbsent(s, Delimiter);
  }

  /** Once no placeholder is left, further arguments are ignored. */
  lemma {:induction false} ExtraArgumentsIgnored(s: string, args: seq<string>)
    requires IndexOf(s, Delimiter) == None
    ensures Substitute(s, args) == s
    decreases |args|
  {
    if args != [] {
      ExtraArgumentsIgnored(s, args[1..]);
    }
  }

  /** Searching past a prefix without "{" finds what the rest holds, shifted. */
  lemma IndexOfPastBraceFree(p: string, s: string)
    requires '{' !in p
    ensures IndexOf(p + s, Delimiter) ==
      match IndexOf(s, Delimiter)
      case None => None
      case Some(i) => Some(|p| + i)
  {
    var t := p + s;
    forall j | 0 <= j < |p| ensures !OccursAt(t, Delimiter, j) {
      assert t[j] == p[j];
    }
    forall j | |p| <= j <= |t| ensures OccursAt(t, Delimiter, j) <==> OccursAt(s, Delimiter, j - |p|) {
      if j + 2 <= |t| {
        assert t[j..j + 2] == s[j - |p|..j - |p| + 2];
      }
    }
    match IndexOf(s, Delimiter)
    case None =>
      IndexOfAbsent(t, Delimiter);
    case Some(i) =>
      IndexOfIsLeftmost(t, Delimiter, |p| + i);
  }

  /** A prefix without "{" is never touched by the substitution. */
  lemma {:induction false} SubstituteKeepsBraceFreePrefix(p: string, s: string, args: seq<string>)
    requires '{' !in p
    ensures Substitute(p + s, args) == p + Substitute(s, args)
    decreases |args|
  {
    if args != [] {
      IndexOfPastBraceFree(p, s);
      match IndexOf(s, Delimiter)
      case None =>
        SubstituteKeepsBraceFreePrefix(p, s, args[1..]);
      case Some(i) =>
        var s' := s[..i] + args[0] + s[i + 2..];
        SpliceUnderPrefix(p, s, i, args[0]);
        SubstituteKeepsBraceFreePrefix(p, s', args[1..]);
    }
  }

  /** Replacing two characters of `s` behind a prefix `p` replaces them in `p + s`. */
  lemma SpliceUnderPrefix(p: string, s: string, i: nat, a: string)
    requires i + 2 <= |s|
    ensures (p + s)[..|p| + i] + a + (p + s)[|p| + i + 2..] == p + (s[..i] + a + s[i + 2..])
  {
    assert (p + s)[..|p| + i] == p + s[..i];
    assert (p + s)[|p| + i + 2..] == s[i + 2..];
  }

  /** A message written as pieces around placeholders, all free of "{", with
      arguments free of "{": the line is the timestamp, the separator, and the
      pieces filled in order. */
  lemma LogOfPieces(timestamp: string, pieces: seq<string>, args: seq<string>)
    requires '{' !in timestamp && |pieces| >= 1
    requires forall i :: 0 <= i < |pieces| ==> '{' !in pieces[i]
    requires forall i :: 0 <= i < |args| ==> '{' !in args[i]
    ensures Log(timestamp, Template(pieces), args) == timestamp + Separator + Fill(pieces, args)
  {
    SubstituteFillsInOrder(pieces, args);
    LogKeepsTimestamp(timestamp, Template(pieces), args);
  }

  /** A timestamp without "{" comes out unchanged at the head of the line. */
  lemma LogKeepsTimestamp(timestamp: string, msg: string, args: seq<string>)
    requires '{' !in timestamp
    ensures Log(timestamp, msg, args) == timestamp + Separator + Substitute(msg, args)
  {
    assert '{' !in timestamp + Separator;
    SubstituteKeepsBraceFreePrefix(timestamp + Separator, msg, args);
  }

  /** A message written as literal pieces with one "{}" between neighbours. */
  function Template(pieces: seq<string>): string
    requires |pieces| >= 1
    decreases |pieces|
  {
    if |pieces| == 1 then pieces[0] else pieces[0] + Delimiter + Template(pieces[1..])
  }

  /** Reference reading: the first arguments fill the first placeholders in
      order; arguments past the last placeholder are dropped; placeholders past
      the last argument stay as "{}". */
  function Fill(pieces: seq<string>, args: seq<string>): string
    requires |pieces| >= 1
    decreases |pieces|
  {
    if args == [] then Template(pieces)
    else if |pieces| == 1 then pieces[0]
    else pieces[0] + args[0] + Fill(pieces[1..], args[1..])
  }

  /** When neither the literal pieces nor the arguments contain "{", the loop
      computes the reference reading. */
  lemma {:induction false} SubstituteFillsInOrder(pieces: seq<string>, args: seq<string>)
    requires |pieces| >= 1
    requires forall i :: 0 <= i < |pieces| ==> '{' !in pieces[i]
    requires forall i :: 0 <= i < |args| ==> '{' !in args[i]
    ensures Substitute(Template(pieces), args) == Fill(pieces, args)
    decreases |pieces|
  {
    if args == [] {
    } else if |pieces| == 1 {
      NoBraceNoPlaceholder(pieces[0]);
      ExtraArgumentsIgnored(pieces[0], args);
    } else {
      var p := pieces[0];
      var rest := Template(pieces[1..]);
      var s := Template(pieces);
      assert s == p + (Delimiter + rest);
      assert OccursAt(Delimiter + rest, Delimiter, 0);
      IndexOfIsLeftmost(Delimiter + rest, Delimiter, 0);
      IndexOfPastBraceFree(p, Delimiter + rest);
      assert s[..|p|] + args[0] + s[|p| + 2..] == (p + args[0]) + rest;
      assert '{' !in p + args[0];
      SubstituteKeepsBraceFreePrefix(p + args[0], rest, args[1..]);
      SubstituteFillsInOrder(pieces[1..], args[1..]);
    }
  }

  /** Text an argument brings in is searched like the rest: an argument that is
      itself "{}" is filled by the next one. */
  lemma InsertedPlaceholderIsFilled()
    ensures Substitute(Delimiter, [Delimiter, "x"]) == "x"
  {
    assert OccursAt(Delimiter, Delimiter, 0);
    IndexOfIsLeftmost(Delimiter, Delimiter, 0);
    assert Delimiter[..0] + Delimiter + Delimiter[2..] == Delimiter;
    assert [Delimiter, "x"][1..] == ["x"];
    assert Delimiter[..0] + "x" + Delimiter[2..] == "x";
    assert ["x"][1..] == [];
    NoBraceNoPlaceholder("x");
  }
}
