/** The pattern matcher of grep.c. A C string is the sequence of its characters without the
    closing zero, and a pointer into it is the suffix that starts there. */
module Grep {
  // ---- what patterns mean ----

  /** A pattern is a sequence of these; only the last can be End. */
  datatype Atom = One(c: char) | Star(c: char) | End

  function Parse(re: seq<char>): seq<Atom> {
    if re == [] then []
    else if |re| > 1 && re[1] == '*' then [Star(re[0])] + Parse(re[2..])
    else if re == ['$'] then [End]
    else [One(re[0])] + Parse(re[1..])
  }

  predicate Fits(c: char, x: char) { c == '.' || c == x }

  /** The piece of text an atom stands for. */
  predicate Denotes(a: Atom, s: seq<char>) {
    match a
    case One(c) => |s| == 1 && Fits(c, s[0])
    case Star(c) => forall i :: 0 <= i < |s| ==> Fits(c, s[i])
    case End => s == []
  }

  function Concat(pieces: seq<seq<char>>): seq<char> {
    if pieces == [] then [] else pieces[0] + Concat(pieces[1..])
  }

  /** text is a string of the pattern's language cut into one piece an atom, and then a tail,
      which must be empty if the pattern ends in End. */
  ghost predicate Cut(atoms: seq<Atom>, text: seq<char>, pieces: seq<seq<char>>, tail: seq<char>) {
    && |pieces| == |atoms|
    && Concat(pieces) + tail == text
    && (forall i :: 0 <= i < |atoms| ==> Denotes(atoms[i], pieces[i]))
    && (End in atoms ==> tail == [])
  }

  /** Some prefix of text is in the language. */
  ghost predicate Starts(atoms: seq<Atom>, text: seq<char>) {
    exists pieces: seq<seq<char>>, tail: seq<char> :: Cut(atoms, text, pieces, tail)
  }

  /** Some substring of text, anchored as the pattern says, is in its language. */
  ghost predicate Occurs(re: seq<char>, text: seq<char>) {
    if re != [] && re[0] == '^' then Starts(Parse(re[1..]), text)
    else exists i :: 0 <= i <= |text| && Starts(Parse(re), text[i..])
  }

  // ---- one atom at a time ----

  lemma StartsNothing(text: seq<char>)
    ensures Starts([], text)
  {
    assert Cut([], text, [], text);
  }

  lemma StartsEnd(text: seq<char>)
    ensures Starts([End], text) <==> text == []
  {
    if text == [] {
      assert Concat([[]]) == [];
      assert Cut([End], text, [[]], []);
    }
    if Starts([End], text) {
      var pieces: seq<seq<char>>, tail: seq<char> :| Cut([End], text, pieces, tail);
      assert pieces == [pieces[0]] && Denotes(End, pieces[0]);
      assert Concat(pieces) == [];
    }
  }

  /** The general case: an atom takes a piece s off the front. */
  lemma Cons(a: Atom, rest: seq<Atom>, text: seq<char>, n: nat)
    requires n <= |text| && Denotes(a, text[..n]) && Starts(rest, text[n..]) && a != End
    ensures Starts([a] + rest, text)
  {
    var pieces: seq<seq<char>>, tail: seq<char> :| Cut(rest, text[n..], pieces, tail);
    var all := [text[..n]] + pieces;
    assert all[1..] == pieces;
    assert Concat(all) + tail == text[..n] + (Concat(pieces) + tail);
    assert text[..n] + text[n..] == text;
    assert Cut([a] + rest, text, all, tail);
  }

  lemma Uncons(a: Atom, rest: seq<Atom>, text: seq<char>) returns (n: nat)
    requires Starts([a] + rest, text) && a != End
    ensures n <= |text| && Denotes(a, text[..n]) && Starts(rest, text[n..])
  {
    var atoms := [a] + rest;
    var pieces: seq<seq<char>>, tail: seq<char> :| Cut(atoms, text, pieces, tail);
    n := |pieces[0]|;
    assert Denotes(atoms[0], pieces[0]);
    assert text == pieces[0] + (Concat(pieces[1..]) + tail);
    assert text[..n] == pieces[0] && text[n..] == Concat(pieces[1..]) + tail;
    forall i | 0 <= i < |rest| ensures Denotes(rest[i], pieces[1..][i]) {
      assert Denotes(atoms[i + 1], pieces[i + 1]);
    }
    assert End in rest ==> End in atoms;
    assert Cut(rest, text[n..], pieces[1..], tail);
  }

  lemma StartsOne(c: char, rest: seq<Atom>, text: seq<char>)
    ensures Starts([One(c)] + rest, text) <==> text != [] && Fits(c, text[0]) && Starts(rest, text[1..])
  {
    if Starts([One(c)] + rest, text) {
      var n := Uncons(One(c), rest, text);
    }
    if text != [] && Fits(c, text[0]) && Starts(rest, text[1..]) {
      Cons(One(c), rest, text, 1);
    }
  }

  /** c* takes n characters. */
  ghost predicate StarTakes(c: char, rest: seq<Atom>, text: seq<char>, n: int) {
    0 <= n <= |text| && Denotes(Star(c), text[..n]) && Starts(rest, text[n..])
  }

  lemma StartsStar(c: char, rest: seq<Atom>, text: seq<char>)
    ensures Starts([Star(c)] + rest, text) <==> exists n :: StarTakes(c, rest, text, n)
  {
    if Starts([Star(c)] + rest, text) {
      var n := Uncons(Star(c), rest, text);
      assert StarTakes(c, rest, text, n);
    }
    if n :| StarTakes(c, rest, text, n) {
      Cons(Star(c), rest, text, n);
    }
  }

  // ---- the matcher ----

  /** match: whether the pattern occurs in the text. */
  method Match(re: seq<char>, text: seq<char>) returns (found: bool)
    ensures found <==> Occurs(re, text)
  {
    if re != [] && re[0] == '^' {
      found := MatchHere(re[1..], text);
      return;
    }
    var i := 0;
    while true
      invariant 0 <= i <= |text|
      invariant forall j :: 0 <= j < i ==> !Starts(Parse(re), text[j..])
      decreases |text| - i
    {
      found := MatchHere(re, text[i..]);
      if found {
        return true;
      }
      if i == |text| {
        break;
      }
      i := i + 1;
    }
    found := false;
  }

  /** matchhere: whether the text starts with a match. */
  method MatchHere(re: seq<char>, text: seq<char>) returns (found: bool)
    ensures found <==> Starts(Parse(re), text)
    decreases |re|, 0
  {
    hide Starts;
    if re == [] {
      StartsNothing(text);
      return true;
    }
    if |re| > 1 && re[1] == '*' {
      found := MatchStar(re[0], re[2..], text);
      return;
    }
    if re[0] == '$' && |re| == 1 {
      StartsEnd(text);
      return text == [];
    }
    StartsOne(re[0], Parse(re[1..]), text);
    if text != [] && (re[0] == '.' || re[0] == text[0]) {
      found := MatchHere(re[1..], text[1..]);
      return;
    }
    found := false;
  }

  /** matchstar: whether the text starts with a match of c* and then re. */
  method MatchStar(c: char, re: seq<char>, text: seq<char>) returns (found: bool)
    ensures found <==> Starts([Star(c)] + Parse(re), text)
    decreases |re|, 1
  {
    hide Starts;
    StartsStar(c, Parse(re), text);
    var i := 0;
    while true
      invariant 0 <= i <= |text|
      invariant forall j :: 0 <= j < i ==> Fits(c, text[j])
      invariant forall n :: 0 <= n < i ==> !StarTakes(c, Parse(re), text, n)
      decreases |text| - i
    {
      found := MatchHere(re, text[i..]);
      if found {
        assert StarTakes(c, Parse(re), text, i);
        return true;
      }
      if i == |text| {
        break;
      }
      i := i + 1;
      if !(text[i - 1] == c || c == '.') {
        TooFar(c, Parse(re), text, i - 1);
        break;
      }
    }
    found := false;
  }

  /** c* cannot take more than the characters that fit. */
  lemma TooFar(c: char, rest: seq<Atom>, text: seq<char>, i: nat)
    requires i < |text| && !Fits(c, text[i])
    ensures forall n :: n > i ==> !StarTakes(c, rest, text, n)
  {
    forall n | n > i ensures !StarTakes(c, rest, text, n) {
      if n <= |text| { assert text[..n][i] == text[i]; }
    }
  }

  // ---- plain patterns ----

  predicate Plain(c: char) { c != '.' && c != '*' && c != '$' && c != '^' }

  predicate Literal(re: seq<char>) { forall i :: 0 <= i < |re| ==> Plain(re[i]) }

  /** Without special characters a pattern stands for itself. */
  lemma {:induction false} LiteralStarts(re: seq<char>, text: seq<char>)
    requires Literal(re)
    ensures Starts(Parse(re), text) <==> re <= text
  {
    hide Starts;
    if re == [] {
      StartsNothing(text);
    } else {
      StartsOne(re[0], Parse(re[1..]), text);
      assert re == [re[0]] + re[1..];
      if text != [] {
        LiteralStarts(re[1..], text[1..]);
        assert text == [text[0]] + text[1..];
      }
    }
  }

  /** With "$" behind it, for itself at the end. */
  lemma {:induction false} LiteralEnds(re: seq<char>, text: seq<char>)
    requires Literal(re)
    ensures Starts(Parse(re + "$"), text) <==> text == re
  {
    hide Starts;
    if re == [] {
      assert re + "$" == "$";
      StartsEnd(text);
    } else {
      var all := re + "$";
      assert all[0] == re[0] && all[1..] == re[1..] + "$" && all[1] != '*';
      StartsOne(re[0], Parse(all[1..]), text);
      assert re == [re[0]] + re[1..];
      if text != [] {
        LiteralEnds(re[1..], text[1..]);
        assert text == [text[0]] + text[1..];
      }
    }
  }

  /** So grep finds a plain pattern exactly in the texts that contain it, with "^" in those
      that begin with it, with "$" in those that end in it, and "." in those that are not empty. */
  lemma PlainPatterns(re: seq<char>, text: seq<char>)
    requires Literal(re)
    ensures Occurs(re, text) <==> exists i :: 0 <= i <= |text| && re <= text[i..]
    ensures Occurs("^" + re, text) <==> re <= text
    ensures Occurs(re + "$", text) <==> |re| <= |text| && text[|text| - |re|..] == re
    ensures Occurs(".", text) <==> text != []
  {
    hide Starts;
    forall i | 0 <= i <= |text|
      ensures Starts(Parse(re), text[i..]) <==> re <= text[i..]
      ensures Starts(Parse(re + "$"), text[i..]) <==> text[i..] == re
    {
      LiteralStarts(re, text[i..]);
      LiteralEnds(re, text[i..]);
    }
    assert ("^" + re)[1..] == re;
    assert text[0..] == text;
    if |re| <= |text| && text[|text| - |re|..] == re { assert Starts(Parse(re + "$"), text[|text| - |re|..]); }
    AnyOne(text);
  }

  lemma AnyOne(text: seq<char>)
    ensures Occurs(".", text) <==> text != []
  {
    hide Starts;
    forall i | 0 <= i <= |text| ensures Starts(Parse("."), text[i..]) <==> i < |text| {
      assert "."[1..] == "";
      StartsOne('.', Parse(""), text[i..]);
      if i < |text| { StartsNothing(text[i..][1..]); }
    }
    if text != [] { assert Starts(Parse("."), text[0..]); }
  }

  /** ".*" runs over any stretch of text. */
  lemma AnyRun(rest: seq<Atom>, text: seq<char>)
    ensures Starts([Star('.')] + rest, text) <==> exists n :: 0 <= n <= |text| && Starts(rest, text[n..])
  {
    hide Starts;
    StartsStar('.', rest, text);
    forall n | 0 <= n <= |text| ensures StarTakes('.', rest, text, n) <==> Starts(rest, text[n..]) {}
  }
}
