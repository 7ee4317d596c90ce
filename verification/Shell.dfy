/** The command-line parser of sh.c. The line is an array of characters closed by a zero; the
    parser reads it through a cursor that each function takes and gives back. A panic makes
    the whole parse fail. */
module Shell {
  import opened Basics
  import opened ShellGrammar
  import opened ShellTree

  predicate White(c: char) { c == ' ' || c == '\t' || c == '\r' || c == '\n' || c == '\U{000B}' }
  predicate Symbol(c: char) { c == '<' || c == '|' || c == '>' || c == '&' || c == ';' || c == '(' || c == ')' }
  predicate WordChar(c: char) { !White(c) && !Symbol(c) }

  // ---- tokens ----

  function SkipWhite(text: seq<char>, p: nat): (s: nat)
    requires p <= |text|
    ensures p <= s <= |text| && (s < |text| ==> !White(text[s]))
    decreases |text| - p
  {
    if p < |text| && White(text[p]) then SkipWhite(text, p + 1) else p
  }

  function WordEnd(text: seq<char>, p: nat): (e: nat)
    requires p <= |text|
    ensures p <= e <= |text| && (forall k :: p <= k < e ==> WordChar(text[k])) && (e < |text| ==> !WordChar(text[e]))
    ensures p < |text| && WordChar(text[p]) ==> p < e
    decreases |text| - p
  {
    if p < |text| && WordChar(text[p]) then WordEnd(text, p + 1) else p
  }

  /** The token at s, where a token starts, and where it ends. */
  function TokenAt(text: seq<char>, s: nat): (r: (Terminal, nat))
    requires s < |text| && !White(text[s])
    ensures s < r.1 <= |text|
  {
    if text[s] == '>' && s + 1 < |text| && text[s + 1] == '>' then (Sym('+'), s + 2)
    else if Symbol(text[s]) then (Sym(text[s]), s + 1)
    else (Word(Span(s, WordEnd(text, s))), WordEnd(text, s))
  }

  /** The tokens of the text from p on. */
  function Lex(text: seq<char>, p: nat): seq<Terminal>
    requires p <= |text|
    decreases |text| - p
  {
    var s := SkipWhite(text, p);
    if s == |text| then [] else [TokenAt(text, s).0] + Lex(text, TokenAt(text, s).1)
  }

  lemma {:induction false} LexSkips(text: seq<char>, p: nat)
    requires p <= |text|
    ensures Lex(text, SkipWhite(text, p)) == Lex(text, p)
  {
    assert SkipWhite(text, SkipWhite(text, p)) == SkipWhite(text, p);
  }

  /** What gettoken returns for a token. */
  function Kind(t: Terminal): char { if t.Word? then 'a' else t.c }

  /** The first character of a token. */
  predicate Begins(t: Terminal, c: char) { t == Sym(c) || (c == '>' && t == Sym('+')) }

  method SkipBlanks(text: seq<char>, p: nat) returns (s: nat)
    requires p <= |text|
    ensures s == SkipWhite(text, p)
  {
    s := p;
    while s < |text| && White(text[s])
      invariant p <= s <= |text| && SkipWhite(text, s) == SkipWhite(text, p)
    {
      s := s + 1;
    }
  }

  /** gettoken: its kind, which is 0 at the end of the text, and for a word where it stands. */
  method GetToken(text: seq<char>, ps: nat) returns (ret: char, q: nat, eq: nat, ps': nat)
    requires ps <= |text| && NUL !in text
    ensures ps' <= |text|
    ensures Lex(text, ps) == [] ==> ret == NUL && Lex(text, ps') == []
    ensures Lex(text, ps) != [] ==>
      (ret != NUL && ret == Kind(Lex(text, ps)[0]) && (ret == 'a' <==> Lex(text, ps)[0].Word?)
       && Lex(text, ps') == Lex(text, ps)[1..]
       && (Lex(text, ps)[0].Word? ==> Lex(text, ps)[0].span == Span(q, eq)))
  {
    var s := SkipBlanks(text, ps);
    q := s;
    if s == |text| {
      ret := NUL;
    } else {
      ret := text[s];
      if ret == '|' || ret == '(' || ret == ')' || ret == ';' || ret == '&' || ret == '<' {
        s := s + 1;
      } else if ret == '>' {
        s := s + 1;
        if s < |text| && text[s] == '>' {
          ret := '+';
          s := s + 1;
        }
      } else {
        ret := 'a';
        while s < |text| && !White(text[s]) && !Symbol(text[s])
          invariant q <= s <= |text| && WordEnd(text, s) == WordEnd(text, q)
        {
          s := s + 1;
        }
      }
      assert s == TokenAt(text, q).1;
    }
    eq := s;
    LexSkips(text, s);
    ps' := SkipBlanks(text, s);
  }

  /** peek: whether the next token begins with one of toks. */
  method Peek(text: seq<char>, ps: nat, toks: seq<char>) returns (found: bool, ps': nat)
    requires ps <= |text| && NUL !in text && forall c :: c in toks ==> Symbol(c)
    ensures ps' <= |text| && Lex(text, ps') == Lex(text, ps)
    ensures found <==> Lex(text, ps) != [] && exists c :: c in toks && Begins(Lex(text, ps)[0], c)
    ensures ps' == |text| <==> Lex(text, ps) == []
  {
    LexSkips(text, ps);
    ps' := SkipBlanks(text, ps);
    found := ps' < |text| && text[ps'] in toks;
    if ps' < |text| {
      var t := TokenAt(text, ps').0;
      assert Lex(text, ps)[0] == t;
      assert forall c :: c in toks ==> (Begins(t, c) <==> c == text[ps']);
    }
  }

  // ---- the parsing functions ----

  lemma PeekRedir(t: Terminal)
    ensures (exists c :: c in "<>" && Begins(t, c)) <==> t.Sym? && RedirOp(t.c)
  {
    assert "<>"[0] == '<' && "<>"[1] == '>';
    if t.Sym? && RedirOp(t.c) {
      if t.c == '<' { assert '<' in "<>" && Begins(t, '<'); } else { assert '>' in "<>" && Begins(t, '>'); }
    }
  }

  lemma PeekEnd(t: Terminal)
    ensures (exists c :: c in "|)&;" && Begins(t, c)) <==> StartsEnd([t])
  {
    assert "|)&;"[0] == '|' && "|)&;"[1] == ')' && "|)&;"[2] == '&' && "|)&;"[3] == ';';
    if t.Sym? && StartsEnd([t]) { assert t.c in "|)&;" && Begins(t, t.c); }
  }

  lemma PeekOne(t: Terminal, c: char)
    requires c != '>'
    ensures (exists d :: d in [c] && Begins(t, d)) <==> t == Sym(c)
  {
    assert c in [c];
    if t == Sym(c) { assert Begins(t, c); }
  }

  /** A result whose list goes on from xs. */
  function Prepend<T>(xs: seq<T>, r: Parsed<seq<T>>): Parsed<seq<T>> {
    if r.Panic? then Panic else Parsed(xs + r.tree, r.rest)
  }

  lemma PrependNothing<T>(r: Parsed<seq<T>>)
    ensures Prepend([], r) == r
  {
    if r.Parsed? { assert [] + r.tree == r.tree; }
  }

  /** parseredirs: the redirections to wrap around the command at hand. */
  method Redirections(text: seq<char>, ps: nat) returns (r: Option<seq<Redirection>>, ps': nat)
    requires ps <= |text| && NUL !in text
    ensures ps' <= |text|
    ensures r.None? <==> ParseRedirs(Lex(text, ps)).Panic?
    ensures r.Some? ==> ParseRedirs(Lex(text, ps)) == Parsed(r.value, Lex(text, ps'))
  {
    hide Lex;
    var rs: seq<Redirection> := [];
    var more;
    more, ps' := Peek(text, ps, "<>");
    PrependNothing(ParseRedirs(Lex(text, ps)));
    while more
      invariant ps' <= |text|
      invariant more <==> Lex(text, ps') != [] && exists c :: c in "<>" && Begins(Lex(text, ps')[0], c)
      invariant ParseRedirs(Lex(text, ps)) == Prepend(rs, ParseRedirs(Lex(text, ps')))
      decreases |Lex(text, ps')|
    {
      ghost var ts := Lex(text, ps');
      PeekRedir(ts[0]);
      var tok, q, eq;
      tok, q, eq, ps' := GetToken(text, ps');
      var a;
      a, q, eq, ps' := GetToken(text, ps');
      if a != 'a' {
        return None, ps';
      }
      var redir := Redirection(tok, Span(q, eq));
      assert ts[1..][1..] == ts[2..];
      assert ParseRedirs(ts) == Prepend([redir], ParseRedirs(ts[2..]));
      ghost var was := rs;
      rs := rs + [redir];
      assert ParseRedirs(ts[2..]).Parsed? ==>
          was + ([redir] + ParseRedirs(ts[2..]).tree) == rs + ParseRedirs(ts[2..]).tree;
      more, ps' := Peek(text, ps', "<>");
    }
    if Lex(text, ps') != [] { PeekRedir(Lex(text, ps')[0]); }
    assert ParseRedirs(Lex(text, ps')) == Parsed([], Lex(text, ps'));
    assert rs + [] == rs;
    r := Some(rs);
  }

  /** parseexec. The redirections found among the words wrap the command in the order they
      come. */
  method ParseExecCmd(text: seq<char>, ps: nat) returns (r: Option<Cmd>, ps': nat)
    requires ps <= |text| && NUL !in text
    ensures ps' <= |text|
    ensures r.None? <==> ParseExec(Lex(text, ps)).Panic?
    ensures r.Some? ==> ParseExec(Lex(text, ps)).rest == Lex(text, ps')
    ensures r.Some? ==> r.value == ExecTree(ParseExec(Lex(text, ps)).tree)
    decreases |Lex(text, ps)|, 1
  {
    hide Lex;
    var block;
    block, ps' := Peek(text, ps, "(");
    ghost var ts := Lex(text, ps);
    if ts != [] { PeekOne(ts[0], '('); }
    if block {
      r, ps' := ParseBlockCmd(text, ps');
      return;
    }
    var redirs;
    redirs, ps' := Redirections(text, ps');
    if redirs.None? {
      return None, ps';
    }
    r, ps' := Arguments(text, ps', redirs.value);
  }

  /** The loop of parseexec over the words. */
  method Arguments(text: seq<char>, ps: nat, redirs0: seq<Redirection>) returns (r: Option<Cmd>, ps': nat)
    requires ps <= |text| && NUL !in text
    ensures ps' <= |text|
    ensures r.None? <==> ParseArgs(Lex(text, ps), 0).Panic?
    ensures r.Some? ==> (var p := ParseArgs(Lex(text, ps), 0);
                         p.rest == Lex(text, ps') && r.value == ExecTree(Simple(redirs0, p.tree)))
    decreases |Lex(text, ps)|, 0
  {
    hide Lex, ParseRedirs, ExecTree, ParseArgs, ArgWords, ArgRedirs, Wrap, Prepend;
    NoArguments(redirs0);
    var argv: seq<Span>, redirs := [], redirs0;
    ghost var args: seq<Argument> := [];
    var stop;
    stop, ps' := Peek(text, ps, "|)&;");
    PrependNothing(ParseArgs(Lex(text, ps), 0));
    while !stop
      invariant ps' <= |text|
      invariant stop <==> Lex(text, ps') != [] && exists c :: c in "|)&;" && Begins(Lex(text, ps')[0], c)
      invariant |argv| == |args| < MAXARGS
      invariant argv == ArgWords(args) && redirs == redirs0 + ArgRedirs(args)
      invariant ParseArgs(Lex(text, ps), 0) == Prepend(args, ParseArgs(Lex(text, ps'), |args|))
      decreases |Lex(text, ps')|
    {
      ghost var ts := Lex(text, ps');
      if ts != [] { PeekEnd(ts[0]); }
      ArgsCases(ts, args);
      var tok, q, eq;
      tok, q, eq, ps' := GetToken(text, ps');
      if tok == NUL {
        break;
      }
      if tok != 'a' {
        return None, ps';
      }
      argv := argv + [Span(q, eq)];
      if |argv| >= MAXARGS {
        return None, ps';
      }
      var more;
      more, ps' := Redirections(text, ps');
      if more.None? {
        return None, ps';
      }
      redirs := redirs + more.value;
      ghost var arg := Argument(Span(q, eq), more.value);
      OneArgument(ts, args, arg, Lex(text, ps'));
      AppendArgument(args, arg, redirs0);
      args := args + [arg];
      stop, ps' := Peek(text, ps', "|)&;");
    }
    if Lex(text, ps') != [] { PeekEnd(Lex(text, ps')[0]); }
    ArgsCases(Lex(text, ps'), args);
    ExecSimple(redirs0, args);
    r := Some(Wrap(ExecCmd(argv), redirs));
  }

  lemma NoArguments(redirs: seq<Redirection>)
    ensures ArgWords([]) == [] && redirs + ArgRedirs([]) == redirs
  {}

  /** Where the loop ends, and where it panics. */
  lemma ArgsCases(ts: seq<Terminal>, args: seq<Argument>)
    ensures StartsEnd(ts) ==> Prepend(args, ParseArgs(ts, |args|)) == Parsed(args, ts)
    ensures !StartsEnd(ts) && (!ts[0].Word? || |args| + 1 >= MAXARGS || ParseRedirs(ts[1..]).Panic?) ==>
              Prepend(args, ParseArgs(ts, |args|)).Panic?
  {
    assert args + [] == args;
  }

  lemma OneArgument(ts: seq<Terminal>, args: seq<Argument>, arg: Argument, rest: seq<Terminal>)
    requires ts != [] && !StartsEnd(ts) && ts[0] == Word(arg.word) && |args| + 1 < MAXARGS
    requires ParseRedirs(ts[1..]) == Parsed(arg.redirs, rest)
    ensures Prepend(args, ParseArgs(ts, |args|)) == Prepend(args + [arg], ParseArgs(rest, |args| + 1))
  {
    hide ParseArgs, ParseRedirs, Prepend;
    ArgsUnfold(ts, |args|, arg, rest);
    PrependTwice(args, arg, ParseArgs(rest, |args| + 1));
  }

  lemma ArgsUnfold(ts: seq<Terminal>, n: nat, arg: Argument, rest: seq<Terminal>)
    requires ts != [] && !StartsEnd(ts) && ts[0] == Word(arg.word) && n + 1 < MAXARGS
    requires ParseRedirs(ts[1..]) == Parsed(arg.redirs, rest)
    ensures ParseArgs(ts, n) == Prepend([arg], ParseArgs(rest, n + 1))
  {
    hide ParseRedirs;
  }

  lemma PrependTwice<T>(xs: seq<T>, x: T, r: Parsed<seq<T>>)
    ensures Prepend(xs, Prepend([x], r)) == Prepend(xs + [x], r)
  {
    if r.Parsed? { assert xs + ([x] + r.tree) == (xs + [x]) + r.tree; }
  }

  lemma AppendArgument(args: seq<Argument>, arg: Argument, redirs0: seq<Redirection>)
    ensures ArgWords(args + [arg]) == ArgWords(args) + [arg.word]
    ensures redirs0 + ArgRedirs(args + [arg]) == redirs0 + ArgRedirs(args) + arg.redirs
  {
    RedirsAppend(args, arg);
  }

  lemma {:induction false} RedirsAppend(args: seq<Argument>, arg: Argument)
    ensures ArgRedirs(args + [arg]) == ArgRedirs(args) + arg.redirs
  {
    if args == [] {
      assert [arg][1..] == [];
    } else {
      assert (args + [arg])[1..] == args[1..] + [arg];
      RedirsAppend(args[1..], arg);
    }
  }

  lemma ExecSimple(redirs: seq<Redirection>, args: seq<Argument>)
    ensures ExecTree(Simple(redirs, args)) == Wrap(ExecCmd(ArgWords(args)), redirs + ArgRedirs(args))
  {}

  /** parseblock. */
  method ParseBlockCmd(text: seq<char>, ps: nat) returns (r: Option<Cmd>, ps': nat)
    requires ps <= |text| && NUL !in text && Starts(Lex(text, ps), '(')
    ensures ps' <= |text|
    ensures r.None? <==> ParseBlock(Lex(text, ps)).Panic?
    ensures r.Some? ==> ParseBlock(Lex(text, ps)).rest == Lex(text, ps')
    ensures r.Some? ==> r.value == ExecTree(ParseBlock(Lex(text, ps)).tree)
    decreases |Lex(text, ps)|, 0
  {
    hide Lex, ParseLine, ParseRedirs;
    var tok, q, eq;
    tok, q, eq, ps' := GetToken(text, ps);
    r, ps' := ParseLineCmd(text, ps');
    if r.None? {
      return;
    }
    var closed;
    ghost var rest := Lex(text, ps');
    closed, ps' := Peek(text, ps', ")");
    if rest != [] { PeekOne(rest[0], ')'); }
    if !closed {
      return None, ps';
    }
    tok, q, eq, ps' := GetToken(text, ps');
    var redirs;
    redirs, ps' := Redirections(text, ps');
    if redirs.None? {
      return None, ps';
    }
    r := Some(Wrap(r.value, redirs.value));
  }

  /** parsepipe. */
  method ParsePipeCmd(text: seq<char>, ps: nat) returns (r: Option<Cmd>, ps': nat)
    requires ps <= |text| && NUL !in text
    ensures ps' <= |text|
    ensures r.None? <==> ParsePipe(Lex(text, ps)).Panic?
    ensures r.Some? ==> ParsePipe(Lex(text, ps)).rest == Lex(text, ps')
    ensures r.Some? ==> r.value == PipeTree(ParsePipe(Lex(text, ps)).tree)
    decreases |Lex(text, ps)|, 2
  {
    hide Lex, ParseExec, ExecTree;
    r, ps' := ParseExecCmd(text, ps);
    if r.None? {
      return;
    }
    ghost var rest := Lex(text, ps');
    var pipe;
    pipe, ps' := Peek(text, ps', "|");
    if rest != [] { PeekOne(rest[0], '|'); }
    if pipe {
      var tok, q, eq;
      tok, q, eq, ps' := GetToken(text, ps');
      var right;
      right, ps' := ParsePipeCmd(text, ps');
      if right.None? {
        return None, ps';
      }
      r := Some(PipeCmd(r.value, right.value));
    }
  }

  /** parseline. */
  method ParseLineCmd(text: seq<char>, ps: nat) returns (r: Option<Cmd>, ps': nat)
    requires ps <= |text| && NUL !in text
    ensures ps' <= |text|
    ensures r.None? <==> ParseLine(Lex(text, ps)).Panic?
    ensures r.Some? ==> ParseLine(Lex(text, ps)).rest == Lex(text, ps')
    ensures r.Some? ==> r.value == LineTree(ParseLine(Lex(text, ps)).tree)
    decreases |Lex(text, ps)|, 3
  {
    hide Lex, ParsePipe, PipeTree;
    r, ps' := ParsePipeCmd(text, ps);
    if r.None? {
      return;
    }
    var cmd := r.value;
    ghost var rest0 := Lex(text, ps');
    ghost var n := 0;
    var more, tok, q, eq;
    more, ps' := Peek(text, ps', "&");
    while more
      invariant ps' <= |text| && n <= |rest0| && Lex(text, ps') == rest0[n..]
      invariant more <==> Lex(text, ps') != [] && exists c :: c in "&" && Begins(Lex(text, ps')[0], c)
      invariant CountAnds(rest0) == n + CountAnds(Lex(text, ps'))
      invariant cmd == Background(r.value, n)
      decreases |Lex(text, ps')|
    {
      PeekOne(Lex(text, ps')[0], '&');
      tok, q, eq, ps' := GetToken(text, ps');
      cmd := BackCmd(cmd);
      n := n + 1;
      more, ps' := Peek(text, ps', "&");
    }
    if Lex(text, ps') != [] { PeekOne(Lex(text, ps')[0], '&'); }
    ghost var rest := Lex(text, ps');
    more, ps' := Peek(text, ps', ";");
    if rest != [] { PeekOne(rest[0], ';'); }
    if more {
      tok, q, eq, ps' := GetToken(text, ps');
      var right;
      right, ps' := ParseLineCmd(text, ps');
      if right.None? {
        return None, ps';
      }
      cmd := ListCmd(cmd, right.value);
    }
    r := Some(cmd);
  }

  // ---- nulterminate ----

  /** A maximal run of word characters. */
  predicate IsWord(text: seq<char>, w: Span) {
    && w.start < w.end <= |text|
    && (forall k :: w.start <= k < w.end ==> WordChar(text[k]))
    && (w.end < |text| ==> !WordChar(text[w.end]))
  }

  /** Every token that is a word is such a run, and words come in order without touching. */
  lemma {:induction false} LexWords(text: seq<char>, p: nat)
    requires p <= |text|
    ensures forall i :: 0 <= i < |Lex(text, p)| && Lex(text, p)[i].Word? ==>
              (IsWord(text, Lex(text, p)[i].span) && Lex(text, p)[i].span.start >= p)
    ensures forall i, j :: 0 <= i < j < |Lex(text, p)| && Lex(text, p)[i].Word? && Lex(text, p)[j].Word? ==>
              Lex(text, p)[i].span.end <= Lex(text, p)[j].span.start
    decreases |text| - p
  {
    var s := SkipWhite(text, p);
    if s < |text| {
      LexWords(text, TokenAt(text, s).1);
    }
  }

  // ---- what the tokens say ----

  /** The characters of a token. */
  function Chars(text: seq<char>, t: Terminal): seq<char> {
    match t
    case Sym(c) => if c == '+' then ">>" else [c]
    case Word(w) => if w.start <= w.end <= |text| then text[w.start..w.end] else []
  }

  function Glued(text: seq<char>, ts: seq<Terminal>): seq<char> {
    if ts == [] then [] else Chars(text, ts[0]) + Glued(text, ts[1..])
  }

  /** The text without white space. */
  function Solid(s: seq<char>): seq<char> {
    if s == [] then [] else (if White(s[0]) then [] else [s[0]]) + Solid(s[1..])
  }

  lemma {:induction false} SolidJoin(a: seq<char>, b: seq<char>)
    ensures Solid(a + b) == Solid(a) + Solid(b)
  {
    if a == [] {
      assert a + b == b;
    } else {
      assert (a + b)[1..] == a[1..] + b;
      SolidJoin(a[1..], b);
    }
  }

  lemma {:induction false} SolidRun(s: seq<char>)
    ensures (forall c :: c in s ==> !White(c)) ==> Solid(s) == s
    ensures (forall c :: c in s ==> White(c)) ==> Solid(s) == []
  {
    if s != [] { SolidRun(s[1..]); }
  }

  /** The tokens are the text, no more and no less: put together they are the text without its
      white space, and ">>" is one token. */
  lemma {:induction false} LexText(text: seq<char>, p: nat)
    requires p <= |text|
    ensures Glued(text, Lex(text, p)) == Solid(text[p..])
    ensures p + 1 < |text| && text[p] == text[p + 1] == '>' ==> Lex(text, p) == [Sym('+')] + Lex(text, p + 2)
    decreases |text| - p
  {
    hide Glued, Chars, Solid;
    var s := SkipWhite(text, p);
    Skipped(text, p);
    BlankFirst(text, p, s);
    if s < |text| {
      var (t, e) := TokenAt(text, s);
      LexText(text, e);
      TokenChars(text, s);
      SolidRun(text[s..e]);
      SolidJoin(text[s..e], text[e..]);
      assert text[s..] == text[s..e] + text[e..];
      GluedFirst(text, t, Lex(text, e));
    } else {
      NothingGlued(text);
    }
  }

  lemma {:induction false} Skipped(text: seq<char>, p: nat)
    requires p <= |text|
    ensures forall k :: p <= k < SkipWhite(text, p) ==> White(text[k])
    decreases |text| - p
  {
    if p < |text| && White(text[p]) { Skipped(text, p + 1); }
  }

  lemma GluedFirst(text: seq<char>, t: Terminal, ts: seq<Terminal>)
    ensures Glued(text, [t] + ts) == Chars(text, t) + Glued(text, ts)
  {}

  lemma NothingGlued(text: seq<char>)
    ensures Glued(text, []) == [] && Solid(text[|text|..]) == []
  {}

  lemma BlankFirst(text: seq<char>, p: nat, s: nat)
    requires p <= s <= |text| && forall k :: p <= k < s ==> White(text[k])
    ensures Solid(text[p..]) == Solid(text[s..])
  {
    assert text[p..] == text[p..s] + text[s..];
    SolidJoin(text[p..s], text[s..]);
    SolidRun(text[p..s]);
  }

  lemma TokenChars(text: seq<char>, s: nat)
    requires s < |text| && !White(text[s])
    ensures var (t, e) := TokenAt(text, s);
            Chars(text, t) == text[s..e] && forall c :: c in text[s..e] ==> !White(c)
  {}

  /** The places nulterminate writes to. */
  function Ends(cmd: Cmd): set<nat> { set w | w in Words(cmd) :: w.end }

  lemma EndsUnion(a: Cmd, b: Cmd, c: Cmd)
    requires Words(c) == Words(a) + Words(b)
    ensures Ends(c) == Ends(a) + Ends(b)
  {}

  lemma EndsAdd(a: Cmd, w: Span, c: Cmd)
    requires Words(c) == Words(a) + {w}
    ensures Ends(c) == Ends(a) + {w.end}
  {}

  /** s with zeros at the given places. */
  function Zeroed(s: seq<char>, at: set<nat>): seq<char> {
    seq(|s|, k requires 0 <= k < |s| => if k in at then NUL else s[k])
  }

  method NulTerminate(cmd: Cmd, buf: array<char>)
    requires forall w :: w in Words(cmd) ==> w.end < buf.Length
    modifies buf
    ensures buf[..] == Zeroed(old(buf[..]), Ends(cmd))
    decreases cmd
  {
    match cmd {
      case ExecCmd(argv) =>
        var i := 0;
        while i < |argv|
          invariant 0 <= i <= |argv|
          invariant buf[..] == Zeroed(old(buf[..]), set w | w in argv[..i] :: w.end)
        {
          assert argv[i] in Words(cmd);
          assert argv[..i + 1] == argv[..i] + [argv[i]];
          buf[argv[i].end] := NUL;
          i := i + 1;
        }
        assert argv[..i] == argv;
        assert Ends(cmd) == set w | w in argv :: w.end;
      case RedirCmd(c, file, _, _) =>
        NulTerminate(c, buf);
        EndsAdd(c, file, cmd);
        assert file in Words(cmd);
        buf[file.end] := NUL;
      case PipeCmd(left, right) =>
        NulTerminate(left, buf);
        NulTerminate(right, buf);
        EndsUnion(left, right, cmd);
      case ListCmd(left, right) =>
        NulTerminate(left, buf);
        NulTerminate(right, buf);
        EndsUnion(left, right, cmd);
      case BackCmd(c) =>
        NulTerminate(c, buf);
        assert Ends(cmd) == Ends(c);
    }
  }

  /** The C string at index `start` of the buffer. */
  predicate ReadsAs(buf: seq<char>, start: nat, s: seq<char>) {
    start + |s| < |buf| && buf[start..start + |s|] == s && NUL !in s && buf[start + |s|] == NUL
  }

  /** Zeros after some words leave every word of the text as it was. */
  lemma WordsSurvive(text: seq<char>, buf: seq<char>, words: set<Span>, w: Span)
    requires |text| < |buf| && buf[..|text|] == text && NUL !in text
    requires w in words && forall v :: v in words ==> IsWord(text, v)
    ensures IsWord(text, w) && ReadsAs(Zeroed(buf, set v | v in words :: v.end), w.start, text[w.start..w.end])
  {
    var ends := set v | v in words :: v.end;
    forall k | w.start <= k < w.end ensures k !in ends && buf[k] == text[k] {
      assert buf[..|text|][k] == text[k];
    }
    assert Zeroed(buf, ends)[w.start..w.end] == text[w.start..w.end];
  }

  lemma WordsAreWords(text: seq<char>, ts: seq<Terminal>, words: set<Span>)
    requires ts == Lex(text, 0) && words == WordsIn(ts)
    ensures forall w :: w in words ==> IsWord(text, w)
  {
    LexWords(text, 0);
    forall w | w in words ensures IsWord(text, w) {
      assert Word(w) in ts;
    }
  }

  /** parsecmd on the line in buf, which ends at es: it accepts the lines of the grammar and
      no others, builds the tree of the derivation, and leaves every argument and file name in
      the buffer as a string of its own. */
  method ParseCmd(buf: array<char>, es: nat) returns (r: Option<Cmd>)
    requires es < buf.Length && buf[es] == NUL && NUL !in buf[..es]
    modifies buf
    ensures r.None? ==> buf[..] == old(buf[..])
    ensures r.None? ==> forall d :: !(GoodLine(d) && YieldLine(d, []) == Lex(old(buf[..es]), 0))
    ensures r.Some? ==> exists d :: GoodLine(d) && YieldLine(d, []) == Lex(old(buf[..es]), 0) && r.value == LineTree(d)
    ensures forall cmd :: r == Some(cmd) <==> SpellsLine(cmd, Lex(old(buf[..es]), 0))
    ensures r.Some? ==> forall o :: o in Openings(r.value) <==> Redirected(Lex(old(buf[..es]), 0), o)
    ensures r.Some? ==> Words(r.value) == WordsIn(Lex(old(buf[..es]), 0))
    ensures r.Some? ==> forall w :: w in Words(r.value) ==>
              (IsWord(old(buf[..es]), w) && ReadsAs(buf[..], w.start, old(buf[..es])[w.start..w.end]))
  {
    hide Lex, ParseLine, YieldLine, LineTree, GoodLine, Words, IsWord, ReadsAs, Zeroed;
    hide SpellsLine, Openings, Redirected;
    ghost var text := buf[..es];
    ghost var ts := Lex(text, 0);
    var s, more;
    r, s := ParseLineCmd(buf[..es], 0);
    Decides(ts);
    forall cmd ensures SpellsLine(cmd, ts) <==>
                         ParseLine(ts).Parsed? && ParseLine(ts).rest == [] && LineTree(ParseLine(ts).tree) == cmd {
      SpellsTree(ts, cmd);
    }
    if r.None? {
      return;
    }
    more, s := Peek(buf[..es], s, "");
    if s != es {
      return None;
    }
    ghost var d := ParseLine(ts).tree;
    TreeWords(ts, d);
    forall o ensures o in Openings(r.value) <==> Redirected(ts, o) { LineOpenings(r.value, ts, o); }
    WordsAreWords(text, ts, Words(r.value));
    forall w | w in Words(r.value) ensures w.start < w.end <= |text| { WordBounds(text, w); }
    ghost var full := buf[..];
    NulTerminate(r.value, buf);
    forall w | w in Words(r.value) ensures ReadsAs(buf[..], w.start, text[w.start..w.end]) {
      assert full[..es] == text;
      WordsSurvive(text, full, Words(r.value), w);
    }
  }

  lemma WordBounds(text: seq<char>, w: Span)
    requires IsWord(text, w)
    ensures w.start < w.end <= |text|
  {}

  /** What the parser says of a whole line. */
  lemma Decides(ts: seq<Terminal>)
    ensures var p := ParseLine(ts);
            && (p.Parsed? && p.rest == [] ==> GoodLine(p.tree) && YieldLine(p.tree, []) == ts)
            && (!(p.Parsed? && p.rest == []) ==> forall d :: !(GoodLine(d) && YieldLine(d, []) == ts))
  {
    var p := ParseLine(ts);
    if p.Parsed? { Accepts(ts, p.tree); }
    forall d | GoodLine(d) && YieldLine(d, []) == ts ensures p == Parsed(d, []) {
      Accepts(ts, d);
    }
  }

  lemma TreeWords(ts: seq<Terminal>, d: Line)
    requires YieldLine(d, []) == ts
    ensures Words(LineTree(d)) == WordsIn(ts)
  {
    LineWords(d, []);
  }
}
