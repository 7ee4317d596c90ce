/** The grammar that sh.c's parsing functions spell out, on token sequences, and the
    deterministic parser they implement. */
module ShellGrammar {
  import opened Basics

  const MAXARGS := 10

  /** Where a word stands in the line: argv[i] and eargv[i], or file and efile. */
  datatype Span = Span(start: nat, end: nat)

  /** Sym('+') is ">>". */
  datatype Terminal = Sym(c: char) | Word(span: Span)

  // ---- derivations ----

  datatype Redirection = Redirection(op: char, file: Span)
  datatype Argument = Argument(word: Span, redirs: seq<Redirection>)

  /** exec ::= ( line ) redir* | redir* (word redir*)* */
  datatype Exec =
    | Block(line: Line, redirs: seq<Redirection>)
    | Simple(redirs: seq<Redirection>, args: seq<Argument>)

  /** pipe ::= exec | exec '|' pipe */
  datatype Pipe = Pipe(exec: Exec, rest: Option<Pipe>)

  /** line ::= pipe '&'* | pipe '&'* ';' line */
  datatype Line = Line(pipe: Pipe, amps: nat, rest: Option<Line>)

  predicate RedirOp(c: char) { c == '<' || c == '>' || c == '+' }

  predicate GoodRedirs(rs: seq<Redirection>) { forall i :: 0 <= i < |rs| ==> RedirOp(rs[i].op) }

  predicate GoodArgs(args: seq<Argument>) { forall i :: 0 <= i < |args| ==> GoodRedirs(args[i].redirs) }

  /** A derivation uses redirection operators where it should, and no command has more than
      nine words. */
  predicate GoodExec(d: Exec) {
    match d
    case Block(line, redirs) => GoodLine(line) && GoodRedirs(redirs)
    case Simple(redirs, args) => GoodRedirs(redirs) && GoodArgs(args) && |args| < MAXARGS
  }

  predicate GoodPipe(d: Pipe) { GoodExec(d.exec) && (d.rest.Some? ==> GoodPipe(d.rest.value)) }

  predicate GoodLine(d: Line) { GoodPipe(d.pipe) && (d.rest.Some? ==> GoodLine(d.rest.value)) }

  // The token sequence a derivation derives, followed by k.

  function YieldRedirs(rs: seq<Redirection>, k: seq<Terminal>): seq<Terminal> {
    if rs == [] then k else [Sym(rs[0].op), Word(rs[0].file)] + YieldRedirs(rs[1..], k)
  }

  function YieldArgs(args: seq<Argument>, k: seq<Terminal>): seq<Terminal> {
    if args == [] then k else [Word(args[0].word)] + YieldRedirs(args[0].redirs, YieldArgs(args[1..], k))
  }

  function YieldExec(d: Exec, k: seq<Terminal>): seq<Terminal> {
    match d
    case Block(line, redirs) => [Sym('(')] + YieldLine(line, [Sym(')')] + YieldRedirs(redirs, k))
    case Simple(redirs, args) => YieldRedirs(redirs, YieldArgs(args, k))
  }

  function YieldPipe(d: Pipe, k: seq<Terminal>): seq<Terminal> {
    YieldExec(d.exec, if d.rest.Some? then [Sym('|')] + YieldPipe(d.rest.value, k) else k)
  }

  function Ands(n: nat, k: seq<Terminal>): seq<Terminal> {
    if n == 0 then k else [Sym('&')] + Ands(n - 1, k)
  }

  function YieldLine(d: Line, k: seq<Terminal>): seq<Terminal> {
    YieldPipe(d.pipe, Ands(d.amps, if d.rest.Some? then [Sym(';')] + YieldLine(d.rest.value, k) else k))
  }

  // ---- the parser ----

  datatype Parsed<+T> = Panic | Parsed(tree: T, rest: seq<Terminal>)

  predicate Starts(ts: seq<Terminal>, c: char) { ts != [] && ts[0] == Sym(c) }

  predicate StartsRedir(ts: seq<Terminal>) { ts != [] && ts[0].Sym? && RedirOp(ts[0].c) }

  predicate StartsEnd(ts: seq<Terminal>) {
    ts == [] || Starts(ts, '|') || Starts(ts, ')') || Starts(ts, '&') || Starts(ts, ';')
  }

  function ParseRedirs(ts: seq<Terminal>): (r: Parsed<seq<Redirection>>)
    ensures r.Parsed? ==> |r.rest| <= |ts|
  {
    if !StartsRedir(ts) then Parsed([], ts)
    else if |ts| < 2 || !ts[1].Word? then Panic
    else match ParseRedirs(ts[2..])
      case Panic => Panic
      case Parsed(rs, rest) => Parsed([Redirection(ts[0].c, ts[1].span)] + rs, rest)
  }

  /** The words of a command that has n already. */
  function ParseArgs(ts: seq<Terminal>, n: nat): (r: Parsed<seq<Argument>>)
    ensures r.Parsed? ==> |r.rest| <= |ts|
    decreases |ts|
  {
    if StartsEnd(ts) then Parsed([], ts)
    else if !ts[0].Word? || n + 1 >= MAXARGS then Panic
    else match ParseRedirs(ts[1..])
      case Panic => Panic
      case Parsed(rs, rest) =>
        match ParseArgs(rest, n + 1)
        case Panic => Panic
        case Parsed(args, rest') => Parsed([Argument(ts[0].span, rs)] + args, rest')
  }

  function ParseSimple(ts: seq<Terminal>): (r: Parsed<Exec>)
    ensures r.Parsed? ==> |r.rest| <= |ts|
  {
    match ParseRedirs(ts)
    case Panic => Panic
    case Parsed(rs, rest) =>
      match ParseArgs(rest, 0)
      case Panic => Panic
      case Parsed(args, rest') => Parsed(Simple(rs, args), rest')
  }

  function ParseBlock(ts: seq<Terminal>): (r: Parsed<Exec>)
    requires Starts(ts, '(')
    ensures r.Parsed? ==> |r.rest| <= |ts|
    decreases |ts|, 0
  {
    match ParseLine(ts[1..])
    case Panic => Panic
    case Parsed(line, rest) =>
      if !Starts(rest, ')') then Panic
      else match ParseRedirs(rest[1..])
        case Panic => Panic
        case Parsed(rs, rest') => Parsed(Block(line, rs), rest')
  }

  function ParseExec(ts: seq<Terminal>): (r: Parsed<Exec>)
    ensures r.Parsed? ==> |r.rest| <= |ts|
    decreases |ts|, 1
  {
    if Starts(ts, '(') then ParseBlock(ts) else ParseSimple(ts)
  }

  function ParsePipe(ts: seq<Terminal>): (r: Parsed<Pipe>)
    ensures r.Parsed? ==> |r.rest| <= |ts|
    decreases |ts|, 2
  {
    match ParseExec(ts)
    case Panic => Panic
    case Parsed(exec, rest) =>
      if !Starts(rest, '|') then Parsed(Pipe(exec, None), rest)
      else match ParsePipe(rest[1..])
        case Panic => Panic
        case Parsed(pipe, rest') => Parsed(Pipe(exec, Some(pipe)), rest')
  }

  function CountAnds(ts: seq<Terminal>): (n: nat)
    ensures n <= |ts|
  {
    if Starts(ts, '&') then 1 + CountAnds(ts[1..]) else 0
  }

  function ParseLine(ts: seq<Terminal>): (r: Parsed<Line>)
    ensures r.Parsed? ==> |r.rest| <= |ts|
    decreases |ts|, 3
  {
    match ParsePipe(ts)
    case Panic => Panic
    case Parsed(pipe, rest0) =>
      var n := CountAnds(rest0);
      var rest := rest0[n..];
      if !Starts(rest, ';') then Parsed(Line(pipe, n, None), rest)
      else match ParseLine(rest[1..])
        case Panic => Panic
        case Parsed(line, rest') => Parsed(Line(pipe, n, Some(line)), rest')
  }

  // ---- what it accepts is derived ----

  lemma {:induction false} RedirsSound(ts: seq<Terminal>)
    ensures var r := ParseRedirs(ts);
            r.Parsed? ==> GoodRedirs(r.tree) && ts == YieldRedirs(r.tree, r.rest) && !StartsRedir(r.rest)
  {
    var r := ParseRedirs(ts);
    if r.Parsed? && StartsRedir(ts) {
      RedirsSound(ts[2..]);
      assert r.tree[1..] == ParseRedirs(ts[2..]).tree;
      assert ts == [ts[0], ts[1]] + ts[2..];
    }
  }

  lemma {:induction false} ArgsSound(ts: seq<Terminal>, n: nat)
    requires n < MAXARGS
    ensures var r := ParseArgs(ts, n);
            r.Parsed? ==>
              GoodArgs(r.tree) && n + |r.tree| < MAXARGS && ts == YieldArgs(r.tree, r.rest) && StartsEnd(r.rest)
    decreases |ts|
  {
    hide YieldArgs, YieldRedirs, GoodArgs, GoodRedirs, ParseRedirs;
    var r := ParseArgs(ts, n);
    if StartsEnd(ts) {
      NoArgs(ts);
    } else if r.Parsed? {
      RedirsSound(ts[1..]);
      var m := ParseRedirs(ts[1..]);
      ArgsSound(m.rest, n + 1);
      OneArg(ts, m.tree, ParseArgs(m.rest, n + 1).tree, r.rest);
    }
  }

  lemma NoArgs(k: seq<Terminal>)
    ensures GoodArgs([]) && YieldArgs([], k) == k
  {}

  lemma OneArg(ts: seq<Terminal>, rs: seq<Redirection>, args: seq<Argument>, k: seq<Terminal>)
    requires ts != [] && ts[0].Word? && GoodRedirs(rs) && GoodArgs(args)
    requires ts[1..] == YieldRedirs(rs, YieldArgs(args, k))
    ensures var all := [Argument(ts[0].span, rs)] + args;
            GoodArgs(all) && ts == YieldArgs(all, k)
  {
    hide YieldRedirs, GoodRedirs;
    var all := [Argument(ts[0].span, rs)] + args;
    assert all[1..] == args;
    assert ts == [ts[0]] + ts[1..];
  }

  lemma SimpleSound(ts: seq<Terminal>)
    ensures var r := ParseSimple(ts);
            r.Parsed? ==> GoodExec(r.tree) && ts == YieldExec(r.tree, r.rest)
  {
    if ParseSimple(ts).Parsed? {
      RedirsSound(ts);
      ArgsSound(ParseRedirs(ts).rest, 0);
    }
  }

  lemma {:induction false} BlockSound(ts: seq<Terminal>)
    requires Starts(ts, '(')
    ensures var r := ParseBlock(ts);
            r.Parsed? ==> GoodExec(r.tree) && ts == YieldExec(r.tree, r.rest)
    decreases |ts|, 0
  {
    if ParseBlock(ts).Parsed? {
      LineSound(ts[1..]);
      var rest := ParseLine(ts[1..]).rest;
      RedirsSound(rest[1..]);
      assert rest == [Sym(')')] + rest[1..];
      assert ts == [Sym('(')] + ts[1..];
    }
  }

  lemma {:induction false} ExecSound(ts: seq<Terminal>)
    ensures var r := ParseExec(ts);
            r.Parsed? ==> GoodExec(r.tree) && ts == YieldExec(r.tree, r.rest)
    decreases |ts|, 1
  {
    hide GoodExec, YieldExec, ParseBlock, ParseSimple;
    if Starts(ts, '(') { BlockSound(ts); } else { SimpleSound(ts); }
  }

  lemma {:induction false} PipeSound(ts: seq<Terminal>)
    ensures var r := ParsePipe(ts);
            r.Parsed? ==> GoodPipe(r.tree) && ts == YieldPipe(r.tree, r.rest)
    decreases |ts|, 2
  {
    hide GoodExec, YieldExec, ParseExec;
    if ParsePipe(ts).Parsed? {
      ExecSound(ts);
      var rest := ParseExec(ts).rest;
      if Starts(rest, '|') {
        PipeSound(rest[1..]);
        assert rest == [Sym('|')] + rest[1..];
      }
    }
  }

  lemma {:induction false} AndsSound(ts: seq<Terminal>)
    ensures ts == Ands(CountAnds(ts), ts[CountAnds(ts)..]) && !Starts(ts[CountAnds(ts)..], '&')
  {
    if Starts(ts, '&') {
      AndsSound(ts[1..]);
      var n := CountAnds(ts[1..]);
      assert ts[1..][n..] == ts[n + 1..];
      assert ts == [Sym('&')] + ts[1..];
    }
  }

  lemma {:induction false} LineSound(ts: seq<Terminal>)
    ensures var r := ParseLine(ts);
            r.Parsed? ==> GoodLine(r.tree) && ts == YieldLine(r.tree, r.rest)
    decreases |ts|, 3
  {
    hide GoodPipe, YieldPipe, ParsePipe, CountAnds, Ands;
    if ParseLine(ts).Parsed? {
      PipeSound(ts);
      var m := ParsePipe(ts);
      AndsSound(m.rest);
      var rest := m.rest[CountAnds(m.rest)..];
      if Starts(rest, ';') {
        LineSound(rest[1..]);
        assert rest == [Sym(';')] + rest[1..];
      }
    }
  }

  // ---- and it accepts what is derived ----

  lemma {:induction false} RedirsComplete(rs: seq<Redirection>, k: seq<Terminal>)
    requires GoodRedirs(rs) && !StartsRedir(k)
    ensures ParseRedirs(YieldRedirs(rs, k)) == Parsed(rs, k)
  {
    if rs != [] {
      RedirsComplete(rs[1..], k);
      var ts := YieldRedirs(rs, k);
      assert ts[2..] == YieldRedirs(rs[1..], k);
      assert rs == [Redirection(ts[0].c, ts[1].span)] + rs[1..];
    }
  }

  lemma ArgsStart(args: seq<Argument>, k: seq<Terminal>)
    requires StartsEnd(k)
    ensures !StartsRedir(YieldArgs(args, k)) && !Starts(YieldArgs(args, k), '(')
  {}

  lemma {:induction false} ArgsComplete(args: seq<Argument>, k: seq<Terminal>, n: nat)
    requires GoodArgs(args) && StartsEnd(k) && n + |args| < MAXARGS
    ensures ParseArgs(YieldArgs(args, k), n) == Parsed(args, k)
    decreases |args|
  {
    hide ParseRedirs, YieldRedirs;
    if args != [] {
      var more := YieldArgs(args[1..], k);
      ArgsComplete(args[1..], k, n + 1);
      ArgsStart(args[1..], k);
      RedirsComplete(args[0].redirs, more);
      var ts := YieldArgs(args, k);
      assert ts[1..] == YieldRedirs(args[0].redirs, more);
      assert args == [Argument(ts[0].span, args[0].redirs)] + args[1..];
    }
  }

  lemma SimpleComplete(redirs: seq<Redirection>, args: seq<Argument>, k: seq<Terminal>)
    requires GoodExec(Simple(redirs, args)) && StartsEnd(k)
    ensures ParseExec(YieldExec(Simple(redirs, args), k)) == Parsed(Simple(redirs, args), k)
  {
    ArgsStart(args, k);
    RedirsComplete(redirs, YieldArgs(args, k));
    ArgsComplete(args, k, 0);
  }

  lemma {:induction false} ExecComplete(d: Exec, k: seq<Terminal>)
    requires GoodExec(d) && StartsEnd(k)
    ensures ParseExec(YieldExec(d, k)) == Parsed(d, k)
    decreases d
  {
    match d
    case Simple(redirs, args) => SimpleComplete(redirs, args, k);
    case Block(line, redirs) =>
      var after := [Sym(')')] + YieldRedirs(redirs, k);
      LineComplete(line, after);
      RedirsComplete(redirs, k);
      assert after[1..] == YieldRedirs(redirs, k);
      assert YieldExec(d, k)[1..] == YieldLine(line, after);
  }

  lemma {:induction false} PipeComplete(d: Pipe, k: seq<Terminal>)
    requires GoodPipe(d) && StartsEnd(k) && !Starts(k, '|')
    ensures ParsePipe(YieldPipe(d, k)) == Parsed(d, k)
    decreases d
  {
    if d.rest.Some? {
      var after := [Sym('|')] + YieldPipe(d.rest.value, k);
      PipeComplete(d.rest.value, k);
      ExecComplete(d.exec, after);
      assert after[1..] == YieldPipe(d.rest.value, k);
    } else {
      ExecComplete(d.exec, k);
    }
  }

  lemma {:induction false} AndsComplete(n: nat, k: seq<Terminal>)
    requires !Starts(k, '&')
    ensures CountAnds(Ands(n, k)) == n && Ands(n, k)[n..] == k
  {
    if n > 0 {
      AndsComplete(n - 1, k);
      assert Ands(n, k)[1..] == Ands(n - 1, k);
    }
  }

  lemma AndsEnd(n: nat, k: seq<Terminal>)
    requires StartsEnd(k) && !Starts(k, '|')
    ensures StartsEnd(Ands(n, k)) && !Starts(Ands(n, k), '|')
  {}

  lemma {:induction false} LineComplete(d: Line, k: seq<Terminal>)
    requires GoodLine(d) && (k == [] || Starts(k, ')'))
    ensures ParseLine(YieldLine(d, k)) == Parsed(d, k)
    decreases d
  {
    var after := if d.rest.Some? then [Sym(';')] + YieldLine(d.rest.value, k) else k;
    AndsComplete(d.amps, after);
    AndsEnd(d.amps, after);
    PipeComplete(d.pipe, Ands(d.amps, after));
    if d.rest.Some? {
      LineComplete(d.rest.value, k);
      assert after[1..] == YieldLine(d.rest.value, k);
    }
  }

  /** The parser accepts a token sequence exactly when the grammar derives it, and there is
      only one derivation. */
  lemma Accepts(ts: seq<Terminal>, d: Line)
    ensures ParseLine(ts) == Parsed(d, []) <==> GoodLine(d) && YieldLine(d, []) == ts
  {
    if ParseLine(ts) == Parsed(d, []) { LineSound(ts); }
    if GoodLine(d) && YieldLine(d, []) == ts { LineComplete(d, []); }
  }

  // ---- the command tree ----

  datatype Mode = ReadOnly | WriteCreate

  /** struct cmd. */
  datatype Cmd =
    | ExecCmd(argv: seq<Span>)
    | RedirCmd(cmd: Cmd, file: Span, mode: Mode, fd: int)
    | PipeCmd(left: Cmd, right: Cmd)
    | ListCmd(left: Cmd, right: Cmd)
    | BackCmd(cmd: Cmd)

  /** ">>" is treated like ">". */
  function Wrap(cmd: Cmd, rs: seq<Redirection>): Cmd
    decreases |rs|
  {
    if rs == [] then cmd
    else
      var r := rs[0];
      Wrap(RedirCmd(cmd, r.file, if r.op == '<' then ReadOnly else WriteCreate, if r.op == '<' then 0 else 1), rs[1..])
  }

  function Background(cmd: Cmd, n: nat): Cmd { if n == 0 then cmd else BackCmd(Background(cmd, n - 1)) }

  function ArgWords(args: seq<Argument>): seq<Span> { seq(|args|, i requires 0 <= i < |args| => args[i].word) }

  function ArgRedirs(args: seq<Argument>): seq<Redirection> {
    if args == [] then [] else args[0].redirs + ArgRedirs(args[1..])
  }

  function ExecTree(d: Exec): Cmd {
    match d
    case Block(line, redirs) => Wrap(LineTree(line), redirs)
    case Simple(redirs, args) => Wrap(ExecCmd(ArgWords(args)), redirs + ArgRedirs(args))
  }

  function PipeTree(d: Pipe): Cmd {
    if d.rest.None? then ExecTree(d.exec) else PipeCmd(ExecTree(d.exec), PipeTree(d.rest.value))
  }

  function LineTree(d: Line): Cmd {
    var cmd := Background(PipeTree(d.pipe), d.amps);
    if d.rest.None? then cmd else ListCmd(cmd, LineTree(d.rest.value))
  }

  /** The words of a command: arguments and file names. */
  function Words(cmd: Cmd): set<Span> {
    match cmd
    case ExecCmd(argv) => set w | w in argv
    case RedirCmd(c, file, _, _) => Words(c) + {file}
    case PipeCmd(l, r) => Words(l) + Words(r)
    case ListCmd(l, r) => Words(l) + Words(r)
    case BackCmd(c) => Words(c)
  }

  function WordsIn(ts: seq<Terminal>): set<Span> { set t | t in ts && t.Word? :: t.span }

  lemma WordsCons(t: Terminal, ts: seq<Terminal>)
    ensures WordsIn([t] + ts) == (if t.Word? then {t.span} else {}) + WordsIn(ts)
  {
    forall w ensures w in WordsIn([t] + ts) <==> w in (if t.Word? then {t.span} else {}) + WordsIn(ts) {
      assert w in WordsIn([t] + ts) <==> Word(w) in [t] + ts;
      assert w in WordsIn(ts) <==> Word(w) in ts;
    }
  }

  function FileSet(rs: seq<Redirection>): set<Span> { set r | r in rs :: r.file }

  lemma {:induction false} WrapWords(cmd: Cmd, rs: seq<Redirection>)
    ensures Words(Wrap(cmd, rs)) == Words(cmd) + FileSet(rs)
    decreases |rs|
  {
    if rs != [] {
      var r := rs[0];
      var mode, fd := if r.op == '<' then ReadOnly else WriteCreate, if r.op == '<' then 0 else 1;
      WrapWords(RedirCmd(cmd, r.file, mode, fd), rs[1..]);
      assert rs == [r] + rs[1..];
      assert FileSet(rs) == {r.file} + FileSet(rs[1..]);
    }
  }

  lemma {:induction false} RedirWords(rs: seq<Redirection>, k: seq<Terminal>)
    ensures WordsIn(YieldRedirs(rs, k)) == FileSet(rs) + WordsIn(k)
  {
    if rs != [] {
      RedirWords(rs[1..], k);
      var more := YieldRedirs(rs[1..], k);
      assert YieldRedirs(rs, k) == [Sym(rs[0].op)] + ([Word(rs[0].file)] + more);
      WordsCons(Sym(rs[0].op), [Word(rs[0].file)] + more);
      WordsCons(Word(rs[0].file), more);
      assert rs == [rs[0]] + rs[1..];
      assert FileSet(rs) == {rs[0].file} + FileSet(rs[1..]);
    }
  }

  function ArgSet(args: seq<Argument>): set<Span> {
    if args == [] then {} else {args[0].word} + FileSet(args[0].redirs) + ArgSet(args[1..])
  }

  lemma {:induction false} ArgsWords(args: seq<Argument>, k: seq<Terminal>)
    ensures WordsIn(YieldArgs(args, k)) == ArgSet(args) + WordsIn(k)
  {
    if args != [] {
      ArgsWords(args[1..], k);
      var more := YieldArgs(args[1..], k);
      RedirWords(args[0].redirs, more);
      WordsCons(Word(args[0].word), YieldRedirs(args[0].redirs, more));
    }
  }

  lemma {:induction false} ArgSetParts(args: seq<Argument>)
    ensures ArgSet(args) == (set w | w in ArgWords(args)) + FileSet(ArgRedirs(args))
  {
    if args != [] {
      ArgSetParts(args[1..]);
      assert ArgWords(args) == [args[0].word] + ArgWords(args[1..]);
      FilesAppend(args[0].redirs, ArgRedirs(args[1..]));
    }
  }

  lemma FilesAppend(a: seq<Redirection>, b: seq<Redirection>)
    ensures FileSet(a + b) == FileSet(a) + FileSet(b)
  {}

  lemma {:induction false} ExecWords(d: Exec, k: seq<Terminal>)
    ensures WordsIn(YieldExec(d, k)) == Words(ExecTree(d)) + WordsIn(k)
    decreases d
  {
    match d
    case Simple(redirs, args) =>
      ArgsWords(args, k);
      RedirWords(redirs, YieldArgs(args, k));
      ArgSetParts(args);
      FilesAppend(redirs, ArgRedirs(args));
      WrapWords(ExecCmd(ArgWords(args)), redirs + ArgRedirs(args));
    case Block(line, redirs) =>
      var after := [Sym(')')] + YieldRedirs(redirs, k);
      RedirWords(redirs, k);
      WordsCons(Sym(')'), YieldRedirs(redirs, k));
      LineWords(line, after);
      WordsCons(Sym('('), YieldLine(line, after));
      WrapWords(LineTree(line), redirs);
  }

  lemma {:induction false} PipeWords(d: Pipe, k: seq<Terminal>)
    ensures WordsIn(YieldPipe(d, k)) == Words(PipeTree(d)) + WordsIn(k)
    decreases d
  {
    if d.rest.Some? {
      PipeWords(d.rest.value, k);
      WordsCons(Sym('|'), YieldPipe(d.rest.value, k));
      ExecWords(d.exec, [Sym('|')] + YieldPipe(d.rest.value, k));
    } else {
      ExecWords(d.exec, k);
    }
  }

  lemma {:induction false} AndsWords(cmd: Cmd, n: nat, k: seq<Terminal>)
    ensures WordsIn(Ands(n, k)) == WordsIn(k) && Words(Background(cmd, n)) == Words(cmd)
  {
    if n > 0 {
      AndsWords(cmd, n - 1, k);
      WordsCons(Sym('&'), Ands(n - 1, k));
    }
  }

  /** No word of the line is lost, and none is invented. */
  lemma {:induction false} LineWords(d: Line, k: seq<Terminal>)
    ensures WordsIn(YieldLine(d, k)) == Words(LineTree(d)) + WordsIn(k)
    decreases d
  {
    var after := if d.rest.Some? then [Sym(';')] + YieldLine(d.rest.value, k) else k;
    PipeWords(d.pipe, Ands(d.amps, after));
    AndsWords(PipeTree(d.pipe), d.amps, after);
    if d.rest.Some? {
      LineWords(d.rest.value, k);
      WordsCons(Sym(';'), YieldLine(d.rest.value, k));
    }
  }
}
