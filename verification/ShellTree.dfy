/** Which command tree a token sequence spells, said of trees and tokens only: a simple command
    grows a word or a redirection at a time, a block stands in parentheses, and left stands
    before `|` or `;` before right. The parser's tree is the one that is spelled. */
module ShellTree {
  import opened Basics
  import opened ShellGrammar

  // ---- trees and tokens ----

  /** "<" opens for reading on descriptor 0, ">" and ">>" for writing on 1. */
  predicate Opens(t: Terminal, mode: Mode, fd: int) {
    || (t == Sym('<') && mode == ReadOnly && fd == 0)
    || ((t == Sym('>') || t == Sym('+')) && mode == WriteCreate && fd == 1)
  }

  /** One more word for the command inside its redirections: cmd->argv[argc] = q. */
  function AddWord(cmd: Cmd, w: Span): Cmd {
    match cmd
    case ExecCmd(argv) => ExecCmd(argv + [w])
    case RedirCmd(c, file, mode, fd) => RedirCmd(AddWord(c, w), file, mode, fd)
    case _ => cmd
  }

  function Argv(cmd: Cmd): seq<Span> {
    match cmd
    case ExecCmd(argv) => argv
    case RedirCmd(c, _, _, _) => Argv(c)
    case _ => []
  }

  /** ts ends in a redirection operator and the file name that cmd is redirected to. */
  predicate EndsRedirected(cmd: Cmd, ts: seq<Terminal>) {
    && cmd.RedirCmd? && |ts| >= 2
    && ts[|ts| - 1] == Word(cmd.file) && Opens(ts[|ts| - 2], cmd.mode, cmd.fd)
  }

  /** Words, and redirections around what comes before them. */
  ghost predicate SpellsSimple(cmd: Cmd, ts: seq<Terminal>)
    decreases |ts|
  {
    if ts == [] then cmd == ExecCmd([])
    else if |ts| >= 2 && !ts[|ts| - 2].Word? then
      EndsRedirected(cmd, ts) && SpellsSimple(cmd.cmd, ts[..|ts| - 2])
    else
      var front, last := ts[..|ts| - 1], ts[|ts| - 1];
      last.Word? && exists c :: SpellsSimple(c, front) && cmd == AddWord(c, last.span)
  }

  /** A line in parentheses, and redirections of it as a whole. */
  ghost predicate SpellsBlock(cmd: Cmd, ts: seq<Terminal>)
    decreases |ts|, 1
  {
    || (|ts| >= 2 && ts[0] == Sym('(') && ts[|ts| - 1] == Sym(')') && SpellsLine(cmd, ts[1..|ts| - 1]))
    || (EndsRedirected(cmd, ts) && SpellsBlock(cmd.cmd, ts[..|ts| - 2]))
  }

  ghost predicate SpellsExec(cmd: Cmd, ts: seq<Terminal>)
    decreases |ts|, 2
  {
    (SpellsSimple(cmd, ts) && |Argv(cmd)| < 10) || SpellsBlock(cmd, ts)
  }

  ghost predicate SpellsPipe(cmd: Cmd, ts: seq<Terminal>)
    decreases |ts|, 3
  {
    || SpellsExec(cmd, ts)
    || (cmd.PipeCmd? &&
        exists k :: (0 <= k < |ts| && ts[k] == Sym('|')
                     && SpellsExec(cmd.left, ts[..k]) && SpellsPipe(cmd.right, ts[k + 1..])))
  }

  ghost predicate SpellsBack(cmd: Cmd, ts: seq<Terminal>)
    decreases |ts|, 4
  {
    || SpellsPipe(cmd, ts)
    || (cmd.BackCmd? && ts != [] && ts[|ts| - 1] == Sym('&') && SpellsBack(cmd.cmd, ts[..|ts| - 1]))
  }

  ghost predicate SpellsLine(cmd: Cmd, ts: seq<Terminal>)
    decreases |ts|, 5
  {
    || SpellsBack(cmd, ts)
    || (cmd.ListCmd? &&
        exists k :: (0 <= k < |ts| && ts[k] == Sym(';')
                     && SpellsBack(cmd.left, ts[..k]) && SpellsLine(cmd.right, ts[k + 1..])))
  }

  // ---- what a derivation yields, without what follows it ----

  lemma {:induction false} RedirsThen(rs: seq<Redirection>, k: seq<Terminal>)
    ensures YieldRedirs(rs, k) == YieldRedirs(rs, []) + k
  {
    if rs != [] { RedirsThen(rs[1..], k); }
  }

  lemma {:induction false} ArgsThen(args: seq<Argument>, k: seq<Terminal>)
    ensures YieldArgs(args, k) == YieldArgs(args, []) + k
  {
    if args != [] {
      ArgsThen(args[1..], k);
      RedirsThen(args[0].redirs, YieldArgs(args[1..], k));
      RedirsThen(args[0].redirs, YieldArgs(args[1..], []));
    }
  }

  lemma {:induction false} ExecThen(d: Exec, k: seq<Terminal>)
    ensures YieldExec(d, k) == YieldExec(d, []) + k
    decreases d
  {
    match d
    case Simple(redirs, args) =>
      ArgsThen(args, k);
      RedirsThen(redirs, YieldArgs(args, k));
      RedirsThen(redirs, YieldArgs(args, []));
    case Block(line, redirs) =>
      RedirsThen(redirs, k);
      LineThen(line, [Sym(')')] + YieldRedirs(redirs, k));
      LineThen(line, [Sym(')')] + YieldRedirs(redirs, []));
  }

  lemma {:induction false} PipeThen(d: Pipe, k: seq<Terminal>)
    ensures YieldPipe(d, k) == YieldPipe(d, []) + k
    decreases d
  {
    hide YieldExec;
    if d.rest.Some? {
      PipeThen(d.rest.value, k);
      ExecThen(d.exec, [Sym('|')] + YieldPipe(d.rest.value, k));
      ExecThen(d.exec, [Sym('|')] + YieldPipe(d.rest.value, []));
    } else {
      ExecThen(d.exec, k);
    }
  }

  lemma {:induction false} AndsThen(n: nat, k: seq<Terminal>)
    ensures Ands(n, k) == Ands(n, []) + k
  {
    if n > 0 { AndsThen(n - 1, k); }
  }

  lemma {:induction false} LineThen(d: Line, k: seq<Terminal>)
    ensures YieldLine(d, k) == YieldLine(d, []) + k
    decreases d
  {
    hide YieldPipe;
    LineParts(d, k);
    LineParts(d, []);
    if d.rest.Some? { LineThen(d.rest.value, k); }
  }

  /** A line's pipe, its `&`s and what comes after them. */
  lemma LineParts(d: Line, k: seq<Terminal>)
    ensures YieldLine(d, k) ==
            YieldPipe(d.pipe, []) + Ands(d.amps, [])
            + if d.rest.Some? then [Sym(';')] + YieldLine(d.rest.value, k) else k
  {
    hide YieldPipe, Ands;
    var after := if d.rest.Some? then [Sym(';')] + YieldLine(d.rest.value, k) else k;
    AndsThen(d.amps, after);
    PipeThen(d.pipe, Ands(d.amps, after));
  }

  // ---- the tree of a derivation is spelled by what it derives ----

  /** The first of a list of redirections. */
  lemma WrapFirst(cmd: Cmd, rs: seq<Redirection>, ts: seq<Terminal>)
    requires rs != [] && GoodRedirs(rs)
    ensures var c, t := Wrap(cmd, [rs[0]]), ts + [Sym(rs[0].op), Word(rs[0].file)];
            && EndsRedirected(c, t) && c.cmd == cmd && t[..|t| - 2] == ts && GoodRedirs(rs[1..])
            && Wrap(cmd, rs) == Wrap(c, rs[1..]) && ts + YieldRedirs(rs, []) == t + YieldRedirs(rs[1..], [])
  {
    hide Wrap, YieldRedirs;
    assert RedirOp(rs[0].op);
    WrapStep(cmd, rs);
    OneWrapped(cmd, rs[0]);
    OneYielded(rs, ts);
  }

  lemma WrapStep(cmd: Cmd, rs: seq<Redirection>)
    requires rs != []
    ensures Wrap(cmd, rs) == Wrap(Wrap(cmd, [rs[0]]), rs[1..])
  {
    assert [rs[0]][1..] == [];
  }

  lemma OneWrapped(cmd: Cmd, r: Redirection)
    requires RedirOp(r.op)
    ensures var c := Wrap(cmd, [r]); c.RedirCmd? && c.cmd == cmd && c.file == r.file && Opens(Sym(r.op), c.mode, c.fd)
  {
    assert [r][1..] == [];
  }

  lemma OneYielded(rs: seq<Redirection>, ts: seq<Terminal>)
    requires rs != []
    ensures var t := ts + [Sym(rs[0].op), Word(rs[0].file)];
            t[..|t| - 2] == ts && ts + YieldRedirs(rs, []) == t + YieldRedirs(rs[1..], [])
  {
    hide YieldRedirs;
    YieldFirst(rs);
    PairBehind(ts, Sym(rs[0].op), Word(rs[0].file), YieldRedirs(rs[1..], []));
  }

  lemma YieldFirst(rs: seq<Redirection>)
    requires rs != []
    ensures YieldRedirs(rs, []) == [Sym(rs[0].op), Word(rs[0].file)] + YieldRedirs(rs[1..], [])
  {}

  lemma PairBehind(ts: seq<Terminal>, x: Terminal, y: Terminal, more: seq<Terminal>)
    ensures (ts + [x, y])[..|ts + [x, y]| - 2] == ts && ts + ([x, y] + more) == ts + [x, y] + more
  {}

  lemma {:induction false} WrapSimple(cmd: Cmd, ts: seq<Terminal>, rs: seq<Redirection>)
    requires SpellsSimple(cmd, ts) && GoodRedirs(rs)
    ensures SpellsSimple(Wrap(cmd, rs), ts + YieldRedirs(rs, []))
    decreases |rs|
  {
    if rs == [] {
      assert ts + [] == ts;
    } else {
      var t := ts + [Sym(rs[0].op), Word(rs[0].file)];
      WrapFirst(cmd, rs, ts);
      WrapSimple(Wrap(cmd, [rs[0]]), t, rs[1..]);
    }
  }

  lemma {:induction false} WrapTwice(cmd: Cmd, a: seq<Redirection>, b: seq<Redirection>)
    ensures Wrap(Wrap(cmd, a), b) == Wrap(cmd, a + b)
    decreases |a|
  {
    if a == [] {
      assert a + b == b;
    } else {
      assert (a + b)[1..] == a[1..] + b;
      WrapStep(cmd, a);
      WrapStep(cmd, a + b);
      WrapTwice(Wrap(cmd, [a[0]]), a[1..], b);
    }
  }

  lemma {:induction false} AddWordWrap(cmd: Cmd, rs: seq<Redirection>, w: Span)
    ensures AddWord(Wrap(cmd, rs), w) == Wrap(AddWord(cmd, w), rs)
    decreases |rs|
  {
    if rs != [] {
      WrapStep(cmd, rs);
      WrapStep(AddWord(cmd, w), rs);
      AddWordWrap(Wrap(cmd, [rs[0]]), rs[1..], w);
    }
  }

  lemma {:induction false} ArgvWrap(cmd: Cmd, rs: seq<Redirection>)
    ensures Argv(Wrap(cmd, rs)) == Argv(cmd)
    decreases |rs|
  {
    if rs != [] {
      WrapStep(cmd, rs);
      ArgvWrap(Wrap(cmd, [rs[0]]), rs[1..]);
    }
  }

  lemma WordAdded(cmd: Cmd, ts: seq<Terminal>, w: Span)
    requires SpellsSimple(cmd, ts)
    ensures SpellsSimple(AddWord(cmd, w), ts + [Word(w)])
  {
    var t := ts + [Word(w)];
    assert t[..|t| - 1] == ts;
    LastIsWord(cmd, ts);
  }

  lemma LastIsWord(cmd: Cmd, ts: seq<Terminal>)
    requires SpellsSimple(cmd, ts)
    ensures ts != [] ==> ts[|ts| - 1].Word?
  {}

  lemma {:induction false} ArgsSpell(argv: seq<Span>, rs: seq<Redirection>, ts: seq<Terminal>, args: seq<Argument>)
    requires SpellsSimple(Wrap(ExecCmd(argv), rs), ts) && GoodArgs(args)
    ensures SpellsSimple(Wrap(ExecCmd(argv + ArgWords(args)), rs + ArgRedirs(args)), ts + YieldArgs(args, []))
    decreases |args|
  {
    hide SpellsSimple, Wrap, YieldRedirs, GoodRedirs;
    if args == [] {
      assert argv + ArgWords(args) == argv && rs + ArgRedirs(args) == rs && ts + YieldArgs(args, []) == ts;
    } else {
      var arg, rest := args[0], args[1..];
      WordAdded(Wrap(ExecCmd(argv), rs), ts, arg.word);
      AddWordWrap(ExecCmd(argv), rs, arg.word);
      WrapSimple(Wrap(ExecCmd(argv + [arg.word]), rs), ts + [Word(arg.word)], arg.redirs);
      WrapTwice(ExecCmd(argv + [arg.word]), rs, arg.redirs);
      ArgsSpell(argv + [arg.word], rs + arg.redirs, ts + [Word(arg.word)] + YieldRedirs(arg.redirs, []), rest);
      RedirsThen(arg.redirs, YieldArgs(rest, []));
      assert argv + ArgWords(args) == argv + [arg.word] + ArgWords(rest);
      assert rs + ArgRedirs(args) == rs + arg.redirs + ArgRedirs(rest);
      assert ts + YieldArgs(args, []) == ts + [Word(arg.word)] + YieldRedirs(arg.redirs, []) + YieldArgs(rest, []);
    }
  }

  lemma SimpleSpells(redirs: seq<Redirection>, args: seq<Argument>)
    requires GoodExec(Simple(redirs, args))
    ensures SpellsExec(ExecTree(Simple(redirs, args)), YieldExec(Simple(redirs, args), []))
  {
    hide SpellsSimple, Wrap, YieldRedirs, YieldArgs, GoodRedirs, GoodArgs;
    NoTokens();
    WrapSimple(ExecCmd([]), [], redirs);
    ArgsSpell([], redirs, [] + YieldRedirs(redirs, []), args);
    assert [] + ArgWords(args) == ArgWords(args);
    RedirsThen(redirs, YieldArgs(args, []));
    assert [] + YieldRedirs(redirs, []) + YieldArgs(args, []) == YieldRedirs(redirs, YieldArgs(args, []));
    ArgvWrap(ExecCmd(ArgWords(args)), redirs + ArgRedirs(args));
  }

  lemma NoTokens()
    ensures SpellsSimple(ExecCmd([]), [])
  {}

  lemma {:induction false} WrapBlock(cmd: Cmd, ts: seq<Terminal>, rs: seq<Redirection>)
    requires SpellsBlock(cmd, ts) && GoodRedirs(rs)
    ensures SpellsBlock(Wrap(cmd, rs), ts + YieldRedirs(rs, []))
    decreases |rs|
  {
    hide SpellsLine;
    if rs == [] {
      assert ts + [] == ts;
    } else {
      var t := ts + [Sym(rs[0].op), Word(rs[0].file)];
      WrapFirst(cmd, rs, ts);
      WrapBlock(Wrap(cmd, [rs[0]]), t, rs[1..]);
    }
  }

  lemma {:induction false} ExecSpells(d: Exec)
    requires GoodExec(d)
    ensures SpellsExec(ExecTree(d), YieldExec(d, []))
    decreases d
  {
    hide SpellsLine, YieldLine, Wrap, YieldRedirs, LineTree, GoodRedirs;
    match d
    case Simple(redirs, args) => SimpleSpells(redirs, args);
    case Block(line, redirs) =>
      LineSpells(line);
      var inner := YieldLine(line, []);
      var ts := [Sym('(')] + inner + [Sym(')')];
      assert ts[1..|ts| - 1] == inner;
      WrapBlock(LineTree(line), ts, redirs);
      LineThen(line, [Sym(')')] + YieldRedirs(redirs, []));
      assert YieldExec(d, []) == ts + YieldRedirs(redirs, []);
  }

  lemma {:induction false} PipeSpells(d: Pipe)
    requires GoodPipe(d)
    ensures SpellsPipe(PipeTree(d), YieldPipe(d, []))
    decreases d
  {
    hide SpellsExec, YieldExec, ExecTree, GoodExec;
    ExecSpells(d.exec);
    if d.rest.Some? {
      PipeSpells(d.rest.value);
      var left, right := YieldExec(d.exec, []), YieldPipe(d.rest.value, []);
      ExecThen(d.exec, [Sym('|')] + right);
      var ts := left + ([Sym('|')] + right);
      assert ts[|left|] == Sym('|') && ts[..|left|] == left && ts[|left| + 1..] == right;
    }
  }

  lemma {:induction false} BackSpells(cmd: Cmd, ts: seq<Terminal>, n: nat)
    requires SpellsBack(cmd, ts)
    ensures SpellsBack(Background(cmd, n), ts + Ands(n, []))
  {
    hide SpellsPipe;
    if n == 0 {
      assert ts + [] == ts;
    } else {
      BackSpells(cmd, ts, n - 1);
      AndsLast(n);
      var t := ts + Ands(n, []);
      assert t[..|t| - 1] == ts + Ands(n - 1, []);
    }
  }

  lemma {:induction false} AndsLast(n: nat)
    requires n > 0
    ensures Ands(n, []) == Ands(n - 1, []) + [Sym('&')]
  {
    if n > 1 { AndsLast(n - 1); }
  }

  lemma {:induction false} LineSpells(d: Line)
    requires GoodLine(d)
    ensures SpellsLine(LineTree(d), YieldLine(d, []))
    decreases d
  {
    hide SpellsPipe, SpellsBack, YieldPipe, PipeTree, GoodPipe, Ands, Background;
    PipeSpells(d.pipe);
    PipeIsBack(PipeTree(d.pipe), YieldPipe(d.pipe, []));
    BackSpells(PipeTree(d.pipe), YieldPipe(d.pipe, []), d.amps);
    LineParts(d, []);
    var left := YieldPipe(d.pipe, []) + Ands(d.amps, []);
    if d.rest.Some? {
      LineSpells(d.rest.value);
      var right := YieldLine(d.rest.value, []);
      var ts := left + ([Sym(';')] + right);
      assert ts[|left|] == Sym(';') && ts[..|left|] == left && ts[|left| + 1..] == right;
    } else {
      assert left + [] == left;
    }
  }

  lemma PipeIsBack(cmd: Cmd, ts: seq<Terminal>)
    requires SpellsPipe(cmd, ts)
    ensures SpellsBack(cmd, ts)
  {}

  // ---- and what is spelled is derived ----

  lemma {:induction false} RedirsMore(rs: seq<Redirection>, r: Redirection)
    ensures YieldRedirs(rs + [r], []) == YieldRedirs(rs, []) + [Sym(r.op), Word(r.file)]
  {
    if rs == [] {
      assert [r][1..] == [];
    } else {
      assert (rs + [r])[1..] == rs[1..] + [r];
      RedirsMore(rs[1..], r);
    }
  }

  lemma {:induction false} ArgsMore(args: seq<Argument>, arg: Argument)
    ensures YieldArgs(args + [arg], []) == YieldArgs(args, []) + [Word(arg.word)] + YieldRedirs(arg.redirs, [])
    ensures ArgRedirs(args + [arg]) == ArgRedirs(args) + arg.redirs
  {
    hide YieldRedirs;
    if args == [] {
      OneMore(arg);
    } else {
      var rest := args[1..];
      assert (args + [arg])[1..] == rest + [arg];
      ArgsMore(rest, arg);
      RedirsThen(args[0].redirs, YieldArgs(rest + [arg], []));
      RedirsThen(args[0].redirs, YieldArgs(rest, []));
    }
  }

  lemma OneMore(arg: Argument)
    ensures YieldArgs([arg], []) == [Word(arg.word)] + YieldRedirs(arg.redirs, []) && ArgRedirs([arg]) == arg.redirs
    ensures YieldArgs([], []) == [] && ArgRedirs([]) == []
  {
    assert [arg][1..] == [];
  }

  lemma WrapMore(cmd: Cmd, rs: seq<Redirection>, r: Redirection)
    ensures Wrap(cmd, rs + [r]) == Wrap(Wrap(cmd, rs), [r])
  {
    WrapTwice(cmd, rs, [r]);
  }

  lemma YieldSimple(redirs: seq<Redirection>, args: seq<Argument>)
    ensures YieldExec(Simple(redirs, args), []) == YieldRedirs(redirs, []) + YieldArgs(args, [])
  {
    RedirsThen(redirs, YieldArgs(args, []));
  }

  /** A redirection at the end of a simple command. */
  lemma SimpleRedirected(redirs: seq<Redirection>, args: seq<Argument>, r: Redirection)
    returns (redirs': seq<Redirection>, args': seq<Argument>)
    requires GoodRedirs(redirs) && GoodArgs(args) && RedirOp(r.op)
    ensures GoodRedirs(redirs') && GoodArgs(args') && |args'| == |args|
    ensures YieldExec(Simple(redirs', args'), []) == YieldExec(Simple(redirs, args), []) + [Sym(r.op), Word(r.file)]
    ensures ExecTree(Simple(redirs', args')) == Wrap(ExecTree(Simple(redirs, args)), [r])
  {
    hide Wrap, YieldRedirs, YieldArgs, YieldExec;
    YieldSimple(redirs, args);
    if args == [] {
      redirs', args' := redirs + [r], args;
      RedirsMore(redirs, r);
      assert redirs' + ArgRedirs(args) == redirs + [r] && redirs + ArgRedirs(args) == redirs;
      assert YieldArgs(args, []) == [] by { NoArgs([]); }
    } else {
      var front, last := args[..|args| - 1], args[|args| - 1];
      var last' := Argument(last.word, last.redirs + [r]);
      redirs', args' := redirs, front + [last'];
      assert args == front + [last];
      ArgsMore(front, last);
      ArgsMore(front, last');
      RedirsMore(last.redirs, r);
      assert ArgWords(args') == ArgWords(args);
      assert redirs + ArgRedirs(args') == redirs + ArgRedirs(args) + [r];
    }
    YieldSimple(redirs', args');
    WrapMore(ExecCmd(ArgWords(args)), redirs + ArgRedirs(args), r);
  }

  lemma SimpleWord(redirs: seq<Redirection>, args: seq<Argument>, w: Span)
    ensures var args' := args + [Argument(w, [])];
            && YieldExec(Simple(redirs, args'), []) == YieldExec(Simple(redirs, args), []) + [Word(w)]
            && ExecTree(Simple(redirs, args')) == AddWord(ExecTree(Simple(redirs, args)), w)
  {
    hide Wrap, YieldArgs, YieldExec;
    var args' := args + [Argument(w, [])];
    YieldSimple(redirs, args);
    YieldSimple(redirs, args');
    ArgsMore(args, Argument(w, []));
    assert ArgWords(args') == ArgWords(args) + [w];
    assert redirs + ArgRedirs(args') == redirs + ArgRedirs(args);
    AddWordWrap(ExecCmd(ArgWords(args)), redirs + ArgRedirs(args), w);
  }

  /** The redirection that such tokens at the end stand for. */
  lemma Redirects(cmd: Cmd, ts: seq<Terminal>) returns (r: Redirection)
    requires EndsRedirected(cmd, ts)
    ensures RedirOp(r.op) && ts == ts[..|ts| - 2] + [Sym(r.op), Word(r.file)] && cmd == Wrap(cmd.cmd, [r])
  {
    r := Redirection(ts[|ts| - 2].c, cmd.file);
    assert [r][1..] == [];
  }

  lemma {:induction false} SimpleDerived(cmd: Cmd, ts: seq<Terminal>)
    returns (redirs: seq<Redirection>, args: seq<Argument>)
    requires SpellsSimple(cmd, ts)
    ensures GoodRedirs(redirs) && GoodArgs(args) && |args| == |Argv(cmd)|
    ensures YieldExec(Simple(redirs, args), []) == ts && ExecTree(Simple(redirs, args)) == cmd
    decreases |ts|
  {
    hide Wrap, YieldRedirs, YieldArgs, YieldExec, ExecTree;
    if ts == [] {
      redirs, args := [], [];
      EmptyCommand();
    } else if |ts| >= 2 && !ts[|ts| - 2].Word? {
      redirs, args := SimpleDerived(cmd.cmd, ts[..|ts| - 2]);
      var r := Redirects(cmd, ts);
      redirs, args := SimpleRedirected(redirs, args, r);
    } else {
      var w := ts[|ts| - 1].span;
      var c :| SpellsSimple(c, ts[..|ts| - 1]) && cmd == AddWord(c, w);
      redirs, args := SimpleDerived(c, ts[..|ts| - 1]);
      SimpleWord(redirs, args, w);
      ArgvAdded(redirs, args, w);
      args := args + [Argument(w, [])];
      assert ts == ts[..|ts| - 1] + [Word(w)];
    }
  }

  lemma EmptyCommand()
    ensures YieldExec(Simple([], []), []) == [] && ExecTree(Simple([], [])) == ExecCmd([])
  {
    assert ArgWords([]) == [];
  }

  lemma ArgvAdded(redirs: seq<Redirection>, args: seq<Argument>, w: Span)
    ensures Argv(AddWord(ExecTree(Simple(redirs, args)), w)) == ArgWords(args) + [w]
  {
    hide Wrap;
    AddWordWrap(ExecCmd(ArgWords(args)), redirs + ArgRedirs(args), w);
    ArgvWrap(ExecCmd(ArgWords(args) + [w]), redirs + ArgRedirs(args));
  }

  lemma {:induction false} BlockDerived(cmd: Cmd, ts: seq<Terminal>) returns (d: Exec)
    requires SpellsBlock(cmd, ts)
    ensures GoodExec(d) && d.Block? && YieldExec(d, []) == ts && ExecTree(d) == cmd
    decreases |ts|, 1
  {
    hide Wrap, YieldRedirs, YieldLine, LineTree, SpellsLine, GoodLine;
    if EndsRedirected(cmd, ts) && SpellsBlock(cmd.cmd, ts[..|ts| - 2]) {
      var inner := BlockDerived(cmd.cmd, ts[..|ts| - 2]);
      var r := Redirects(cmd, ts);
      d := Block(inner.line, inner.redirs + [r]);
      RedirsMore(inner.redirs, r);
      WrapMore(LineTree(inner.line), inner.redirs, r);
      LineThen(inner.line, [Sym(')')] + YieldRedirs(inner.redirs, []));
      LineThen(inner.line, [Sym(')')] + YieldRedirs(d.redirs, []));
    } else {
      var line := LineDerived(cmd, ts[1..|ts| - 1]);
      d := Block(line, []);
      LineThen(line, [Sym(')')]);
      NoRedirections(LineTree(line), [Sym(')')]);
      assert ts == [Sym('(')] + ts[1..|ts| - 1] + [Sym(')')];
    }
  }

  lemma NoRedirections(cmd: Cmd, ts: seq<Terminal>)
    ensures Wrap(cmd, []) == cmd && ts + YieldRedirs([], []) == ts
  {}

  lemma {:induction false} ExecDerived(cmd: Cmd, ts: seq<Terminal>) returns (d: Exec)
    requires SpellsExec(cmd, ts)
    ensures GoodExec(d) && YieldExec(d, []) == ts && ExecTree(d) == cmd
    decreases |ts|, 2
  {
    hide SpellsSimple, SpellsBlock, YieldExec, ExecTree;
    if SpellsBlock(cmd, ts) {
      d := BlockDerived(cmd, ts);
    } else {
      var redirs, args := SimpleDerived(cmd, ts);
      d := Simple(redirs, args);
    }
  }

  lemma {:induction false} PipeDerived(cmd: Cmd, ts: seq<Terminal>) returns (d: Pipe)
    requires SpellsPipe(cmd, ts)
    ensures GoodPipe(d) && YieldPipe(d, []) == ts && PipeTree(d) == cmd
    decreases |ts|, 3
  {
    hide SpellsExec, YieldExec, ExecTree, GoodExec;
    if SpellsExec(cmd, ts) {
      var e := ExecDerived(cmd, ts);
      d := Pipe(e, None);
    } else {
      var k :| 0 <= k < |ts| && ts[k] == Sym('|')
               && SpellsExec(cmd.left, ts[..k]) && SpellsPipe(cmd.right, ts[k + 1..]);
      var e := ExecDerived(cmd.left, ts[..k]);
      var rest := PipeDerived(cmd.right, ts[k + 1..]);
      d := Pipe(e, Some(rest));
      ExecThen(e, [Sym('|')] + ts[k + 1..]);
      assert ts == ts[..k] + ([Sym('|')] + ts[k + 1..]);
    }
  }

  lemma {:induction false} BackDerived(cmd: Cmd, ts: seq<Terminal>) returns (d: Pipe, n: nat)
    requires SpellsBack(cmd, ts)
    ensures GoodPipe(d) && YieldPipe(d, []) + Ands(n, []) == ts && Background(PipeTree(d), n) == cmd
    decreases |ts|, 4
  {
    hide SpellsPipe, YieldPipe, PipeTree, GoodPipe;
    if SpellsPipe(cmd, ts) {
      d := PipeDerived(cmd, ts);
      n := 0;
    } else {
      d, n := BackDerived(cmd.cmd, ts[..|ts| - 1]);
      n := n + 1;
      AndsLast(n);
      assert ts == ts[..|ts| - 1] + [Sym('&')];
    }
  }

  lemma {:induction false} LineDerived(cmd: Cmd, ts: seq<Terminal>) returns (d: Line)
    requires SpellsLine(cmd, ts)
    ensures GoodLine(d) && YieldLine(d, []) == ts && LineTree(d) == cmd
    decreases |ts|, 5
  {
    hide SpellsBack, YieldPipe, PipeTree, GoodPipe, Ands, Background;
    if SpellsBack(cmd, ts) {
      var p, n := BackDerived(cmd, ts);
      d := Line(p, n, None);
      LineParts(d, []);
    } else {
      var k :| 0 <= k < |ts| && ts[k] == Sym(';')
               && SpellsBack(cmd.left, ts[..k]) && SpellsLine(cmd.right, ts[k + 1..]);
      var p, n := BackDerived(cmd.left, ts[..k]);
      var rest := LineDerived(cmd.right, ts[k + 1..]);
      d := Line(p, n, Some(rest));
      LineParts(d, []);
      assert ts == ts[..k] + ([Sym(';')] + ts[k + 1..]);
    }
  }

  /** The parser accepts a line exactly when it spells a tree, gives that tree, and there is
      no other that the line spells. */
  lemma SpellsTree(ts: seq<Terminal>, cmd: Cmd)
    ensures SpellsLine(cmd, ts) <==>
            ParseLine(ts).Parsed? && ParseLine(ts).rest == [] && LineTree(ParseLine(ts).tree) == cmd
  {
    hide SpellsLine, ParseLine, LineTree, YieldLine, GoodLine;
    var p := ParseLine(ts);
    if p.Parsed? && p.rest == [] {
      Accepts(ts, p.tree);
      LineSpells(p.tree);
    }
    if SpellsLine(cmd, ts) {
      var d := LineDerived(cmd, ts);
      Accepts(ts, d);
    }
  }

  // ---- the redirections of a line ----

  datatype Opening = Opening(file: Span, mode: Mode, fd: int)

  /** The files that running a command opens. */
  function Openings(cmd: Cmd): set<Opening> {
    match cmd
    case ExecCmd(_) => {}
    case RedirCmd(c, file, mode, fd) => Openings(c) + {Opening(file, mode, fd)}
    case PipeCmd(l, r) => Openings(l) + Openings(r)
    case ListCmd(l, r) => Openings(l) + Openings(r)
    case BackCmd(c) => Openings(c)
  }

  /** Somewhere in ts the file name stands behind the operator that opens it so. */
  ghost predicate Redirected(ts: seq<Terminal>, o: Opening) {
    exists i :: 0 <= i < |ts| - 1 && Opens(ts[i], o.mode, o.fd) && ts[i + 1] == Word(o.file)
  }

  lemma RedirectedJoin(a: seq<Terminal>, b: seq<Terminal>, o: Opening)
    requires a == [] || b == [] || !Opens(a[|a| - 1], o.mode, o.fd) || b[0] != Word(o.file)
    ensures Redirected(a + b, o) <==> Redirected(a, o) || Redirected(b, o)
  {
    var ts := a + b;
    if i :| 0 <= i < |ts| - 1 && Opens(ts[i], o.mode, o.fd) && ts[i + 1] == Word(o.file) {
      if i + 1 < |a| {
        assert a[i] == ts[i] && a[i + 1] == ts[i + 1];
      } else if i >= |a| {
        assert b[i - |a|] == ts[i] && b[i - |a| + 1] == ts[i + 1];
      }
    }
    if i :| 0 <= i < |a| - 1 && Opens(a[i], o.mode, o.fd) && a[i + 1] == Word(o.file) {
      assert ts[i] == a[i] && ts[i + 1] == a[i + 1];
    }
    if i :| 0 <= i < |b| - 1 && Opens(b[i], o.mode, o.fd) && b[i + 1] == Word(o.file) {
      assert ts[|a| + i] == b[i] && ts[|a| + i + 1] == b[i + 1];
    }
  }

  lemma RedirectedShort(ts: seq<Terminal>, o: Opening)
    ensures |ts| <= 1 ==> !Redirected(ts, o)
    ensures |ts| == 2 ==> (Redirected(ts, o) <==> Opens(ts[0], o.mode, o.fd) && ts[1] == Word(o.file))
  {
    if |ts| == 2 && Opens(ts[0], o.mode, o.fd) && ts[1] == Word(o.file) { assert Opens(ts[0], o.mode, o.fd); }
  }

  /** A token that is no redirection operator, between two parts or at an end. */
  lemma RedirectedAround(a: seq<Terminal>, t: Terminal, b: seq<Terminal>, o: Opening)
    requires t.Sym? && !RedirOp(t.c)
    ensures Redirected(a + [t] + b, o) <==> Redirected(a, o) || Redirected(b, o)
  {
    hide Redirected;
    RedirectedJoin(a, [t], o);
    RedirectedShort([t], o);
    RedirectedJoin(a + [t], b, o);
  }

  lemma RedirectedEnd(cmd: Cmd, ts: seq<Terminal>, o: Opening)
    requires EndsRedirected(cmd, ts)
    ensures Redirected(ts, o) <==> Redirected(ts[..|ts| - 2], o) || o == Opening(cmd.file, cmd.mode, cmd.fd)
  {
    hide Redirected;
    var front, pair := ts[..|ts| - 2], ts[|ts| - 2..];
    assert ts == front + pair;
    RedirectedJoin(front, pair, o);
    RedirectedShort(pair, o);
    OpensOne(ts[|ts| - 2], cmd.mode, cmd.fd, o.mode, o.fd);
  }

  lemma OpensOne(t: Terminal, mode: Mode, fd: int, mode': Mode, fd': int)
    requires Opens(t, mode, fd)
    ensures Opens(t, mode', fd') <==> mode' == mode && fd' == fd
  {}

  lemma {:induction false} AddWordOpenings(cmd: Cmd, w: Span)
    ensures Openings(AddWord(cmd, w)) == Openings(cmd)
  {
    if cmd.RedirCmd? { AddWordOpenings(cmd.cmd, w); }
  }

  lemma {:induction false} SimpleOpenings(cmd: Cmd, ts: seq<Terminal>, o: Opening)
    requires SpellsSimple(cmd, ts)
    ensures o in Openings(cmd) <==> Redirected(ts, o)
    decreases |ts|
  {
    hide Redirected;
    if ts == [] {
      RedirectedShort(ts, o);
    } else if |ts| >= 2 && !ts[|ts| - 2].Word? {
      SimpleOpenings(cmd.cmd, ts[..|ts| - 2], o);
      RedirectedEnd(cmd, ts, o);
    } else {
      var front, last := ts[..|ts| - 1], ts[|ts| - 1];
      var c :| SpellsSimple(c, front) && cmd == AddWord(c, last.span);
      SimpleOpenings(c, front, o);
      AddWordOpenings(c, last.span);
      assert ts == front + [last];
      RedirectedShort([last], o);
      RedirectedJoin(front, [last], o);
    }
  }

  lemma {:induction false} BlockOpenings(cmd: Cmd, ts: seq<Terminal>, o: Opening)
    requires SpellsBlock(cmd, ts)
    ensures o in Openings(cmd) <==> Redirected(ts, o)
    decreases |ts|, 1
  {
    hide Redirected, SpellsLine;
    if EndsRedirected(cmd, ts) && SpellsBlock(cmd.cmd, ts[..|ts| - 2]) {
      BlockOpenings(cmd.cmd, ts[..|ts| - 2], o);
      RedirectedEnd(cmd, ts, o);
    } else {
      var inner := ts[1..|ts| - 1];
      LineOpenings(cmd, inner, o);
      assert ts == [Sym('(')] + inner + [Sym(')')] && [] + [Sym('(')] + inner == [Sym('(')] + inner;
      RedirectedAround([], Sym('('), inner, o);
      RedirectedAround([Sym('(')] + inner, Sym(')'), [], o);
      assert [Sym('(')] + inner + [Sym(')')] + [] == ts;
      RedirectedShort([], o);
    }
  }

  lemma {:induction false} PipeOpenings(cmd: Cmd, ts: seq<Terminal>, o: Opening)
    requires SpellsPipe(cmd, ts)
    ensures o in Openings(cmd) <==> Redirected(ts, o)
    decreases |ts|, 3
  {
    hide Redirected, SpellsSimple, SpellsBlock;
    if SpellsBlock(cmd, ts) {
      BlockOpenings(cmd, ts, o);
    } else if SpellsSimple(cmd, ts) {
      SimpleOpenings(cmd, ts, o);
    } else {
      var k :| 0 <= k < |ts| && ts[k] == Sym('|')
               && SpellsExec(cmd.left, ts[..k]) && SpellsPipe(cmd.right, ts[k + 1..]);
      PipeOpenings(cmd.left, ts[..k], o);
      PipeOpenings(cmd.right, ts[k + 1..], o);
      RedirectedAround(ts[..k], ts[k], ts[k + 1..], o);
      assert ts == ts[..k] + [ts[k]] + ts[k + 1..];
    }
  }

  lemma {:induction false} BackOpenings(cmd: Cmd, ts: seq<Terminal>, o: Opening)
    requires SpellsBack(cmd, ts)
    ensures o in Openings(cmd) <==> Redirected(ts, o)
    decreases |ts|, 4
  {
    hide Redirected, SpellsPipe;
    if SpellsPipe(cmd, ts) {
      PipeOpenings(cmd, ts, o);
    } else {
      var front := ts[..|ts| - 1];
      BackOpenings(cmd.cmd, front, o);
      RedirectedAround(front, Sym('&'), [], o);
      RedirectedShort([], o);
      assert ts == front + [Sym('&')] + [];
    }
  }

  /** In the tree that a line spells a file is opened for reading on descriptor 0 exactly when
      its name stands behind "<" in the line, for writing on 1 exactly when behind ">" or ">>",
      and in no other way. */
  lemma {:induction false} LineOpenings(cmd: Cmd, ts: seq<Terminal>, o: Opening)
    requires SpellsLine(cmd, ts)
    ensures o in Openings(cmd) <==> Redirected(ts, o)
    decreases |ts|, 5
  {
    hide Redirected, SpellsBack;
    if SpellsBack(cmd, ts) {
      BackOpenings(cmd, ts, o);
    } else {
      var k :| 0 <= k < |ts| && ts[k] == Sym(';')
               && SpellsBack(cmd.left, ts[..k]) && SpellsLine(cmd.right, ts[k + 1..]);
      BackOpenings(cmd.left, ts[..k], o);
      LineOpenings(cmd.right, ts[k + 1..], o);
      RedirectedAround(ts[..k], ts[k], ts[k + 1..], o);
      assert ts == ts[..k] + [ts[k]] + ts[k + 1..];
    }
  }
}
