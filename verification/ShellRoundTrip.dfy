/** Every command can be written down so that the shell's parser reads it back. */
module ShellRoundTrip {
  import opened ShellGrammar

  /** No exec node has more words than fit in argv with its terminator. */
  predicate Fits<W>(c: Cmd<W>) {
    match c
    case Exec(args) => |args| < MAXARGS
    case Redir(d, _, _) => Fits(d)
    case Pipe(l, r) => Fits(l) && Fits(r)
    case List(l, r) => Fits(l) && Fits(r)
    case Back(d) => Fits(d)
  }

  function PrintWords<W>(args: seq<W>): seq<Tok<W>> {
    if |args| == 0 then [] else [Word(args[0])] + PrintWords(args[1..])
  }

  function PrintRedirs<W>(rs: seq<To<W>>): seq<Tok<W>> {
    if |rs| == 0 then [] else [Sym(if rs[0].output then '>' else '<'), Word(rs[0].file)] + PrintRedirs(rs[1..])
  }

  /** A command without its outer redirections, and those redirections. */
  function Base<W>(c: Cmd<W>): (b: Cmd<W>)
    ensures !b.Redir? && (b == c || b < c) && (c.Redir? ==> b < c)
  {
    if c.Redir? then Base(c.cmd) else c
  }

  function Outer<W>(c: Cmd<W>): seq<To<W>> {
    if c.Redir? then Outer(c.cmd) + [To(c.file, c.output)] else []
  }

  lemma {:induction false} WrapBase<W>(c: Cmd<W>)
    ensures Wrap(Base(c), Outer(c)) == c && (Fits(c) ==> Fits(Base(c)))
    decreases c
  {
    if c.Redir? {
      WrapBase(c.cmd);
      assert Outer(c)[..|Outer(c)| - 1] == Outer(c.cmd);
    }
  }

  /** Where a command stands in parseexec: words, or a block in parentheses. */
  function PrintExec<W>(c: Cmd<W>): seq<Tok<W>>
    decreases c, if c.Exec? || c.Redir? then 0 else 4
  {
    var b := Base(c);
    (if b.Exec? then PrintWords(b.args) else [Sym('(')] + PrintLine(b) + [Sym(')')]) + PrintRedirs(Outer(c))
  }

  function PrintPipe<W>(c: Cmd<W>): seq<Tok<W>>
    decreases c, if c.Back? || c.List? then 5 else 1
  {
    if c.Pipe? then PrintExec(c.left) + [Sym('|')] + PrintPipe(c.right) else PrintExec(c)
  }

  function PrintBack<W>(c: Cmd<W>): seq<Tok<W>>
    decreases c, if c.List? then 6 else 2
  {
    if c.Back? then PrintBack(c.cmd) + [Sym('&')] else PrintPipe(c)
  }

  function PrintLine<W>(c: Cmd<W>): seq<Tok<W>>
    decreases c, 3
  {
    if c.List? then PrintBack(c.left) + [Sym(';')] + PrintLine(c.right) else PrintBack(c)
  }

  predicate Follows<W>(ts: seq<Tok<W>>, cs: string) {
    |ts| == 0 || At(ts, cs)
  }

  lemma {:induction false} RedirsRound<W>(done: seq<To<W>>, rs: seq<To<W>>, rest: seq<Tok<W>>)
    requires !At(rest, "<>+")
    ensures ParseRedirs(done, PrintRedirs(rs) + rest) == Redirs(done + rs, rest)
    decreases |rs|
  {
    if |rs| == 0 {
      assert PrintRedirs(rs) + rest == rest && done + rs == done;
    } else {
      var ts := PrintRedirs(rs) + rest;
      assert ts[0] == Sym(if rs[0].output then '>' else '<') && ts[1] == Word(rs[0].file);
      assert ts[2..] == PrintRedirs(rs[1..]) + rest;
      RedirsRound(done + [rs[0]], rs[1..], rest);
      assert done + [rs[0]] + rs[1..] == done + rs;
    }
  }

  lemma {:induction false} ArgsRound<W>(done: seq<W>, args: seq<W>, rs: seq<To<W>>, rest: seq<Tok<W>>)
    requires Follows(rest, "|)&;") && |args| > 0 && |done| + |args| < MAXARGS
    ensures ParseArgs(done, [], PrintWords(args) + (PrintRedirs(rs) + rest)) == Ok(Wrap(Exec(done + args), rs), rest)
    decreases |args|
  {
    hide Wrap, PrintRedirs, ParseArgs, ParseRedirs;
    var tail := PrintRedirs(rs) + rest;
    var ts := PrintWords(args) + tail;
    assert ts[0] == Word(args[0]) && ts[1..] == PrintWords(args[1..]) + tail;
    var done' := done + [args[0]];
    if |args| == 1 {
      assert ts[1..] == tail;
      RedirsRound([], rs, rest);
      ArgsStep(done, [], ts, [] + rs, rest);
      ArgsEnd(done', [] + rs, rest);
      assert [] + rs == rs && done' == done + args;
    } else {
      assert ts[1..][0] == Word(args[1]);
      NoRedirs([], ts[1..]);
      ArgsStep(done, [], ts, [], ts[1..]);
      ArgsRound(done', args[1..], rs, rest);
      assert done' + args[1..] == done + args;
    }
  }

  lemma ArgsStep<W>(done: seq<W>, rs: seq<To<W>>, ts: seq<Tok<W>>, rs': seq<To<W>>, rest: seq<Tok<W>>)
    requires |ts| > 0 && ts[0].Word? && |done| + 1 < MAXARGS && ParseRedirs(rs, ts[1..]) == Redirs(rs', rest)
    ensures ParseArgs(done, rs, ts) == ParseArgs(done + [ts[0].w], rs', rest)
  {
  }

  lemma ArgsEnd<W>(done: seq<W>, rs: seq<To<W>>, rest: seq<Tok<W>>)
    requires Follows(rest, "|)&;")
    ensures ParseArgs(done, rs, rest) == Ok(Wrap(Exec(done), rs), rest)
  {
  }

  lemma NoRedirs<W>(rs: seq<To<W>>, ts: seq<Tok<W>>)
    requires |ts| > 0 && ts[0].Word?
    ensures ParseRedirs(rs, ts) == Redirs(rs, ts)
  {
  }

  lemma ExecRoundWords<W>(c: Cmd<W>, rest: seq<Tok<W>>)
    requires Fits(c) && Base(c).Exec? && Follows(rest, "|)&;")
    ensures ParseExec(PrintExec(c) + rest) == Ok(c, rest)
  {
    hide Wrap, Base, Outer;
    WrapBase(c);
    WordsRound(Base(c).args, Outer(c), rest);
    assert PrintExec(c) + rest == PrintWords(Base(c).args) + (PrintRedirs(Outer(c)) + rest);
  }

  lemma WordsRound<W>(args: seq<W>, rs: seq<To<W>>, rest: seq<Tok<W>>)
    requires |args| < MAXARGS && Follows(rest, "|)&;")
    ensures ParseExec(PrintWords(args) + (PrintRedirs(rs) + rest)) == Ok(Wrap(Exec(args), rs), rest)
  {
    hide Wrap;
    var tail := PrintRedirs(rs) + rest;
    var ts := PrintWords(args) + tail;
    if |args| == 0 {
      RedirsRound([], rs, rest);
      assert ts == tail && [] + rs == rs && args == [];
      assert |rs| > 0 ==> ts[0] == Sym(if rs[0].output then '>' else '<');
    } else {
      assert ts[0] == Word(args[0]);
      ArgsRound([], args, rs, rest);
      assert [] + args == args;
    }
  }

  lemma BlockParses<W>(ts: seq<Tok<W>>, b: Cmd<W>, tail: seq<Tok<W>>, rs: seq<To<W>>, rest: seq<Tok<W>>)
    requires At(ts, "(") && ParseLine(ts[1..]) == Ok(b, tail) && At(tail, ")")
    requires ParseRedirs([], tail[1..]) == Redirs(rs, rest)
    ensures ParseExec(ts) == Ok(Wrap(b, rs), rest)
  {
  }

  lemma BlockShape<W>(c: Cmd<W>, rest: seq<Tok<W>>)
    requires !Base(c).Exec?
    ensures var ts := PrintExec(c) + rest;
      |ts| > 0 && ts[0] == Sym('(') && ts[1..] == PrintLine(Base(c)) + ([Sym(')')] + (PrintRedirs(Outer(c)) + rest))
  {
    hide PrintLine, PrintRedirs, Base, Outer;
  }

  lemma {:induction false} ExecRound<W>(c: Cmd<W>, rest: seq<Tok<W>>)
    requires Fits(c) && Follows(rest, "|)&;")
    ensures ParseExec(PrintExec(c) + rest) == Ok(c, rest)
    decreases c, if c.Exec? || c.Redir? then 0 else 4
  {
    var b, rs := Base(c), Outer(c);
    if b.Exec? {
      ExecRoundWords(c, rest);
    } else {
      hide ParseLine, ParseRedirs, ParseExec, PrintExec, PrintLine, PrintRedirs, Wrap, Outer;
      WrapBase(c);
      BlockShape(c, rest);
      var tail := [Sym(')')] + (PrintRedirs(rs) + rest);
      LineRound(b, tail);
      RedirsRound([], rs, rest);
      assert tail[1..] == PrintRedirs(rs) + rest && [] + rs == rs;
      BlockParses(PrintExec(c) + rest, b, tail, rs, rest);
    }
  }

  lemma {:induction false} PipeRound<W>(c: Cmd<W>, rest: seq<Tok<W>>)
    requires Fits(c) && Follows(rest, ")&;")
    ensures ParsePipe(PrintPipe(c) + rest) == Ok(c, rest)
    decreases c, if c.Back? || c.List? then 5 else 1
  {
    hide ParseExec, PrintExec;
    if c.Pipe? {
      var tail := [Sym('|')] + (PrintPipe(c.right) + rest);
      assert PrintPipe(c) + rest == PrintExec(c.left) + tail;
      ExecRound(c.left, tail);
      PipeRound(c.right, rest);
      assert tail[1..] == PrintPipe(c.right) + rest;
    } else {
      ExecRound(c, rest);
    }
  }

  /** Reading a command with its & up to rest is reading on from rest. */
  lemma {:induction false} BackRound<W>(c: Cmd<W>, rest: seq<Tok<W>>)
    requires Fits(c) && Follows(rest, ")&;")
    ensures var r := ParsePipe(PrintBack(c) + rest); r.Ok? && ParseBacks(r.cmd, r.rest) == ParseBacks(c, rest)
    decreases c, if c.List? then 6 else 2
  {
    if c.Back? {
      assert PrintBack(c) + rest == PrintBack(c.cmd) + ([Sym('&')] + rest);
      BackRound(c.cmd, [Sym('&')] + rest);
    } else {
      PipeRound(c, rest);
    }
  }

  lemma {:induction false} LineRound<W>(c: Cmd<W>, rest: seq<Tok<W>>)
    requires Fits(c) && Follows(rest, ")")
    ensures ParseLine(PrintLine(c) + rest) == Ok(c, rest)
    decreases c, 3
  {
    hide ParsePipe, PrintBack;
    if c.List? {
      var tail := [Sym(';')] + (PrintLine(c.right) + rest);
      assert PrintLine(c) + rest == PrintBack(c.left) + tail;
      BackRound(c.left, tail);
      LineRound(c.right, rest);
      assert tail[1..] == PrintLine(c.right) + rest;
    } else {
      BackRound(c, rest);
    }
  }

  /** Every command tree is the parse of its printed form. */
  lemma RoundTrip<W>(c: Cmd<W>)
    requires Fits(c)
    ensures Parse(PrintLine(c)) == Ok(c, [])
  {
    LineRound(c, []);
    assert PrintLine(c) + [] == PrintLine(c);
  }
}
