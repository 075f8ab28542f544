/** The words of a parsed command are words of the line. */
module ShellWords {
  import opened ShellGrammar

  ghost function TokWords<W(!new)>(ts: seq<Tok<W>>): set<W> {
    set t | t in ts && t.Word? :: t.w
  }

  ghost function ToWords<W(!new)>(rs: seq<To<W>>): set<W> {
    set r | r in rs :: r.file
  }

  ghost function CmdWords<W(!new)>(c: Cmd<W>): set<W> {
    match c
    case Exec(args) => set a | a in args
    case Redir(d, f, _) => CmdWords(d) + {f}
    case Pipe(l, r) => CmdWords(l) + CmdWords(r)
    case List(l, r) => CmdWords(l) + CmdWords(r)
    case Back(d) => CmdWords(d)
  }

  /** The words of a command are the arguments and file names in it, at every depth. */
  lemma CmdWordsHas<W(!new)>(c: Cmd<W>, w: W)
    ensures c.Exec? ==> (w in CmdWords(c) <==> w in c.args)
    ensures c.Redir? ==> (w in CmdWords(c) <==> w == c.file || w in CmdWords(c.cmd))
    ensures c.Pipe? || c.List? ==> (w in CmdWords(c) <==> w in CmdWords(c.left) || w in CmdWords(c.right))
    ensures c.Back? ==> (w in CmdWords(c) <==> w in CmdWords(c.cmd))
  {
  }

  lemma SuffixWords<W(!new)>(ts: seq<Tok<W>>, k: nat)
    requires k <= |ts|
    ensures TokWords(ts[k..]) <= TokWords(ts)
  {
  }

  lemma {:induction false} WrapWords<W(!new)>(c: Cmd<W>, rs: seq<To<W>>)
    ensures CmdWords(Wrap(c, rs)) == CmdWords(c) + ToWords(rs)
    decreases |rs|
  {
    if |rs| == 0 {
    } else {
      var n := |rs| - 1;
      WrapWords(c, rs[..n]);
      assert rs == rs[..n] + [rs[n]];
      assert ToWords(rs) == ToWords(rs[..n]) + {rs[n].file};
    }
  }

  lemma {:induction false} RedirsWords<W(!new)>(rs: seq<To<W>>, ts: seq<Tok<W>>)
    requires ParseRedirs(rs, ts).Redirs?
    ensures ToWords(ParseRedirs(rs, ts).list) <= ToWords(rs) + TokWords(ts)
    ensures TokWords(ParseRedirs(rs, ts).rest) <= TokWords(ts)
    decreases |ts|
  {
    if At(ts, "<>+") {
      var r := To(ts[1].w, ts[0].c != '<');
      RedirsWords(rs + [r], ts[2..]);
      SuffixWords(ts, 2);
      assert ToWords(rs + [r]) == ToWords(rs) + {ts[1].w};
      assert ts[1] in ts;
    }
  }

  lemma {:induction false} ArgsWords<W(!new)>(args: seq<W>, rs: seq<To<W>>, ts: seq<Tok<W>>)
    requires ParseArgs(args, rs, ts).Ok?
    ensures CmdWords(ParseArgs(args, rs, ts).cmd) <= (set a | a in args) + ToWords(rs) + TokWords(ts)
    ensures TokWords(ParseArgs(args, rs, ts).rest) <= TokWords(ts)
    decreases |ts|
  {
    if |ts| == 0 || At(ts, "|)&;") {
      WrapWords(Exec(args), rs);
    } else {
      var f := ParseRedirs(rs, ts[1..]);
      RedirsWords(rs, ts[1..]);
      ArgsWords(args + [ts[0].w], f.list, f.rest);
      SuffixWords(ts, 1);
      assert (set a | a in args + [ts[0].w]) == (set a | a in args) + {ts[0].w};
      assert ts[0] in ts;
    }
  }

  lemma {:induction false} ExecWords<W(!new)>(ts: seq<Tok<W>>)
    requires ParseExec(ts).Ok?
    ensures CmdWords(ParseExec(ts).cmd) <= TokWords(ts) && TokWords(ParseExec(ts).rest) <= TokWords(ts)
    decreases |ts|, 1
  {
    if At(ts, "(") {
      BlockWords(ts);
    } else {
      var f := ParseRedirs([], ts);
      RedirsWords([], ts);
      ArgsWords([], f.list, f.rest);
    }
  }

  lemma {:induction false} BlockWords<W(!new)>(ts: seq<Tok<W>>)
    requires At(ts, "(") && ParseBlock(ts).Ok?
    ensures CmdWords(ParseBlock(ts).cmd) <= TokWords(ts) && TokWords(ParseBlock(ts).rest) <= TokWords(ts)
    decreases |ts|, 0
  {
    var l := ParseLine(ts[1..]);
    LineWords(ts[1..]);
    SuffixWords(ts, 1);
    SuffixWords(l.rest, 1);
    RedirsWords([], l.rest[1..]);
    WrapWords(l.cmd, ParseRedirs([], l.rest[1..]).list);
  }

  lemma {:induction false} PipeWords<W(!new)>(ts: seq<Tok<W>>)
    requires ParsePipe(ts).Ok?
    ensures CmdWords(ParsePipe(ts).cmd) <= TokWords(ts) && TokWords(ParsePipe(ts).rest) <= TokWords(ts)
    decreases |ts|, 2
  {
    var e := ParseExec(ts);
    ExecWords(ts);
    if At(e.rest, "|") {
      SuffixWords(e.rest, 1);
      PipeWords(e.rest[1..]);
    }
  }

  lemma {:induction false} BacksWords<W(!new)>(c: Cmd<W>, ts: seq<Tok<W>>)
    ensures CmdWords(ParseBacks(c, ts).cmd) == CmdWords(c) && TokWords(ParseBacks(c, ts).rest) <= TokWords(ts)
    decreases |ts|
  {
    if At(ts, "&") {
      SuffixWords(ts, 1);
      BacksWords(Back(c), ts[1..]);
    }
  }

  lemma {:induction false} LineWords<W(!new)>(ts: seq<Tok<W>>)
    requires ParseLine(ts).Ok?
    ensures CmdWords(ParseLine(ts).cmd) <= TokWords(ts) && TokWords(ParseLine(ts).rest) <= TokWords(ts)
    decreases |ts|, 3
  {
    var p := ParsePipe(ts);
    PipeWords(ts);
    BacksWords(p.cmd, p.rest);
    var b := ParseBacks(p.cmd, p.rest);
    if At(b.rest, ";") {
      SuffixWords(b.rest, 1);
      LineWords(b.rest[1..]);
    }
  }
}
