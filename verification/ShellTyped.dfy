/** Every command tree can be typed: there is a line that the shell parses to exactly it. */
module ShellTyped {
  import opened ShellGrammar
  import opened ShellLex
  import opened ShellRoundTrip
  import opened ShellWords

  // ----- the parser does not look inside words -----

  function MapTok<W, V>(f: W -> V, t: Tok<W>): Tok<V> {
    match t
    case Word(w) => Word(f(w))
    case Sym(c) => Sym(c)
  }

  function MapToks<W, V>(f: W -> V, ts: seq<Tok<W>>): (r: seq<Tok<V>>)
    ensures |r| == |ts|
  {
    seq(|ts|, i requires 0 <= i < |ts| => MapTok(f, ts[i]))
  }

  function MapTos<W, V>(f: W -> V, rs: seq<To<W>>): (r: seq<To<V>>)
    ensures |r| == |rs|
  {
    seq(|rs|, i requires 0 <= i < |rs| => To(f(rs[i].file), rs[i].output))
  }

  function MapArgs<W, V>(f: W -> V, args: seq<W>): (r: seq<V>)
    ensures |r| == |args|
  {
    seq(|args|, i requires 0 <= i < |args| => f(args[i]))
  }

  function MapCmd<W, V>(f: W -> V, c: Cmd<W>): Cmd<V> {
    match c
    case Exec(args) => Exec(MapArgs(f, args))
    case Redir(d, w, o) => Redir(MapCmd(f, d), f(w), o)
    case Pipe(l, r) => Pipe(MapCmd(f, l), MapCmd(f, r))
    case List(l, r) => List(MapCmd(f, l), MapCmd(f, r))
    case Back(d) => Back(MapCmd(f, d))
  }

  function MapRes<W, V>(f: W -> V, r: Res<W>): Res<V> {
    match r
    case Panic => Panic
    case Ok(c, rest) => Ok(MapCmd(f, c), MapToks(f, rest))
  }

  function MapRedirs<W, V>(f: W -> V, r: Redirs<W>): Redirs<V> {
    match r
    case RedirPanic => RedirPanic
    case Redirs(rs, rest) => Redirs(MapTos(f, rs), MapToks(f, rest))
  }

  lemma MapRest<W, V>(f: W -> V, ts: seq<Tok<W>>, k: nat)
    requires k <= |ts|
    ensures MapToks(f, ts)[k..] == MapToks(f, ts[k..])
  {
  }

  lemma {:induction false} MapWrap<W, V>(f: W -> V, c: Cmd<W>, rs: seq<To<W>>)
    ensures MapCmd(f, Wrap(c, rs)) == Wrap(MapCmd(f, c), MapTos(f, rs))
    decreases |rs|
  {
    if |rs| == 0 {
    } else {
      var n := |rs| - 1;
      MapWrap(f, c, rs[..n]);
      assert MapTos(f, rs)[..n] == MapTos(f, rs[..n]);
    }
  }

  lemma {:induction false} NaturalRedirs<W, V>(f: W -> V, rs: seq<To<W>>, ts: seq<Tok<W>>)
    ensures ParseRedirs(MapTos(f, rs), MapToks(f, ts)) == MapRedirs(f, ParseRedirs(rs, ts))
    decreases |ts|
  {
    if At(ts, "<>+") && |ts| >= 2 && ts[1].Word? {
      var r := To(ts[1].w, ts[0].c != '<');
      NaturalRedirs(f, rs + [r], ts[2..]);
      MapRest(f, ts, 2);
      assert MapTos(f, rs + [r]) == MapTos(f, rs) + [To(f(r.file), r.output)];
    }
  }

  lemma {:induction false} NaturalArgs<W, V>(f: W -> V, args: seq<W>, rs: seq<To<W>>, ts: seq<Tok<W>>)
    ensures ParseArgs(MapArgs(f, args), MapTos(f, rs), MapToks(f, ts)) == MapRes(f, ParseArgs(args, rs, ts))
    decreases |ts|
  {
    if |ts| == 0 || At(ts, "|)&;") {
      MapWrap(f, Exec(args), rs);
    } else if ts[0].Word? && |args| + 1 < MAXARGS {
      NaturalRedirs(f, rs, ts[1..]);
      MapRest(f, ts, 1);
      assert MapArgs(f, args + [ts[0].w]) == MapArgs(f, args) + [f(ts[0].w)];
      var g := ParseRedirs(rs, ts[1..]);
      if g.Redirs? {
        NaturalArgs(f, args + [ts[0].w], g.list, g.rest);
      }
    }
  }

  lemma {:induction false} NaturalExec<W, V>(f: W -> V, ts: seq<Tok<W>>)
    ensures ParseExec(MapToks(f, ts)) == MapRes(f, ParseExec(ts))
    decreases |ts|, 1
  {
    if At(ts, "(") {
      NaturalBlock(f, ts);
    } else {
      NaturalRedirs(f, [], ts);
      assert MapTos(f, []) == [] && MapArgs(f, []) == [];
      var g := ParseRedirs([], ts);
      if g.Redirs? {
        NaturalArgs(f, [], g.list, g.rest);
      }
    }
  }

  lemma {:induction false} NaturalBlock<W, V>(f: W -> V, ts: seq<Tok<W>>)
    requires At(ts, "(")
    ensures At(MapToks(f, ts), "(") && ParseBlock(MapToks(f, ts)) == MapRes(f, ParseBlock(ts))
    decreases |ts|, 0
  {
    NaturalLine(f, ts[1..]);
    MapRest(f, ts, 1);
    var l := ParseLine(ts[1..]);
    if l.Ok? && At(l.rest, ")") {
      MapRest(f, l.rest, 1);
      NaturalRedirs(f, [], l.rest[1..]);
      assert MapTos(f, []) == [];
      var g := ParseRedirs([], l.rest[1..]);
      if g.Redirs? {
        MapWrap(f, l.cmd, g.list);
      }
    }
  }

  lemma {:induction false} NaturalPipe<W, V>(f: W -> V, ts: seq<Tok<W>>)
    ensures ParsePipe(MapToks(f, ts)) == MapRes(f, ParsePipe(ts))
    decreases |ts|, 2
  {
    NaturalExec(f, ts);
    var e := ParseExec(ts);
    if e.Ok? && At(e.rest, "|") {
      MapRest(f, e.rest, 1);
      NaturalPipe(f, e.rest[1..]);
    }
  }

  lemma {:induction false} NaturalBacks<W, V>(f: W -> V, c: Cmd<W>, ts: seq<Tok<W>>)
    ensures ParseBacks(MapCmd(f, c), MapToks(f, ts)) == MapRes(f, ParseBacks(c, ts))
    decreases |ts|
  {
    if At(ts, "&") {
      MapRest(f, ts, 1);
      NaturalBacks(f, Back(c), ts[1..]);
    }
  }

  lemma {:induction false} NaturalLine<W, V>(f: W -> V, ts: seq<Tok<W>>)
    ensures ParseLine(MapToks(f, ts)) == MapRes(f, ParseLine(ts))
    decreases |ts|, 3
  {
    NaturalPipe(f, ts);
    var p := ParsePipe(ts);
    if p.Ok? {
      NaturalBacks(f, p.cmd, p.rest);
      var b := ParseBacks(p.cmd, p.rest);
      if At(b.rest, ";") {
        MapRest(f, b.rest, 1);
        NaturalLine(f, b.rest[1..]);
      }
    }
  }

  // ----- writing tokens down -----

  predicate IsWord(w: string) {
    |w| > 0 && forall k :: 0 <= k < |w| ==> IsWordChar(w[k])
  }

  predicate Typable(t: Tok<string>) {
    match t
    case Word(w) => IsWord(w)
    case Sym(c) => IsSymbol(c) || c == '+'
  }

  function Spell(t: Tok<string>): string {
    match t
    case Word(w) => w
    case Sym(c) => if c == '+' then ">>" else [c]
  }

  /** Tokens with a space after each. */
  function Render(ts: seq<Tok<string>>): string {
    if |ts| == 0 then "" else Spell(ts[0]) + " " + Render(ts[1..])
  }

  /** A word's text. */
  function TextOf(text: string, w: Range): string {
    if w.q <= w.e <= |text| then text[w.q..w.e] else ""
  }

  lemma Placed(text: string, p: nat, sp: string, more: string)
    requires p <= |text| && text[p..] == sp + " " + more
    ensures p + |sp| < |text| && text[p..p + |sp|] == sp && text[p + |sp|] == ' ' && text[p + |sp| + 1..] == more
  {
    var tail := text[p..];
    assert |tail| == |sp| + 1 + |more|;
    assert tail[..|sp|] == sp;
    assert tail[|sp|] == ' ' && tail[|sp| + 1..] == more;
    assert text[p..p + |sp|] == tail[..|sp|] && text[p + |sp|] == tail[|sp|] && text[p + |sp| + 1..] == tail[|sp| + 1..];
  }

  /** The word at p. */
  lemma FirstWord(text: string, p: nat, w: string)
    requires IsWord(w) && p + |w| < |text| && text[p..p + |w|] == w && text[p + |w|] == ' '
    ensures Skip(text, p) == p && !IsSpace(text[p]) && TokenAt(text, p) == (Word(Range(p, p + |w|)), p + |w|)
  {
    forall k | p <= k < p + |w| ensures IsWordChar(text[k]) {
      assert text[k] == w[k - p];
    }
    SkipUnique(text, p, p);
    WordEndUnique(text, p, p + |w|);
  }

  /** The symbol at p. */
  lemma FirstSymbol(text: string, p: nat, c: char)
    requires p + 1 < |text| && IsSymbol(c) && text[p] == c && text[p + 1] == ' '
    ensures Skip(text, p) == p && !IsSpace(text[p]) && TokenAt(text, p) == (Sym(c), p + 1)
  {
    SkipUnique(text, p, p);
  }

  lemma FirstAppend(text: string, p: nat)
    requires p + 1 < |text| && text[p] == '>' && text[p + 1] == '>'
    ensures Skip(text, p) == p && !IsSpace(text[p]) && TokenAt(text, p) == (Sym('+'), p + 2)
  {
    SkipUnique(text, p, p);
  }

  /** The token spelled at p. */
  lemma FirstToken(text: string, p: nat, t: Tok<string>, f: Range -> string)
    requires Typable(t) && p + |Spell(t)| < |text| && text[p..p + |Spell(t)|] == Spell(t) && text[p + |Spell(t)|] == ' '
    requires forall w :: f(w) == TextOf(text, w)
    ensures Skip(text, p) == p && !IsSpace(text[p]) && TokenAt(text, p).1 == p + |Spell(t)|
    ensures MapTok(f, TokenAt(text, p).0) == t
  {
    hide TokenAt, Skip;
    var s := Spell(t);
    assert |s| > 0 ==> text[p] == text[p..p + |s|][0];
    match t
    case Word(w) => FirstWord(text, p, w);
    case Sym(c) =>
      if c == '+' {
        assert text[p + 1] == text[p..p + |s|][1];
        FirstAppend(text, p);
      } else {
        FirstSymbol(text, p, c);
      }
  }

  lemma SpaceSkipped(text: string, e: nat)
    requires e < |text| && text[e] == ' '
    ensures Lex(text, e) == Lex(text, e + 1)
  {
    assert Skip(text, e) == Skip(text, e + 1);
  }

  lemma LexFirst(text: string, p: nat)
    requires p < |text| && Skip(text, p) == p
    ensures Lex(text, p) == [TokenAt(text, p).0] + Lex(text, TokenAt(text, p).1)
  {
  }

  /** Spelled tokens are read back as the same tokens. */
  lemma {:induction false} LexRender(text: string, p: nat, ts: seq<Tok<string>>, f: Range -> string)
    requires AllTypable(ts) && p <= |text| && text[p..] == Render(ts) && forall w :: f(w) == TextOf(text, w)
    ensures MapToks(f, Lex(text, p)) == ts
    decreases |ts|
  {
    hide TokenAt, Skip, Lex, MapTok, MapToks, Typable, Spell, Render, TextOf;
    if |ts| == 0 {
      RenderNil(ts);
      LexEnd(text, p, f);
    } else {
      var sp, more := Spell(ts[0]), Render(ts[1..]);
      RenderCons(ts);
      Placed(text, p, sp, more);
      var e := p + |sp|;
      FirstToken(text, p, ts[0], f);
      LexFirst(text, p);
      SpaceSkipped(text, e);
      LexRender(text, e + 1, ts[1..], f);
      MapCons(f, TokenAt(text, p).0, Lex(text, e + 1));
    }
  }

  lemma RenderNil(ts: seq<Tok<string>>)
    requires |ts| == 0
    ensures Render(ts) == ""
  {
  }

  lemma RenderCons(ts: seq<Tok<string>>)
    requires |ts| > 0
    ensures Render(ts) == Spell(ts[0]) + " " + Render(ts[1..])
  {
  }

  lemma LexEnd(text: string, p: nat, f: Range -> string)
    requires p <= |text| && text[p..] == ""
    ensures MapToks(f, Lex(text, p)) == []
  {
    SkipUnique(text, p, p);
  }

  lemma MapCons<W, V>(f: W -> V, t: Tok<W>, ts: seq<Tok<W>>)
    ensures MapToks(f, [t] + ts) == [MapTok(f, t)] + MapToks(f, ts)
  {
  }

  // ----- commands made of typable words -----

  lemma {:induction false} WordsTypable(args: seq<string>)
    requires forall i :: 0 <= i < |args| ==> IsWord(args[i])
    ensures forall i :: 0 <= i < |PrintWords(args)| ==> Typable(PrintWords(args)[i])
    decreases |args|
  {
    if |args| == 0 {
    } else {
      WordsTypable(args[1..]);
    }
  }

  lemma {:induction false} RedirsTypable(rs: seq<To<string>>)
    requires forall i :: 0 <= i < |rs| ==> IsWord(rs[i].file)
    ensures forall i :: 0 <= i < |PrintRedirs(rs)| ==> Typable(PrintRedirs(rs)[i])
    decreases |rs|
  {
    if |rs| == 0 {
    } else {
      RedirsTypable(rs[1..]);
    }
  }

  ghost predicate WordsOk(c: Cmd<string>) {
    forall w :: w in CmdWords(c) ==> IsWord(w)
  }

  lemma {:induction false} OuterOk(c: Cmd<string>)
    requires WordsOk(c)
    ensures WordsOk(Base(c)) && forall i :: 0 <= i < |Outer(c)| ==> IsWord(Outer(c)[i].file)
    decreases c
  {
    if c.Redir? {
      assert WordsOk(c.cmd);
      OuterOk(c.cmd);
    }
  }

  ghost predicate AllTypable(ts: seq<Tok<string>>) {
    forall i :: 0 <= i < |ts| ==> Typable(ts[i])
  }

  lemma {:induction false} ExecTypable(c: Cmd<string>)
    requires WordsOk(c)
    ensures AllTypable(PrintExec(c))
    decreases c, if c.Exec? || c.Redir? then 0 else 4
  {
    OuterOk(c);
    RedirsTypable(Outer(c));
    var b := Base(c);
    if b.Exec? {
      forall i | 0 <= i < |b.args| ensures IsWord(b.args[i]) {
        assert b.args[i] in CmdWords(b);
      }
      WordsTypable(b.args);
    } else {
      LineTypable(b);
    }
  }

  lemma {:induction false} PipeTypable(c: Cmd<string>)
    requires WordsOk(c)
    ensures AllTypable(PrintPipe(c))
    decreases c, if c.Back? || c.List? then 5 else 1
  {
    if c.Pipe? {
      ExecTypable(c.left);
      PipeTypable(c.right);
    } else {
      ExecTypable(c);
    }
  }

  lemma {:induction false} BackTypable(c: Cmd<string>)
    requires WordsOk(c)
    ensures AllTypable(PrintBack(c))
    decreases c, if c.List? then 6 else 2
  {
    if c.Back? {
      BackTypable(c.cmd);
    } else {
      PipeTypable(c);
    }
  }

  lemma {:induction false} LineTypable(c: Cmd<string>)
    requires WordsOk(c)
    ensures AllTypable(PrintLine(c))
    decreases c, 3
  {
    if c.List? {
      BackTypable(c.left);
      LineTypable(c.right);
    } else {
      BackTypable(c);
    }
  }

  /** The line that spells a command is accepted, and the command the shell builds from it has
      that shape and those words. */
  lemma CanBeTyped(c: Cmd<string>)
    requires Fits(c) && WordsOk(c)
    ensures var text := Render(PrintLine(c));
      Parse(Lex(text, 0)).Ok? && MapCmd(w => TextOf(text, w), Parse(Lex(text, 0)).cmd) == c
  {
    var ts := PrintLine(c);
    var text := Render(ts);
    var f := (w: Range) => TextOf(text, w);
    LineTypable(c);
    LexRender(text, 0, ts, f);
    LineRound(c, []);
    assert ts + [] == ts;
    NaturalLine(f, Lex(text, 0));
  }
}
