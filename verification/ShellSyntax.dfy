/** The shell's grammar as a grammar: which lines are commands, and what they mean, without saying
    how to parse. */
module ShellSyntax {
  import opened ShellGrammar

  /** An argument, or a redirection symbol with its file. */
  datatype Item<W> = Arg(w: W) | Redirect(sym: char, file: W)

  /** Derivations, one case for each rule. */
  datatype Tree<W> =
    | Simple(items: seq<Item<W>>)                     // words and redirections in any order
    | Block(line: Tree<W>, items: seq<Item<W>>)       // ( line ) redirections
    | Piped(left: Tree<W>, right: Tree<W>)            // exec | pipe
    | Backed(cmd: Tree<W>)                            // back &
    | Listed(left: Tree<W>, right: Tree<W>)           // back ; line

  predicate IsRedirect<W>(i: Item<W>) {
    i.Redirect? && i.sym in "<>+"
  }

  predicate GoodItems<W>(items: seq<Item<W>>) {
    forall i :: 0 <= i < |items| ==> items[i].Arg? || IsRedirect(items[i])
  }

  /** The rules' levels: exec, pipe, back and line. */
  predicate IsExec<W>(t: Tree<W>)
    decreases t, 0
  {
    match t
    case Simple(items) => GoodItems(items) && |Args(items)| < MAXARGS
    case Block(line, items) => IsLine(line) && forall i :: 0 <= i < |items| ==> IsRedirect(items[i])
    case _ => false
  }

  predicate IsPipe<W>(t: Tree<W>)
    decreases t, 1
  {
    if t.Piped? then IsExec(t.left) && IsPipe(t.right) else IsExec(t)
  }

  predicate IsBack<W>(t: Tree<W>)
    decreases t, 2
  {
    if t.Backed? then IsBack(t.cmd) else IsPipe(t)
  }

  predicate IsLine<W>(t: Tree<W>)
    decreases t, 3
  {
    if t.Listed? then IsBack(t.left) && IsLine(t.right) else IsBack(t)
  }

  function Args<W>(items: seq<Item<W>>): seq<W> {
    if |items| == 0 then []
    else if items[0].Arg? then [items[0].w] + Args(items[1..])
    else Args(items[1..])
  }

  /** < opens the file for input, > and >> for output. */
  function Tos<W>(items: seq<Item<W>>): seq<To<W>> {
    if |items| == 0 then []
    else if items[0].Arg? then Tos(items[1..])
    else [To(items[0].file, items[0].sym == '>' || items[0].sym == '+')] + Tos(items[1..])
  }

  function SpellItems<W>(items: seq<Item<W>>): seq<Tok<W>> {
    if |items| == 0 then []
    else (if items[0].Arg? then [Word(items[0].w)] else [Sym(items[0].sym), Word(items[0].file)]) + SpellItems(items[1..])
  }

  /** The line a derivation derives. */
  function Yield<W>(t: Tree<W>): seq<Tok<W>> {
    match t
    case Simple(items) => SpellItems(items)
    case Block(line, items) => [Sym('(')] + Yield(line) + [Sym(')')] + SpellItems(items)
    case Piped(l, r) => Yield(l) + [Sym('|')] + Yield(r)
    case Backed(d) => Yield(d) + [Sym('&')]
    case Listed(l, r) => Yield(l) + [Sym(';')] + Yield(r)
  }

  /** The command it stands for. */
  function Meaning<W>(t: Tree<W>): Cmd<W> {
    match t
    case Simple(items) => Around(Exec(Args(items)), Tos(items))
    case Block(line, items) => Around(Meaning(line), Tos(items))
    case Piped(l, r) => Pipe(Meaning(l), Meaning(r))
    case Backed(d) => Back(Meaning(d))
    case Listed(l, r) => List(Meaning(l), Meaning(r))
  }

  /** Redirections around a command, the first one innermost. */
  function Around<W>(c: Cmd<W>, rs: seq<To<W>>): Cmd<W>
    decreases |rs|
  {
    if |rs| == 0 then c else Around(Redir(c, rs[0].file, rs[0].output), rs[1..])
  }

  /** The line ts is a command, and means c. */
  ghost predicate Derives<W(!new)>(ts: seq<Tok<W>>, c: Cmd<W>) {
    exists t: Tree<W> :: IsLine(t) && Yield(t) == ts && Meaning(t) == c
  }

  // ----- every derivation is found -----

  lemma {:induction false} AroundIsWrap<W>(c: Cmd<W>, done: seq<To<W>>, rs: seq<To<W>>)
    ensures Around(Wrap(c, done), rs) == Wrap(c, done + rs)
    decreases |rs|
  {
    if |rs| == 0 {
      assert done + rs == done;
    } else {
      var more := done + [rs[0]];
      assert more[..|more| - 1] == done;
      AroundIsWrap(c, more, rs[1..]);
      assert more + rs[1..] == done + rs;
    }
  }

  lemma AroundWrap<W>(c: Cmd<W>, rs: seq<To<W>>)
    ensures Around(c, rs) == Wrap(c, rs)
  {
    AroundIsWrap(c, [], rs);
    assert [] + rs == rs;
  }

  predicate Follows<W>(ts: seq<Tok<W>>, cs: string) {
    |ts| == 0 || At(ts, cs)
  }

  /** What parseredirs and the loop over the words make of a list of items. */
  function ParseItems<W>(args: seq<W>, rs: seq<To<W>>, ts: seq<Tok<W>>): Res<W> {
    match ParseRedirs(rs, ts)
    case RedirPanic => Panic
    case Redirs(rs', rest) => ParseArgs(args, rs', rest)
  }

  lemma {:induction false} ItemsFound<W>(args: seq<W>, rs: seq<To<W>>, items: seq<Item<W>>, rest: seq<Tok<W>>)
    requires GoodItems(items) && |args| + |Args(items)| < MAXARGS && Follows(rest, "|)&;")
    ensures ParseItems(args, rs, SpellItems(items) + rest)
      == Ok(Wrap(Exec(args + Args(items)), rs + Tos(items)), rest)
    decreases |items|
  {
    hide Wrap;
    var ts := SpellItems(items) + rest;
    if |items| == 0 {
      assert ts == rest && args + [] == args && rs + [] == rs;
    } else if items[0].Arg? {
      assert ts[0] == Word(items[0].w) && ts[1..] == SpellItems(items[1..]) + rest;
      ItemsFound(args + [items[0].w], rs, items[1..], rest);
      assert args + [items[0].w] + Args(items[1..]) == args + Args(items);
    } else {
      assert IsRedirect(items[0]);
      var to := To(items[0].file, items[0].sym == '>' || items[0].sym == '+');
      assert ts[0] == Sym(items[0].sym) && ts[1] == Word(items[0].file) && ts[2..] == SpellItems(items[1..]) + rest;
      ItemsFound(args, rs + [to], items[1..], rest);
      assert rs + [to] + Tos(items[1..]) == rs + Tos(items);
    }
  }

  lemma {:induction false} RedirsFound<W>(rs: seq<To<W>>, items: seq<Item<W>>, rest: seq<Tok<W>>)
    requires (forall i :: 0 <= i < |items| ==> IsRedirect(items[i])) && !At(rest, "<>+")
    ensures ParseRedirs(rs, SpellItems(items) + rest) == Redirs(rs + Tos(items), rest)
    decreases |items|
  {
    var ts := SpellItems(items) + rest;
    if |items| == 0 {
      assert ts == rest && rs + [] == rs;
    } else {
      assert IsRedirect(items[0]);
      var to := To(items[0].file, items[0].sym == '>' || items[0].sym == '+');
      assert ts[0] == Sym(items[0].sym) && ts[1] == Word(items[0].file) && ts[2..] == SpellItems(items[1..]) + rest;
      RedirsFound(rs + [to], items[1..], rest);
      assert rs + [to] + Tos(items[1..]) == rs + Tos(items);
    }
  }

  lemma SimpleFound<W>(items: seq<Item<W>>, rest: seq<Tok<W>>)
    requires IsExec(Simple(items)) && Follows(rest, "|)&;")
    ensures ParseExec(SpellItems(items) + rest) == Ok(Meaning(Simple(items)), rest)
  {
    hide Wrap, Around;
    var ts := SpellItems(items) + rest;
    ItemsFound([], [], items, rest);
    assert [] + Args(items) == Args(items) && [] + Tos(items) == Tos(items);
    AroundWrap(Exec(Args(items)), Tos(items));
    if |items| > 0 {
      assert items[0].Arg? || IsRedirect(items[0]);
      assert ts[0] == if items[0].Arg? then Word(items[0].w) else Sym(items[0].sym);
    } else {
      assert ts == rest;
    }
    assert !At(ts, "(");
  }

  lemma BlockShape<W>(line: Tree<W>, items: seq<Item<W>>, rest: seq<Tok<W>>)
    ensures var ts := Yield(Block(line, items)) + rest;
      ts[0] == Sym('(') && ts[1..] == Yield(line) + ([Sym(')')] + (SpellItems(items) + rest))
  {
    hide SpellItems;
    var ts := Yield(Block(line, items)) + rest;
    assert ts == [Sym('(')] + (Yield(line) + ([Sym(')')] + (SpellItems(items) + rest)));
  }

  lemma BlockParses<W>(ts: seq<Tok<W>>, c: Cmd<W>, tail: seq<Tok<W>>, rs: seq<To<W>>, rest: seq<Tok<W>>)
    requires At(ts, "(") && ParseLine(ts[1..]) == Ok(c, tail) && At(tail, ")")
    requires ParseRedirs([], tail[1..]) == Redirs(rs, rest)
    ensures ParseExec(ts) == Ok(Wrap(c, rs), rest)
  {
  }

  lemma {:induction false} ExecFound<W>(t: Tree<W>, rest: seq<Tok<W>>)
    requires IsExec(t) && Follows(rest, "|)&;")
    ensures ParseExec(Yield(t) + rest) == Ok(Meaning(t), rest)
    decreases t, 0
  {
    match t
    case Simple(items) => SimpleFound(items, rest);
    case Block(line, items) =>
      hide ParseLine, ParseRedirs, ParseExec, Wrap, Around, SpellItems, Tos;
      BlockShape(line, items, rest);
      var tail := [Sym(')')] + (SpellItems(items) + rest);
      LineFound(line, tail);
      assert tail[1..] == SpellItems(items) + rest;
      RedirsFound([], items, rest);
      assert [] + Tos(items) == Tos(items);
      BlockParses(Yield(t) + rest, Meaning(line), tail, Tos(items), rest);
      AroundWrap(Meaning(line), Tos(items));
  }

  lemma {:induction false} PipeFound<W>(t: Tree<W>, rest: seq<Tok<W>>)
    requires IsPipe(t) && Follows(rest, ")&;")
    ensures ParsePipe(Yield(t) + rest) == Ok(Meaning(t), rest)
    decreases t, 1
  {
    hide ParseExec;
    if t.Piped? {
      var tail := [Sym('|')] + (Yield(t.right) + rest);
      assert Yield(t) + rest == Yield(t.left) + tail;
      ExecFound(t.left, tail);
      PipeFound(t.right, rest);
      assert tail[1..] == Yield(t.right) + rest;
    } else {
      ExecFound(t, rest);
    }
  }

  /** Reading a command with its & up to rest is reading on from rest. */
  lemma {:induction false} BackFound<W>(t: Tree<W>, rest: seq<Tok<W>>)
    requires IsBack(t) && Follows(rest, ")&;")
    ensures var r := ParsePipe(Yield(t) + rest); r.Ok? && ParseBacks(r.cmd, r.rest) == ParseBacks(Meaning(t), rest)
    decreases t, 2
  {
    hide ParsePipe;
    if t.Backed? {
      assert Yield(t) + rest == Yield(t.cmd) + ([Sym('&')] + rest);
      BackFound(t.cmd, [Sym('&')] + rest);
      assert ([Sym('&')] + rest)[1..] == rest;
    } else {
      PipeFound(t, rest);
    }
  }

  lemma {:induction false} LineFound<W>(t: Tree<W>, rest: seq<Tok<W>>)
    requires IsLine(t) && Follows(rest, ")")
    ensures ParseLine(Yield(t) + rest) == Ok(Meaning(t), rest)
    decreases t, 3
  {
    hide ParsePipe;
    if t.Listed? {
      var tail := [Sym(';')] + (Yield(t.right) + rest);
      assert Yield(t) + rest == Yield(t.left) + tail;
      BackFound(t.left, tail);
      LineFound(t.right, rest);
      assert tail[1..] == Yield(t.right) + rest;
    } else {
      BackFound(t, rest);
    }
  }

  // ----- everything found is a derivation -----

  lemma ArgFirst<W>(w: W, more: seq<Item<W>>)
    ensures var items := [Arg(w)] + more;
      SpellItems(items) == [Word(w)] + SpellItems(more) && Args(items) == [w] + Args(more) && Tos(items) == Tos(more)
  {
    assert ([Arg(w)] + more)[1..] == more;
  }

  lemma RedirectFirst<W>(sym: char, file: W, more: seq<Item<W>>)
    ensures var items := [Redirect(sym, file)] + more;
      && SpellItems(items) == [Sym(sym), Word(file)] + SpellItems(more) && Args(items) == Args(more)
      && Tos(items) == [To(file, sym == '>' || sym == '+')] + Tos(more)
  {
    assert ([Redirect(sym, file)] + more)[1..] == more;
  }

  lemma NoItems<W>()
    ensures SpellItems<W>([]) == [] && Args<W>([]) == [] && Tos<W>([]) == []
  {
  }

  lemma RedirStep<W>(rs: seq<To<W>>, ts: seq<Tok<W>>)
    requires ParseRedirs(rs, ts).Redirs?
    ensures !At(ts, "<>+") ==> ParseRedirs(rs, ts) == Redirs(rs, ts)
    ensures At(ts, "<>+") ==>
      && |ts| >= 2 && ts[1].Word? && ts == [ts[0], ts[1]] + ts[2..]
      && ParseRedirs(rs, ts) == ParseRedirs(rs + [To(ts[1].w, ts[0].c == '>' || ts[0].c == '+')], ts[2..])
  {
  }

  lemma Append3<T>(a: seq<T>, b: seq<T>, c: seq<T>)
    ensures a + (b + c) == a + b + c
  {
  }

  lemma {:induction false} RedirsDerived<W>(rs: seq<To<W>>, ts: seq<Tok<W>>) returns (items: seq<Item<W>>)
    requires ParseRedirs(rs, ts).Redirs?
    ensures forall i :: 0 <= i < |items| ==> IsRedirect(items[i])
    ensures ts == SpellItems(items) + ParseRedirs(rs, ts).rest && ParseRedirs(rs, ts).list == rs + Tos(items)
    decreases |ts|
  {
    hide ParseRedirs, SpellItems, Tos, Args;
    var f := ParseRedirs(rs, ts);
    RedirStep(rs, ts);
    if !At(ts, "<>+") {
      items := [];
      NoItems<W>();
      assert rs + [] == rs && [] + ts == ts;
    } else {
      var to := To(ts[1].w, ts[0].c == '>' || ts[0].c == '+');
      var more := RedirsDerived(rs + [to], ts[2..]);
      items := [Redirect(ts[0].c, ts[1].w)] + more;
      RedirectFirst(ts[0].c, ts[1].w, more);
      Append3([ts[0], ts[1]], SpellItems(more), f.rest);
      Append3(rs, [to], Tos(more));
    }
  }

  lemma ArgStep<W>(args: seq<W>, rs: seq<To<W>>, ts: seq<Tok<W>>)
    requires ParseArgs(args, rs, ts).Ok?
    ensures |ts| == 0 || At(ts, "|)&;") ==> ParseArgs(args, rs, ts) == Ok(Wrap(Exec(args), rs), ts)
    ensures !(|ts| == 0 || At(ts, "|)&;")) ==>
      && ts[0].Word? && |args| + 1 < MAXARGS && ts == [ts[0]] + ts[1..] && ParseRedirs(rs, ts[1..]).Redirs?
      && var f := ParseRedirs(rs, ts[1..]);
        ParseArgs(args, rs, ts) == ParseArgs(args + [ts[0].w], f.list, f.rest) && |f.rest| < |ts|
  {
  }

  lemma {:induction false} ArgsDerived<W>(args: seq<W>, rs: seq<To<W>>, ts: seq<Tok<W>>) returns (items: seq<Item<W>>)
    requires ParseArgs(args, rs, ts).Ok?
    ensures GoodItems(items) && ts == SpellItems(items) + ParseArgs(args, rs, ts).rest
    ensures ParseArgs(args, rs, ts).cmd == Wrap(Exec(args + Args(items)), rs + Tos(items))
    ensures |args| < MAXARGS ==> |args| + |Args(items)| < MAXARGS
    decreases |ts|
  {
    hide ParseRedirs, ParseArgs, SpellItems, Tos, Args, Wrap;
    var r := ParseArgs(args, rs, ts);
    ArgStep(args, rs, ts);
    if |ts| == 0 || At(ts, "|)&;") {
      items := [];
      NoItems<W>();
      assert args + [] == args && rs + [] == rs && [] + ts == ts;
    } else {
      var f := ParseRedirs(rs, ts[1..]);
      var a := RedirsDerived(rs, ts[1..]);
      var b := ArgsDerived(args + [ts[0].w], f.list, f.rest);
      items := [Arg(ts[0].w)] + (a + b);
      ItemsAppend(a, b);
      ArgFirst(ts[0].w, a + b);
      Append3(args, [ts[0].w], Args(b));
      Append3(rs, Tos(a), Tos(b));
      Append3(SpellItems(a), SpellItems(b), r.rest);
      Append3([ts[0]], SpellItems(a) + SpellItems(b), r.rest);
    }
  }

  /** Redirections before other items. */
  lemma {:induction false} ItemsAppend<W>(a: seq<Item<W>>, b: seq<Item<W>>)
    requires forall i :: 0 <= i < |a| ==> IsRedirect(a[i])
    ensures SpellItems(a + b) == SpellItems(a) + SpellItems(b) && Args(a + b) == Args(b) && Tos(a + b) == Tos(a) + Tos(b)
    decreases |a|
  {
    hide SpellItems, Args, Tos;
    if |a| == 0 {
      NoItems<W>();
      assert a == [] && a + b == b;
    } else {
      var x, more := a[0], a[1..];
      assert IsRedirect(x) && a == [x] + more && a + b == [x] + (more + b);
      ItemsAppend(more, b);
      RedirectFirst(x.sym, x.file, more);
      RedirectFirst(x.sym, x.file, more + b);
    }
  }

  lemma {:induction false} ExecDerived<W>(ts: seq<Tok<W>>) returns (t: Tree<W>)
    requires ParseExec(ts).Ok?
    ensures IsExec(t) && Meaning(t) == ParseExec(ts).cmd && ts == Yield(t) + ParseExec(ts).rest
    decreases |ts|, 1
  {
    if At(ts, "(") {
      t := BlockDerived(ts);
    } else {
      t := SimpleDerived(ts);
    }
  }

  lemma SimpleParse<W>(ts: seq<Tok<W>>)
    requires !At(ts, "(") && ParseExec(ts).Ok?
    ensures ParseRedirs([], ts).Redirs?
    ensures var f := ParseRedirs([], ts); ParseExec(ts) == ParseArgs([], f.list, f.rest)
  {
  }

  lemma SimpleDerived<W>(ts: seq<Tok<W>>) returns (t: Tree<W>)
    requires !At(ts, "(") && ParseExec(ts).Ok?
    ensures IsExec(t) && Meaning(t) == ParseExec(ts).cmd && ts == Yield(t) + ParseExec(ts).rest
  {
    hide Wrap, Around, ParseExec, ParseRedirs, ParseArgs, SpellItems, Args, Tos;
    SimpleParse(ts);
    var f := ParseRedirs([], ts);
    var a := RedirsDerived([], ts);
    var b := ArgsDerived([], f.list, f.rest);
    ItemsAppend(a, b);
    t := Simple(a + b);
    assert [] + Args(b) == Args(a + b) && [] + Tos(a) + Tos(b) == Tos(a + b);
    Append3(SpellItems(a), SpellItems(b), ParseExec(ts).rest);
    AroundWrap(Exec(Args(a + b)), Tos(a + b));
  }

  lemma BlockParse<W>(ts: seq<Tok<W>>)
    requires At(ts, "(") && ParseBlock(ts).Ok?
    ensures var l := ParseLine(ts[1..]);
      && l.Ok? && At(l.rest, ")") && ParseRedirs([], l.rest[1..]).Redirs?
      && ts == [Sym('(')] + ts[1..] && l.rest == [Sym(')')] + l.rest[1..]
      && var f := ParseRedirs([], l.rest[1..]); ParseBlock(ts) == Ok(Wrap(l.cmd, f.list), f.rest)
  {
  }

  lemma {:induction false} BlockDerived<W>(ts: seq<Tok<W>>) returns (t: Tree<W>)
    requires At(ts, "(") && ParseBlock(ts).Ok?
    ensures IsExec(t) && Meaning(t) == ParseBlock(ts).cmd && ts == Yield(t) + ParseBlock(ts).rest
    decreases |ts|, 0
  {
    hide Wrap, Around, ParseBlock, ParseLine, ParseRedirs, SpellItems, Tos;
    BlockParse(ts);
    var l := ParseLine(ts[1..]);
    var line := LineDerived(ts[1..]);
    var items := RedirsDerived([], l.rest[1..]);
    t := Block(line, items);
    assert [] + Tos(items) == Tos(items);
    AroundWrap(Meaning(line), Tos(items));
    BlockJoin(ts, line, items, l.rest, ParseBlock(ts).rest);
  }

  lemma BlockJoin<W>(ts: seq<Tok<W>>, line: Tree<W>, items: seq<Item<W>>, tail: seq<Tok<W>>, rest: seq<Tok<W>>)
    requires |ts| > 0 && |tail| > 0 && ts == [Sym('(')] + ts[1..] && tail == [Sym(')')] + tail[1..]
    requires ts[1..] == Yield(line) + tail && tail[1..] == SpellItems(items) + rest
    ensures ts == Yield(Block(line, items)) + rest
  {
    hide SpellItems;
    var y := Yield(line);
    assert [Sym('(')] + (y + ([Sym(')')] + (SpellItems(items) + rest)))
      == [Sym('(')] + y + [Sym(')')] + SpellItems(items) + rest;
  }

  lemma PipeParse<W>(ts: seq<Tok<W>>)
    requires ParsePipe(ts).Ok?
    ensures ParseExec(ts).Ok?
    ensures var e := ParseExec(ts);
      if At(e.rest, "|") then
        var r := ParsePipe(e.rest[1..]);
        e.rest == [Sym('|')] + e.rest[1..] && r.Ok? && |e.rest| <= |ts| && ParsePipe(ts) == Ok(Pipe(e.cmd, r.cmd), r.rest)
      else ParsePipe(ts) == e
  {
  }

  lemma {:induction false} PipeDerived<W>(ts: seq<Tok<W>>) returns (t: Tree<W>)
    requires ParsePipe(ts).Ok?
    ensures IsPipe(t) && Meaning(t) == ParsePipe(ts).cmd && ts == Yield(t) + ParsePipe(ts).rest
    decreases |ts|, 2
  {
    hide ParseExec, ParsePipe, IsExec;
    PipeParse(ts);
    var e := ParseExec(ts);
    var l := ExecDerived(ts);
    if At(e.rest, "|") {
      var r := PipeDerived(e.rest[1..]);
      t := Piped(l, r);
      Join(Yield(l), Sym('|'), Yield(r), ParsePipe(ts).rest);
    } else {
      t := l;
      ExecIsPipe(t);
    }
  }

  lemma Join<T>(a: seq<T>, x: T, b: seq<T>, rest: seq<T>)
    ensures a + ([x] + (b + rest)) == a + [x] + b + rest
  {
  }

  lemma ExecIsPipe<W>(t: Tree<W>)
    requires IsExec(t)
    ensures IsPipe(t)
  {
  }

  lemma PipeIsBack<W>(t: Tree<W>)
    requires IsPipe(t)
    ensures IsBack(t)
  {
  }

  lemma BackIsLine<W>(t: Tree<W>)
    requires IsBack(t)
    ensures IsLine(t)
  {
    assert t.Listed? ==> !IsExec(t);
    assert t.Listed? ==> !IsPipe(t);
  }

  lemma {:induction false} BacksDerived<W>(b: Tree<W>, ts: seq<Tok<W>>) returns (t: Tree<W>)
    requires IsBack(b)
    ensures var r := ParseBacks(Meaning(b), ts); IsBack(t) && Meaning(t) == r.cmd && Yield(b) + ts == Yield(t) + r.rest
    decreases |ts|
  {
    if At(ts, "&") {
      assert ts == [ts[0]] + ts[1..];
      t := BacksDerived(Backed(b), ts[1..]);
    } else {
      t := b;
    }
  }

  lemma LineParse<W>(ts: seq<Tok<W>>)
    requires ParseLine(ts).Ok?
    ensures ParsePipe(ts).Ok?
    ensures var b := ParseBacks(ParsePipe(ts).cmd, ParsePipe(ts).rest);
      if At(b.rest, ";") then
        var r := ParseLine(b.rest[1..]);
        b.rest == [Sym(';')] + b.rest[1..] && r.Ok? && |b.rest| <= |ts| && ParseLine(ts) == Ok(List(b.cmd, r.cmd), r.rest)
      else ParseLine(ts) == b
  {
  }

  lemma {:induction false} LineDerived<W>(ts: seq<Tok<W>>) returns (t: Tree<W>)
    requires ParseLine(ts).Ok?
    ensures IsLine(t) && Meaning(t) == ParseLine(ts).cmd && ts == Yield(t) + ParseLine(ts).rest
    decreases |ts|, 3
  {
    hide ParseLine, ParsePipe, ParseBacks, IsBack;
    LineParse(ts);
    var p := ParsePipe(ts);
    var l := PipeDerived(ts);
    PipeIsBack(l);
    var k := BacksDerived(l, p.rest);
    var b := ParseBacks(p.cmd, p.rest);
    if At(b.rest, ";") {
      var r := LineDerived(b.rest[1..]);
      t := Listed(k, r);
      Join(Yield(k), Sym(';'), Yield(r), ParseLine(ts).rest);
    } else {
      t := k;
      BackIsLine(t);
    }
  }

  /** The parser accepts exactly the lines of the grammar and builds exactly what they mean.  So a
      line means one command at most. */
  lemma ParserIsGrammar<W(!new)>(ts: seq<Tok<W>>, c: Cmd<W>)
    ensures Parse(ts) == Ok(c, []) <==> Derives(ts, c)
  {
    if Parse(ts) == Ok(c, []) {
      var t := LineDerived(ts);
      assert ts == Yield(t) + [] == Yield(t);
    }
    if Derives(ts, c) {
      var t: Tree<W> :| IsLine(t) && Yield(t) == ts && Meaning(t) == c;
      LineFound(t, []);
      assert Yield(t) + [] == ts;
    }
  }

  // ----- what the constructs mean, one by one -----

  function Words<W>(args: seq<W>): (r: seq<Tok<W>>)
    ensures |r| == |args| && forall i :: 0 <= i < |args| ==> r[i] == Word(args[i])
  {
    seq(|args|, i requires 0 <= i < |args| => Word(args[i]))
  }

  lemma GoodFirst<W>(w: W, items: seq<Item<W>>)
    requires GoodItems(items)
    ensures GoodItems([Arg(w)] + items)
  {
  }

  lemma WordsCons<W>(args: seq<W>, more: seq<Tok<W>>)
    requires |args| > 0
    ensures [Word(args[0])] + (Words(args[1..]) + more) == Words(args) + more
  {
    assert Words(args) == [Word(args[0])] + Words(args[1..]);
  }

  /** Words followed by redirections. */
  lemma {:induction false} WordsFirst<W>(args: seq<W>, rs: seq<Item<W>>) returns (items: seq<Item<W>>)
    requires forall i :: 0 <= i < |rs| ==> IsRedirect(rs[i])
    ensures GoodItems(items) && Args(items) == args && Tos(items) == Tos(rs)
    ensures SpellItems(items) == Words(args) + SpellItems(rs)
    decreases |args|
  {
    hide SpellItems, Args, Tos, Words;
    if |args| == 0 {
      items := rs;
      ItemsAppend(rs, []);
      NoItems<W>();
      assert rs + [] == rs;
      assert Words(args) == [];
    } else {
      var more := WordsFirst(args[1..], rs);
      items := [Arg(args[0])] + more;
      ArgFirst(args[0], more);
      GoodFirst(args[0], more);
      WordsCons(args, SpellItems(rs));
      assert args == [args[0]] + args[1..];
    }
  }

  lemma ParsesTo<W>(t: Tree<W>)
    requires IsLine(t)
    ensures Parse(Yield(t)) == Ok(Meaning(t), [])
  {
    LineFound(t, []);
    assert Yield(t) + [] == Yield(t);
  }

  /** Plain words. */
  lemma PlainTree<W>(args: seq<W>) returns (t: Tree<W>)
    requires |args| < MAXARGS
    ensures IsExec(t) && Yield(t) == Words(args) && Meaning(t) == Exec(args)
  {
    var items := WordsFirst(args, []);
    t := Simple(items);
    NoItems<W>();
    assert Words(args) + [] == Words(args);
  }

  /** What the pipe, the semicolon, the ampersand and the parentheses build. */
  lemma Constructs<W>(a: seq<W>, b: seq<W>)
    requires |a| < MAXARGS && |b| < MAXARGS
    ensures Parse(Words(a)) == Ok(Exec(a), [])
    ensures Parse(Words(a) + [Sym('|')] + Words(b)) == Ok(Pipe(Exec(a), Exec(b)), [])
    ensures Parse(Words(a) + [Sym(';')] + Words(b)) == Ok(List(Exec(a), Exec(b)), [])
    ensures Parse(Words(a) + [Sym('&')]) == Ok(Back(Exec(a)), [])
    ensures Parse([Sym('(')] + Words(a) + [Sym(')')]) == Ok(Exec(a), [])
  {
    hide Words, Parse;
    var l := PlainTree(a);
    var r := PlainTree(b);
    Levels(l);
    Levels(r);
    Levels(Block(l, []));
    ParsesTo(l);
    ParsesTo(Piped(l, r));
    ParsesTo(Listed(l, r));
    ParsesTo(Backed(l));
    ParsesTo(Block(l, []));
    NoItems<W>();
    assert [Sym('(')] + Words(a) + [Sym(')')] + [] == [Sym('(')] + Words(a) + [Sym(')')];
  }

  lemma Levels<W>(t: Tree<W>)
    requires IsExec(t)
    ensures IsPipe(t) && IsBack(t) && IsLine(t)
  {
    ExecIsPipe(t);
    PipeIsBack(t);
    BackIsLine(t);
  }

  /** Redirections after the words: the symbol says which way, the first one is the innermost. */
  lemma Redirections<W>(args: seq<W>, f: W, g: W, s: char, u: char)
    requires |args| < MAXARGS && s in "<>+" && u in "<>+"
    ensures Parse(Words(args) + [Sym(s), Word(f)]) == Ok(Redir(Exec(args), f, s == '>' || s == '+'), [])
    ensures Parse(Words(args) + [Sym(s), Word(f), Sym(u), Word(g)])
      == Ok(Redir(Redir(Exec(args), f, s == '>' || s == '+'), g, u == '>' || u == '+'), [])
  {
    hide Words, Parse, Args, SpellItems, Tos;
    var i: Item<W>, j: Item<W> := Redirect(s, f), Redirect(u, g);
    NoItems<W>();
    RedirectFirst(s, f, []);
    RedirectFirst(u, g, []);
    RedirectFirst(s, f, [j]);
    assert [i] + [] == [i] && [j] + [] == [j] && [i] + [j] == [i, j];
    var is1 := WordsFirst(args, [i]);
    var is2 := WordsFirst(args, [i, j]);
    var one: Tree<W>, two: Tree<W> := Simple(is1), Simple(is2);
    Levels(one);
    Levels(two);
    ParsesTo(one);
    ParsesTo(two);
    var x, y := To(f, s == '>' || s == '+'), To(g, u == '>' || u == '+');
    assert [Sym(s), Word(f)] + [Sym(u), Word(g)] == [Sym(s), Word(f), Sym(u), Word(g)];
    assert [x] + [y] == [x, y] && [x] + [] == [x] && [y] + [] == [y];
    assert [Sym(s), Word(f)] + [] == [Sym(s), Word(f)] && [Sym(u), Word(g)] + [] == [Sym(u), Word(g)];
    TwoAround(Exec(args), x, y);
  }

  lemma TwoAround<W>(c: Cmd<W>, x: To<W>, y: To<W>)
    ensures Around(c, [x]) == Redir(c, x.file, x.output)
    ensures Around(c, [x, y]) == Redir(Redir(c, x.file, x.output), y.file, y.output)
  {
    assert [x][1..] == [] && [x, y][1..] == [y] && [y][1..] == [];
    var d := Redir(c, x.file, x.output);
    assert Around(d, [y]) == Around(Redir(d, y.file, y.output), []);
  }
}
