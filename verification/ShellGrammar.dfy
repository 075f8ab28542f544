/** The shell's grammar (xv6/sh.c) on tokens: what the recursive-descent parser accepts and
    which command it builds.  W is what a word is: its text, or its place in the input. */
module ShellGrammar {

  const MAXARGS := 10

  datatype Tok<W> = Word(w: W) | Sym(c: char)  // '+' stands for >>

  /** redirections: true for output.  > and >> give the same command. */
  datatype Cmd<W> =
    | Exec(args: seq<W>)
    | Redir(cmd: Cmd<W>, file: W, output: bool)
    | Pipe(left: Cmd<W>, right: Cmd<W>)
    | List(left: Cmd<W>, right: Cmd<W>)
    | Back(cmd: Cmd<W>)

  datatype Res<W> = Ok(cmd: Cmd<W>, rest: seq<Tok<W>>) | Panic

  /** A redirection: the file and the direction. */
  datatype To<W> = To(file: W, output: bool)

  datatype Redirs<W> = Redirs(list: seq<To<W>>, rest: seq<Tok<W>>) | RedirPanic

  predicate At<W>(ts: seq<Tok<W>>, cs: string) {
    |ts| > 0 && ts[0].Sym? && ts[0].c in cs
  }

  /** redircmd nodes around c, the first redirection innermost. */
  function Wrap<W>(c: Cmd<W>, rs: seq<To<W>>): Cmd<W> {
    if |rs| == 0 then c else Redir(Wrap(c, rs[..|rs| - 1]), rs[|rs| - 1].file, rs[|rs| - 1].output)
  }

  /** parseredirs. */
  function ParseRedirs<W>(rs: seq<To<W>>, ts: seq<Tok<W>>): (r: Redirs<W>)
    ensures r.Redirs? ==> |r.rest| <= |ts| && !At(r.rest, "<>+")
    decreases |ts|
  {
    if !At(ts, "<>+") then Redirs(rs, ts)
    else if |ts| < 2 || !ts[1].Word? then RedirPanic
    else ParseRedirs(rs + [To(ts[1].w, ts[0].c != '<')], ts[2..])
  }

  /** parseexec's loop over the words. */
  function ParseArgs<W>(args: seq<W>, rs: seq<To<W>>, ts: seq<Tok<W>>): (r: Res<W>)
    ensures r.Ok? ==> |r.rest| <= |ts|
    decreases |ts|
  {
    if |ts| == 0 || At(ts, "|)&;") then Ok(Wrap(Exec(args), rs), ts)
    else if !ts[0].Word? || |args| + 1 >= MAXARGS then Panic
    else
      match ParseRedirs(rs, ts[1..])
      case RedirPanic => Panic
      case Redirs(rs', rest) => ParseArgs(args + [ts[0].w], rs', rest)
  }

  function ParseExec<W>(ts: seq<Tok<W>>): (r: Res<W>)
    ensures r.Ok? ==> |r.rest| <= |ts|
    decreases |ts|, 1
  {
    if At(ts, "(") then ParseBlock(ts)
    else
      match ParseRedirs([], ts)
      case RedirPanic => Panic
      case Redirs(rs, rest) => ParseArgs([], rs, rest)
  }

  function ParseBlock<W>(ts: seq<Tok<W>>): (r: Res<W>)
    requires At(ts, "(")
    ensures r.Ok? ==> |r.rest| <= |ts|
    decreases |ts|, 0
  {
    match ParseLine(ts[1..])
    case Panic => Panic
    case Ok(c, rest) =>
      if !At(rest, ")") then Panic
      else
        match ParseRedirs([], rest[1..])
        case RedirPanic => Panic
        case Redirs(rs, rest') => Ok(Wrap(c, rs), rest')
  }

  function ParsePipe<W>(ts: seq<Tok<W>>): (r: Res<W>)
    ensures r.Ok? ==> |r.rest| <= |ts|
    decreases |ts|, 2
  {
    match ParseExec(ts)
    case Panic => Panic
    case Ok(c, rest) =>
      if !At(rest, "|") then Ok(c, rest)
      else
        match ParsePipe(rest[1..])
        case Panic => Panic
        case Ok(d, rest') => Ok(Pipe(c, d), rest')
  }

  /** parseline's loop over &. */
  function ParseBacks<W>(c: Cmd<W>, ts: seq<Tok<W>>): (r: Res<W>)
    ensures r.Ok? && |r.rest| <= |ts| && !At(r.rest, "&")
    decreases |ts|
  {
    if At(ts, "&") then ParseBacks(Back(c), ts[1..]) else Ok(c, ts)
  }

  function ParseLine<W>(ts: seq<Tok<W>>): (r: Res<W>)
    ensures r.Ok? ==> |r.rest| <= |ts|
    decreases |ts|, 3
  {
    match ParsePipe(ts)
    case Panic => Panic
    case Ok(c, rest) =>
      var b := ParseBacks(c, rest);
      if !At(b.rest, ";") then b
      else
        match ParseLine(b.rest[1..])
        case Panic => Panic
        case Ok(d, rest') => Ok(List(b.cmd, d), rest')
  }

  /** parsecmd accepts when nothing is left over. */
  function Parse<W>(ts: seq<Tok<W>>): (r: Res<W>) {
    match ParseLine(ts)
    case Panic => Panic
    case Ok(c, rest) => if |rest| == 0 then Ok(c, []) else Panic
  }
}
