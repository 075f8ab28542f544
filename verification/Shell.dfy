/** sh.c's recursive-descent parser over a NUL-terminated buffer with a shared cursor. */
module Shell {
  import opened ShellGrammar
  import opened ShellLex
  import opened ShellWords
  import ShellSyntax

  /** The string a C program reads at index q. */
  function CString(b: seq<char>, q: nat): string
    decreases |b| - q
  {
    if q >= |b| || b[q] == '\0' then [] else [b[q]] + CString(b, q + 1)
  }

  lemma {:induction false} CStringIs(b: seq<char>, q: nat, e: nat)
    requires q <= e < |b| && b[e] == '\0' && forall k :: q <= k < e ==> b[k] != '\0'
    ensures CString(b, q) == b[q..e]
    decreases e - q
  {
    if q == e {
    } else {
      CStringIs(b, q + 1, e);
    }
  }

  /** Where nulterminate stores its NULs. */
  ghost function Ends(c: Cmd<Range>): set<nat> {
    set w | w in CmdWords(c) :: w.e
  }

  ghost predicate Terminated(text: string, ends: set<nat>, b: seq<char>) {
    |b| == |text| + 1 && forall k :: 0 <= k <= |text| ==> b[k] == if k in ends || k == |text| then '\0' else text[k]
  }

  /** No NUL lands inside a word: a word ends at a character that is part of none. */
  lemma WordIntact(text: string, c: Cmd<Range>, b: seq<char>, w: Range)
    requires (forall k :: 0 <= k < |text| ==> text[k] != '\0') && (forall v :: v in CmdWords(c) ==> GoodRange(text, v))
    requires Terminated(text, Ends(c), b) && w in CmdWords(c)
    ensures w.q < w.e <= |text| && CString(b, w.q) == text[w.q..w.e]
  {
    assert w.e in Ends(c);
    forall k | w.q <= k < w.e ensures b[k] == text[k] && b[k] != '\0' {
      assert k !in Ends(c);
    }
    CStringIs(b, w.q, w.e);
    assert b[w.q..w.e] == text[w.q..w.e];
  }

  class Parser {
    const buf: array<char>
    ghost const text: string
    var pos: nat   // *ps; es is the index of the terminating NUL

    ghost predicate Valid()
      reads this, buf
    {
      && buf.Length == |text| + 1 && buf[|text|] == '\0' && pos <= |text|
      && forall k :: 0 <= k < |text| ==> buf[k] == text[k] && text[k] != '\0'
    }

    ghost function Tokens(): seq<Tok<Range>>
      requires pos <= |text|
      reads this
    {
      Lex(text, pos)
    }

    constructor (b: array<char>, ghost t: string)
      requires b.Length == |t| + 1 && b[|t|] == '\0' && forall k :: 0 <= k < |t| ==> b[k] == t[k] && t[k] != '\0'
      ensures Valid() && buf == b && text == t && pos == 0
    {
      buf, text, pos := b, t, 0;
    }

    /** The loop over whitespace in gettoken and peek. */
    method SkipSpace()
      requires Valid()
      modifies this`pos
      ensures Valid() && pos == Skip(text, old(pos)) && Tokens() == old(Tokens())
    {
      LexSkip(text, pos);
      ghost var p := pos;
      while pos < buf.Length - 1 && IsSpace(buf[pos])
        invariant Valid() && p <= pos && Skip(text, p) == Skip(text, pos)
        decreases |text| - pos
      {
        pos := pos + 1;
      }
      SkipUnique(text, pos, pos);
    }

    /** peek: whether the next token starts with a character of cs. */
    method Peek(cs: string) returns (r: bool)
      requires Valid() && forall c :: c in cs ==> IsSymbol(c)
      modifies this`pos
      ensures Valid() && old(pos) <= pos && Tokens() == old(Tokens())
      ensures r <==> At(Tokens(), if '>' in cs then cs + "+" else cs)
    {
      PeekMeans(text, pos, cs);
      SkipSpace();
      r := buf[pos] != '\0' && buf[pos] in cs;
    }

    /** gettoken: '\0' at the end of the line, 'a' for a word, else the symbol; '+' for >>. */
    method GetToken() returns (ret: char, q: nat, eq: nat)
      requires Valid()
      modifies this`pos
      ensures Valid() && old(pos) <= pos
      ensures old(Tokens()) == [] ==> ret == '\0' && Tokens() == []
      ensures old(Tokens()) != [] ==> Tokens() == old(Tokens())[1..] && pos > old(pos)
      ensures old(Tokens()) != [] && old(Tokens())[0].Word? ==> ret == 'a' && old(Tokens())[0].w == Range(q, eq)
      ensures old(Tokens()) != [] && old(Tokens())[0].Sym? ==> ret == old(Tokens())[0].c && ret != 'a' && ret != '\0'
    {
      SkipSpace();
      q := pos;
      ret := buf[pos];
      if ret == '\0' {
        eq := pos;
        return;
      }
      ghost var t := TokenAt(text, pos);
      SkipUnique(text, pos, pos);
      if ret == '>' {
        pos := pos + 1;
        if buf[pos] == '>' {
          ret := '+';
          pos := pos + 1;
        }
      } else if ret == '|' || ret == '(' || ret == ')' || ret == ';' || ret == '&' || ret == '<' {
        pos := pos + 1;
      } else {
        ret := 'a';
        while pos < buf.Length - 1 && !IsSpace(buf[pos]) && !IsSymbol(buf[pos])
          invariant Valid() && q <= pos && WordEnd(text, q) == WordEnd(text, pos)
          decreases |text| - pos
        {
          pos := pos + 1;
        }
        WordEndUnique(text, pos, pos);
      }
      assert pos == t.1;
      eq := pos;
      SkipSpace();
    }

    /** parseredirs: appends to the redirections already seen. */
    method ParseRedirs(rs: seq<To<Range>>) returns (ok: bool, out: seq<To<Range>>)
      requires Valid()
      modifies this`pos
      ensures Valid() && old(pos) <= pos
      ensures var f := ShellGrammar.ParseRedirs(rs, old(Tokens()));
        ok == f.Redirs? && (ok ==> out == f.list && Tokens() == f.rest)
      decreases |text| - pos
    {
      out := rs;
      var more := Peek("<>");
      assert "<>" + "+" == "<>+";
      while more
        invariant Valid() && old(pos) <= pos && (more <==> At(Tokens(), "<>+"))
        invariant ShellGrammar.ParseRedirs(rs, old(Tokens())) == ShellGrammar.ParseRedirs(out, Tokens())
        decreases |text| - pos
      {
        ghost var ts := Tokens();
        var tok, q, eq := GetToken();
        ghost var ts1 := Tokens();
        var tok2, q2, eq2 := GetToken();
        if tok2 != 'a' {
          return false, out;
        }
        assert ts[1] == ts1[0] && ts[2..] == ts1[1..];
        out := out + [To(Range(q2, eq2), tok != '<')];
        more := Peek("<>");
      }
      ok := true;
    }

    /** parseexec without a block: words and redirections in any order. */
    method ParseWords() returns (ok: bool, c: Cmd<Range>)
      requires Valid() && !At(Tokens(), "(")
      modifies this`pos
      ensures Valid() && old(pos) <= pos
      ensures var f := ShellGrammar.ParseExec(old(Tokens())); ok == f.Ok? && (ok ==> c == f.cmd && Tokens() == f.rest)
    {
      var args := [];
      c := Exec(args);
      ghost var whole := ShellGrammar.ParseExec(Tokens());
      var rs;
      ok, rs := ParseRedirs([]);
      if !ok {
        return;
      }
      while true
        invariant Valid() && old(pos) <= pos && whole == ShellGrammar.ParseArgs(args, rs, Tokens())
        decreases |text| - pos
      {
        var stop := Peek("|)&;");
        if stop {
          break;
        }
        ghost var ts := Tokens();
        var tok, q, eq := GetToken();
        if tok == '\0' {
          break;
        }
        if tok != 'a' {
          return false, c;
        }
        args := args + [Range(q, eq)];
        if |args| >= MAXARGS {
          return false, c;
        }
        ok, rs := ParseRedirs(rs);
        if !ok {
          return;
        }
      }
      c := Wrap(Exec(args), rs);
      ok := true;
    }

    method ParseExec() returns (ok: bool, c: Cmd<Range>)
      requires Valid()
      modifies this`pos
      ensures Valid() && old(pos) <= pos
      ensures var f := ShellGrammar.ParseExec(old(Tokens())); ok == f.Ok? && (ok ==> c == f.cmd && Tokens() == f.rest)
      decreases |text| - pos, 1
    {
      var block := Peek("(");
      if block {
        ok, c := ParseBlock();
      } else {
        ok, c := ParseWords();
      }
    }

    method ParseBlock() returns (ok: bool, c: Cmd<Range>)
      requires Valid() && At(Tokens(), "(")
      modifies this`pos
      ensures Valid() && old(pos) <= pos
      ensures var f := ShellGrammar.ParseBlock(old(Tokens())); ok == f.Ok? && (ok ==> c == f.cmd && Tokens() == f.rest)
      decreases |text| - pos, 0
    {
      var tok, q, eq := GetToken();
      ok, c := ParseLine();
      if !ok {
        return;
      }
      ok := Peek(")");
      if !ok {
        return;
      }
      tok, q, eq := GetToken();
      var rs;
      ok, rs := ParseRedirs([]);
      c := Wrap(c, rs);
    }

    method ParsePipe() returns (ok: bool, c: Cmd<Range>)
      requires Valid()
      modifies this`pos
      ensures Valid() && old(pos) <= pos
      ensures var f := ShellGrammar.ParsePipe(old(Tokens())); ok == f.Ok? && (ok ==> c == f.cmd && Tokens() == f.rest)
      decreases |text| - pos, 2
    {
      ok, c := ParseExec();
      if !ok {
        return;
      }
      var more := Peek("|");
      if more {
        var tok, q, eq := GetToken();
        var d;
        ok, d := ParsePipe();
        c := Pipe(c, d);
      }
    }

    method ParseLine() returns (ok: bool, c: Cmd<Range>)
      requires Valid()
      modifies this`pos
      ensures Valid() && old(pos) <= pos
      ensures var f := ShellGrammar.ParseLine(old(Tokens())); ok == f.Ok? && (ok ==> c == f.cmd && Tokens() == f.rest)
      decreases |text| - pos, 3
    {
      ok, c := ParsePipe();
      if !ok {
        return;
      }
      ghost var c0, ts := c, Tokens();
      var more := Peek("&");
      while more
        invariant Valid() && old(pos) <= pos && (more <==> At(Tokens(), "&"))
        invariant ParseBacks(c0, ts) == ParseBacks(c, Tokens())
        decreases |text| - pos
      {
        var tok, q, eq := GetToken();
        c := Back(c);
        more := Peek("&");
      }
      more := Peek(";");
      if more {
        var tok, q, eq := GetToken();
        var d;
        ok, d := ParseLine();
        c := List(c, d);
      }
    }

    /** nulterminate. */
    method NulTerminate(c: Cmd<Range>)
      requires forall w :: w in CmdWords(c) ==> w.e < buf.Length
      modifies buf
      ensures forall k :: 0 <= k < buf.Length ==> buf[k] == if k in Ends(c) then '\0' else old(buf[k])
      decreases c
    {
      match c
      case Exec(args) =>
        var i := 0;
        while i < |args|
          invariant i <= |args|
          invariant forall k :: 0 <= k < buf.Length ==>
            buf[k] == if exists j :: 0 <= j < i && args[j].e == k then '\0' else old(buf[k])
        {
          assert args[i] in CmdWords(c);
          buf[args[i].e] := '\0';
          i := i + 1;
        }
        forall k | 0 <= k < buf.Length ensures buf[k] == if k in Ends(c) then '\0' else old(buf[k]) {
          if k in Ends(c) {
            var w :| w in args && w.e == k;
            var j :| 0 <= j < |args| && args[j] == w;
          }
        }
      case Redir(d, f, _) =>
        NulTerminate(d);
        buf[f.e] := '\0';
      case Pipe(l, r) =>
        NulTerminate(l);
        NulTerminate(r);
      case List(l, r) =>
        NulTerminate(l);
        NulTerminate(r);
      case Back(d) =>
        NulTerminate(d);
    }

    /** parsecmd: ends for every line, accepts exactly the lines of the grammar, and leaves
        every word of the command a C string with the word's text. */
    method ParseCmd() returns (ok: bool, c: Cmd<Range>)
      requires Valid() && pos == 0
      modifies this`pos, buf
      ensures var f := Parse(Lex(text, 0)); ok == f.Ok? && (ok ==> c == f.cmd)
      ensures forall d :: ok && c == d <==> ShellSyntax.Derives(Lex(text, 0), d)
      ensures ok ==> forall w :: w in CmdWords(c) ==> w.q < w.e <= |text| && CString(buf[..], w.q) == text[w.q..w.e]
    {
      ghost var ts := Tokens();
      forall d ensures ShellGrammar.Parse(ts) == Ok(d, []) <==> ShellSyntax.Derives(ts, d) {
        ShellSyntax.ParserIsGrammar(ts, d);
      }
      ok, c := ParseLine();
      if !ok {
        return;
      }
      SkipSpace();
      if pos != buf.Length - 1 {
        return false, c;
      }
      forall w | w in CmdWords(c) ensures GoodRange(text, w) {
        LineWords(ts);
        LexWords(text, 0, Word(w));
      }
      NulTerminate(c);
      forall w | w in CmdWords(c) ensures w.q < w.e <= |text| && CString(buf[..], w.q) == text[w.q..w.e] {
        WordIntact(text, c, buf[..], w);
      }
    }
  }
}
