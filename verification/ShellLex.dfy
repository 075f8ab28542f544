/** Tokens of a command line (xv6/sh.c gettoken and peek). */
module ShellLex {
  import opened ShellGrammar

  predicate IsSpace(c: char) {
    c in " \t\r\n\U{0B}"
  }

  predicate IsSymbol(c: char) {
    c in "<|>&;()"
  }

  predicate IsWordChar(c: char) {
    !IsSpace(c) && !IsSymbol(c)
  }

  /** The shell's white space and symbols, one by one. */
  lemma CharClasses(c: char)
    ensures IsSpace(c) <==> c == ' ' || c == '\t' || c == '\r' || c == '\n' || c == '\U{0B}'
    ensures IsSymbol(c) <==> c == '<' || c == '|' || c == '>' || c == '&' || c == ';' || c == '(' || c == ')'
  {
  }

  /** A word's place in the line: from q up to but not including e. */
  datatype Range = Range(q: nat, e: nat)

  function Skip(text: string, p: nat): (r: nat)
    requires p <= |text|
    ensures p <= r <= |text| && (forall k :: p <= k < r ==> IsSpace(text[k])) && (r < |text| ==> !IsSpace(text[r]))
    decreases |text| - p
  {
    if p < |text| && IsSpace(text[p]) then Skip(text, p + 1) else p
  }

  function WordEnd(text: string, p: nat): (r: nat)
    requires p <= |text|
    ensures p <= r <= |text| && (forall k :: p <= k < r ==> IsWordChar(text[k]))
    ensures (r < |text| ==> !IsWordChar(text[r]))
    decreases |text| - p
  {
    if p < |text| && IsWordChar(text[p]) then WordEnd(text, p + 1) else p
  }

  /** The token that starts at p, and where it ends. */
  function TokenAt(text: string, p: nat): (r: (Tok<Range>, nat))
    requires p < |text| && !IsSpace(text[p])
    ensures p < r.1 <= |text|
  {
    if text[p] == '>' && p + 1 < |text| && text[p + 1] == '>' then (Sym('+'), p + 2)
    else if IsSymbol(text[p]) then (Sym(text[p]), p + 1)
    else (Word(Range(p, WordEnd(text, p))), WordEnd(text, p))
  }

  /** The tokens of text from p on. */
  function Lex(text: string, p: nat): seq<Tok<Range>>
    requires p <= |text|
    decreases |text| - p
  {
    var s := Skip(text, p);
    if s == |text| then [] else [TokenAt(text, s).0] + Lex(text, TokenAt(text, s).1)
  }

  lemma {:induction false} SkipUnique(text: string, p: nat, r: nat)
    requires p <= r <= |text| && (forall k :: p <= k < r ==> IsSpace(text[k])) && (r < |text| ==> !IsSpace(text[r]))
    ensures Skip(text, p) == r
    decreases |text| - p
  {
    if p == r {
    } else {
      SkipUnique(text, p + 1, r);
    }
  }

  lemma {:induction false} WordEndUnique(text: string, p: nat, r: nat)
    requires p <= r <= |text| && (forall k :: p <= k < r ==> IsWordChar(text[k]))
    requires (r < |text| ==> !IsWordChar(text[r]))
    ensures WordEnd(text, p) == r
    decreases |text| - p
  {
    if p == r {
    } else {
      WordEndUnique(text, p + 1, r);
    }
  }

  lemma LexSkip(text: string, p: nat)
    requires p <= |text|
    ensures Lex(text, Skip(text, p)) == Lex(text, p)
  {
    SkipUnique(text, Skip(text, p), Skip(text, p));
  }

  /** What peek's test of one character says about the next token. */
  lemma PeekMeans(text: string, p: nat, cs: string)
    requires p <= |text| && (forall c :: c in cs ==> IsSymbol(c))
    ensures var s := Skip(text, p);
      (s < |text| && text[s] in cs) <==> At(Lex(text, p), if '>' in cs then cs + "+" else cs)
  {
    var s := Skip(text, p);
    if s < |text| {
      assert Lex(text, p)[0] == TokenAt(text, s).0;
    }
  }

  ghost predicate GoodRange(text: string, w: Range) {
    && w.q < w.e <= |text| && (forall k :: w.q <= k < w.e ==> IsWordChar(text[k]))
    && (w.e < |text| ==> !IsWordChar(text[w.e]))
  }

  /** Words are maximal runs of word characters. */
  lemma {:induction false} LexWords(text: string, p: nat, t: Tok<Range>)
    requires p <= |text| && t in Lex(text, p) && t.Word?
    ensures GoodRange(text, t.w)
    decreases |text| - p
  {
    var s := Skip(text, p);
    var tok := TokenAt(text, s);
    if t != tok.0 {
      LexWords(text, tok.1, t);
    }
  }

  // ----- tokens cover the line -----

  function NoSpace(s: string): string {
    if |s| == 0 then "" else (if IsSpace(s[0]) then "" else [s[0]]) + NoSpace(s[1..])
  }

  /** The characters of a token. */
  function Chars(text: string, t: Tok<Range>): string {
    match t
    case Word(w) => if w.q <= w.e <= |text| then text[w.q..w.e] else ""
    case Sym(c) => if c == '+' then ">>" else [c]
  }

  function AllChars(text: string, ts: seq<Tok<Range>>): string {
    if |ts| == 0 then "" else Chars(text, ts[0]) + AllChars(text, ts[1..])
  }

  lemma {:induction false} SkipSpaces(text: string, p: nat, s: nat)
    requires p <= s <= |text| && forall k :: p <= k < s ==> IsSpace(text[k])
    ensures NoSpace(text[p..]) == NoSpace(text[s..])
    decreases s - p
  {
    if p == s {
    } else {
      assert text[p..][0] == text[p] && text[p..][1..] == text[p + 1..];
      SkipSpaces(text, p + 1, s);
    }
  }

  lemma {:induction false} KeepChars(text: string, p: nat, e: nat)
    requires p <= e <= |text| && forall k :: p <= k < e ==> !IsSpace(text[k])
    ensures NoSpace(text[p..]) == text[p..e] + NoSpace(text[e..])
    decreases e - p
  {
    if p == e {
      assert text[p..e] == "";
    } else {
      assert text[p..][0] == text[p] && text[p..][1..] == text[p + 1..];
      KeepChars(text, p + 1, e);
      assert text[p..e] == [text[p]] + text[p + 1..e];
    }
  }

  lemma TokenChars(text: string, s: nat)
    requires s < |text| && !IsSpace(text[s])
    ensures var t := TokenAt(text, s);
      Chars(text, t.0) == text[s..t.1] && forall k :: s <= k < t.1 ==> !IsSpace(text[k])
    ensures TokenAt(text, s).0.Sym? <==> IsSymbol(text[s])
    ensures TokenAt(text, s).0 == Sym('+') <==> s + 1 < |text| && text[s] == '>' && text[s + 1] == '>'
  {
  }

  /** Nothing but white space is lost: the characters of the tokens, in order, are those of the line
      that are not white space. */
  lemma {:induction false} LexCovers(text: string, p: nat)
    requires p <= |text|
    ensures AllChars(text, Lex(text, p)) == NoSpace(text[p..])
    decreases |text| - p
  {
    hide TokenAt, Chars, NoSpace;
    var s := Skip(text, p);
    SkipSpaces(text, p, s);
    if s == |text| {
      Nothing(text);
    } else {
      var tok := TokenAt(text, s);
      TokenChars(text, s);
      LexCovers(text, tok.1);
      KeepChars(text, s, tok.1);
      assert Lex(text, p)[1..] == Lex(text, tok.1);
    }
  }

  lemma Nothing(text: string)
    ensures NoSpace(text[|text|..]) == ""
  {
  }
}
