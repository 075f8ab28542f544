/** The regular-expression matcher of grep (xv6/grep.c).  Pattern and text are C strings
    without their terminating NUL. */
module Grep {

  // ----- what a pattern means -----

  /** A character, '.' for any, once or any number of times. */
  datatype Item = One(c: char) | Star(c: char)

  predicate Fits(c: char, x: char) {
    c == '.' || c == x
  }

  /** The items of a pattern after an initial '^'; a final '$' is not an item. */
  function Items(re: string): seq<Item> {
    if |re| == 0 then []
    else if |re| > 1 && re[1] == '*' then [Star(re[0])] + Items(re[2..])
    else if re == "$" then []
    else [One(re[0])] + Items(re[1..])
  }

  predicate EndAnchored(re: string) {
    if |re| == 0 then false
    else if |re| > 1 && re[1] == '*' then EndAnchored(re[2..])
    else if re == "$" then true
    else EndAnchored(re[1..])
  }

  predicate Piece(i: Item, w: string) {
    match i
    case One(c) => |w| == 1 && Fits(c, w[0])
    case Star(c) => forall k :: 0 <= k < |w| ==> Fits(c, w[k])
  }

  function Concat(ps: seq<string>): string {
    if |ps| == 0 then [] else ps[0] + Concat(ps[1..])
  }

  ghost predicate Spells(items: seq<Item>, ps: seq<string>, w: string) {
    |ps| == |items| && Concat(ps) == w && forall k :: 0 <= k < |ps| ==> Piece(items[k], ps[k])
  }

  /** w is in the language of items: it splits into one piece for each item. */
  ghost predicate Word(items: seq<Item>, w: string) {
    exists ps: seq<string> :: Spells(items, ps, w)
  }

  /** The pattern re, without '^', matches at the beginning of text. */
  ghost predicate Here(re: string, text: string) {
    exists j :: 0 <= j <= |text| && Word(Items(re), text[..j]) && (EndAnchored(re) ==> j == |text|)
  }

  /** The pattern matches somewhere in text, or at its beginning if it starts with '^'. */
  ghost predicate Matches(re: string, text: string) {
    if |re| > 0 && re[0] == '^' then Here(re[1..], text) else exists i :: 0 <= i <= |text| && Here(re, text[i..])
  }

  // ----- the language, one item at a time -----

  lemma WordNil(w: string)
    ensures Word([], w) <==> w == []
  {
    if w == [] {
      assert Spells([], [], w);
    }
  }

  lemma WordCons(i: Item, rest: seq<Item>, p: string, w: string)
    requires Piece(i, p) && Word(rest, w)
    ensures Word([i] + rest, p + w)
  {
    var ps :| Spells(rest, ps, w);
    var qs := [p] + ps;
    assert qs[1..] == ps;
    assert Spells([i] + rest, qs, p + w);
  }

  lemma WordSplit(i: Item, rest: seq<Item>, w: string) returns (p: string, v: string)
    requires Word([i] + rest, w)
    ensures w == p + v && Piece(i, p) && Word(rest, v)
  {
    var items := [i] + rest;
    var ps :| Spells(items, ps, w);
    p, v := ps[0], Concat(ps[1..]);
    assert items[0] == i;
    assert Spells(rest, ps[1..], v) by {
      forall k | 0 <= k < |ps| - 1 ensures Piece(rest[k], ps[1..][k]) {
        assert Piece(items[k + 1], ps[k + 1]);
      }
    }
  }

  lemma WordOne(c: char, rest: seq<Item>, w: string)
    ensures Word([One(c)] + rest, w) <==> |w| > 0 && Fits(c, w[0]) && Word(rest, w[1..])
  {
    if Word([One(c)] + rest, w) {
      var p, v := WordSplit(One(c), rest, w);
      assert w[1..] == v;
    }
    if |w| > 0 && Fits(c, w[0]) && Word(rest, w[1..]) {
      WordCons(One(c), rest, [w[0]], w[1..]);
      assert [w[0]] + w[1..] == w;
    }
  }

  lemma WordStar(c: char, rest: seq<Item>, w: string)
    ensures Word([Star(c)] + rest, w) <==> Word(rest, w) || (|w| > 0 && Fits(c, w[0]) && Word([Star(c)] + rest, w[1..]))
  {
    if Word([Star(c)] + rest, w) {
      var p, v := WordSplit(Star(c), rest, w);
      if p == [] {
        assert w == v;
      } else {
        WordCons(Star(c), rest, p[1..], v);
        assert w[1..] == p[1..] + v;
        assert Fits(c, p[0]);
      }
    }
    if Word(rest, w) {
      WordCons(Star(c), rest, [], w);
      assert [] + w == w;
    } else if |w| > 0 && Fits(c, w[0]) && Word([Star(c)] + rest, w[1..]) {
      var p, v := WordSplit(Star(c), rest, w[1..]);
      WordCons(Star(c), rest, [w[0]] + p, v);
      assert [w[0]] + p + v == w;
    }
  }

  // ----- the same for matches at the beginning of a text -----

  lemma HereNil(text: string)
    ensures Here("", text)
  {
    WordNil(text[..0]);
  }

  lemma HereEnd(text: string)
    ensures Here("$", text) <==> text == []
  {
    WordNil(text[..|text|]);
  }

  lemma HereOne(re: string, text: string)
    requires |re| > 0 && !(|re| > 1 && re[1] == '*') && re != "$"
    ensures Here(re, text) <==> |text| > 0 && (re[0] == '.' || re[0] == text[0]) && Here(re[1..], text[1..])
  {
    if Here(re, text) {
      var j :| 0 <= j <= |text| && Word(Items(re), text[..j]) && (EndAnchored(re) ==> j == |text|);
      WordOne(re[0], Items(re[1..]), text[..j]);
      assert text[..j][1..] == text[1..][..j - 1];
    }
    if |text| > 0 && Fits(re[0], text[0]) && Here(re[1..], text[1..]) {
      var j :| 0 <= j <= |text[1..]| && Word(Items(re[1..]), text[1..][..j]) && (EndAnchored(re[1..]) ==> j == |text[1..]|);
      WordOne(re[0], Items(re[1..]), text[..j + 1]);
      assert text[..j + 1][1..] == text[1..][..j];
    }
  }

  lemma HereStar(re: string, text: string)
    requires |re| > 1 && re[1] == '*'
    ensures Here(re, text) <==>
      Here(re[2..], text) || (|text| > 0 && (re[0] == '.' || re[0] == text[0]) && Here(re, text[1..]))
  {
    if Here(re, text) {
      var j :| 0 <= j <= |text| && Word(Items(re), text[..j]) && (EndAnchored(re) ==> j == |text|);
      WordStar(re[0], Items(re[2..]), text[..j]);
      if !Word(Items(re[2..]), text[..j]) {
        assert text[..j][1..] == text[1..][..j - 1];
      }
    }
    if Here(re[2..], text) {
      var j :| 0 <= j <= |text| && Word(Items(re[2..]), text[..j]) && (EndAnchored(re[2..]) ==> j == |text|);
      WordStar(re[0], Items(re[2..]), text[..j]);
    } else if |text| > 0 && Fits(re[0], text[0]) && Here(re, text[1..]) {
      var j :| 0 <= j <= |text[1..]| && Word(Items(re), text[1..][..j]) && (EndAnchored(re) ==> j == |text[1..]|);
      WordStar(re[0], Items(re[2..]), text[..j + 1]);
      assert text[..j + 1][1..] == text[1..][..j];
    }
  }

  // ----- grep.c -----

  /** match: finds exactly the texts that contain a word of the pattern's language where the
      anchors allow it. */
  method Match(re: string, text: string) returns (r: bool)
    ensures r <==> Matches(re, text)
    ensures |re| > 0 && re[0] == '^' ==> (r <==> Here(re[1..], text))
    ensures !(|re| > 0 && re[0] == '^') ==> (r <==> exists i :: 0 <= i <= |text| && Here(re, text[i..]))
  {
    if |re| > 0 && re[0] == '^' {
      r := MatchHere(re[1..], text);
      return;
    }
    var t := text;
    ghost var i := 0;
    while true
      invariant 0 <= i <= |text| && t == text[i..] && forall k :: 0 <= k < i ==> !Here(re, text[k..])
      decreases |t|
    {
      r := MatchHere(re, t);
      if r {
        return;
      }
      if t == [] {
        return false;
      }
      t := t[1..];
      i := i + 1;
    }
  }

  method MatchHere(re: string, text: string) returns (r: bool)
    ensures r <==> Here(re, text)
    decreases |re|, |text|, 0
  {
    if |re| == 0 {
      HereNil(text);
      return true;
    }
    if |re| > 1 && re[1] == '*' {
      r := MatchStar(re[0], re[2..], text);
      assert [re[0], '*'] + re[2..] == re;
      return;
    }
    if re[0] == '$' && |re| == 1 {
      assert re == "$";
      HereEnd(text);
      return text == [];
    }
    HereOne(re, text);
    if |text| > 0 && (re[0] == '.' || re[0] == text[0]) {
      r := MatchHere(re[1..], text[1..]);
      return;
    }
    r := false;
  }

  /** matchstar: c*re at the beginning of text. */
  method MatchStar(c: char, re: string, text: string) returns (r: bool)
    ensures r <==> Here([c, '*'] + re, text)
    decreases |re|, |text|, 1
  {
    var t := text;
    ghost var full := [c, '*'] + re;
    assert full[2..] == re;
    while true
      invariant |t| <= |text| && (Here(full, text) <==> Here(full, t))
      decreases |t|
    {
      HereStar(full, t);
      r := MatchHere(re, t);
      if r {
        return;
      }
      if t == [] {
        return false;
      }
      var x := t[0];
      t := t[1..];
      if !(x == c || c == '.') {
        return false;
      }
    }
  }
}
