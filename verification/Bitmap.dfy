/** The free-block bitmap (xv6/fs.c): bit b of the map says that block b is in use. */
module Bitmap {
  import opened Blocks

  const BPB := 4096  // bits per bitmap block

  predicate BitOf(x: nat, k: nat) {
    if k == 0 then x % 2 == 1 else BitOf(x / 2, k - 1)
  }

  /** x | (1 << k). */
  function SetBit(x: nat, k: nat): nat {
    if k == 0 then x / 2 * 2 + 1 else SetBit(x / 2, k - 1) * 2 + x % 2
  }

  /** x & ~(1 << k). */
  function ClearBit(x: nat, k: nat): nat {
    if k == 0 then x / 2 * 2 else ClearBit(x / 2, k - 1) * 2 + x % 2
  }

  lemma TwiceAnd(y: nat, r: nat)
    requires r < 2
    ensures (y * 2 + r) / 2 == y && (y * 2 + r) % 2 == r
  {
  }

  lemma {:induction false} BitAfterSet(x: nat, k: nat, j: nat)
    ensures BitOf(SetBit(x, k), j) <==> j == k || BitOf(x, j)
    decreases k
  {
    if k == 0 {
      TwiceAnd(x / 2, 1);
    } else {
      var y := SetBit(x / 2, k - 1);
      TwiceAnd(y, x % 2);
      if j > 0 {
        BitAfterSet(x / 2, k - 1, j - 1);
      }
    }
  }

  lemma {:induction false} BitAfterClear(x: nat, k: nat, j: nat)
    ensures BitOf(ClearBit(x, k), j) <==> j != k && BitOf(x, j)
    decreases k
  {
    if k == 0 {
      TwiceAnd(x / 2, 0);
    } else {
      var y := ClearBit(x / 2, k - 1);
      TwiceAnd(y, x % 2);
      if j > 0 {
        BitAfterClear(x / 2, k - 1, j - 1);
      }
    }
  }

  function Pow2(n: nat): nat {
    if n == 0 then 1 else 2 * Pow2(n - 1)
  }

  lemma {:induction false} BitRange(x: nat, k: nat, n: nat)
    requires x < Pow2(n) && k < n
    ensures SetBit(x, k) < Pow2(n) && ClearBit(x, k) < Pow2(n)
    decreases k
  {
    var p := Pow2(n - 1);
    assert Pow2(n) == 2 * p && x / 2 < p;
    if k == 0 {
      assert x / 2 * 2 + 1 < 2 * p;
    } else {
      BitRange(x / 2, k - 1, n - 1);
    }
  }

  lemma ByteRange(x: Byte, k: nat)
    requires k < 8
    ensures SetBit(x, k) < 256 && ClearBit(x, k) < 256
  {
    assert Pow2(4) == 16 && Pow2(8) == 256;
    BitRange(x, k, 8);
  }

  lemma {:induction false} BitPlace(x: nat, k: nat)
    ensures Pow2(k) > 0 && (BitOf(x, k) <==> x / Pow2(k) % 2 == 1)
    decreases k
  {
    if k == 0 {
    } else {
      var p := Pow2(k - 1);
      BitPlace(x / 2, k - 1);
      Halves(x, p);
    }
  }

  lemma Halves(x: nat, p: nat)
    requires p > 0
    ensures x / 2 / p == x / (2 * p)
  {
    var q := x / (2 * p);
    var r := x - q * (2 * p);
    assert 0 <= r < 2 * p;
    assert x / 2 == q * p + r / 2;
    assert 0 <= r / 2 < p;
    Quotient(x / 2, p, q, r / 2);
  }

  lemma TimesGrows(a: nat, b: nat, p: nat)
    requires a <= b
    ensures a * p <= b * p
  {
  }

  lemma Quotient(y: nat, p: nat, q: nat, s: nat)
    requires p > 0 && y == q * p + s && s < p
    ensures y / p == q
  {
    var d, m := y / p, y % p;
    assert y == d * p + m && 0 <= m < p;
    if d < q {
      TimesGrows(d + 1, q, p);
    } else if d > q {
      TimesGrows(q + 1, d, p);
    }
  }

  // ----- one bitmap block -----

  predicate Bit(b: Block, i: nat)
    requires i < BPB
  {
    BitOf(b[i / 8], i % 8)
  }

  /** Block i of the map is bit i % 8, counted from the low end, of byte i / 8. */
  lemma BitIs(b: Block, i: nat)
    requires i < BPB
    ensures Pow2(i % 8) > 0 && (Bit(b, i) <==> b[i / 8] / Pow2(i % 8) % 2 == 1)
  {
    BitPlace(b[i / 8], i % 8);
  }

  function Marked(b: Block, i: nat): Block
    requires i < BPB
  {
    ByteRange(b[i / 8], i % 8);
    b[i / 8 := SetBit(b[i / 8], i % 8)]
  }

  function Cleared(b: Block, i: nat): Block
    requires i < BPB
  {
    ByteRange(b[i / 8], i % 8);
    b[i / 8 := ClearBit(b[i / 8], i % 8)]
  }

  lemma BitMarked(b: Block, i: nat, j: nat)
    requires i < BPB && j < BPB
    ensures Bit(Marked(b, i), j) <==> j == i || Bit(b, j)
  {
    BitAfterSet(b[i / 8], i % 8, j % 8);
  }

  lemma BitCleared(b: Block, i: nat, j: nat)
    requires i < BPB && j < BPB
    ensures Bit(Cleared(b, i), j) <==> j != i && Bit(b, j)
  {
    BitAfterClear(b[i / 8], i % 8, j % 8);
  }

  // ----- the whole map, from block start up -----

  predicate InUse(d: seq<Block>, start: nat, b: nat)
    requires start + b / BPB < |d|
  {
    Bit(d[start + b / BPB], b % BPB)
  }

  lemma MarkOne(d: seq<Block>, start: nat, b: nat, c: nat)
    requires start + b / BPB < |d| && start + c / BPB < |d|
    ensures InUse(d[start + b / BPB := Marked(d[start + b / BPB], b % BPB)], start, c) <==> c == b || InUse(d, start, c)
  {
    BitMarked(d[start + b / BPB], b % BPB, c % BPB);
  }

  lemma ClearOne(d: seq<Block>, start: nat, b: nat, c: nat)
    requires start + b / BPB < |d| && start + c / BPB < |d|
    ensures InUse(d[start + b / BPB := Cleared(d[start + b / BPB], b % BPB)], start, c)
      <==> c != b && InUse(d, start, c)
  {
    BitCleared(d[start + b / BPB], b % BPB, c % BPB);
  }
}
