/** Disk blocks (xv6/fs.h, xv6/buf.h): 512 bytes, also read as 128 little-endian
    32-bit words by the log header, the indirect block and the on-disk inode. */
module Blocks {

  const BSIZE := 512
  const WORDS := 128
  const U32 := 0x1_0000_0000

  type Byte = x: int | 0 <= x < 256
  type Block = b: seq<Byte> | |b| == BSIZE witness seq(BSIZE, _ => 0)

  const ZERO_BLOCK: Block := seq(BSIZE, _ => 0)

  /** One block write handed to the disk driver. */
  datatype Write = Write(bno: nat, data: Block)

  function Word(b: Block, i: nat): (w: int)
    requires i < WORDS
  {
    (b[4 * i] as int) + 0x100 * (b[4 * i + 1] as int) + 0x1_0000 * (b[4 * i + 2] as int) + 0x100_0000 * (b[4 * i + 3] as int)
  }

  function SetWord(b: Block, i: nat, w: int): (r: Block)
    requires i < WORDS && 0 <= w < U32
  {
    b[4 * i := w % 256]
    [4 * i + 1 := w / 0x100 % 256]
    [4 * i + 2 := w / 0x1_0000 % 256]
    [4 * i + 3 := w / 0x100_0000]
  }

  lemma WordRange(b: Block, i: nat)
    requires i < WORDS
    ensures 0 <= Word(b, i) < U32
  {
  }

  lemma Digits(w: int)
    requires 0 <= w < U32
    ensures w == w % 256 + 0x100 * (w / 0x100 % 256) + 0x1_0000 * (w / 0x1_0000 % 256) + 0x100_0000 * (w / 0x100_0000)
  {
  }

  /** The byte encoding of a word is exact and touches no other word. */
  lemma WordOfSetWord(b: Block, i: nat, w: int, j: nat)
    requires i < WORDS && j < WORDS && 0 <= w < U32
    ensures Word(SetWord(b, i, w), j) == if i == j then w else Word(b, j)
  {
    var r := SetWord(b, i, w);
    if i == j {
      assert r[4 * i] == w % 256 && r[4 * i + 1] == w / 0x100 % 256
          && r[4 * i + 2] == w / 0x1_0000 % 256 && r[4 * i + 3] == w / 0x100_0000;
      Digits(w);
    } else {
      assert forall k :: 4 * j <= k < 4 * j + 4 ==> r[k] == b[k];
    }
  }

  lemma LowByte(a: int, r: int)
    requires 0 <= a < 256
    ensures (a + 256 * r) % 256 == a && (a + 256 * r) / 256 == r
  {
  }

  /** Words are little-endian: each byte is a digit, the lowest one first. */
  lemma WordBytes(b: Block, i: nat)
    requires i < WORDS
    ensures var w := Word(b, i);
      && w % 256 == b[4 * i] && w / 256 % 256 == b[4 * i + 1]
      && w / 256 / 256 % 256 == b[4 * i + 2] && w / 256 / 256 / 256 == b[4 * i + 3]
  {
    var b0: int, b1: int, b2: int, b3: int := b[4 * i], b[4 * i + 1], b[4 * i + 2], b[4 * i + 3];
    LowByte(b2, b3);
    LowByte(b1, b2 + 256 * b3);
    LowByte(b0, b1 + 256 * (b2 + 256 * b3));
    assert Word(b, i) == b0 + 256 * (b1 + 256 * (b2 + 256 * b3));
  }

  lemma ZeroWord(i: nat)
    requires i < WORDS
    ensures Word(ZERO_BLOCK, i) == 0
  {
  }

  /** The disk after a sequence of block writes, oldest first. */
  function Apply(d: seq<Block>, ws: seq<Write>): (r: seq<Block>)
    requires forall k :: 0 <= k < |ws| ==> ws[k].bno < |d|
    ensures |r| == |d|
  {
    if |ws| == 0 then d
    else Apply(d, ws[..|ws| - 1])[ws[|ws| - 1].bno := ws[|ws| - 1].data]
  }

  lemma {:induction false} ApplyAppend(d: seq<Block>, a: seq<Write>, b: seq<Write>)
    requires forall k :: 0 <= k < |a| ==> a[k].bno < |d|
    requires forall k :: 0 <= k < |b| ==> b[k].bno < |d|
    ensures forall k :: 0 <= k < |a + b| ==> (a + b)[k].bno < |d|
    ensures Apply(d, a + b) == Apply(Apply(d, a), b)
    decreases |b|
  {
    if |b| == 0 {
      assert a + b == a;
    } else {
      var b' := b[..|b| - 1];
      assert (a + b)[..|a + b| - 1] == a + b';
      ApplyAppend(d, a, b');
    }
  }

  /** A block no write names keeps its contents. */
  lemma {:induction false} ApplyFrame(d: seq<Block>, ws: seq<Write>, x: nat)
    requires forall k :: 0 <= k < |ws| ==> ws[k].bno < |d|
    requires x < |d|
    requires forall k :: 0 <= k < |ws| ==> ws[k].bno != x
    ensures Apply(d, ws)[x] == d[x]
    decreases |ws|
  {
    if |ws| == 0 {
    } else {
      ApplyFrame(d, ws[..|ws| - 1], x);
    }
  }

  /** When the block numbers are distinct, every write is found in the result. */
  lemma {:induction false} ApplyHit(d: seq<Block>, ws: seq<Write>, i: nat)
    requires forall k :: 0 <= k < |ws| ==> ws[k].bno < |d|
    requires i < |ws|
    requires forall k :: i < k < |ws| ==> ws[k].bno != ws[i].bno
    ensures Apply(d, ws)[ws[i].bno] == ws[i].data
    decreases |ws|
  {
    if i == |ws| - 1 {
    } else {
      ApplyHit(d, ws[..|ws| - 1], i);
    }
  }
}
