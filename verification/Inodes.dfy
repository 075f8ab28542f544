/** On-disk inodes (xv6/fs.h): 16 words each, eight to a block. */
module Inodes {
  import opened Blocks

  const NDIRECT := 12
  const NINDIRECT := 128
  const MAXFILE := 140
  const IPB := 8

  /** w0 and w1 hold type, major, minor and nlink; addrs has NDIRECT + 1 entries. */
  datatype Inode = Inode(w0: nat, w1: nat, size: nat, addrs: seq<nat>)

  predicate Fits(ip: Inode) {
    && |ip.addrs| == NDIRECT + 1 && ip.w0 < U32 && ip.w1 < U32 && ip.size < U32
    && forall p :: 0 <= p <= NDIRECT ==> ip.addrs[p] < U32
  }

  function Words(ip: Inode): (ws: seq<nat>)
    requires Fits(ip)
    ensures |ws| == 16 && forall k :: 0 <= k < 16 ==> ws[k] < U32
  {
    [ip.w0, ip.w1, ip.size] + ip.addrs
  }

  /** Words ws written to a block from word i up. */
  function SetWords(b: Block, i: nat, ws: seq<nat>): Block
    requires i + |ws| <= WORDS && forall k :: 0 <= k < |ws| ==> ws[k] < U32
  {
    if |ws| == 0 then b else SetWord(SetWords(b, i, ws[..|ws| - 1]), i + |ws| - 1, ws[|ws| - 1])
  }

  lemma {:induction false} WordOfSetWords(b: Block, i: nat, ws: seq<nat>, j: nat)
    requires i + |ws| <= WORDS && j < WORDS && forall k :: 0 <= k < |ws| ==> ws[k] < U32
    ensures Word(SetWords(b, i, ws), j) == if i <= j < i + |ws| then ws[j - i] else Word(b, j)
    decreases |ws|
  {
    if |ws| == 0 {
    } else {
      WordOfSetWords(b, i, ws[..|ws| - 1], j);
      WordOfSetWord(SetWords(b, i, ws[..|ws| - 1]), i + |ws| - 1, ws[|ws| - 1], j);
    }
  }

  function WordAt(b: Block, i: nat): nat
    requires i < WORDS
  {
    WordRange(b, i);
    Word(b, i)
  }

  function GetInode(b: Block, k: nat): Inode
    requires k < IPB
  {
    Inode(WordAt(b, 16 * k), WordAt(b, 16 * k + 1), WordAt(b, 16 * k + 2),
          seq<nat>(13, p requires 0 <= p < 13 => WordAt(b, 16 * k + 3 + p)))
  }

  function PutInode(b: Block, k: nat, ip: Inode): Block
    requires k < IPB && Fits(ip)
  {
    SetWords(b, 16 * k, Words(ip))
  }

  /** Inode k of a block: words 16 k and up, the size in the third, then the block addresses. */
  lemma InodePlace(b: Block, k: nat)
    requires k < IPB
    ensures var ip := GetInode(b, k);
      && ip.w0 == Word(b, 16 * k) && ip.w1 == Word(b, 16 * k + 1) && ip.size == Word(b, 16 * k + 2)
      && |ip.addrs| == NDIRECT + 1 && forall p :: 0 <= p <= NDIRECT ==> ip.addrs[p] == Word(b, 16 * k + 3 + p)
  {
    forall p | 0 <= p <= NDIRECT ensures GetInode(b, k).addrs[p] == Word(b, 16 * k + 3 + p) {
      assert GetInode(b, k).addrs[p] == WordAt(b, 16 * k + 3 + p);
    }
  }

  /** An inode read back is the inode written; its neighbours are untouched. */
  lemma GetAfterPut(b: Block, k: nat, ip: Inode, j: nat)
    requires k < IPB && j < IPB && Fits(ip)
    ensures GetInode(PutInode(b, k, ip), j) == if j == k then ip else GetInode(b, j)
  {
    var c := PutInode(b, k, ip);
    forall w: nat | 16 * j <= w < 16 * j + 16
      ensures WordAt(c, w) == if j == k then Words(ip)[w - 16 * k] else WordAt(b, w)
    {
      WordOfSetWords(b, 16 * k, Words(ip), w);
    }
    var x, y := GetInode(c, j), if j == k then ip else GetInode(b, j);
    forall p | 0 <= p < 13 ensures x.addrs[p] == y.addrs[p] {
      assert x.addrs[p] == WordAt(c, 16 * j + 3 + p);
    }
  }
}
