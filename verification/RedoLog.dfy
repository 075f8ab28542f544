/** The redo log (xv6/log.c) as writes to a disk that may stop after any of them. */
module RedoLog {
  import opened Blocks

  const MAXOPBLOCKS := 10
  const LOGSIZE := 30

  /** The log occupies blocks start .. start+size-1 of a disk of nblocks blocks. */
  datatype Layout = Layout(start: nat, size: nat, nblocks: nat) {
    predicate Ok() {
      1 <= size && start + size <= nblocks < 0x8000_0000
    }

    /** What fits: the header lists LOGSIZE blocks at most, and it takes up a block itself. */
    function Capacity(): (r: int)
      ensures r <= LOGSIZE && r <= size - 1 && (r == LOGSIZE || r == size - 1)
    {
      if size > LOGSIZE then LOGSIZE else size - 1
    }

    /** The i-th data block of the log. */
    function Slot(i: int): int {
      start + 1 + i
    }

    predicate InLog(b: int) {
      start <= b < start + size
    }

    predicate Home(b: int) {
      0 <= b < nblocks && !InLog(b)
    }
  }

  // ----- the header block -----

  /** The count field, an int: loops `tail < n` do nothing when it is negative. */
  function HeadCount(h: Block): int {
    var w := Word(h, 0);
    if w < 0x8000_0000 then w else w - U32
  }

  function HeadList(h: Block): (r: seq<nat>)
    requires 0 <= HeadCount(h) <= LOGSIZE
    ensures |r| == HeadCount(h)
  {
    seq(HeadCount(h), i requires 0 <= i < HeadCount(h) => WordRange(h, i + 1); Word(h, i + 1))
  }

  /** write_head's copy loop: entries 0 .. k-1 stored, the rest of the block kept. */
  function PutHead(h: Block, n: nat, lh: seq<nat>, k: nat): Block
    requires k <= |lh| <= LOGSIZE && n <= LOGSIZE && forall i :: 0 <= i < |lh| ==> lh[i] < U32
  {
    if k == 0 then SetWord(h, 0, n) else SetWord(PutHead(h, n, lh, k - 1), k, lh[k - 1])
  }

  function MakeHead(h: Block, lh: seq<nat>): Block
    requires |lh| <= LOGSIZE && forall i :: 0 <= i < |lh| ==> lh[i] < U32
  {
    PutHead(h, |lh|, lh, |lh|)
  }

  lemma {:induction false} PutHeadWords(h: Block, n: nat, lh: seq<nat>, k: nat, j: nat)
    requires k <= |lh| <= LOGSIZE && n <= LOGSIZE && forall i :: 0 <= i < |lh| ==> lh[i] < U32
    requires j < WORDS
    ensures Word(PutHead(h, n, lh, k), j) == if j == 0 then n else if j <= k then lh[j - 1] else Word(h, j)
  {
    if k == 0 {
      WordOfSetWord(h, 0, n, j);
    } else {
      PutHeadWords(h, n, lh, k - 1, j);
      WordOfSetWord(PutHead(h, n, lh, k - 1), k, lh[k - 1], j);
    }
  }

  /** Reading back a written header gives the list that was written. */
  lemma HeadRoundTrip(h: Block, lh: seq<nat>)
    requires |lh| <= LOGSIZE && forall i :: 0 <= i < |lh| ==> lh[i] < U32
    ensures HeadCount(MakeHead(h, lh)) == |lh|
    ensures HeadList(MakeHead(h, lh)) == lh
  {
    PutHeadWords(h, |lh|, lh, |lh|, 0);
    forall i | 0 <= i < |lh| ensures HeadList(MakeHead(h, lh))[i] == lh[i] {
      PutHeadWords(h, |lh|, lh, |lh|, i + 1);
    }
  }

  // ----- transactions as sequences of disk writes -----

  /** What log_write leaves in the in-memory header: distinct home blocks. */
  ghost predicate GoodList(l: Layout, lh: seq<nat>) {
    && |lh| <= l.Capacity()
    && (forall i :: 0 <= i < |lh| ==> l.Home(lh[i]))
    && (forall i, j :: 0 <= i < j < |lh| ==> lh[i] != lh[j])
  }

  function LogWrites(v: seq<Block>, l: Layout, lh: seq<nat>): seq<Write>
    requires forall i :: 0 <= i < |lh| ==> lh[i] < |v|
  {
    seq(|lh|, i requires 0 <= i < |lh| => Write(l.Slot(i), v[lh[i]]))
  }

  function HomeWrites(v: seq<Block>, lh: seq<nat>): seq<Write>
    requires forall i :: 0 <= i < |lh| ==> lh[i] < |v|
  {
    seq(|lh|, i requires 0 <= i < |lh| => Write(lh[i], v[lh[i]]))
  }

  /** Every write of commit(), in order, for cached contents v. */
  function CommitWrites(v: seq<Block>, l: Layout, lh: seq<nat>): (r: seq<Write>)
    requires l.Ok() && |v| == l.nblocks && |lh| <= l.Capacity() && forall i :: 0 <= i < |lh| ==> lh[i] < |v|
    ensures |r| == if |lh| == 0 then 0 else 2 * |lh| + 2
    ensures forall k :: 0 <= k < |r| ==> r[k].bno < |v|
  {
    if |lh| == 0 then []
    else
      LogWrites(v, l, lh)
      + [Write(l.start, MakeHead(v[l.start], lh))]
      + HomeWrites(v, lh)
      + [Write(l.start, MakeHead(MakeHead(v[l.start], lh), []))]
  }

  /** A disk whose header can be trusted. */
  ghost predicate WellFormed(l: Layout, d: seq<Block>) {
    && l.Ok() && |d| == l.nblocks
    && 0 <= HeadCount(d[l.start]) <= LOGSIZE
    && GoodList(l, HeadList(d[l.start]))
  }

  /** Every write of recover_from_log(), in order. */
  ghost function RecoverWrites(l: Layout, d: seq<Block>): (r: seq<Write>)
    requires WellFormed(l, d)
    ensures |r| == |HeadList(d[l.start])| + 1
    ensures forall k :: 0 <= k < |r| ==> r[k].bno < |d|
  {
    var lh := HeadList(d[l.start]);
    seq(|lh|, i requires 0 <= i < |lh| => Write(lh[i], d[l.Slot(i)]))
    + [Write(l.start, MakeHead(d[l.start], []))]
  }

  ghost function Recover(l: Layout, d: seq<Block>): seq<Block>
    requires WellFormed(l, d)
  {
    Apply(d, RecoverWrites(l, d))
  }

  ghost predicate HomeEqual(l: Layout, a: seq<Block>, b: seq<Block>) {
    |a| == |b| == l.nblocks && forall x :: l.Home(x) ==> a[x] == b[x]
  }

  ghost predicate Clean(l: Layout, d: seq<Block>) {
    WellFormed(l, d) && HeadCount(d[l.start]) == 0
  }

  /** The disk pins down contents v: logged blocks in the log, the others at home. */
  ghost predicate Durable(l: Layout, d: seq<Block>, v: seq<Block>) {
    && WellFormed(l, d) && |v| == l.nblocks
    && var lh := HeadList(d[l.start]);
      && (forall i :: 0 <= i < |lh| ==> d[l.Slot(i)] == v[lh[i]])
      && (forall x :: l.Home(x) && x !in lh ==> d[x] == v[x])
  }

  /** Recovery of a durable disk restores exactly the pinned contents and clears the log. */
  lemma RecoverDurable(l: Layout, d: seq<Block>, v: seq<Block>)
    requires Durable(l, d, v)
    ensures HomeEqual(l, Recover(l, d), v)
    ensures Clean(l, Recover(l, d))
  {
    var lh, ws, r := HeadList(d[l.start]), RecoverWrites(l, d), Recover(l, d);
    forall x | l.Home(x) ensures r[x] == v[x] {
      if i :| 0 <= i < |lh| && lh[i] == x {
        ApplyHit(d, ws, i);
      } else {
        ApplyFrame(d, ws, x);
      }
    }
    ApplyHit(d, ws, |lh|);
    HeadRoundTrip(d[l.start], []);
  }

  /** What recovery does to the disk, in terms of the header's words: the block that word j names
      gets the contents of the j-th block after the header, and the count becomes 0. */
  lemma RecoverMeans(l: Layout, d: seq<Block>)
    requires WellFormed(l, d)
    ensures 0 <= Word(d[l.start], 0) <= LOGSIZE
    ensures var h, r := d[l.start], Recover(l, d);
      && |r| == |d| && Word(r[l.start], 0) == 0
      && (forall j :: 1 <= j <= Word(h, 0) ==> 0 <= Word(h, j) < |d| && r[Word(h, j)] == d[l.start + j])
      && (forall x :: 0 <= x < |d| && x != l.start && (forall j :: 1 <= j <= Word(h, 0) ==> Word(h, j) != x) ==>
        r[x] == d[x])
  {
    hide RecoverWrites, HeadList, GoodList, MakeHead, Word;
    var h := d[l.start];
    WordRange(h, 0);
    var ws, r := RecoverWrites(l, d), Recover(l, d);
    RecoverWriteAt(l, d, 0);
    forall j | 1 <= j <= Word(h, 0) ensures 0 <= Word(h, j) < |d| && r[Word(h, j)] == d[l.start + j] {
      RecoverWriteAt(l, d, j - 1);
      ApplyHit(d, ws, j - 1);
    }
    forall x | 0 <= x < |d| && x != l.start && (forall j :: 1 <= j <= Word(h, 0) ==> Word(h, j) != x)
      ensures r[x] == d[x]
    {
      forall k | 0 <= k < |ws| ensures ws[k].bno != x {
        RecoverWriteAt(l, d, k);
      }
      ApplyFrame(d, ws, x);
    }
    RecoverWriteAt(l, d, |ws| - 1);
    ApplyHit(d, ws, |ws| - 1);
    HeadRoundTrip(h, []);
    WordRange(r[l.start], 0);
  }

  lemma RecoverWriteAt(l: Layout, d: seq<Block>, k: nat)
    requires WellFormed(l, d) && k < |RecoverWrites(l, d)|
    ensures var h, ws := d[l.start], RecoverWrites(l, d);
      && 0 <= Word(h, 0) == |ws| - 1 <= l.Capacity()
      && (k < |ws| - 1 ==> 0 <= Word(h, k + 1) < |d| && ws[k] == Write(Word(h, k + 1), d[l.start + 1 + k]))
      && (k == |ws| - 1 ==> ws[k] == Write(l.start, MakeHead(h, [])))
      && (forall i, j :: 0 <= i < j < |ws| ==> ws[i].bno != ws[j].bno)
  {
    hide Word;
    WordRange(d[l.start], 0);
    var lh := HeadList(d[l.start]);
    if k < |lh| {
      assert lh[k] == Word(d[l.start], k + 1) && l.Home(lh[k]);
    }
  }

  // ----- one write at a time -----

  /** Filling the log region is invisible while the header is empty. */
  lemma LogWriteStep(l: Layout, d: seq<Block>, v: seq<Block>, i: nat, data: Block)
    requires Durable(l, d, v) && HeadCount(d[l.start]) == 0 && i + 1 < l.size
    ensures Durable(l, d[l.Slot(i) := data], v)
  {
  }

  /** The header write is the commit point: it switches the pinned contents at once. */
  lemma CommitPointStep(l: Layout, d: seq<Block>, v: seq<Block>, w: seq<Block>, h: Block, lh: seq<nat>)
    requires Durable(l, d, v) && HeadCount(d[l.start]) == 0 && |w| == |v| && GoodList(l, lh)
    requires forall i :: 0 <= i < |lh| ==> d[l.Slot(i)] == w[lh[i]]
    requires forall x :: l.Home(x) && x !in lh ==> v[x] == w[x]
    ensures Durable(l, d[l.start := MakeHead(h, lh)], w)
  {
    HeadRoundTrip(h, lh);
  }

  /** Copying a logged block home changes nothing that is pinned down. */
  lemma InstallStep(l: Layout, d: seq<Block>, v: seq<Block>, i: nat)
    requires Durable(l, d, v) && i < HeadCount(d[l.start])
    ensures var lh := HeadList(d[l.start]);
      Durable(l, d[lh[i] := d[l.Slot(i)]], v) && d[lh[i] := d[l.Slot(i)]][l.start] == d[l.start]
  {
  }

  /** Once every logged block is home, the header can be cleared. */
  lemma ClearStep(l: Layout, d: seq<Block>, v: seq<Block>, h: Block)
    requires Durable(l, d, v)
    requires forall i :: 0 <= i < |HeadList(d[l.start])| ==> d[HeadList(d[l.start])[i]] == v[HeadList(d[l.start])[i]]
    ensures Durable(l, d[l.start := MakeHead(h, [])], v) && Clean(l, d[l.start := MakeHead(h, [])])
  {
    HeadRoundTrip(h, []);
  }
}
