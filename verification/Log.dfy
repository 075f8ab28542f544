/** log.c itself: the log structure and the loops that move blocks through the cache. */
module Log {
  import opened Blocks
  import opened BufferCache
  import opened Collections
  import opened RedoLog
  import opened LogMachine

  /** No process holds a buffer. */
  ghost predicate Quiet(buf: seq<Buf>) {
    forall i :: 0 <= i < |buf| ==> buf[i].refcnt == 0
  }

  /** Where commit() need not wait for a lock: only the log itself uses the blocks of the log
      region, and no one has a logged block locked.  Processes that read may hold any buffers. */
  ghost predicate Idle(buf: seq<Buf>, l: Layout, lh: seq<nat>) {
    forall i :: 0 <= i < |buf| && buf[i].dev == ROOTDEV ==>
      (l.InLog(buf[i].blockno) ==> buf[i].refcnt == 0) && (buf[i].blockno in lh ==> !buf[i].locked)
  }

  /** bget has a buffer to recycle. */
  ghost predicate HasFree(buf: seq<Buf>) {
    exists i :: 0 <= i < |buf| && Recyclable(buf[i])
  }

  /** Held buffers that are not pinned by the log. */
  ghost function Busy(buf: seq<Buf>): set<nat> {
    set i | 0 <= i < |buf| && !buf[i].dirty && buf[i].refcnt > 0
  }

  ghost function Dirty(buf: seq<Buf>): set<nat> {
    set i | 0 <= i < |buf| && buf[i].dirty
  }

  /** Every process holds and has locked what it held and had locked before. */
  ghost predicate Kept(a: seq<Buf>, b: seq<Buf>) {
    |a| == |b| && forall i :: 0 <= i < |a| ==> KeptBuf(a[i], b[i])
  }

  ghost predicate KeptBuf(a: Buf, b: Buf) {
    b.refcnt == a.refcnt && b.locked == a.locked && (a.refcnt > 0 ==> Holds(b, a.dev, a.blockno))
  }

  /** write_head's copy of the in-memory header into the header block. */
  method FillHead(h: Block, lh: seq<nat>) returns (r: Block)
    requires |lh| <= LOGSIZE && forall i :: 0 <= i < |lh| ==> lh[i] < U32
    ensures r == MakeHead(h, lh)
    ensures Word(r, 0) == |lh| && forall j :: 1 <= j < WORDS ==> Word(r, j) == if j <= |lh| then lh[j - 1] else Word(h, j)
  {
    forall j: nat | j < WORDS
      ensures Word(MakeHead(h, lh), j) == if j == 0 then |lh| else if j <= |lh| then lh[j - 1] else Word(h, j)
    {
      PutHeadWords(h, |lh|, lh, |lh|, j);
    }
    r := SetWord(h, 0, |lh|);
    var i := 0;
    while i < |lh|
      invariant 0 <= i <= |lh| && r == PutHead(h, |lh|, lh, i)
    {
      r := SetWord(r, i + 1, lh[i]);
      i := i + 1;
    }
  }

  /** What disk writes act on: the disk, the cached contents and the history of writes. */
  datatype Io = Io(disk: seq<Block>, view: seq<Block>, writes: seq<Write>) {
    ghost function Put(w: Write): Io
      requires w.bno < |disk| && w.bno < |view|
    {
      Io(disk[w.bno := w.data], view[w.bno := w.data], writes + [w])
    }
  }

  /** b is a after the writes ws, in order. */
  ghost predicate Wrote(a: Io, b: Io, ws: seq<Write>) {
    && |a.disk| == |a.view| && (forall k :: 0 <= k < |ws| ==> ws[k].bno < |a.disk|)
    && b == Io(Apply(a.disk, ws), Apply(a.view, ws), a.writes + ws)
  }

  lemma ApplySnoc(d: seq<Block>, ws: seq<Write>, x: Write)
    requires (forall k :: 0 <= k < |ws| ==> ws[k].bno < |d|) && x.bno < |d|
    ensures forall k :: 0 <= k < |ws + [x]| ==> (ws + [x])[k].bno < |d|
    ensures Apply(d, ws + [x]) == Apply(d, ws)[x.bno := x.data]
  {
    assert (ws + [x])[..|ws|] == ws;
  }

  lemma WroteNext(a: Io, b: Io, ws: seq<Write>, t: nat)
    requires t < |ws| && ws[t].bno < |a.disk| && Wrote(a, b, ws[..t])
    ensures Wrote(a, b.Put(ws[t]), ws[..t + 1])
  {
    ApplySnoc(a.disk, ws[..t], ws[t]);
    ApplySnoc(a.view, ws[..t], ws[t]);
    assert ws[..t + 1] == ws[..t] + [ws[t]];
    assert a.writes + ws[..t + 1] == a.writes + ws[..t] + [ws[t]];
  }

  lemma WroteThen(a: Io, b: Io, c: Io, ws: seq<Write>, xs: seq<Write>)
    requires Wrote(a, b, ws) && Wrote(b, c, xs)
    ensures Wrote(a, c, ws + xs)
  {
    ApplyAppend(a.disk, ws, xs);
    ApplyAppend(a.view, ws, xs);
  }

  lemma WroteOne(a: Io, w: Write)
    requires |a.disk| == |a.view| && w.bno < |a.disk|
    ensures Wrote(a, a.Put(w), [w])
  {
    ApplySnoc(a.disk, [], w);
    ApplySnoc(a.view, [], w);
    assert [] + [w] == [w];
  }

  /** A turn of write_log reads a block no earlier turn has touched. */
  lemma LogTurn(l: Layout, lh: seq<nat>, a: Io, b: Io, t: nat)
    requires l.Ok() && GoodList(l, lh) && |a.view| == l.nblocks && t < |lh|
    requires Wrote(a, b, LogWrites(a.view, l, lh)[..t])
    ensures b.view[lh[t]] == a.view[lh[t]]
    ensures Wrote(a, b.Put(Write(l.Slot(t), a.view[lh[t]])), LogWrites(a.view, l, lh)[..t + 1])
  {
    var ws := LogWrites(a.view, l, lh);
    ApplyFrame(a.view, ws[..t], lh[t]);
    WroteNext(a, b, ws, t);
  }

  /** The writes of install_trans when the log slots hold v. */
  ghost function SlotWrites(v: seq<Block>, l: Layout, lh: seq<nat>): seq<Write>
    requires l.Ok() && |v| == l.nblocks && |lh| <= l.Capacity()
  {
    seq(|lh|, i requires 0 <= i < |lh| => Write(lh[i], v[l.Slot(i)]))
  }

  /** A turn of install_trans reads a slot no earlier turn has touched. */
  lemma InstallTurn(l: Layout, lh: seq<nat>, a: Io, b: Io, t: nat)
    requires l.Ok() && GoodList(l, lh) && |a.view| == l.nblocks && t < |lh|
    requires Wrote(a, b, SlotWrites(a.view, l, lh)[..t])
    ensures b.view[l.Slot(t)] == a.view[l.Slot(t)]
    ensures Wrote(a, b.Put(Write(lh[t], a.view[l.Slot(t)])), SlotWrites(a.view, l, lh)[..t + 1])
  {
    var ws := SlotWrites(a.view, l, lh);
    ApplyFrame(a.view, ws[..t], l.Slot(t));
    WroteNext(a, b, ws, t);
  }

  /** write_log leaves the header alone and the logged contents in the slots. */
  lemma AfterWriteLog(l: Layout, lh: seq<nat>, a: Io, b: Io)
    requires l.Ok() && GoodList(l, lh) && |a.view| == l.nblocks && Wrote(a, b, LogWrites(a.view, l, lh))
    ensures b.view[l.start] == a.view[l.start]
    ensures forall i :: 0 <= i < |lh| ==> b.view[l.Slot(i)] == a.view[lh[i]]
  {
    var ws := LogWrites(a.view, l, lh);
    ApplyFrame(a.view, ws, l.start);
    forall i | 0 <= i < |lh| ensures b.view[l.Slot(i)] == a.view[lh[i]] {
      ApplyHit(a.view, ws, i);
    }
  }

  /** The four stages of commit() together are CommitWrites. */
  lemma CommitTrace(l: Layout, lh: seq<nat>, a: Io, b: Io, c: Io)
    requires l.Ok() && GoodList(l, lh) && |lh| > 0 && |a.view| == l.nblocks
    requires Wrote(a, b, LogWrites(a.view, l, lh))
    requires var h := b.Put(Write(l.start, MakeHead(b.view[l.start], lh))); Wrote(h, c, SlotWrites(h.view, l, lh))
    ensures Wrote(a, c.Put(Write(l.start, MakeHead(c.view[l.start], []))), CommitWrites(a.view, l, lh))
  {
    AfterWriteLog(l, lh, a, b);
    var w1 := Write(l.start, MakeHead(b.view[l.start], lh));
    var h := b.Put(w1);
    var hs := SlotWrites(h.view, l, lh);
    assert hs == HomeWrites(a.view, lh);
    ApplyFrame(h.view, hs, l.start);
    var w2 := Write(l.start, MakeHead(c.view[l.start], []));
    WroteOne(b, w1);
    WroteThen(a, b, h, LogWrites(a.view, l, lh), [w1]);
    WroteThen(a, h, c, LogWrites(a.view, l, lh) + [w1], hs);
    WroteOne(c, w2);
    WroteThen(a, c, c.Put(w2), LogWrites(a.view, l, lh) + [w1] + hs, [w2]);
  }

  /** The stages of recover_from_log() together are RecoverWrites. */
  lemma RecoverTrace(l: Layout, a: Io, b: Io)
    requires WellFormed(l, a.disk) && a.view == a.disk
    requires Wrote(a, b, SlotWrites(a.view, l, HeadList(a.disk[l.start])))
    ensures Wrote(a, b.Put(Write(l.start, MakeHead(b.view[l.start], []))), RecoverWrites(l, a.disk))
  {
    var hs := SlotWrites(a.view, l, HeadList(a.disk[l.start]));
    var w := Write(l.start, MakeHead(b.view[l.start], []));
    ApplyFrame(a.view, hs, l.start);
    WroteOne(b, w);
    WroteThen(a, b, b.Put(w), hs, [w]);
    assert hs + [w] == RecoverWrites(l, a.disk);
  }

  /** read_head's copy of the header block into the in-memory header. */
  method ParseHead(h: Block) returns (lh: seq<nat>)
    requires 0 <= HeadCount(h) <= LOGSIZE
    ensures lh == HeadList(h)
    ensures |lh| == Word(h, 0) && forall k :: 0 <= k < |lh| ==> lh[k] == Word(h, k + 1)
  {
    lh := [];
    var i := 0;
    while i < HeadCount(h)
      invariant 0 <= i <= HeadCount(h) && |lh| == i
      invariant forall k :: 0 <= k < i ==> lh[k] == HeadList(h)[k]
    {
      WordRange(h, i + 1);
      lh := lh + [Word(h, i + 1)];
      i := i + 1;
    }
  }

  lemma {:induction false} DistinctPins(lh: seq<nat>, pinned: map<int, nat>, n: nat)
    requires n <= |lh| && (forall i :: 0 <= i < n ==> lh[i] in pinned)
    requires forall i, j :: 0 <= i < j < n ==> pinned[lh[i]] != pinned[lh[j]]
    ensures |set i | 0 <= i < n :: pinned[lh[i]]| == n
  {
    if n == 0 {
    } else {
      DistinctPins(lh, pinned, n - 1);
      assert (set i | 0 <= i < n :: pinned[lh[i]]) == (set i | 0 <= i < n - 1 :: pinned[lh[i]]) + {pinned[lh[n - 1]]};
    }
  }

  /** The dirty buffers are as many as the logged blocks. */
  lemma DirtyBuffers(buf: seq<Buf>, disk: seq<Block>, view: seq<Block>, pinned: map<int, nat>, lh: seq<nat>)
    requires Coherent(buf, disk, view, pinned)
    requires forall x :: x in pinned <==> x in lh
    requires forall i, j :: 0 <= i < j < |lh| ==> lh[i] != lh[j]
    ensures |Dirty(buf)| == |lh|
  {
    assert forall i :: 0 <= i < |lh| ==> buf[pinned[lh[i]]].blockno == lh[i];
    DistinctPins(lh, pinned, |lh|);
    forall i | i in Dirty(buf) ensures exists k :: 0 <= k < |lh| && pinned[lh[k]] == i {
      assert BufOk(buf[i], i, view, pinned);
      var k :| 0 <= k < |lh| && lh[k] == buf[i].blockno;
    }
    assert Dirty(buf) == set i | 0 <= i < |lh| :: pinned[lh[i]];
  }

  lemma FreeCount(buf: seq<Buf>)
    ensures HasFree(buf) <==> |Dirty(buf)| + |Busy(buf)| < |buf|
  {
    var used, all := Dirty(buf) + Busy(buf), Below(|buf|);
    assert |used| == |Dirty(buf)| + |Busy(buf)|;
    SubsetSize(used, all);
    if i :| 0 <= i < |buf| && Recyclable(buf[i]) {
      assert i in all && i !in used;
    } else {
      forall i | i in all ensures i in used {
        assert !Recyclable(buf[i]);
      }
      assert used == all;
    }
  }

  /** With exactly the logged blocks pinned, there is a buffer to recycle iff the logged blocks and
      the other held buffers are fewer than all buffers. */
  lemma FreeLeft(buf: seq<Buf>, disk: seq<Block>, view: seq<Block>, pinned: map<int, nat>, lh: seq<nat>)
    requires |buf| == NBUF && Coherent(buf, disk, view, pinned)
    requires forall x :: x in pinned <==> x in lh
    requires forall i, j :: 0 <= i < j < |lh| ==> lh[i] != lh[j]
    ensures HasFree(buf) <==> |lh| + |Busy(buf)| < NBUF
  {
    hide Coherent;
    DirtyBuffers(buf, disk, view, pinned, lh);
    FreeCount(buf);
  }

  /** Outside the log the disk holds what the cache shows. */
  lemma OnlyLoggedDiffer(buf: seq<Buf>, disk: seq<Block>, view: seq<Block>, pinned: map<int, nat>, lh: seq<nat>)
    requires Coherent(buf, disk, view, pinned) && forall x :: x in pinned <==> x in lh
    ensures forall x :: 0 <= x < |disk| && x !in lh ==> view[x] == disk[x]
  {
  }

  lemma QuietIsFree(buf: seq<Buf>)
    ensures Quiet(buf) ==> Busy(buf) == {}
  {
  }

  lemma QuietIsIdle(buf: seq<Buf>, disk: seq<Block>, view: seq<Block>, pinned: map<int, nat>, l: Layout, lh: seq<nat>)
    requires Coherent(buf, disk, view, pinned) && Quiet(buf)
    ensures Idle(buf, l, lh)
  {
    forall i | 0 <= i < |buf| ensures buf[i].refcnt == 0 && !buf[i].locked {
      assert BufOk(buf[i], i, view, pinned);
    }
  }

  lemma KeptRefl(buf: seq<Buf>)
    ensures Kept(buf, buf)
  {
  }

  lemma KeptTrans(a: seq<Buf>, b: seq<Buf>, c: seq<Buf>)
    requires Kept(a, b) && Kept(b, c)
    ensures Kept(a, c)
  {
    forall i | 0 <= i < |a| ensures KeptBuf(a[i], c[i]) {
      assert KeptBuf(a[i], b[i]) && KeptBuf(b[i], c[i]);
    }
  }

  lemma StaysIdle(a: seq<Buf>, b: seq<Buf>, disk: seq<Block>, view: seq<Block>, pinned: map<int, nat>, l: Layout,
                  lh: seq<nat>)
    requires Idle(a, l, lh) && Kept(a, b) && Coherent(b, disk, view, pinned)
    ensures Idle(b, l, lh)
  {
    forall i | 0 <= i < |b| && b[i].dev == ROOTDEV
      ensures (l.InLog(b[i].blockno) ==> b[i].refcnt == 0) && (b[i].blockno in lh ==> !b[i].locked)
    {
      assert KeptBuf(a[i], b[i]) && BufOk(b[i], i, view, pinned);
    }
  }

  /** A cached block of the log region can be recycled: it is neither pinned nor held. */
  lemma LogRegionFree(buf: seq<Buf>, disk: seq<Block>, view: seq<Block>, pinned: map<int, nat>, l: Layout, lh: seq<nat>,
                      x: int)
    requires Coherent(buf, disk, view, pinned) && Idle(buf, l, lh) && l.InLog(x)
    requires forall y :: y in pinned ==> l.Home(y)
    ensures forall i :: 0 <= i < |buf| && Holds(buf[i], ROOTDEV, x) ==> Recyclable(buf[i])
    ensures forall i :: 0 <= i < |buf| && Recyclable(buf[i]) ==> !buf[i].locked
  {
    forall i | 0 <= i < |buf| ensures Holds(buf[i], ROOTDEV, x) ==> Recyclable(buf[i])
      ensures Recyclable(buf[i]) ==> !buf[i].locked
    {
      assert BufOk(buf[i], i, view, pinned);
    }
  }

  lemma PinnedIsHeld(buf: seq<Buf>, disk: seq<Block>, view: seq<Block>, pinned: map<int, nat>, b: int)
    requires Coherent(buf, disk, view, pinned) && b in pinned
    ensures 0 <= b < |disk| && pinned[b] < |buf| && buf[pinned[b]].dirty && Holds(buf[pinned[b]], ROOTDEV, b)
  {
  }

  lemma NothingPinned(buf: seq<Buf>, disk: seq<Block>, view: seq<Block>)
    requires Coherent(buf, disk, view, map[])
    ensures forall i :: 0 <= i < |buf| ==> !buf[i].dirty
  {
    forall i | 0 <= i < |buf| ensures !buf[i].dirty {
      assert BufOk(buf[i], i, view, map[]);
    }
  }

  /** b is a with two buffers opened: i, which could be recycled, for block x, and j for block y. */
  ghost predicate Pair(a: seq<Buf>, b: seq<Buf>, i: nat, x: Write, j: nat, y: Write) {
    && i < |a| && j < |a| && i != j
    && Recyclable(a[i]) && (Holds(a[j], ROOTDEV, y.bno) || Recyclable(a[j]))
    && !a[i].locked && !a[j].locked
    && b == a[i := Opened(a[i], x.bno, x.data)][j := Opened(a[j], y.bno, y.data)]
  }

  /** Releasing both, one of them written, leaves every hold as it was and i free. */
  lemma PairClosed(a: seq<Buf>, b: seq<Buf>, i: nat, x: Write, j: nat, y: Write, c: seq<Buf>, r: nat, w: nat)
    requires Pair(a, b, i, x, j, y) && ((r == i && w == j) || (r == j && w == i))
    requires c == b[r := b[r].(locked := false, refcnt := b[r].refcnt - 1)]
                   [w := b[w].(locked := false, refcnt := b[w].refcnt - 1, dirty := false, data := b[r].data)]
    ensures Kept(a, c) && HasFree(c)
  {
    forall k | 0 <= k < |a| ensures KeptBuf(a[k], c[k]) {
    }
    assert Recyclable(c[i]);
  }

  lemma LogBlockEffect(l: Layout, s: Sys, op: nat, b: nat, data: Block) returns (t: Sys)
    requires s.phase.Running? && op in s.ops && l.Home(b) && b < |s.view| && GoodList(l, s.lh) && Reserved(l, s)
    requires |s.ops[op] + {b}| <= MAXOPBLOCKS && !LogWritePanics(l, s)
    ensures t == s.(view := s.view[b := data], lh := Absorb(s.lh, b), ops := s.ops[op := s.ops[op] + {b}])
    ensures Next(l, s, LogBlock(op, b, data), t) && Reserved(l, t) && GoodList(l, t.lh) && |t.ops| == |s.ops|
    ensures forall x :: x in t.lh <==> x in s.lh || x == b
  {
    t := s.(view := s.view[b := data], lh := Absorb(s.lh, b), ops := s.ops[op := s.ops[op] + {b}]);
    ReservedStep(l, s, LogBlock(op, b, data), t);
    assert t.ops.Keys == s.ops.Keys;
  }

  lemma EndCounts(ops: map<nat, set<nat>>, op: nat)
    requires op in ops
    ensures |ops - {op}| == |ops| - 1
    ensures ops.Keys == {op} <==> |ops| == 1
    ensures ops.Keys == {op} ==> ops - {op} == map[]
  {
    assert (ops - {op}).Keys == ops.Keys - {op};
    if |ops| == 1 {
      assert |ops.Keys - {op}| == 0;
      assert ops.Keys == {op} + (ops.Keys - {op});
    }
  }

  lemma NoPins(pinned: map<int, nat>)
    requires forall x :: x !in pinned
    ensures pinned == map[]
  {
    var none: map<int, nat> := map[];
    assert forall x: int :: x in pinned.Keys <==> x in none.Keys;
    assert pinned.Keys == none.Keys;
  }

  class Log {
    const l: Layout
    const bc: BCache
    var outstanding: int
    var committing: bool
    var lh: seq<nat>
    ghost var ops: map<nat, set<nat>>

    constructor (layout: Layout, cache: BCache)
      ensures l == layout && bc == cache && lh == [] && outstanding == 0 && !committing && ops == map[]
    {
      l, bc, lh, outstanding, committing, ops := layout, cache, [], 0, false, map[];
    }

    /** The machine state this log and its cache stand for. */
    ghost function State(): Sys
      reads this, bc
    {
      Sys(bc.disk, bc.view, lh, ops, if committing then Committing(bc.view, 0) else Running)
    }

    ghost function Disk(): Io
      reads bc
    {
      Io(bc.disk, bc.view, bc.writes)
    }

    /** The cache is sound and pins home blocks only. */
    ghost predicate Shape()
      reads this, bc
    {
      && bc.Valid() && l.Ok() && |bc.disk| == |bc.view| == l.nblocks
      && (forall x :: x in bc.pinned ==> l.Home(x))
    }

    ghost predicate Valid()
      reads this, bc
    {
      && Shape() && GoodList(l, lh)
      && Reserved(l, State()) && outstanding == |ops|
      && (!committing ==> Clean(l, bc.disk) && forall x :: x in bc.pinned <==> x in lh)
    }

    /** begin_op; admitted == false is the sleep on &log. */
    method BeginOp(ghost op: nat) returns (admitted: bool)
      requires Valid() && op !in ops
      modifies this`outstanding, this`ops
      ensures Valid()
      ensures admitted <==> old(Admits(State()))
      ensures admitted <==> !old(committing) && |lh| + (old(outstanding) + 1) * MAXOPBLOCKS <= LOGSIZE
      ensures admitted ==> outstanding == old(outstanding) + 1 && ops == old(ops)[op := {}]
      ensures admitted ==> Next(l, old(State()), Begin(op), State())
      ensures !admitted ==> State() == old(State()) && outstanding == old(outstanding)
    {
      if committing {
        admitted := false;
      } else if |lh| + (outstanding + 1) * MAXOPBLOCKS > LOGSIZE {
        admitted := false;
      } else {
        outstanding := outstanding + 1;
        ops := ops[op := {}];
        ReservedStep(l, old(State()), Begin(op), State());
        admitted := true;
      }
    }

    /** log_write's scan for an entry to absorb the block. */
    method Record(b: nat)
      modifies this`lh
      ensures lh == Absorb(old(lh), b)
    {
      var k := 0;
      while k < |lh| && lh[k] != b
        invariant 0 <= k <= |lh|
        invariant b !in lh[..k]
      {
        k := k + 1;
      }
      if k == |lh| {
        lh := lh + [b];
      } else {
        lh := lh[k := b];
        assert lh == old(lh);
      }
    }

    /** log_write of a locked buffer the caller filled with data; ok == false is the
        "too big a transaction" panic. */
    method LogWrite(ghost op: nat, i: nat, data: Block) returns (ok: bool)
      requires Valid() && op in ops
      requires i < NBUF && bc.buf[i].valid && bc.buf[i].locked && l.Home(bc.buf[i].blockno)
      requires |ops[op] + {bc.buf[i].blockno}| <= MAXOPBLOCKS
      modifies this`lh, this`ops, bc`buf, bc`view, bc`pinned
      ensures Valid()
      ensures ok <==> !LogWritePanics(l, old(State()))
      ensures ok <==> |old(lh)| < LOGSIZE && |old(lh)| < l.size - 1
      ensures ok ==> lh == if old(bc.buf[i].blockno) in old(lh) then old(lh) else old(lh) + [old(bc.buf[i].blockno)]
      ensures ok ==> bc.view == old(bc.view)[old(bc.buf[i].blockno) := data] && bc.disk == old(bc.disk)
      ensures ok ==> Next(l, old(State()), LogBlock(op, old(bc.buf[i].blockno), data), State())
      ensures ok ==> bc.buf == old(bc.buf)[i := old(bc.buf[i]).(data := data, dirty := true)]
      ensures !ok ==> State() == old(State()) && bc.buf == old(bc.buf)
    {
      if |lh| >= LOGSIZE || |lh| >= l.size - 1 {
        return false;
      }
      var b := bc.buf[i].blockno;
      ghost var t := LogBlockEffect(l, State(), op, b, data);
      Record(b);
      ops := ops[op := ops[op] + {b}];
      bc.Pin(i, data);
      assert State() == t;
      ok := true;
    }

    /** memmove, bwrite and the two brelses shared by write_log and install_trans. */
    method CopyOut(r: nat, w: nat)
      requires bc.Valid() && r < NBUF && w < NBUF && r != w
      requires bc.buf[r].valid && bc.buf[r].locked && bc.buf[w].valid && bc.buf[w].locked
      requires bc.buf[r].refcnt > 0 && bc.buf[w].refcnt > 0
      modifies bc
      ensures bc.Valid()
      ensures bc.buf == old(bc.buf)[r := old(bc.buf[r]).(locked := false, refcnt := old(bc.buf[r].refcnt) - 1)]
          [w := old(bc.buf[w]).(locked := false, refcnt := old(bc.buf[w].refcnt) - 1, dirty := false,
                                data := old(bc.buf[r].data))]
      ensures bc.disk == old(bc.disk)[old(bc.buf[w].blockno) := old(bc.buf[r].data)]
      ensures bc.view == old(bc.view)[old(bc.buf[w].blockno) := old(bc.buf[r].data)]
      ensures bc.pinned == old(bc.pinned) - {old(bc.buf[w].blockno)}
      ensures bc.writes == old(bc.writes) + [Write(old(bc.buf[w].blockno), old(bc.buf[r].data))]
    {
      hide Coherent, Linked, ByRelease;
      bc.Bwrite(w, bc.buf[r].data);
      bc.Brelse(r);
      bc.Brelse(w);
    }

    /** The two breads of write_log: a free buffer for the slot, the pinned one for the
        block.  to == NBUF is bget's panic. */
    method OpenForLog(t: nat) returns (to: nat, from: nat)
      requires Shape() && GoodList(l, lh) && t < |lh|
      requires Idle(bc.buf, l, lh) && lh[t] in bc.pinned
      modifies bc`buf
      ensures bc.Valid()
      ensures to <= NBUF && (to < NBUF <==> HasFree(old(bc.buf)))
      ensures to == NBUF ==> bc.buf == old(bc.buf)
      ensures to < NBUF ==>
        Pair(old(bc.buf), bc.buf, to, Write(l.Slot(t), bc.view[l.Slot(t)]), from, Write(lh[t], bc.view[lh[t]]))
    {
      hide Coherent, Linked, ByRelease;
      LogRegionFree(bc.buf, bc.disk, bc.view, bc.pinned, l, lh, l.Slot(t));
      PinnedIsHeld(bc.buf, bc.disk, bc.view, bc.pinned, lh[t]);
      from := 0;
      to := bc.Bread(l.Slot(t));
      if to == NBUF {
        return;
      }
      PinnedIsHeld(bc.buf, bc.disk, bc.view, bc.pinned, lh[t]);
      from := bc.Bread(lh[t]);
    }

    /** One turn of write_log: cached block lh[t] to log slot t. */
    method CopyToLog(t: nat) returns (ok: bool)
      requires Shape() && GoodList(l, lh) && t < |lh|
      requires Idle(bc.buf, l, lh) && lh[t] in bc.pinned
      modifies bc
      ensures Shape() && Idle(bc.buf, l, lh) && Kept(old(bc.buf), bc.buf) && bc.pinned == old(bc.pinned)
      ensures ok <==> HasFree(old(bc.buf))
      ensures ok ==> HasFree(bc.buf)
      ensures ok ==> Disk() == old(Disk()).Put(Write(l.Slot(t), old(bc.view)[lh[t]]))
      ensures ok ==> bc.disk == old(bc.disk)[l.start + 1 + t := old(bc.view)[lh[t]]]
      ensures !ok ==> Disk() == old(Disk()) && bc.buf == old(bc.buf)
    {
      hide Coherent, Linked, ByRelease, Idle;
      var to, from := OpenForLog(t);
      if to == NBUF {
        return false;
      }
      ghost var b := bc.buf;
      CopyOut(from, to);
      assert bc.pinned == old(bc.pinned);
      PairClosed(old(bc.buf), b, to, Write(l.Slot(t), old(bc.view)[l.Slot(t)]), from, Write(lh[t], old(bc.view)[lh[t]]),
                 bc.buf, from, to);
      StaysIdle(old(bc.buf), bc.buf, bc.disk, bc.view, bc.pinned, l, lh);
      ok := true;
    }

    /** write_log; ok == false is the "bget: no buffers" panic. */
    method WriteLog() returns (ok: bool)
      requires Shape() && GoodList(l, lh) && |lh| > 0
      requires Idle(bc.buf, l, lh) && forall t :: 0 <= t < |lh| ==> lh[t] in bc.pinned
      modifies bc
      ensures Shape() && Idle(bc.buf, l, lh) && Kept(old(bc.buf), bc.buf) && bc.pinned == old(bc.pinned)
      ensures ok <==> HasFree(old(bc.buf))
      ensures ok ==> HasFree(bc.buf)
      ensures ok ==> Wrote(old(Disk()), Disk(), LogWrites(old(bc.view), l, lh))
      ensures !ok ==> Disk() == old(Disk())
    {
      hide Coherent, Linked, ByRelease, Idle;
      ghost var ws := LogWrites(bc.view, l, lh);
      var tail := 0;
      assert ws[..0] == [];
      KeptRefl(bc.buf);
      while tail < |lh|
        invariant 0 <= tail <= |lh|
        invariant Shape() && Idle(bc.buf, l, lh) && Kept(old(bc.buf), bc.buf) && bc.pinned == old(bc.pinned)
        invariant HasFree(old(bc.buf)) <==> HasFree(bc.buf)
        invariant tail > 0 ==> HasFree(bc.buf)
        invariant Wrote(old(Disk()), Disk(), ws[..tail])
      {
        LogTurn(l, lh, old(Disk()), Disk(), tail);
        ghost var b := bc.buf;
        ok := CopyToLog(tail);
        if !ok {
          return;
        }
        KeptTrans(old(bc.buf), b, bc.buf);
        tail := tail + 1;
      }
      assert ws[..|lh|] == ws;
      ok := true;
    }

    /** write_head. */
    method WriteHead()
      requires Shape() && GoodList(l, lh) && Idle(bc.buf, l, lh) && HasFree(bc.buf)
      modifies bc
      ensures Shape() && Idle(bc.buf, l, lh) && Kept(old(bc.buf), bc.buf) && HasFree(bc.buf)
      ensures bc.pinned == old(bc.pinned)
      ensures Disk() == old(Disk()).Put(Write(l.start, MakeHead(old(bc.view)[l.start], lh)))
    {
      hide Coherent, Linked, ByRelease;
      LogRegionFree(bc.buf, bc.disk, bc.view, bc.pinned, l, lh, l.start);
      var i := bc.Bread(l.start);
      var h := FillHead(bc.buf[i].data, lh);
      bc.Bwrite(i, h);
      bc.Brelse(i);
      assert bc.pinned == old(bc.pinned);
      assert Recyclable(bc.buf[i]);
      StaysIdle(old(bc.buf), bc.buf, bc.disk, bc.view, bc.pinned, l, lh);
    }

    /** The log keeps what install_trans needs: the block is pinned in a buffer, or
        nothing is pinned or held and any buffer will do. */
    ghost predicate Installable(t: nat)
      requires t <= |lh|
      reads this, bc
    {
      (bc.pinned == map[] && Quiet(bc.buf)) || forall i :: t <= i < |lh| ==> lh[i] in bc.pinned
    }

    method OpenForInstall(t: nat) returns (r: nat, w: nat)
      requires Shape() && GoodList(l, lh) && t < |lh| && Installable(t)
      requires Idle(bc.buf, l, lh) && HasFree(bc.buf)
      modifies bc`buf
      ensures bc.Valid()
      ensures r < NBUF
      ensures Pair(old(bc.buf), bc.buf, r, Write(l.Slot(t), bc.view[l.Slot(t)]), w, Write(lh[t], bc.view[lh[t]]))
    {
      hide Coherent, Linked, ByRelease;
      LogRegionFree(bc.buf, bc.disk, bc.view, bc.pinned, l, lh, l.Slot(t));
      ghost var before := bc.buf;
      r := bc.Bread(l.Slot(t));
      ghost var j := if r == 0 then 1 else 0;
      if lh[t] in bc.pinned {
        PinnedIsHeld(bc.buf, bc.disk, bc.view, bc.pinned, lh[t]);
      } else {
        NothingPinned(bc.buf, bc.disk, bc.view);
        assert bc.buf[j] == before[j] && Recyclable(bc.buf[j]);
      }
      w := bc.Bread(lh[t]);
    }

    /** One turn of install_trans: log slot t to its home block. */
    method InstallOne(t: nat)
      requires Shape() && GoodList(l, lh) && t < |lh| && Installable(t)
      requires Idle(bc.buf, l, lh) && HasFree(bc.buf)
      modifies bc
      ensures Shape() && Idle(bc.buf, l, lh) && Kept(old(bc.buf), bc.buf) && HasFree(bc.buf) && Installable(t + 1)
      ensures bc.pinned == old(bc.pinned) - {lh[t]}
      ensures Disk() == old(Disk()).Put(Write(lh[t], old(bc.view)[l.Slot(t)]))
      ensures bc.disk == old(bc.disk)[lh[t] := old(bc.view)[l.start + 1 + t]]
    {
      hide Coherent, Linked, ByRelease, Idle;
      var r, w := OpenForInstall(t);
      ghost var b := bc.buf;
      CopyOut(r, w);
      PairClosed(old(bc.buf), b, r, Write(l.Slot(t), old(bc.view)[l.Slot(t)]), w, Write(lh[t], old(bc.view)[lh[t]]),
                 bc.buf, r, w);
      StaysIdle(old(bc.buf), bc.buf, bc.disk, bc.view, bc.pinned, l, lh);
    }

    /** install_trans. */
    method InstallTrans()
      requires Shape() && GoodList(l, lh) && Installable(0)
      requires Idle(bc.buf, l, lh) && HasFree(bc.buf)
      modifies bc
      ensures Shape() && Idle(bc.buf, l, lh) && Kept(old(bc.buf), bc.buf) && HasFree(bc.buf)
      ensures forall x :: x in bc.pinned ==> x in old(bc.pinned) && x !in lh
      ensures Wrote(old(Disk()), Disk(), SlotWrites(old(bc.view), l, lh))
    {
      hide Coherent, Linked, ByRelease, Idle, KeptBuf;
      ghost var ws := SlotWrites(bc.view, l, lh);
      assert ws[..0] == [];
      KeptRefl(bc.buf);
      var tail := 0;
      while tail < |lh|
        invariant 0 <= tail <= |lh|
        invariant Shape() && Idle(bc.buf, l, lh) && Kept(old(bc.buf), bc.buf) && HasFree(bc.buf) && Installable(tail)
        invariant forall x :: x in bc.pinned ==> x in old(bc.pinned)
        invariant forall i :: 0 <= i < tail ==> lh[i] !in bc.pinned
        invariant Wrote(old(Disk()), Disk(), ws[..tail])
      {
        InstallTurn(l, lh, old(Disk()), Disk(), tail);
        ghost var b := bc.buf;
        InstallOne(tail);
        KeptTrans(old(bc.buf), b, bc.buf);
        tail := tail + 1;
      }
      assert ws[..|lh|] == ws;
    }

    /** The body of commit() for a log that is not empty. */
    method CommitLogged() returns (ok: bool)
      requires Shape() && GoodList(l, lh) && |lh| > 0 && Idle(bc.buf, l, lh)
      requires forall x :: x in bc.pinned <==> x in lh
      modifies this`lh, bc
      ensures Shape() && Kept(old(bc.buf), bc.buf)
      ensures ok <==> HasFree(old(bc.buf))
      ensures ok ==> Wrote(old(Disk()), Disk(), CommitWrites(old(bc.view), l, old(lh)))
      ensures ok ==> lh == [] && bc.pinned == map[]
      ensures !ok ==> Disk() == old(Disk()) && lh == old(lh)
    {
      hide Coherent, Linked, ByRelease, KeptBuf;
      ok := WriteLog();
      if !ok {
        return;
      }
      ghost var b, b' := Disk(), bc.buf;
      WriteHead();
      KeptTrans(old(bc.buf), b', bc.buf);
      b' := bc.buf;
      InstallTrans();
      KeptTrans(old(bc.buf), b', bc.buf);
      ghost var c := Disk();
      CommitTrace(l, lh, old(Disk()), b, c);
      NoPins(bc.pinned);
      lh := [];
      b' := bc.buf;
      WriteHead();
      KeptTrans(old(bc.buf), b', bc.buf);
    }

    /** commit(); ok == false is the "bget: no buffers" panic inside write_log. */
    method Commit() returns (ok: bool)
      requires Shape() && GoodList(l, lh) && Idle(bc.buf, l, lh) && Clean(l, bc.disk)
      requires forall x :: x in bc.pinned <==> x in lh
      modifies this`lh, bc
      ensures Shape() && Kept(old(bc.buf), bc.buf)
      ensures ok <==> old(lh) == [] || |old(lh)| + |Busy(old(bc.buf))| < NBUF
      ensures Quiet(old(bc.buf)) && l.size <= NBUF ==> ok
      ensures ok ==> Wrote(old(Disk()), Disk(), CommitWrites(old(bc.view), l, old(lh)))
      ensures ok ==> lh == [] && bc.pinned == map[] && Clean(l, bc.disk) && HomeEqual(l, bc.view, old(bc.view))
      ensures ok ==> |bc.disk| == |old(bc.view)| == l.nblocks
      ensures ok ==>
        forall x :: 0 <= x < l.nblocks && !(l.start <= x < l.start + l.size) ==> bc.disk[x] == old(bc.view)[x]
      ensures ok ==> Word(bc.disk[l.start], 0) == if old(lh) == [] then Word(old(bc.disk)[l.start], 0) else 0
      ensures !ok ==> Disk() == old(Disk()) && lh == old(lh)
    {
      hide Coherent, Linked, ByRelease, KeptBuf, Idle;
      OnlyLoggedDiffer(bc.buf, bc.disk, bc.view, bc.pinned, lh);
      CommitComplete(l, bc.disk, bc.view, lh);
      QuietIsFree(bc.buf);
      if |lh| > 0 {
        FreeLeft(bc.buf, bc.disk, bc.view, bc.pinned, lh);
        ok := CommitLogged();
      } else {
        NoPins(bc.pinned);
        KeptRefl(bc.buf);
        ok := true;
      }
    }

    /** end_op.  The "log.committing" panic cannot happen; ok == false means that commit
        ran out of buffers. */
    method EndOp(ghost op: nat) returns (ok: bool)
      requires Valid() && op in ops && (ops.Keys == {op} ==> Idle(bc.buf, l, lh))
      modifies this`outstanding, this`committing, this`lh, this`ops, bc
      ensures old(ops.Keys) != {op} ==> ok && Valid() && Next(l, old(State()), End(op), State())
      ensures old(ops.Keys) != {op} ==>
        outstanding == old(outstanding) - 1 && lh == old(lh) && committing == old(committing) && Disk() == old(Disk())
      ensures ops == old(ops) - {op}
      ensures old(ops.Keys) == {op} ==> (ok <==> old(lh) == [] || |old(lh)| + |Busy(old(bc.buf))| < NBUF)
      ensures Quiet(old(bc.buf)) && l.size <= NBUF ==> ok
      ensures old(ops.Keys) == {op} && ok ==>
        && Valid() && !committing && lh == [] && ops == map[]
        && Wrote(old(Disk()), Disk(), CommitWrites(old(bc.view), l, old(lh)))
        && HomeEqual(l, bc.view, old(bc.view))
      ensures !ok ==> Disk() == old(Disk())
    {
      outstanding := outstanding - 1;
      assert !committing;
      ghost var s := State();
      ops := ops - {op};
      EndCounts(s.ops, op);
      if outstanding == 0 {
        committing := true;
        ReservedStep(l, s, End(op), s.(ops := ops, phase := Committing(s.view, 0)));
        ok := Commit();
        committing := false;
        assert ok ==> Reserved(l, State()) by { assert Unused(map[]) == 0; }
      } else {
        ReservedStep(l, s, End(op), State());
        ok := true;
      }
    }

    /** read_head. */
    method ReadHead()
      requires Shape() && WellFormed(l, bc.disk) && bc.view == bc.disk && bc.pinned == map[] && Quiet(bc.buf)
      modifies this`lh, bc
      ensures Shape() && Disk() == old(Disk()) && bc.pinned == map[] && Quiet(bc.buf)
      ensures lh == HeadList(bc.disk[l.start])
    {
      assert Recyclable(bc.buf[0]);
      var i := bc.Bread(l.start);
      var h := bc.buf[i].data;
      lh := ParseHead(h);
      bc.Brelse(i);
    }

    /** recover_from_log, run by initlog on the cache binit set up. */
    method RecoverFromLog()
      requires Shape() && WellFormed(l, bc.disk) && bc.view == bc.disk && bc.pinned == map[] && Quiet(bc.buf)
      requires outstanding == 0 && !committing && ops == map[]
      modifies this`lh, bc
      ensures Valid() && lh == []
      ensures Wrote(old(Disk()), Disk(), RecoverWrites(l, old(bc.disk)))
      ensures bc.disk == Recover(l, old(bc.disk)) && bc.view == bc.disk
    {
      RecoveryIdempotent(l, bc.disk, 0);
      ReadHead();
      NothingPinned(bc.buf, bc.disk, bc.view);
      assert Recyclable(bc.buf[0]);
      QuietIsIdle(bc.buf, bc.disk, bc.view, bc.pinned, l, lh);
      InstallTrans();
      RecoverTrace(l, old(Disk()), Disk());
      NoPins(bc.pinned);
      lh := [];
      WriteHead();
      assert Unused(map[]) == 0;
    }
  }
}
