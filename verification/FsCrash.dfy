/** Files across crashes: the file system (xv6/fs.c) on top of the redo log (xv6/log.c). */
module FsCrash {
  import opened Blocks
  import opened FsState
  import opened FileSys
  import RedoLog
  import LogMachine

  /** The log lies below the inode blocks of the same disk. */
  ghost predicate LogBelow(l: RedoLog.Layout, sb: Super) {
    l.Ok() && l.nblocks == sb.size && l.start + l.size <= sb.inodestart
  }

  /** Disk e holds files f, and every file has the contents it has on disk d. */
  ghost predicate SameFiles(sb: Super, f: Files, d: seq<Block>, e: seq<Block>) {
    && Whole(d, sb, f) && Whole(e, sb, f)
    && forall j :: 0 <= j < sb.ninodes ==> SameFile(f.blocks[j], f.inode[j].size, d, e)
  }

  ghost predicate SameFile(bl: seq<nat>, size: nat, d: seq<Block>, e: seq<Block>) {
    Listed(d, bl) && Listed(e, bl) && size <= BSIZE * |bl| && Content(e, bl, size) == Content(d, bl, size)
  }

  lemma SameFilesMeans(sb: Super, f: Files, d: seq<Block>, e: seq<Block>)
    requires SameFiles(sb, f, d, e)
    ensures Whole(e, sb, f) && |f.blocks| == |f.inode| == sb.ninodes
    ensures forall j :: 0 <= j < sb.ninodes ==> var bl, size := f.blocks[j], f.inode[j].size;
      Listed(d, bl) && Listed(e, bl) && size <= BSIZE * |bl| && Content(e, bl, size) == Content(d, bl, size)
  {
    hide Rep, OwnerHolds, NoHoles, Content, Stored, Mapped;
    forall j | 0 <= j < sb.ninodes
      ensures var bl, size := f.blocks[j], f.inode[j].size;
        Listed(d, bl) && Listed(e, bl) && size <= BSIZE * |bl| && Content(e, bl, size) == Content(d, bl, size)
    {
      assert SameFile(f.blocks[j], f.inode[j].size, d, e);
    }
  }

  /** Nothing the file system looks at is in the log region. */
  lemma HomeIsEnough(l: RedoLog.Layout, sb: Super, f: Files, d: seq<Block>, e: seq<Block>)
    requires LogBelow(l, sb) && Whole(d, sb, f) && RedoLog.HomeEqual(l, e, d)
    ensures SameFiles(sb, f, d, e)
  {
    hide Rep, OwnerHolds, NoHoles, Content;
    HomeConsistent(l, sb, f, d, e);
    forall j | 0 <= j < sb.ninodes ensures SameFile(f.blocks[j], f.inode[j].size, d, e) {
      KeptContents(d, sb, f, e, f, j);
    }
  }

  lemma HomeConsistent(l: RedoLog.Layout, sb: Super, f: Files, d: seq<Block>, e: seq<Block>)
    requires LogBelow(l, sb) && Whole(d, sb, f) && RedoLog.HomeEqual(l, e, d)
    ensures Whole(e, sb, f) && SameFrom(d, e, sb.datastart)
  {
    hide Rep, OwnerHolds, NoHoles, OnDisk;
    assert forall x :: sb.inodestart <= x < sb.size ==> l.Home(x);
    RepFrame(d, e, sb, f, sb.ninodes);
    StoredFrame(d, e, sb, f.inode, sb.ninodes);
    MappedFrame(d, e, sb, f.owner, {});
  }

  /** lh lists exactly the blocks an operation logged. */
  ghost predicate ListsAll(lh: seq<nat>, logged: set<nat>) {
    && (forall i, j :: 0 <= i < j < |lh| ==> lh[i] != lh[j])
    && (forall i :: 0 <= i < |lh| ==> lh[i] in logged) && (forall b :: b in logged ==> b in lh)
  }

  /** What the cache shows when the disk holds e and the operation has run: d1 in the blocks it
      logged. */
  ghost function Cached(e: seq<Block>, d1: seq<Block>, logged: set<nat>): (v: seq<Block>)
    requires |e| == |d1|
    ensures |v| == |e|
  {
    seq(|e|, b requires 0 <= b < |e| => if b in logged then d1[b] else e[b])
  }

  lemma Ready(l: RedoLog.Layout, sb: Super, d0: seq<Block>, f0: Files, d1: seq<Block>, f1: Files, logged: set<nat>,
              lh: seq<nat>, e: seq<Block>)
    requires LogBelow(l, sb) && Transaction(sb, d0, f0, d1, f1, logged) && ListsAll(lh, logged)
    requires |lh| <= l.Capacity()
    requires RedoLog.Clean(l, e) && RedoLog.HomeEqual(l, e, d0)
    ensures |e| == |d1| && LogMachine.ReadyToCommit(l, e, Cached(e, d1, logged), lh)
    ensures RedoLog.HomeEqual(l, Cached(e, d1, logged), d1)
  {
    hide Consistent, NoHoles;
    SameSize(sb, d0, f0);
    SameSize(sb, d1, f1);
  }

  lemma SameSize(sb: Super, d: seq<Block>, f: Files)
    requires Whole(d, sb, f)
    ensures |d| == sb.size
  {
  }

  /** A file-system operation is atomic across crashes.  If the disk stops after any number of
      the writes of its commit, recovery gives a whole file system in which every file has its
      contents from before the operation, up to the header write, or every file has its contents
      from after it. */
  lemma OperationIsAtomic(l: RedoLog.Layout, sb: Super, d0: seq<Block>, f0: Files, d1: seq<Block>, f1: Files,
                          logged: set<nat>, lh: seq<nat>, e: seq<Block>, ws: seq<Write>, k: nat)
    requires LogBelow(l, sb) && Transaction(sb, d0, f0, d1, f1, logged) && ListsAll(lh, logged)
    requires |lh| <= l.Capacity()
    requires RedoLog.Clean(l, e) && RedoLog.HomeEqual(l, e, d0) && |e| == |d1| && (forall b :: b in logged ==> b < |e|)
    requires ws == RedoLog.CommitWrites(Cached(e, d1, logged), l, lh) && k <= |ws|
    ensures var x := Apply(e, ws[..k]);
      && RedoLog.WellFormed(l, x)
      && if k <= |lh| then SameFiles(sb, f0, d0, RedoLog.Recover(l, x)) else SameFiles(sb, f1, d1, RedoLog.Recover(l, x))
  {
    hide Consistent, NoHoles, Content;
    Ready(l, sb, d0, f0, d1, f1, logged, lh, e);
    LogMachine.CommitAtomic(l, e, Cached(e, d1, logged), lh, k);
    var x := Apply(e, ws[..k]);
    if k <= |lh| {
      HomeIsEnough(l, sb, f0, d0, RedoLog.Recover(l, x));
    } else {
      HomeIsEnough(l, sb, f1, d1, RedoLog.Recover(l, x));
    }
  }

  // ----- operations committed together -----

  /** A disk as the file system sees it, and the files on it. */
  datatype Image = Image(d: seq<Block>, f: Files)

  /** An operation: what it leaves and the blocks it logged. */
  datatype Op = Op(after: Image, logged: set<nat>)

  /** The operations of one transaction and the log's list of their blocks. */
  datatype Batch = Batch(ops: seq<Op>, lh: seq<nat>)

  ghost function Reached(m: Image, ops: seq<Op>): Image {
    if |ops| == 0 then m else ops[|ops| - 1].after
  }

  ghost function Logged(ops: seq<Op>): set<nat> {
    if |ops| == 0 then {} else Logged(ops[..|ops| - 1]) + ops[|ops| - 1].logged
  }

  /** Each operation starts from what the one before left. */
  ghost predicate Chain(sb: Super, m: Image, ops: seq<Op>) {
    |ops| > 0 ==>
      var n := |ops| - 1;
      && Chain(sb, m, ops[..n])
      && Then(sb, Reached(m, ops[..n]), ops[n])
  }

  ghost predicate Then(sb: Super, m: Image, op: Op) {
    Transaction(sb, m.d, m.f, op.after.d, op.after.f, op.logged)
  }

  lemma Composed(sb: Super, d0: seq<Block>, f0: Files, m: Image, a: set<nat>, op: Op)
    requires Transaction(sb, d0, f0, m.d, m.f, a) && Then(sb, m, op)
    ensures Transaction(sb, d0, f0, op.after.d, op.after.f, a + op.logged)
  {
    hide Consistent, NoHoles;
    SameSize(sb, d0, f0);
    SameSize(sb, m.d, m.f);
    SameSize(sb, op.after.d, op.after.f);
  }

  /** The operations of a batch together are one transaction. */
  lemma {:induction false} BatchIsTransaction(sb: Super, m: Image, ops: seq<Op>)
    requires Whole(m.d, sb, m.f) && Chain(sb, m, ops)
    ensures Transaction(sb, m.d, m.f, Reached(m, ops).d, Reached(m, ops).f, Logged(ops))
    decreases |ops|
  {
    hide Whole, Then;
    if |ops| == 0 {
    } else {
      var n := |ops| - 1;
      BatchIsTransaction(sb, m, ops[..n]);
      Composed(sb, m.d, m.f, Reached(m, ops[..n]), Logged(ops[..n]), ops[n]);
    }
  }

  // ----- recoveries that are themselves cut short -----

  /** The disk after recoveries that stopped after cuts[0], cuts[1], ... of their writes. */
  ghost function AfterCuts(l: RedoLog.Layout, x: seq<Block>, cuts: seq<nat>): seq<Block> {
    if |cuts| == 0 then x
    else
      var n := |cuts| - 1;
      var y := AfterCuts(l, x, cuts[..n]);
      if RedoLog.WellFormed(l, y) && cuts[n] <= |RedoLog.RecoverWrites(l, y)|
      then Apply(y, RedoLog.RecoverWrites(l, y)[..cuts[n]])
      else y
  }

  ghost function Rebooted(l: RedoLog.Layout, x: seq<Block>, cuts: seq<nat>): seq<Block> {
    var y := AfterCuts(l, x, cuts);
    if RedoLog.WellFormed(l, y) then RedoLog.Recover(l, y) else y
  }

  lemma {:induction false} CutsHarmless(l: RedoLog.Layout, x: seq<Block>, cuts: seq<nat>)
    requires RedoLog.WellFormed(l, x)
    ensures RedoLog.WellFormed(l, AfterCuts(l, x, cuts))
    ensures RedoLog.Clean(l, Rebooted(l, x, cuts)) && RedoLog.HomeEqual(l, Rebooted(l, x, cuts), RedoLog.Recover(l, x))
    decreases |cuts|
  {
    if |cuts| == 0 {
      LogMachine.RecoveryIdempotent(l, x, 0);
    } else {
      var n := |cuts| - 1;
      var y := AfterCuts(l, x, cuts[..n]);
      CutsHarmless(l, x, cuts[..n]);
      LogMachine.RecoveryIdempotent(l, y, 0);
      if cuts[n] <= |RedoLog.RecoverWrites(l, y)| {
        LogMachine.RecoveryIdempotent(l, y, cuts[n]);
        LogMachine.RecoveryIdempotent(l, AfterCuts(l, x, cuts), 0);
      }
    }
  }

  // ----- histories of commits and crashes -----

  /** What is on the disk, and what the file system sees. */
  datatype Now = Now(e: seq<Block>, seen: Image)

  /** A batch is committed; or the disk stops after some writes of its commit, recovery is cut
      short any number of times, and the system is up again. */
  datatype Event =
    | Committed(batch: Batch)
    | Crashed(batch: Batch, writes: nat, cuts: seq<nat>)

  /** Between batches: the log is empty and the disk holds what the file system sees. */
  ghost predicate Settled(l: RedoLog.Layout, sb: Super, n: Now) {
    LogBelow(l, sb) && Whole(n.seen.d, sb, n.seen.f) && RedoLog.Clean(l, n.e) && RedoLog.HomeEqual(l, n.e, n.seen.d)
  }

  ghost predicate Follows(l: RedoLog.Layout, sb: Super, n: Now, b: Batch) {
    && Chain(sb, n.seen, b.ops) && ListsAll(b.lh, Logged(b.ops)) && |b.lh| <= l.Capacity()
    && |Reached(n.seen, b.ops).d| == |n.e| == sb.size == l.nblocks && forall x :: x in Logged(b.ops) ==> x < |n.e|
  }

  ghost function CommitOf(l: RedoLog.Layout, sb: Super, n: Now, b: Batch): seq<Write>
    requires LogBelow(l, sb) && Follows(l, sb, n, b)
  {
    RedoLog.CommitWrites(Cached(n.e, Reached(n.seen, b.ops).d, Logged(b.ops)), l, b.lh)
  }

  /** The disk when power fails after the first k writes of the commit. */
  ghost function StoppedAt(l: RedoLog.Layout, sb: Super, n: Now, b: Batch, k: nat): seq<Block>
    requires LogBelow(l, sb) && Follows(l, sb, n, b) && k <= |CommitOf(l, sb, n, b)|
  {
    Apply(n.e, CommitOf(l, sb, n, b)[..k])
  }

  /** The event makes its batch durable. */
  predicate Survives(e: Event) {
    e.Committed? || e.writes > |e.batch.lh|
  }

  /** After a crash the file system sees the recovered disk itself. */
  ghost predicate Next(l: RedoLog.Layout, sb: Super, n: Now, e: Event, n': Now) {
    && LogBelow(l, sb) && Follows(l, sb, n, e.batch)
    && var f := if Survives(e) then Reached(n.seen, e.batch.ops).f else n.seen.f;
      match e
      case Committed(b) => n' == Now(Apply(n.e, CommitOf(l, sb, n, b)), Reached(n.seen, b.ops))
      case Crashed(b, k, cuts) =>
        && k <= |CommitOf(l, sb, n, b)| && n'.e == Rebooted(l, StoppedAt(l, sb, n, b, k), cuts)
        && n'.seen == Image(n'.e, f)
  }

  ghost predicate History(l: RedoLog.Layout, sb: Super, run: seq<Now>, events: seq<Event>) {
    && |run| == |events| + 1 && LogBelow(l, sb)
    && forall i, j :: 0 <= i < |events| && j == i + 1 ==> Next(l, sb, run[i], events[i], run[j])
  }

  /** What the last batch that survived left, or the start. */
  ghost function LastDurable(m: Image, events: seq<Event>): Image {
    if |events| == 0 then m
    else
      var n := |events| - 1;
      var before := LastDurable(m, events[..n]);
      if Survives(events[n]) then Reached(before, events[n].batch.ops) else before
  }

  lemma BatchReady(l: RedoLog.Layout, sb: Super, n: Now, b: Batch)
    requires Settled(l, sb, n) && Follows(l, sb, n, b)
    ensures var m, w := Reached(n.seen, b.ops), Cached(n.e, Reached(n.seen, b.ops).d, Logged(b.ops));
      && Whole(m.d, sb, m.f)
      && LogMachine.ReadyToCommit(l, n.e, w, b.lh) && RedoLog.HomeEqual(l, w, m.d)
  {
    hide Consistent, NoHoles;
    var m := Reached(n.seen, b.ops);
    BatchIsTransaction(sb, n.seen, b.ops);
    Ready(l, sb, n.seen.d, n.seen.f, m.d, m.f, Logged(b.ops), b.lh, n.e);
  }

  /** Wherever the commit of a batch stops and however often recovery is cut short, the disk that
      comes up holds, on every home block, what was seen before the batch, up to the header write,
      or what the whole batch left. */
  lemma BatchIsAtomic(l: RedoLog.Layout, sb: Super, n: Now, b: Batch, k: nat, cuts: seq<nat>)
    requires Settled(l, sb, n) && Follows(l, sb, n, b) && k <= |CommitOf(l, sb, n, b)|
    ensures var e := Rebooted(l, StoppedAt(l, sb, n, b, k), cuts);
      && RedoLog.Clean(l, e)
      && RedoLog.HomeEqual(l, e, if k <= |b.lh| then n.seen.d else Reached(n.seen, b.ops).d)
  {
    hide Whole, RedoLog.Clean;
    BatchReady(l, sb, n, b);
    LogMachine.CommitAtomic(l, n.e, Cached(n.e, Reached(n.seen, b.ops).d, Logged(b.ops)), b.lh, k);
    CutsHarmless(l, StoppedAt(l, sb, n, b, k), cuts);
  }

  /** The disk n.e holds the image m, which is whole. */
  ghost predicate Keeps(l: RedoLog.Layout, sb: Super, n: Now, m: Image) {
    n.seen.f == m.f && Whole(m.d, sb, m.f) && RedoLog.HomeEqual(l, n.e, m.d)
  }

  lemma HomeVia(l: RedoLog.Layout, a: seq<Block>, b: seq<Block>, c: seq<Block>, d: seq<Block>)
    requires RedoLog.HomeEqual(l, a, b) && RedoLog.HomeEqual(l, c, b) && RedoLog.HomeEqual(l, c, d)
    ensures RedoLog.HomeEqual(l, a, d)
  {
  }

  lemma CommittedStep(l: RedoLog.Layout, sb: Super, n: Now, b: Batch, n': Now)
    requires Settled(l, sb, n) && Next(l, sb, n, Committed(b), n')
    ensures Settled(l, sb, n')
  {
    hide Whole, RedoLog.Clean;
    BatchReady(l, sb, n, b);
    var w := Cached(n.e, Reached(n.seen, b.ops).d, Logged(b.ops));
    LogMachine.CommitComplete(l, n.e, w, b.lh);
  }

  lemma CrashedStep(l: RedoLog.Layout, sb: Super, n: Now, e: Event, n': Now)
    requires e.Crashed? && Settled(l, sb, n) && Next(l, sb, n, e, n')
    ensures Settled(l, sb, n')
    ensures RedoLog.HomeEqual(l, n'.e, if Survives(e) then Reached(n.seen, e.batch.ops).d else n.seen.d)
  {
    hide Whole, RedoLog.Clean;
    BatchReady(l, sb, n, e.batch);
    BatchIsAtomic(l, sb, n, e.batch, e.writes, e.cuts);
    var m := if Survives(e) then Reached(n.seen, e.batch.ops) else n.seen;
    HomeConsistent(l, sb, m.f, m.d, n'.e);
  }

  lemma KeepsStep(l: RedoLog.Layout, sb: Super, n: Now, e: Event, n': Now, m: Image)
    requires Settled(l, sb, n) && Next(l, sb, n, e, n') && Keeps(l, sb, n, m)
    ensures Settled(l, sb, n') && Keeps(l, sb, n', if Survives(e) then Reached(m, e.batch.ops) else m)
  {
    hide Whole, RedoLog.Clean, RedoLog.HomeEqual;
    BatchReady(l, sb, n, e.batch);
    if e.Committed? {
      CommittedStep(l, sb, n, e.batch, n');
      if |e.batch.ops| == 0 {
        HomeVia(l, n'.e, n.seen.d, n.e, m.d);
      }
    } else {
      CrashedStep(l, sb, n, e, n');
      if !Survives(e) || |e.batch.ops| == 0 {
        HomeVia(l, n'.e, n.seen.d, n.e, m.d);
      }
    }
  }

  lemma {:induction false} HistoryKeeps(l: RedoLog.Layout, sb: Super, run: seq<Now>, events: seq<Event>)
    requires History(l, sb, run, events) && Settled(l, sb, run[0])
    ensures Settled(l, sb, run[|events|]) && Keeps(l, sb, run[|events|], LastDurable(run[0].seen, events))
    decreases |events|
  {
    hide Next, Whole, RedoLog.Clean, RedoLog.HomeEqual;
    if |events| == 0 {
    } else {
      var n := |events| - 1;
      HistoryKeeps(l, sb, run[..n + 1], events[..n]);
      KeepsStep(l, sb, run[n], events[n], run[n + 1], LastDurable(run[0].seen, events[..n]));
    }
  }

  /** Through any number of batches and crashes, the files on the disk are those that the last batch
      whose header write was carried out left, whole and with the contents it gave them. */
  lemma HistoryIsAtomic(l: RedoLog.Layout, sb: Super, run: seq<Now>, events: seq<Event>)
    requires History(l, sb, run, events) && Settled(l, sb, run[0])
    ensures var n, m := run[|events|], LastDurable(run[0].seen, events);
      Settled(l, sb, n) && n.seen.f == m.f && SameFiles(sb, m.f, m.d, n.e)
    ensures var e, m := run[|events|].e, LastDurable(run[0].seen, events);
      && Whole(e, sb, m.f)
      && forall j :: 0 <= j < sb.ninodes ==> var bl, size := m.f.blocks[j], m.f.inode[j].size;
        Listed(m.d, bl) && Listed(e, bl) && size <= BSIZE * |bl| && Content(e, bl, size) == Content(m.d, bl, size)
  {
    hide Next, Whole, RedoLog.Clean, RedoLog.HomeEqual;
    HistoryKeeps(l, sb, run, events);
    var n, m := run[|events|], LastDurable(run[0].seen, events);
    HomeIsEnough(l, sb, m.f, m.d, n.e);
    SameFilesMeans(sb, m.f, m.d, n.e);
  }
}
