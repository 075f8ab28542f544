/** Every interleaving of file-system operations, commits, crashes and recoveries,
    at the grain of single block writes, refines an atomic store. */
module LogMachine {
  import opened Blocks
  import opened RedoLog

  datatype Phase =
    | Running
    | Committing(base: seq<Block>, done: nat)   // base: cached contents when commit() began
    | Down                                      // crashed, not yet booted
    | Recovering(base: seq<Block>, done: nat)   // base: disk contents when recovery began

  /** disk survives a crash; view (the cache), lh and ops do not.  ops maps each
      operation between begin_op and end_op to the blocks it has logged. */
  datatype Sys = Sys(disk: seq<Block>, view: seq<Block>, lh: seq<nat>, ops: map<nat, set<nat>>, phase: Phase)

  datatype Event =
    | Begin(op: nat)
    | LogBlock(op: nat, b: nat, data: Block)
    | End(op: nat)
    | DiskWrite
    | FinishCommit
    | Crash
    | Boot
    | FinishRecovery

  /** begin_op lets an operation in. */
  predicate Admits(s: Sys) {
    s.phase.Running? && |s.lh| + (|s.ops| + 1) * MAXOPBLOCKS <= LOGSIZE
  }

  /** log_write's "too big a transaction" panic; it is tested before absorption. */
  predicate LogWritePanics(l: Layout, s: Sys) {
    |s.lh| >= LOGSIZE || |s.lh| >= l.size - 1
  }

  function Absorb(lh: seq<nat>, b: nat): seq<nat> {
    if b in lh then lh else lh + [b]
  }

  /** There is a log block for b.  log_write makes its test before it takes the lock, so other
      operations may get in between; the step that records b is what must fit. */
  predicate Fits(l: Layout, lh: seq<nat>, b: nat) {
    |Absorb(lh, b)| <= l.Capacity()
  }

  ghost predicate Next(l: Layout, s: Sys, e: Event, t: Sys) {
    match e
    case Begin(op) =>
      Admits(s) && op !in s.ops && t == s.(ops := s.ops[op := {}])
    case LogBlock(op, b, data) =>
      && s.phase.Running? && op in s.ops && l.Home(b) && b < |s.view|
      && |s.ops[op] + {b}| <= MAXOPBLOCKS && Fits(l, s.lh, b)
      && t == s.(view := s.view[b := data], lh := Absorb(s.lh, b), ops := s.ops[op := s.ops[op] + {b}])
    case End(op) =>
      && s.phase.Running? && op in s.ops
      && t == s.(ops := s.ops - {op}, phase := if s.ops.Keys == {op} then Committing(s.view, 0) else Running)
    case DiskWrite =>
      && (s.phase.Committing? || s.phase.Recovering?)
      && s.phase.done < |Pending(l, s)|
      && var w := Pending(l, s)[s.phase.done];
        && w.bno < |s.disk| && w.bno < |s.view|
        && t == s.(disk := s.disk[w.bno := w.data], view := s.view[w.bno := w.data],
                   phase := s.phase.(done := s.phase.done + 1))
    case FinishCommit =>
      s.phase.Committing? && s.phase.done == |Pending(l, s)| && t == s.(lh := [], phase := Running)
    case Crash =>
      t == Sys(s.disk, s.disk, [], map[], Down)
    case Boot =>
      s.phase.Down? && t == s.(phase := Recovering(s.disk, 0))
    case FinishRecovery =>
      s.phase.Recovering? && s.phase.done == |Pending(l, s)| && t == s.(phase := Running)
  }

  /** The writes commit() or recover_from_log() performs from its starting point. */
  ghost function Pending(l: Layout, s: Sys): seq<Write> {
    match s.phase
    case Committing(base, _) =>
      if l.Ok() && |base| == l.nblocks && GoodList(l, s.lh) then CommitWrites(base, l, s.lh) else []
    case Recovering(base, _) =>
      if WellFormed(l, base) then RecoverWrites(l, base) else []
    case _ => []
  }

  // ----- the atomic store -----

  /** durable is what a crash leaves behind, current what operations read. */
  datatype Store = Store(durable: seq<Block>, current: seq<Block>, active: set<nat>)

  ghost function StoreStep(l: Layout, s: Sys, a: Store, e: Event): Store {
    match e
    case Begin(op) => a.(active := a.active + {op})
    case LogBlock(op, b, data) => if b < |a.current| then a.(current := a.current[b := data]) else a
    case End(op) => a.(active := a.active - {op})
    case DiskWrite => if s.phase.Committing? && s.phase.done == |s.lh| then a.(durable := a.current) else a
    case Crash => a.(current := a.durable, active := {})
    case _ => a
  }

  ghost predicate StoreWrite(l: Layout, a: Store, a': Store, b: nat, data: Block) {
    l.Home(b) && b < |a.current| && a' == a.(current := a.current[b := data])
  }

  /** What the store promises: only an active operation changes current contents, all
      of it becomes durable at once and only when no operation is active, and a crash
      falls back to exactly the durable contents. */
  ghost predicate StoreSpec(l: Layout, a: Store, a': Store) {
    || a' == a
    || (exists op :: op !in a.active && a' == a.(active := a.active + {op}))
    || (exists op, b, data: Block :: op in a.active && StoreWrite(l, a, a', b, data))
    || (exists op :: op in a.active && a' == a.(active := a.active - {op}))
    || (a.active == {} && a' == a.(durable := a.current))
    || a' == a.(current := a.durable, active := {})
  }

  // ----- the simulation relation -----

  ghost predicate Sizes(l: Layout, s: Sys, a: Store) {
    && l.Ok() && |s.disk| == |s.view| == |a.durable| == |a.current| == l.nblocks
    && GoodList(l, s.lh)
  }

  ghost predicate InStep(l: Layout, s: Sys, a: Store) {
    && Sizes(l, s, a)
    && Durable(l, s.disk, a.durable)
    && a.active == s.ops.Keys
    && match s.phase
      case Running => RunningOk(l, s, a)
      case Committing(base, k) => CommittingOk(l, s, a, base, k)
      case Down => DownOk(l, s, a)
      case Recovering(base, k) => DownOk(l, s, a) && RecoveringOk(l, s, a, base, k)
  }

  ghost predicate RunningOk(l: Layout, s: Sys, a: Store)
    requires Sizes(l, s, a)
  {
    && Clean(l, s.disk)
    && HomeEqual(l, s.view, a.current)
    && forall x :: 0 <= x < l.nblocks && x !in s.lh ==> s.view[x] == s.disk[x]
  }

  ghost predicate CommittingOk(l: Layout, s: Sys, a: Store, base: seq<Block>, k: nat)
    requires Sizes(l, s, a)
  {
    var n := |s.lh|;
    && s.ops == map[]
    && |base| == l.nblocks && k <= |CommitWrites(base, l, s.lh)|
    && HomeEqual(l, s.view, a.current) && HomeEqual(l, s.view, base)
    && (forall x :: 0 <= x < l.nblocks && x !in s.lh ==> s.view[x] == s.disk[x])
    && (n > 0 && k <= n ==> Filling(l, s, base, k))
    && (n > 0 && n < k <= 2 * n + 1 ==> Installing(l, s, a, base, k - n - 1))
    && (n == 0 || k == 2 * n + 2 ==> Clean(l, s.disk) && HomeEqual(l, s.disk, base))
  }

  /** Before the commit point: k log blocks hold the new contents. */
  ghost predicate Filling(l: Layout, s: Sys, base: seq<Block>, k: nat)
    requires l.Ok() && |s.disk| == |base| == l.nblocks && GoodList(l, s.lh) && k <= |s.lh|
  {
    && s.disk[l.start] == base[l.start] && Clean(l, s.disk)
    && forall i :: 0 <= i < k ==> s.disk[l.Slot(i)] == base[s.lh[i]]
  }

  /** After it: the log is complete and the first m blocks are home. */
  ghost predicate Installing(l: Layout, s: Sys, a: Store, base: seq<Block>, m: nat)
    requires Sizes(l, s, a) && |base| == l.nblocks && m <= |s.lh|
  {
    && s.disk[l.start] == MakeHead(base[l.start], s.lh)
    && (forall i :: 0 <= i < |s.lh| ==> s.disk[l.Slot(i)] == base[s.lh[i]])
    && HomeEqual(l, a.durable, base)
    && forall i :: 0 <= i < m ==> s.disk[s.lh[i]] == base[s.lh[i]]
  }

  ghost predicate DownOk(l: Layout, s: Sys, a: Store)
    requires Sizes(l, s, a)
  {
    s.ops == map[] && s.lh == [] && s.view == s.disk && a.current == a.durable
  }

  ghost predicate RecoveringOk(l: Layout, s: Sys, a: Store, base: seq<Block>, k: nat)
    requires Sizes(l, s, a)
  {
    && WellFormed(l, base) && k <= |RecoverWrites(l, base)|
    && var lh := HeadList(base[l.start]);
      && (k <= |lh| ==>
        && s.disk[l.start] == base[l.start]
        && (forall i :: 0 <= i < |lh| ==> s.disk[l.Slot(i)] == base[l.Slot(i)])
        && forall i :: 0 <= i < k ==> s.disk[lh[i]] == a.durable[lh[i]])
      && (k > |lh| ==> Clean(l, s.disk))
  }

  // ----- one event -----

  lemma CommitWriteAt(base: seq<Block>, l: Layout, lh: seq<nat>, k: nat)
    requires l.Ok() && |base| == l.nblocks && GoodList(l, lh) && k < |CommitWrites(base, l, lh)|
    ensures var n := |lh|;
      CommitWrites(base, l, lh)[k] ==
        if k < n then Write(l.start + 1 + k, base[lh[k]])
        else if k == n then Write(l.start, MakeHead(base[l.start], lh))
        else if k <= 2 * n then Write(lh[k - n - 1], base[lh[k - n - 1]])
        else Write(l.start, MakeHead(MakeHead(base[l.start], lh), []))
  {
  }

  /** The machine after one disk write. */
  ghost function Written(s: Sys, w: Write): Sys
    requires w.bno < |s.disk| && w.bno < |s.view| && (s.phase.Committing? || s.phase.Recovering?)
  {
    s.(disk := s.disk[w.bno := w.data], view := s.view[w.bno := w.data], phase := s.phase.(done := s.phase.done + 1))
  }

  lemma FillStep(l: Layout, s: Sys, a: Store, t: Sys)
    requires InStep(l, s, a) && s.phase.Committing? && s.phase.done < |s.lh|
    requires t == Written(s, Write(l.Slot(s.phase.done), s.phase.base[s.lh[s.phase.done]]))
    ensures InStep(l, t, a)
  {
    var base, k := s.phase.base, s.phase.done;
    LogWriteStep(l, s.disk, a.durable, k, base[s.lh[k]]);
    assert Filling(l, t, base, k + 1);
  }

  lemma SwitchStep(l: Layout, s: Sys, a: Store, t: Sys)
    requires InStep(l, s, a) && s.phase.Committing? && s.phase.done == |s.lh| && |s.lh| > 0
    requires t == Written(s, Write(l.start, MakeHead(s.phase.base[l.start], s.lh)))
    ensures InStep(l, t, a.(durable := a.current))
  {
    var base := s.phase.base;
    forall x | l.Home(x) && x !in s.lh ensures a.durable[x] == a.current[x] {
      assert s.view[x] == s.disk[x] && s.disk[x] == a.durable[x];
    }
    CommitPointStep(l, s.disk, a.durable, a.current, base[l.start], s.lh);
    assert Installing(l, t, a.(durable := a.current), base, 0);
  }

  lemma AgreeOutside(lh: seq<nat>, view: seq<Block>, disk: seq<Block>, i: nat, data: Block)
    requires i < |lh| && lh[i] < |disk| && |view| == |disk|
    requires forall x :: 0 <= x < |disk| && x !in lh ==> view[x] == disk[x]
    ensures forall x :: 0 <= x < |disk| && x !in lh ==> view[x] == disk[lh[i] := data][x]
  {
  }

  lemma InstallingNext(l: Layout, s: Sys, a: Store, base: seq<Block>, m: nat)
    requires Sizes(l, s, a) && |base| == l.nblocks && m < |s.lh|
    requires Durable(l, s.disk, a.durable) && Installing(l, s, a, base, m)
    ensures var t := s.(disk := s.disk[s.lh[m] := base[s.lh[m]]]);
      Installing(l, t, a, base, m + 1) && Durable(l, t.disk, a.durable)
  {
    HeadRoundTrip(base[l.start], s.lh);
    assert s.disk[l.Slot(m)] == base[s.lh[m]];
    InstallStep(l, s.disk, a.durable, m);
    assert l.Home(s.lh[m]);
  }

  lemma InstallingStep(l: Layout, s: Sys, a: Store, m: nat, t: Sys)
    requires InStep(l, s, a) && s.phase.Committing? && s.phase.done == |s.lh| + 1 + m && m < |s.lh|
    requires t == Written(s, Write(s.lh[m], s.phase.base[s.lh[m]]))
    ensures InStep(l, t, a)
  {
    var base := s.phase.base;
    assert s.view[s.lh[m]] == base[s.lh[m]];
    assert t.view == s.view;
    InstallingNext(l, s, a, base, m);
    assert Installing(l, t, a, base, m + 1);
    AgreeOutside(s.lh, s.view, s.disk, m, base[s.lh[m]]);
  }

  lemma ClearingStep(l: Layout, s: Sys, a: Store, t: Sys)
    requires InStep(l, s, a) && s.phase.Committing? && s.phase.done == 2 * |s.lh| + 1 && |s.lh| > 0
    requires t == Written(s, Write(l.start, MakeHead(MakeHead(s.phase.base[l.start], s.lh), [])))
    ensures InStep(l, t, a)
  {
    var base, n := s.phase.base, |s.lh|;
    HeadRoundTrip(base[l.start], s.lh);
    ClearStep(l, s.disk, a.durable, MakeHead(base[l.start], s.lh));
    forall x | l.Home(x) ensures t.disk[x] == base[x] {
      if x in s.lh {
        var i :| 0 <= i < n && s.lh[i] == x;
      }
    }
  }

  lemma CommitWriteStep(l: Layout, s: Sys, a: Store, t: Sys)
    requires InStep(l, s, a) && s.phase.Committing? && Next(l, s, DiskWrite, t)
    ensures InStep(l, t, if s.phase.done == |s.lh| then a.(durable := a.current) else a)
  {
    hide Durable, Filling, Installing, Clean, HomeEqual, CommitWrites;
    var k, n := s.phase.done, |s.lh|;
    CommitWriteAt(s.phase.base, l, s.lh, k);
    if k < n {
      FillStep(l, s, a, t);
    } else if k == n {
      SwitchStep(l, s, a, t);
    } else if k <= 2 * n {
      InstallingStep(l, s, a, k - n - 1, t);
    } else {
      ClearingStep(l, s, a, t);
    }
  }

  lemma RecoverInstallStep(l: Layout, s: Sys, a: Store, t: Sys)
    requires InStep(l, s, a) && s.phase.Recovering? && Next(l, s, DiskWrite, t)
    requires s.phase.done < |HeadList(s.phase.base[l.start])|
    ensures InStep(l, t, a)
  {
    var base, k := s.phase.base, s.phase.done;
    var lh := HeadList(base[l.start]);
    assert RecoverWrites(l, base)[k] == Write(lh[k], base[l.Slot(k)]);
    assert s.disk[l.Slot(k)] == base[l.Slot(k)];
    InstallStep(l, s.disk, a.durable, k);
    assert l.Home(lh[k]);
  }

  lemma RecoverWriteStep(l: Layout, s: Sys, a: Store, t: Sys)
    requires InStep(l, s, a) && s.phase.Recovering? && Next(l, s, DiskWrite, t)
    ensures InStep(l, t, a)
  {
    var base, k := s.phase.base, s.phase.done;
    if k < |HeadList(base[l.start])| {
      RecoverInstallStep(l, s, a, t);
    } else {
      ClearStep(l, s.disk, a.durable, base[l.start]);
    }
  }

  lemma LogBlockStep(l: Layout, s: Sys, a: Store, op: nat, b: nat, data: Block, t: Sys)
    requires InStep(l, s, a) && Next(l, s, LogBlock(op, b, data), t)
    ensures InStep(l, t, StoreStep(l, s, a, LogBlock(op, b, data)))
  {
    assert t.ops.Keys == s.ops.Keys;
    forall x | 0 <= x < l.nblocks && x !in t.lh ensures t.view[x] == t.disk[x] {
      assert b in t.lh;
      assert x !in s.lh;
    }
  }

  lemma OpStep(l: Layout, s: Sys, a: Store, e: Event, t: Sys)
    requires InStep(l, s, a) && Next(l, s, e, t) && (e.Begin? || e.End?)
    ensures InStep(l, t, StoreStep(l, s, a, e)) && StoreSpec(l, a, StoreStep(l, s, a, e))
  {
    hide Durable, HomeEqual;
    if e.Begin? {
      assert t.ops.Keys == s.ops.Keys + {e.op};
      assert a.(active := a.active + {e.op}) == StoreStep(l, s, a, e) && e.op !in a.active;
    } else {
      assert t.ops.Keys == s.ops.Keys - {e.op};
      assert e.op in a.active && StoreStep(l, s, a, e) == a.(active := a.active - {e.op});
      if t.phase.Committing? {
        assert t.ops.Keys == {};
        EndedOk(l, s, a, t);
      }
    }
  }

  /** Between operations the cache, the disk and the contents when commit() begins agree. */
  lemma EndedOk(l: Layout, s: Sys, a: Store, t: Sys)
    requires Sizes(l, s, a) && RunningOk(l, s, a) && Durable(l, s.disk, a.durable)
    requires t == s.(ops := map[], phase := Committing(s.view, 0))
    ensures CommittingOk(l, t, a, s.view, 0)
  {
    assert |s.lh| > 0 ==> Filling(l, t, s.view, 0);
  }

  lemma QuietStep(l: Layout, s: Sys, a: Store, e: Event, t: Sys)
    requires InStep(l, s, a) && Next(l, s, e, t) && (e.FinishCommit? || e.Crash? || e.Boot? || e.FinishRecovery?)
    ensures InStep(l, t, StoreStep(l, s, a, e)) && StoreSpec(l, a, StoreStep(l, s, a, e))
  {
    if e.Crash? {
      assert t.ops.Keys == {};
    }
  }

  /** The machine refines the atomic store, event by event. */
  lemma Simulates(l: Layout, s: Sys, a: Store, e: Event, t: Sys)
    requires InStep(l, s, a) && Next(l, s, e, t)
    ensures InStep(l, t, StoreStep(l, s, a, e))
    ensures StoreSpec(l, a, StoreStep(l, s, a, e))
  {
    hide Durable, Clean, HomeEqual, RunningOk, CommittingOk, DownOk, RecoveringOk;
    match e
    case LogBlock(op, b, data) =>
      LogBlockStep(l, s, a, op, b, data, t);
      assert op in a.active && StoreWrite(l, a, StoreStep(l, s, a, e), b, data);
    case DiskWrite =>
      if s.phase.Recovering? {
        RecoverWriteStep(l, s, a, t);
      } else {
        CommitWriteStep(l, s, a, t);
        NoneActive(l, s, a);
      }
    case Begin(_) => OpStep(l, s, a, e, t);
    case End(_) => OpStep(l, s, a, e, t);
    case _ => QuietStep(l, s, a, e, t);
  }

  lemma NoneActive(l: Layout, s: Sys, a: Store)
    requires InStep(l, s, a) && s.phase.Committing?
    ensures a.active == {}
  {
  }

  // ----- whole runs -----

  ghost predicate IsRun(l: Layout, run: seq<Sys>, events: seq<Event>) {
    |run| == |events| + 1 && forall i :: 0 <= i < |events| ==> Next(l, run[i], events[i], run[i + 1])
  }

  ghost predicate Init(l: Layout, s: Sys) {
    Clean(l, s.disk) && s == Sys(s.disk, s.disk, [], map[], Down)
  }

  /** The store after a run: each event's effect, applied from the initial disk. */
  ghost function StoreAfter(l: Layout, run: seq<Sys>, events: seq<Event>): Store
    requires |run| == |events| + 1
    decreases |events|
  {
    if |events| == 0 then Store(run[0].disk, run[0].disk, {})
    else
      var n := |events| - 1;
      StoreStep(l, run[n], StoreAfter(l, run[..n + 1], events[..n]), events[n])
  }

  lemma {:induction false} RunRefinesStore(l: Layout, run: seq<Sys>, events: seq<Event>)
    requires IsRun(l, run, events) && Init(l, run[0])
    ensures InStep(l, run[|events|], StoreAfter(l, run, events))
    ensures |events| > 0 ==>
      StoreSpec(l, StoreAfter(l, run[..|events|], events[..|events| - 1]), StoreAfter(l, run, events))
    decreases |events|
  {
    if |events| == 0 {
    } else {
      var n := |events| - 1;
      RunRefinesStore(l, run[..n + 1], events[..n]);
      Simulates(l, run[n], StoreAfter(l, run[..n + 1], events[..n]), events[n], run[n + 1]);
    }
  }

  /** Crash atomicity.  Stop any run after any event, in particular between any two disk
      writes of a commit or of a recovery: recovering the disk as it stands gives, on
      every home block, exactly the durable contents of the atomic store. */
  lemma CrashAtomicity(l: Layout, run: seq<Sys>, events: seq<Event>)
    requires IsRun(l, run, events) && Init(l, run[0])
    ensures var s, a := run[|events|], StoreAfter(l, run, events);
      && WellFormed(l, s.disk)
      && HomeEqual(l, Recover(l, s.disk), a.durable)
      && (forall x :: 0 <= x < l.nblocks && !(l.start <= x < l.start + l.size) ==>
        x < |Recover(l, s.disk)| && x < |a.durable| && Recover(l, s.disk)[x] == a.durable[x])
      && (s.phase.Running? || s.phase.Committing? ==> HomeEqual(l, s.view, a.current))
      && (s.phase.Running? && s.ops == map[] ==> HomeEqual(l, a.durable, a.current))
  {
    RunRefinesStore(l, run, events);
    AdmissionSafe(l, run, events);
    RecoverDurable(l, run[|events|].disk, StoreAfter(l, run, events).durable);
  }

  // ----- one commit, one recovery, stopped anywhere -----

  lemma ApplyPrefix(d: seq<Block>, ws: seq<Write>, k: nat)
    requires k < |ws| && forall i :: 0 <= i < |ws| ==> ws[i].bno < |d|
    ensures Apply(d, ws[..k + 1]) == Apply(d, ws[..k])[ws[k].bno := ws[k].data]
  {
    assert ws[..k + 1][..k] == ws[..k];
  }

  ghost predicate ReadyToCommit(l: Layout, d: seq<Block>, v: seq<Block>, lh: seq<nat>) {
    && Clean(l, d) && |d| == |v| == l.nblocks && GoodList(l, lh)
    && forall x :: 0 <= x < l.nblocks && x !in lh ==> v[x] == d[x]
  }

  ghost function CommitStart(d: seq<Block>, v: seq<Block>, lh: seq<nat>): Sys {
    Sys(d, v, lh, map[], Committing(v, 0))
  }

  /** The machine k disk writes after s. */
  ghost function AfterWrites(s: Sys, ws: seq<Write>, k: nat): (t: Sys)
    requires k <= |ws| && (s.phase.Committing? || s.phase.Recovering?) && |s.disk| == |s.view|
    requires forall i :: 0 <= i < |ws| ==> ws[i].bno < |s.disk|
    ensures |t.disk| == |t.view| == |s.disk|
    ensures t == s.(disk := t.disk, view := t.view, phase := s.phase.(done := s.phase.done + k))
  {
    if k == 0 then s else Written(AfterWrites(s, ws, k - 1), ws[k - 1])
  }

  lemma {:induction false} AfterWritesApply(s: Sys, ws: seq<Write>, k: nat)
    requires k <= |ws| && (s.phase.Committing? || s.phase.Recovering?) && |s.disk| == |s.view|
    requires forall i :: 0 <= i < |ws| ==> ws[i].bno < |s.disk|
    ensures AfterWrites(s, ws, k).disk == Apply(s.disk, ws[..k]) && AfterWrites(s, ws, k).view == Apply(s.view, ws[..k])
    decreases k
  {
    if k == 0 {
    } else {
      AfterWritesApply(s, ws, k - 1);
      ApplyPrefix(s.disk, ws, k - 1);
      ApplyPrefix(s.view, ws, k - 1);
    }
  }

  ghost function CommitStore(d: seq<Block>, v: seq<Block>, lh: seq<nat>, k: nat): Store {
    Store(if k <= |lh| then d else v, v, {})
  }

  lemma CommitBegins(l: Layout, d: seq<Block>, v: seq<Block>, lh: seq<nat>)
    requires ReadyToCommit(l, d, v, lh)
    ensures InStep(l, CommitStart(d, v, lh), CommitStore(d, v, lh, 0))
  {
    assert |lh| > 0 ==> Filling(l, CommitStart(d, v, lh), v, 0);
  }

  lemma InStepSizes(l: Layout, s: Sys, a: Store)
    requires InStep(l, s, a)
    ensures Sizes(l, s, a)
  {
  }

  lemma CommitNext(l: Layout, d: seq<Block>, v: seq<Block>, lh: seq<nat>, ws: seq<Write>, k: nat, s: Sys)
    requires ReadyToCommit(l, d, v, lh) && ws == CommitWrites(v, l, lh) && k < |ws|
    requires s.lh == lh && s.phase == Committing(v, k) && InStep(l, s, CommitStore(d, v, lh, k))
    ensures ws[k].bno < |s.disk| == |s.view| && InStep(l, Written(s, ws[k]), CommitStore(d, v, lh, k + 1))
  {
    hide InStep, Clean, LogWrites, HomeWrites, MakeHead, CommitWrites;
    InStepSizes(l, s, CommitStore(d, v, lh, k));
    Simulates(l, s, CommitStore(d, v, lh, k), DiskWrite, Written(s, ws[k]));
  }

  lemma {:induction false} CommitPrefix(l: Layout, d: seq<Block>, v: seq<Block>, lh: seq<nat>, ws: seq<Write>, k: nat)
      returns (t: Sys)
    requires ReadyToCommit(l, d, v, lh) && ws == CommitWrites(v, l, lh) && k <= |ws|
    ensures t == AfterWrites(CommitStart(d, v, lh), ws, k)
    ensures InStep(l, t, CommitStore(d, v, lh, k))
    decreases k
  {
    hide InStep, Clean, CommitWrites;
    if k == 0 {
      CommitBegins(l, d, v, lh);
      t := CommitStart(d, v, lh);
    } else {
      var s := CommitPrefix(l, d, v, lh, ws, k - 1);
      CommitNext(l, d, v, lh, ws, k - 1, s);
      t := Written(s, ws[k - 1]);
    }
  }

  /** A commit stopped after k of its writes recovers to the old contents up to and
      including the last log write, and to the new contents from the header write on. */
  lemma CommitAtomic(l: Layout, d: seq<Block>, v: seq<Block>, lh: seq<nat>, k: nat)
    requires ReadyToCommit(l, d, v, lh) && k <= |CommitWrites(v, l, lh)|
    ensures var e := Apply(d, CommitWrites(v, l, lh)[..k]);
      WellFormed(l, e) && HomeEqual(l, Recover(l, e), if k <= |lh| then d else v)
  {
    var t := CommitPrefix(l, d, v, lh, CommitWrites(v, l, lh), k);
    AfterWritesApply(CommitStart(d, v, lh), CommitWrites(v, l, lh), k);
    RecoverDurable(l, Apply(d, CommitWrites(v, l, lh)[..k]), if k <= |lh| then d else v);
  }

  lemma CommitComplete(l: Layout, d: seq<Block>, v: seq<Block>, lh: seq<nat>)
    requires ReadyToCommit(l, d, v, lh)
    ensures var ws := CommitWrites(v, l, lh);
      Clean(l, Apply(d, ws)) && HomeEqual(l, Apply(d, ws), v) && HomeEqual(l, Apply(v, ws), v)
  {
    var ws := CommitWrites(v, l, lh);
    var t := CommitPrefix(l, d, v, lh, ws, |ws|);
    AfterWritesApply(CommitStart(d, v, lh), ws, |ws|);
    assert ws[..|ws|] == ws;
  }

  ghost function RecoverStart(d: seq<Block>): Sys {
    Sys(d, d, [], map[], Recovering(d, 0))
  }

  lemma RecoverNext(l: Layout, d: seq<Block>, v: seq<Block>, k: nat, s: Sys)
    requires WellFormed(l, d) && k < |RecoverWrites(l, d)|
    requires s.phase == Recovering(d, k) && InStep(l, s, Store(v, v, {}))
    ensures InStep(l, Written(s, RecoverWrites(l, d)[k]), Store(v, v, {}))
  {
    Simulates(l, s, Store(v, v, {}), DiskWrite, Written(s, RecoverWrites(l, d)[k]));
  }

  lemma {:induction false} RecoverPrefix(l: Layout, d: seq<Block>, v: seq<Block>, k: nat) returns (t: Sys)
    requires Durable(l, d, v) && k <= |RecoverWrites(l, d)|
    ensures t == AfterWrites(RecoverStart(d), RecoverWrites(l, d), k)
    ensures InStep(l, t, Store(v, v, {}))
    decreases k
  {
    if k == 0 {
      t := RecoverStart(d);
    } else {
      var s := RecoverPrefix(l, d, v, k - 1);
      RecoverNext(l, d, v, k - 1, s);
      t := Written(s, RecoverWrites(l, d)[k - 1]);
    }
  }

  /** Every trusted disk pins some contents down. */
  lemma PinsContents(l: Layout, d: seq<Block>) returns (v: seq<Block>)
    requires WellFormed(l, d)
    ensures Durable(l, d, v)
  {
    var lh := HeadList(d[l.start]);
    var hs := seq(|lh|, i requires 0 <= i < |lh| => Write(lh[i], d[l.Slot(i)]));
    v := Apply(d, hs);
    forall i | 0 <= i < |lh| ensures v[lh[i]] == d[l.Slot(i)] {
      ApplyHit(d, hs, i);
    }
    forall x | l.Home(x) && x !in lh ensures v[x] == d[x] {
      ApplyFrame(d, hs, x);
    }
  }

  /** Recovery can itself be stopped after any write and started over: the second
      recovery ends with what the first would have produced. */
  lemma RecoveryIdempotent(l: Layout, d: seq<Block>, k: nat)
    requires WellFormed(l, d) && k <= |RecoverWrites(l, d)|
    ensures var e := Apply(d, RecoverWrites(l, d)[..k]);
      WellFormed(l, e) && HomeEqual(l, Recover(l, e), Recover(l, d)) && Clean(l, Recover(l, d))
  {
    var v := PinsContents(l, d);
    var e := Apply(d, RecoverWrites(l, d)[..k]);
    RecoverDurable(l, d, v);
    assert Durable(l, e, v) by {
      var t := RecoverPrefix(l, d, v, k);
      AfterWritesApply(RecoverStart(d), RecoverWrites(l, d), k);
    }
    RecoverDurable(l, e, v);
  }

  // ----- admission -----

  /** Log space reserved by active operations and not used yet. */
  ghost function Unused(ops: map<nat, set<nat>>): int {
    if |ops| == 0 then 0
    else
      var op :| op in ops;
      MAXOPBLOCKS - |ops[op]| + Unused(ops - {op})
  }

  lemma WithoutBoth(ops: map<nat, set<nat>>, o: nat, p: nat)
    ensures ops - {o} - {p} == ops - {p} - {o}
  {
    assert (ops - {o} - {p}).Keys == (ops - {p} - {o}).Keys;
  }

  lemma {:induction false} UnusedSplit(ops: map<nat, set<nat>>, op: nat)
    requires op in ops
    ensures Unused(ops) == MAXOPBLOCKS - |ops[op]| + Unused(ops - {op})
    decreases |ops|
  {
    var q :| q in ops && Unused(ops) == MAXOPBLOCKS - |ops[q]| + Unused(ops - {q});
    if q == op {
    } else {
      UnusedSplit(ops - {q}, op);
      UnusedSplit(ops - {op}, q);
      WithoutBoth(ops, op, q);
    }
  }

  ghost predicate WithinBudget(ops: map<nat, set<nat>>) {
    forall op :: op in ops ==> |ops[op]| <= MAXOPBLOCKS
  }

  lemma {:induction false} UnusedBounds(ops: map<nat, set<nat>>)
    requires WithinBudget(ops)
    ensures 0 <= Unused(ops) <= MAXOPBLOCKS * |ops|
    decreases |ops|
  {
    if |ops| == 0 {
    } else {
      var op :| op in ops;
      UnusedSplit(ops, op);
      UnusedBounds(ops - {op});
    }
  }

  lemma UnusedAfter(ops: map<nat, set<nat>>, op: nat, blocks: set<nat>)
    ensures Unused(ops[op := blocks]) ==
      MAXOPBLOCKS - |blocks| + if op in ops then Unused(ops) - (MAXOPBLOCKS - |ops[op]|) else Unused(ops)
  {
    var t := ops[op := blocks];
    UnusedSplit(t, op);
    assert t - {op} == ops - {op};
    if op in ops {
      UnusedSplit(ops, op);
    } else {
      assert ops - {op} == ops;
    }
  }

  ghost predicate AllLogged(ops: map<nat, set<nat>>, lh: seq<nat>) {
    forall op, b :: op in ops && b in ops[op] ==> b in lh
  }

  ghost predicate Reserved(l: Layout, s: Sys) {
    && WithinBudget(s.ops)
    && |s.lh| + Unused(s.ops) <= LOGSIZE
    && AllLogged(s.ops, s.lh)
    && (forall i, j :: 0 <= i < j < |s.lh| ==> s.lh[i] != s.lh[j])
    && (!s.phase.Running? ==> s.ops == map[])
    && (s.phase.Running? && s.ops == map[] ==> s.lh == [])
    && (s.phase.Down? || s.phase.Recovering? ==> s.lh == [])
  }

  lemma ReservedBegin(l: Layout, s: Sys, op: nat, t: Sys)
    requires Reserved(l, s) && Next(l, s, Begin(op), t)
    ensures Reserved(l, t)
  {
    UnusedBounds(s.ops);
    UnusedAfter(s.ops, op, {});
  }

  lemma UnusedLog(ops: map<nat, set<nat>>, op: nat, b: nat)
    requires op in ops
    ensures Unused(ops[op := ops[op] + {b}]) == Unused(ops) - if b in ops[op] then 0 else 1
  {
    UnusedAfter(ops, op, ops[op] + {b});
    if b in ops[op] { assert ops[op] + {b} == ops[op]; }
  }

  lemma ReservedLogBlock(l: Layout, s: Sys, op: nat, b: nat, data: Block, t: Sys)
    requires Reserved(l, s) && Next(l, s, LogBlock(op, b, data), t)
    ensures Reserved(l, t)
  {
    UnusedLog(s.ops, op, b);
    assert forall x :: x in t.lh <==> x in s.lh || x == b;
    forall o, x | o in t.ops && x in t.ops[o] ensures x in t.lh {
      assert o in s.ops && (x in s.ops[o] || x == b);
    }
  }

  lemma ReservedEnd(l: Layout, s: Sys, op: nat, t: Sys)
    requires Reserved(l, s) && Next(l, s, End(op), t)
    ensures Reserved(l, t)
  {
    UnusedSplit(s.ops, op);
    if s.ops.Keys == {op} {
      assert t.ops.Keys == {};
    }
  }

  lemma ReservedStep(l: Layout, s: Sys, e: Event, t: Sys)
    requires Reserved(l, s) && Next(l, s, e, t)
    ensures Reserved(l, t)
  {
    match e
    case Begin(op) => ReservedBegin(l, s, op, t);
    case LogBlock(op, b, data) => ReservedLogBlock(l, s, op, b, data, t);
    case End(op) => ReservedEnd(l, s, op, t);
    case _ => assert Unused(map[]) == 0;
  }

  /** Log admission over every run: used plus reserved space never exceeds the log, no
      block is logged twice, a commit only runs with no operation outstanding, and when
      none is left all their updates have been committed. */
  lemma {:induction false} AdmissionSafe(l: Layout, run: seq<Sys>, events: seq<Event>)
    requires IsRun(l, run, events) && Init(l, run[0])
    ensures Reserved(l, run[|events|])
    decreases |events|
  {
    if |events| > 0 {
      AdmissionSafe(l, run[..|events|], events[..|events| - 1]);
      ReservedStep(l, run[|events| - 1], events[|events| - 1], run[|events|]);
    } else {
      assert Unused(map[]) == 0;
    }
  }

  /** Within its budget an operation meets the panic exactly when the log is at capacity.  For a
      block that is not in the log yet this takes a log region of no more than LOGSIZE blocks:
      admission reserves LOGSIZE entries, and such a region has fewer. */
  lemma PanicsExactlyWhenFull(l: Layout, s: Sys, op: nat, b: nat)
    requires l.Ok() && GoodList(l, s.lh) && Reserved(l, s) && op in s.ops && |s.ops[op] + {b}| <= MAXOPBLOCKS
    ensures LogWritePanics(l, s) <==> |s.lh| == l.Capacity()
    ensures b !in s.lh ==> (LogWritePanics(l, s) <==> l.size <= LOGSIZE && |s.lh| == l.size - 1)
  {
    UnusedSplit(s.ops, op);
    UnusedBounds(s.ops - {op});
  }

  /** A block recorded right after a passed test fits; and with a log region of more than LOGSIZE
      blocks every block within the budget fits, tested or not. */
  lemma WithinBudgetFits(l: Layout, s: Sys, op: nat, b: nat)
    requires l.Ok() && GoodList(l, s.lh) && Reserved(l, s) && op in s.ops && |s.ops[op] + {b}| <= MAXOPBLOCKS
    ensures !LogWritePanics(l, s) || l.size > LOGSIZE ==> Fits(l, s.lh, b)
  {
    UnusedSplit(s.ops, op);
    UnusedBounds(s.ops - {op});
  }

  // ----- a full log -----

  function HomeBlock(l: Layout, i: nat): nat {
    if i < l.start then i else i + l.size
  }

  lemma Extend(l: Layout, run: seq<Sys>, events: seq<Event>, e: Event, t: Sys)
    requires IsRun(l, run, events) && Next(l, run[|events|], e, t)
    ensures IsRun(l, run + [t], events + [e])
  {
    var r, es := run + [t], events + [e];
    forall i | 0 <= i < |es| ensures Next(l, r[i], es[i], r[i + 1]) {
      if i < |events| {
        assert r[i] == run[i] && r[i + 1] == run[i + 1] && es[i] == events[i];
      }
    }
  }

  lemma ThreeAdmitted(l: Layout, d: seq<Block>) returns (run: seq<Sys>, events: seq<Event>)
    requires Clean(l, d)
    ensures IsRun(l, run, events) && run[0] == Sys(d, d, [], map[], Down)
    ensures var s := run[|events|];
      s.phase == Running && |s.view| == |d| && s.lh == [] && s.ops == map[0 := {}, 1 := {}, 2 := {}]
  {
    var s := Sys(d, d, [], map[], Down);
    run, events := [s], [];
    var t := s.(phase := Recovering(d, 0));
    Extend(l, run, events, Boot, t);
    run, events, s := run + [t], events + [Boot], t;
    var w := Pending(l, s)[0];
    t := s.(disk := s.disk[w.bno := w.data], view := s.view[w.bno := w.data], phase := Recovering(d, 1));
    Extend(l, run, events, DiskWrite, t);
    run, events, s := run + [t], events + [DiskWrite], t;
    t := s.(phase := Running);
    Extend(l, run, events, FinishRecovery, t);
    run, events, s := run + [t], events + [FinishRecovery], t;
    t := s.(ops := map[0 := {}]);
    Extend(l, run, events, Begin(0), t);
    run, events, s := run + [t], events + [Begin(0)], t;
    t := s.(ops := map[0 := {}, 1 := {}]);
    Extend(l, run, events, Begin(1), t);
    run, events, s := run + [t], events + [Begin(1)], t;
    t := s.(ops := map[0 := {}, 1 := {}, 2 := {}]);
    Extend(l, run, events, Begin(2), t);
    run, events := run + [t], events + [Begin(2)];
  }

  /** k home blocks logged by operations 0, 1 and 2 in turn. */
  ghost predicate Filled(l: Layout, s: Sys, k: nat) {
    && s.phase == Running && |s.view| == l.nblocks && s.ops.Keys == {0, 1, 2}
    && |s.lh| == k && (forall i :: 0 <= i < k ==> s.lh[i] == HomeBlock(l, i))
    && (forall op :: op in s.ops ==> |s.ops[op]| == Share(k, op))
    && AllLogged(s.ops, s.lh)
    && (k > 0 ==> HomeBlock(l, k - 1) in s.ops[Logger(k)])
  }

  function Share(k: nat, op: nat): int {
    (k + 2 - op) / 3
  }

  /** Who logs the k-th block. */
  function Logger(k: nat): nat {
    if k == 0 then 0 else (k - 1) % 3
  }

  ghost predicate IsFilledBy(s: Sys, t: Sys, op: nat, b: nat, data: Block) {
    && op in s.ops && b < |s.view|
    && t == s.(view := s.view[b := data], lh := s.lh + [b], ops := s.ops[op := s.ops[op] + {b}])
  }

  lemma ShareNext(k: nat, op: nat)
    requires op < 3
    ensures Share(k + 1, op) == Share(k, op) + (if op == Logger(k + 1) then 1 else 0)
    ensures k < LOGSIZE ==> Logger(k + 1) < 3 && Share(k, Logger(k + 1)) < MAXOPBLOCKS
  {
  }

  lemma FreshHome(l: Layout, s: Sys, k: nat, i: nat)
    requires l.Ok() && l.nblocks >= l.size + LOGSIZE && Filled(l, s, k) && k <= i < LOGSIZE
    ensures HomeBlock(l, i) !in s.lh && l.Home(HomeBlock(l, i))
  {
  }

  lemma FilledNext(l: Layout, s: Sys, k: nat, t: Sys)
    requires l.Ok() && l.nblocks >= l.size + LOGSIZE && Filled(l, s, k) && k < l.Capacity()
    requires IsFilledBy(s, t, Logger(k + 1), HomeBlock(l, k), ZERO_BLOCK)
    ensures Filled(l, t, k + 1) && Next(l, s, LogBlock(Logger(k + 1), HomeBlock(l, k), ZERO_BLOCK), t)
  {
    hide Share, Logger, HomeBlock, AllLogged;
    var op, b := Logger(k + 1), HomeBlock(l, k);
    FreshHome(l, s, k, k);
    FilledOps(s.ops, s.lh, op, b);
    ShareNext(k, op);
    forall o | o in t.ops ensures |t.ops[o]| == Share(k + 1, o) {
      ShareNext(k, o);
    }
  }

  lemma FilledOps(ops: map<nat, set<nat>>, lh: seq<nat>, op: nat, b: nat)
    requires op in ops && AllLogged(ops, lh) && b !in lh
    ensures |ops[op] + {b}| == |ops[op]| + 1
    ensures ops[op := ops[op] + {b}].Keys == ops.Keys
    ensures AllLogged(ops[op := ops[op] + {b}], lh + [b])
  {
    assert ops[op := ops[op] + {b}].Keys == ops.Keys;
  }

  lemma FilledNone(l: Layout, s: Sys)
    requires s.phase == Running && |s.view| == l.nblocks && s.lh == [] && s.ops == map[0 := {}, 1 := {}, 2 := {}]
    ensures Filled(l, s, 0)
  {
  }

  lemma FilledRoom(l: Layout, s: Sys, k: nat)
    requires l.Ok() && l.nblocks >= l.size + LOGSIZE && Filled(l, s, k) && k < LOGSIZE
    ensures Logger(k + 1) in s.ops && HomeBlock(l, k) < |s.view|
  {
    FreshHome(l, s, k, k);
  }

  lemma {:induction false} LogMany(l: Layout, d: seq<Block>, k: nat) returns (run: seq<Sys>, events: seq<Event>)
    requires Clean(l, d) && l.nblocks >= l.size + LOGSIZE && k <= l.Capacity()
    ensures IsRun(l, run, events) && run[0] == Sys(d, d, [], map[], Down)
    ensures Filled(l, run[|events|], k)
    decreases k
  {
    hide Filled, Logger, HomeBlock;
    if k == 0 {
      run, events := ThreeAdmitted(l, d);
      FilledNone(l, run[|events|]);
    } else {
      run, events := LogMany(l, d, k - 1);
      var s, op, b := run[|events|], Logger(k), HomeBlock(l, k - 1);
      FilledRoom(l, s, k - 1);
      var t := s.(view := s.view[b := ZERO_BLOCK], lh := s.lh + [b], ops := s.ops[op := s.ops[op] + {b}]);
      FilledNext(l, s, k - 1, t);
      Extend(l, run, events, LogBlock(op, b, ZERO_BLOCK), t);
      run, events := run + [t], events + [LogBlock(op, b, ZERO_BLOCK)];
    }
  }

  /** The budget does not rule the panic out: a run in which every operation stays within
      MAXOPBLOCKS fills the log, and then rewriting a block that is already in the log,
      which would add nothing to it, panics. */
  lemma RelogOfFullLogPanics(l: Layout, d: seq<Block>) returns (run: seq<Sys>, events: seq<Event>, op: nat, b: nat)
    requires Clean(l, d) && l.nblocks >= l.size + LOGSIZE && l.size > 1
    ensures IsRun(l, run, events) && Init(l, run[0])
    ensures var s := run[|events|];
      && s.phase.Running? && op in s.ops && b in s.ops[op] && b in s.lh && |s.ops[op] + {b}| <= MAXOPBLOCKS
      && LogWritePanics(l, s)
  {
    var k := l.Capacity();
    run, events := LogMany(l, d, k);
    op, b := Logger(k), HomeBlock(l, k - 1);
    var s := run[|events|];
    assert s.lh[k - 1] == b && s.ops[op] + {b} == s.ops[op];
  }

  /** An operation within its budget meets the panic on a block that is not in the log. */
  ghost predicate FreshBlockPanics(l: Layout, s: Sys) {
    exists op, b :: op in s.ops && l.Home(b) && b !in s.lh && |s.ops[op] + {b}| <= MAXOPBLOCKS && LogWritePanics(l, s)
  }

  ghost predicate FreshBlocksFit(l: Layout) {
    forall run, events :: IsRun(l, run, events) && Init(l, run[0]) ==> !FreshBlockPanics(l, run[|events|])
  }

  lemma FilledPanics(l: Layout, s: Sys)
    requires l.Ok() && l.nblocks >= l.size + LOGSIZE && l.size <= LOGSIZE && Filled(l, s, l.size - 1)
    ensures FreshBlockPanics(l, s)
  {
    hide Logger, HomeBlock, Share;
    var k := l.size - 1;
    var op, b := Logger(k + 1), HomeBlock(l, k);
    ShareNext(k, 0);
    FreshHome(l, s, k, k);
    FilledOps(s.ops, s.lh, op, b);
    assert l.Home(b) && op in s.ops;
  }

  lemma FreshBlockOnSmallLogPanics(l: Layout, d: seq<Block>) returns (run: seq<Sys>, events: seq<Event>)
    requires Clean(l, d) && l.nblocks >= l.size + LOGSIZE && l.size <= LOGSIZE
    ensures IsRun(l, run, events) && Init(l, run[0]) && FreshBlockPanics(l, run[|events|])
  {
    hide Filled, FreshBlockPanics;
    run, events := LogMany(l, d, l.size - 1);
    FilledPanics(l, run[|events|]);
  }

  lemma FreshBlocksFitLargeLog(l: Layout, run: seq<Sys>, events: seq<Event>)
    requires IsRun(l, run, events) && Init(l, run[0]) && l.size > LOGSIZE
    ensures !FreshBlockPanics(l, run[|events|])
  {
    var s := run[|events|];
    RunRefinesStore(l, run, events);
    AdmissionSafe(l, run, events);
    forall op, b | op in s.ops && b !in s.lh && |s.ops[op] + {b}| <= MAXOPBLOCKS ensures !LogWritePanics(l, s) {
      PanicsExactlyWhenFull(l, s, op, b);
    }
  }

  /** Admission by MAXOPBLOCKS keeps every run from the panic on new blocks if and only if the log
      region has more than LOGSIZE blocks.  The region mkfs makes has exactly LOGSIZE. */
  lemma FreshBlocksFitIff(l: Layout)
    requires l.Ok() && l.nblocks >= l.size + LOGSIZE
    ensures FreshBlocksFit(l) <==> l.size > LOGSIZE
  {
    if l.size > LOGSIZE {
      forall run, events | IsRun(l, run, events) && Init(l, run[0]) ensures !FreshBlockPanics(l, run[|events|]) {
        FreshBlocksFitLargeLog(l, run, events);
      }
    } else {
      var d := seq(l.nblocks, _ => ZERO_BLOCK);
      ZeroWord(0);
      var run, events := FreshBlockOnSmallLogPanics(l, d);
    }
  }

  /** Two operations within their budgets pass the test in the same state, and the second block
      that is recorded has no log block. */
  ghost predicate Overrun(l: Layout, s: Sys, o: nat, b: nat, p: nat, c: nat) {
    && o in s.ops && p in s.ops && o != p && l.Home(b) && l.Home(c) && b != c
    && |s.ops[o] + {b}| <= MAXOPBLOCKS && |s.ops[p] + {c}| <= MAXOPBLOCKS
    && !LogWritePanics(l, s) && !Fits(l, Absorb(s.lh, b), c)
  }

  ghost predicate CanOverrun(l: Layout, s: Sys) {
    exists o, b, p, c :: Overrun(l, s, o, b, p, c)
  }

  ghost predicate NeverOverruns(l: Layout) {
    forall run, events :: IsRun(l, run, events) && Init(l, run[0]) ==> !CanOverrun(l, run[|events|])
  }

  lemma BothFit(l: Layout, s: Sys, o: nat, b: nat, p: nat, c: nat)
    requires Reserved(l, s) && l.size > LOGSIZE
    ensures !Overrun(l, s, o, b, p, c)
  {
    if o in s.ops && p in s.ops && o != p {
      UnusedSplit(s.ops, o);
      UnusedSplit(s.ops - {o}, p);
      UnusedBounds(s.ops - {o} - {p});
    }
  }

  lemma LargeLogNeverOverruns(l: Layout, run: seq<Sys>, events: seq<Event>)
    requires IsRun(l, run, events) && Init(l, run[0]) && l.size > LOGSIZE
    ensures !CanOverrun(l, run[|events|])
  {
    hide Overrun, Reserved;
    var s := run[|events|];
    AdmissionSafe(l, run, events);
    forall o, b, p, c ensures !Overrun(l, s, o, b, p, c) {
      BothFit(l, s, o, b, p, c);
    }
  }

  lemma Turns(k: nat)
    ensures var o, p := Logger(k + 1), Logger(k + 2); o != p && o < 3 && p < 3
    ensures k <= LOGSIZE - 2 ==> Share(k, Logger(k + 1)) < MAXOPBLOCKS && Share(k, Logger(k + 2)) < MAXOPBLOCKS
  {
  }

  lemma NextTwo(l: Layout, s: Sys, k: nat)
    requires l.Ok() && Filled(l, s, k) && k <= LOGSIZE - 2 && l.nblocks >= l.size + LOGSIZE
    ensures var o, p := Logger(k + 1), Logger(k + 2);
      o != p && o in s.ops && p in s.ops && |s.ops[o]| < MAXOPBLOCKS && |s.ops[p]| < MAXOPBLOCKS
    ensures var b, c := HomeBlock(l, k), HomeBlock(l, k + 1);
      l.Home(b) && l.Home(c) && b != c && b !in s.lh && c !in s.lh
  {
    hide Share, Logger, AllLogged;
    Turns(k);
    FreshHome(l, s, k, k);
    FreshHome(l, s, k, k + 1);
  }

  lemma FilledOverruns(l: Layout, s: Sys)
    requires l.Ok() && l.nblocks >= l.size + LOGSIZE && 1 < l.size <= LOGSIZE && Filled(l, s, l.size - 2)
    ensures CanOverrun(l, s)
  {
    hide Logger, HomeBlock, Share, AllLogged;
    var k := l.size - 2;
    NextTwo(l, s, k);
    assert Overrun(l, s, Logger(k + 1), HomeBlock(l, k), Logger(k + 2), HomeBlock(l, k + 1));
  }

  lemma SmallLogOverruns(l: Layout, d: seq<Block>) returns (run: seq<Sys>, events: seq<Event>)
    requires Clean(l, d) && l.nblocks >= l.size + LOGSIZE && 1 < l.size <= LOGSIZE
    ensures IsRun(l, run, events) && Init(l, run[0]) && CanOverrun(l, run[|events|])
  {
    hide Filled, Overrun;
    run, events := LogMany(l, d, l.size - 2);
    FilledOverruns(l, run[|events|]);
  }

  /** That log_write tests before it takes the lock is harmless over all runs if and only if the log
      region has more than LOGSIZE blocks, or has no room for a block at all. */
  lemma NeverOverrunsIff(l: Layout)
    requires l.Ok() && l.nblocks >= l.size + LOGSIZE
    ensures NeverOverruns(l) <==> l.size > LOGSIZE || l.size == 1
  {
    if l.size > LOGSIZE {
      forall run, events | IsRun(l, run, events) && Init(l, run[0]) ensures !CanOverrun(l, run[|events|]) {
        LargeLogNeverOverruns(l, run, events);
      }
    } else if l.size > 1 {
      var d := seq(l.nblocks, _ => ZERO_BLOCK);
      ZeroWord(0);
      var run, events := SmallLogOverruns(l, d);
    }
  }
}
