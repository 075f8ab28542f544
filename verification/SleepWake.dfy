/** sleep and wakeup (xv6/proc.c) at the granularity of lock operations, for any number of
    processes that wait for or bring about one condition guarded by a lock lk. */
module SleepWake {

  /** Where a process is in `acquire(lk); while(!cond) sleep(chan, lk); ...; release(lk)` or in
      `acquire(lk); change; wakeup(chan); release(lk)`, with the wakeup before or after the
      release. */
  datatype Pc =
    | Out
    | Check       // holds lk, about to test the condition
    | Decided     // holds lk, found the condition false
    | Both        // sleep: holds lk and ptable.lock
    | Committed   // sleep: holds ptable.lock only
    | Asleep      // SLEEPING on chan
    | Woken       // RUNNABLE
    | Resumed     // scheduled again, with ptable.lock held
    | Relock      // sleep: about to reacquire lk
    | Use         // holds lk, found the condition true
    | Change      // holds lk, about to make the condition true
    | Owes        // holds lk, has made it true and not called wakeup yet
    | OwesOut     // the same after release(lk)
    | Scan(lk: bool)  // wakeup: holds ptable.lock, and lk or not
    | Done        // holds lk, wakeup has returned

  const FREE := -1

  /** lk and pt are the holders of lk and of ptable.lock. */
  datatype Sys = Sys(pc: seq<Pc>, lk: int, pt: int, cond: bool)

  datatype Step =
    | Enter | Test | SleepLock | SleepUnlock | Sleep | Schedule | Tidy | Reacquire
    | Consume(keep: bool) | WakerEnter | MakeTrue | ReleaseFirst | WakeLock | WakeAll | Leave
    | Kill(victim: nat) | GiveUp

  predicate HoldsLk(p: Pc) {
    p.Check? || p.Decided? || p.Both? || p.Use? || p.Change? || p.Owes? || (p.Scan? && p.lk) || p.Done?
  }

  predicate HoldsPt(p: Pc) {
    p.Both? || p.Committed? || p.Resumed? || p.Scan?
  }

  predicate Owing(p: Pc) {
    p.Owes? || p.OwesOut? || p.Scan?
  }

  /** Process i takes step e. */
  ghost predicate Next(s: Sys, i: nat, e: Step, s': Sys) {
    && i < |s.pc|
    && match e
      case Enter => s.pc[i].Out? && s.lk == FREE && s' == s.(pc := s.pc[i := Check], lk := i)
      case Test => s.pc[i].Check? && s' == s.(pc := s.pc[i := if s.cond then Use else Decided])
      case SleepLock => s.pc[i].Decided? && s.pt == FREE && s' == s.(pc := s.pc[i := Both], pt := i)
      case SleepUnlock => s.pc[i].Both? && s' == s.(pc := s.pc[i := Committed], lk := FREE)
      case Sleep => s.pc[i].Committed? && s' == s.(pc := s.pc[i := Asleep], pt := FREE)
      case Schedule => s.pc[i].Woken? && s.pt == FREE && s' == s.(pc := s.pc[i := Resumed], pt := i)
      case Tidy => s.pc[i].Resumed? && s' == s.(pc := s.pc[i := Relock], pt := FREE)
      case Reacquire => s.pc[i].Relock? && s.lk == FREE && s' == s.(pc := s.pc[i := Check], lk := i)
      case Consume(keep) => s.pc[i].Use? && s' == s.(pc := s.pc[i := Out], lk := FREE, cond := s.cond && keep)
      case WakerEnter => s.pc[i].Out? && s.lk == FREE && s' == s.(pc := s.pc[i := Change], lk := i)
      case MakeTrue => s.pc[i].Change? && s' == s.(pc := s.pc[i := Owes], cond := true)
      case ReleaseFirst => s.pc[i].Owes? && s' == s.(pc := s.pc[i := OwesOut], lk := FREE)
      case WakeLock =>
        (s.pc[i].Owes? || s.pc[i].OwesOut?) && s.pt == FREE && s' == s.(pc := s.pc[i := Scan(s.pc[i].Owes?)], pt := i)
      case WakeAll => s.pc[i].Scan? && s' == s.(pc := Scanned(s.pc, i), pt := FREE)
      case Leave => s.pc[i].Done? && s' == s.(pc := s.pc[i := Out], lk := FREE)
      case Kill(v) =>  // kill by a process that is not in here wakes one sleeper
        s.pc[i].Out? && s.pt == FREE && v < |s.pc| && s.pc[v].Asleep? && s' == s.(pc := s.pc[v := Woken])
      case GiveUp => s.pc[i].Decided? && s' == s.(pc := s.pc[i := Out], lk := FREE)  // found itself killed
  }

  /** wakeup1 on chan. */
  function WakeSleepers(pc: seq<Pc>): (r: seq<Pc>)
    ensures |r| == |pc|
  {
    seq(|pc|, i requires 0 <= i < |pc| => if pc[i].Asleep? then Woken else pc[i])
  }

  function Scanned(pc: seq<Pc>, i: nat): (r: seq<Pc>)
    requires i < |pc| && pc[i].Scan?
    ensures |r| == |pc|
  {
    WakeSleepers(pc)[i := if pc[i].lk then Done else Out]
  }

  /** Each lock has one holder, and it is the process that thinks so. */
  ghost predicate Locks(s: Sys) {
    && (forall i :: 0 <= i < |s.pc| ==> (HoldsLk(s.pc[i]) <==> s.lk == i))
    && (forall i :: 0 <= i < |s.pc| ==> (HoldsPt(s.pc[i]) <==> s.pt == i))
    && (s.lk == FREE || 0 <= s.lk < |s.pc|) && (s.pt == FREE || 0 <= s.pt < |s.pc|)
  }

  ghost predicate WakeupDue(s: Sys) {
    exists w :: 0 <= w < |s.pc| && Owing(s.pc[w])
  }

  /** A process that has decided to sleep found the condition false and lk keeps it so; one
      that sleeps, or can no longer help it, is owed a wakeup if the condition is true. */
  ghost predicate NoneLost(s: Sys) {
    && (forall i :: 0 <= i < |s.pc| && (s.pc[i].Decided? || s.pc[i].Both?) ==> !s.cond)
    && (forall i :: 0 <= i < |s.pc| && s.cond && (s.pc[i].Asleep? || s.pc[i].Committed?) ==> WakeupDue(s))
  }

  lemma LocksStep(s: Sys, i: nat, e: Step, s': Sys)
    requires Locks(s) && Next(s, i, e, s')
    ensures Locks(s')
  {
    LocksSelf(s, i, e, s');
    forall k | 0 <= k < |s.pc| && k != i
      ensures (HoldsLk(s'.pc[k]) <==> s'.lk == k) && (HoldsPt(s'.pc[k]) <==> s'.pt == k)
    {
      LocksOther(s, i, e, s', k);
    }
  }

  lemma LocksSelf(s: Sys, i: nat, e: Step, s': Sys)
    requires Locks(s) && Next(s, i, e, s')
    ensures |s'.pc| == |s.pc| && (s'.lk in {FREE, s.lk, i as int}) && (s'.pt in {FREE, s.pt, i as int})
    ensures (HoldsLk(s'.pc[i]) <==> s'.lk == i) && (HoldsPt(s'.pc[i]) <==> s'.pt == i)
  {
    assert HoldsLk(s.pc[i]) <==> s.lk == i;
    assert HoldsPt(s.pc[i]) <==> s.pt == i;
  }

  /** A step of i moves no lock between other processes and FREE. */
  lemma LocksOther(s: Sys, i: nat, e: Step, s': Sys, k: nat)
    requires Locks(s) && Next(s, i, e, s') && k < |s.pc| && k != i
    ensures |s'.pc| == |s.pc| && (HoldsLk(s'.pc[k]) <==> s'.lk == k) && (HoldsPt(s'.pc[k]) <==> s'.pt == k)
  {
    assert HoldsLk(s.pc[k]) <==> s.lk == k;
    assert HoldsPt(s.pc[k]) <==> s.pt == k;
    assert HoldsLk(s.pc[i]) <==> s.lk == i;
    assert HoldsPt(s.pc[i]) <==> s.pt == i;
    assert s'.pc[k] == s.pc[k] || (s.pc[k].Asleep? && s'.pc[k].Woken?);
  }

  lemma DueStays(s: Sys, i: nat, e: Step, s': Sys)
    requires Next(s, i, e, s') && WakeupDue(s) && !e.WakeAll?
    ensures WakeupDue(s')
  {
    var w :| 0 <= w < |s.pc| && Owing(s.pc[w]);
    assert Owing(s'.pc[w]);
  }

  /** wakeup leaves no one asleep, and no one is past the point of no return while it holds the lock. */
  lemma NoneLostScan(s: Sys, i: nat, s': Sys)
    requires Locks(s) && NoneLost(s) && Next(s, i, WakeAll, s')
    ensures NoneLost(s')
  {
    forall k | 0 <= k < |s'.pc|
      ensures !s'.pc[k].Asleep? && !s'.pc[k].Committed? && (s'.pc[k].Decided? ==> s.pc[k].Decided?) && !s'.pc[k].Both?
    {
    }
  }

  lemma NoneLostAt(s: Sys, i: nat, e: Step, s': Sys, k: nat)
    requires Locks(s) && NoneLost(s) && Next(s, i, e, s') && !e.WakeAll? && k < |s.pc|
    requires e.MakeTrue? || WakeupDue(s) ==> WakeupDue(s')
    ensures |s'.pc| == |s.pc|
    ensures (s'.pc[k].Decided? || s'.pc[k].Both?) ==> !s'.cond
    ensures s'.cond && (s'.pc[k].Asleep? || s'.pc[k].Committed?) ==> WakeupDue(s')
  {
    hide WakeupDue;
    assert k != i && !e.Kill? ==> s'.pc[k] == s.pc[k];
    assert HoldsLk(s.pc[k]) <==> s.lk == k;
    assert HoldsLk(s.pc[i]) <==> s.lk == i;
  }

  lemma NoneLostStep(s: Sys, i: nat, e: Step, s': Sys)
    requires Locks(s) && NoneLost(s) && Next(s, i, e, s')
    ensures NoneLost(s')
  {
    if e.WakeAll? {
      NoneLostScan(s, i, s');
    } else {
      if e.MakeTrue? {
        assert Owing(s'.pc[i]);
      } else if WakeupDue(s) {
        DueStays(s, i, e, s');
      }
      forall k | 0 <= k < |s'.pc| ensures (s'.pc[k].Decided? || s'.pc[k].Both?) ==> !s'.cond
        ensures s'.cond && (s'.pc[k].Asleep? || s'.pc[k].Committed?) ==> WakeupDue(s')
      {
        NoneLostAt(s, i, e, s', k);
      }
    }
  }

  ghost predicate Inv(s: Sys) {
    Locks(s) && NoneLost(s)
  }

  ghost predicate IsRun(run: seq<Sys>, who: seq<nat>, steps: seq<Step>) {
    && |run| == |steps| + 1 && |who| == |steps|
    && forall i, j :: 0 <= i < |steps| && j == i + 1 ==> Next(run[i], who[i], steps[i], run[j])
  }

  ghost predicate Initial(s: Sys) {
    (forall i :: 0 <= i < |s.pc| ==> s.pc[i].Out?) && s.lk == FREE && s.pt == FREE
  }

  lemma InvStep(s: Sys, i: nat, e: Step, s': Sys)
    requires Inv(s) && Next(s, i, e, s')
    ensures Inv(s')
  {
    LocksStep(s, i, e, s');
    NoneLostStep(s, i, e, s');
  }

  /** No wakeup is lost, over every run of any number of processes: mutual exclusion holds and
      whenever the condition is true, a sleeper still has a wakeup coming. */
  lemma {:induction false} NoLostWakeup(run: seq<Sys>, who: seq<nat>, steps: seq<Step>)
    requires IsRun(run, who, steps) && Initial(run[0])
    ensures Inv(run[|steps|])
    ensures var s := run[|steps|];
      && (forall i, j :: 0 <= i < j < |s.pc| ==>
        !(HoldsLk(s.pc[i]) && HoldsLk(s.pc[j])) && !(HoldsPt(s.pc[i]) && HoldsPt(s.pc[j])))
      && (forall i :: 0 <= i < |s.pc| && s.cond && s.pc[i].Asleep? ==>
        exists w :: 0 <= w < |s.pc| && (s.pc[w].Owes? || s.pc[w].OwesOut? || s.pc[w].Scan?))
    decreases |steps|
  {
    if |steps| == 0 {
    } else {
      var n := |steps| - 1;
      NoLostWakeup(run[..n + 1], who[..n], steps[..n]);
      InvStep(run[n], who[n], steps[n], run[n + 1]);
    }
  }

  /** A wakeup leaves no one asleep or on the way to sleep past the point of no return. */
  lemma WakeupReachesAll(s: Sys, i: nat, s': Sys, k: nat)
    requires Inv(s) && Next(s, i, WakeAll, s') && k < |s.pc|
    ensures !s'.pc[k].Asleep? && !s'.pc[k].Committed? && (s.pc[k].Asleep? ==> s'.pc[k].Woken?)
  {
  }

  // ----- the wakeup arrives -----

  /** A run that goes on forever; at a time when no process takes a step nothing changes. */
  datatype Forever = Forever(at: nat -> Sys, who: nat -> nat, step: nat -> Step)

  ghost predicate Moved(r: Forever, n: nat, i: nat) {
    r.who(n) == i && Next(r.at(n), i, r.step(n), r.at(n + 1))
  }

  ghost predicate Goes(r: Forever, n: nat) {
    Moved(r, n, r.who(n)) || r.at(n + 1) == r.at(n)
  }

  /** Process i is inside and the lock that it waits for, if any, is free. */
  predicate CanMove(s: Sys, i: nat) {
    && i < |s.pc|
    && match s.pc[i]
      case Out | Asleep => false
      case Decided | Woken | Owes | OwesOut => s.pt == FREE
      case Relock => s.lk == FREE
      case _ => true
  }

  ghost predicate CanMoveAgain(r: Forever, n: nat, i: nat) {
    exists j :: j >= n && CanMove(r.at(j), i)
  }

  ghost predicate MovesAgain(r: Forever, n: nat, i: nat) {
    exists j :: j >= n && Moved(r, j, i)
  }

  /** The scheduler and the locks starve no one: a process that can move again and again moves. */
  ghost predicate Fair(r: Forever) {
    && (forall n :: Goes(r, n))
    && (forall n, i :: (forall m :: m >= n ==> CanMoveAgain(r, m, i)) ==> MovesAgain(r, n, i))
  }

  /** A process that can move has a step to take. */
  lemma CanMoveMeans(s: Sys, i: nat) returns (e: Step, s': Sys)
    requires CanMove(s, i)
    ensures Next(s, i, e, s')
  {
    match s.pc[i]
    case Check => e, s' := Test, s.(pc := s.pc[i := if s.cond then Use else Decided]);
    case Decided => e, s' := SleepLock, s.(pc := s.pc[i := Both], pt := i);
    case Both => e, s' := SleepUnlock, s.(pc := s.pc[i := Committed], lk := FREE);
    case Committed => e, s' := Sleep, s.(pc := s.pc[i := Asleep], pt := FREE);
    case Woken => e, s' := Schedule, s.(pc := s.pc[i := Resumed], pt := i);
    case Resumed => e, s' := Tidy, s.(pc := s.pc[i := Relock], pt := FREE);
    case Relock => e, s' := Reacquire, s.(pc := s.pc[i := Check], lk := i);
    case Use => e, s' := Consume(true), s.(pc := s.pc[i := Out], lk := FREE);
    case Change => e, s' := MakeTrue, s.(pc := s.pc[i := Owes], cond := true);
    case Owes => e, s' := WakeLock, s.(pc := s.pc[i := Scan(true)], pt := i);
    case OwesOut => e, s' := WakeLock, s.(pc := s.pc[i := Scan(false)], pt := i);
    case Scan(_) => e, s' := WakeAll, s.(pc := Scanned(s.pc, i), pt := FREE);
    case Done => e, s' := Leave, s.(pc := s.pc[i := Out], lk := FREE);
  }

  /** While the condition is true and someone sleeps, the holder of ptable.lock or a process
      that owes a wakeup can take a step: the sleeper is not stuck. */
  lemma Progress(s: Sys, k: nat) returns (i: nat, e: Step, s': Sys)
    requires Inv(s) && k < |s.pc| && s.pc[k].Asleep? && s.cond
    ensures Next(s, i, e, s') && (HoldsPt(s.pc[i]) || Owing(s.pc[i]))
  {
    assert WakeupDue(s);
    if s.pt == FREE {
      i :| 0 <= i < |s.pc| && Owing(s.pc[i]);
    } else {
      i := s.pt;
    }
    e, s' := CanMoveMeans(s, i);
  }

  /** Only a sleeper is moved by others. */
  lemma OthersStay(s: Sys, i: nat, e: Step, s': Sys, k: nat)
    requires Next(s, i, e, s') && k < |s.pc| && k != i && !s.pc[k].Asleep?
    ensures |s'.pc| == |s.pc| && s'.pc[k] == s.pc[k]
  {
  }

  lemma {:induction false} InvForever(r: Forever, n: nat)
    requires Fair(r) && Inv(r.at(0))
    ensures Inv(r.at(n)) && |r.at(n).pc| == |r.at(0).pc|
  {
    if n == 0 {
    } else {
      InvForever(r, n - 1);
      assert Goes(r, n - 1);
      if Moved(r, n - 1, r.who(n - 1)) {
        InvStep(r.at(n - 1), r.who(n - 1), r.step(n - 1), r.at(n));
      }
    }
  }

  /** Until it moves, a process that is not asleep stays where it is. */
  lemma {:induction false} Stays(r: Forever, n: nat, m: nat, i: nat)
    requires Fair(r) && n <= m && i < |r.at(n).pc| && !r.at(n).pc[i].Asleep?
    requires forall j :: n <= j < m ==> !Moved(r, j, i)
    ensures i < |r.at(m).pc| && r.at(m).pc[i] == r.at(n).pc[i]
    decreases m
  {
    if n == m {
    } else {
      Stays(r, n, m - 1, i);
      assert Goes(r, m - 1) && !Moved(r, m - 1, i);
      if Moved(r, m - 1, r.who(m - 1)) {
        OthersStay(r.at(m - 1), r.who(m - 1), r.step(m - 1), r.at(m), i);
      }
    }
  }

  lemma {:induction false} FirstMove(r: Forever, n: nat, m: nat, i: nat) returns (j: nat)
    requires n <= m && Moved(r, m, i)
    ensures n <= j <= m && Moved(r, j, i) && forall x :: n <= x < j ==> !Moved(r, x, i)
    decreases m - n
  {
    if Moved(r, n, i) {
      j := n;
    } else {
      j := FirstMove(r, n + 1, m, i);
    }
  }

  /** Sleeper k is not woken from time n on. */
  ghost predicate SleepsOn(r: Forever, n: nat, k: nat) {
    forall m :: m >= n ==> k < |r.at(m).pc| && r.at(m).pc[k].Asleep?
  }

  /** A process that moves at some time makes its first move from where it is. */
  lemma FirstFrom(r: Forever, n: nat, i: nat) returns (j: nat)
    requires Fair(r) && i < |r.at(n).pc| && !r.at(n).pc[i].Asleep? && MovesAgain(r, n, i)
    ensures j >= n && Moved(r, j, i) && i < |r.at(j).pc| && r.at(j).pc[i] == r.at(n).pc[i]
  {
    var m :| m >= n && Moved(r, m, i);
    j := FirstMove(r, n, m, i);
    Stays(r, n, j, i);
  }

  /** Whoever holds ptable.lock goes on. */
  lemma HolderMoves(r: Forever, n: nat, h: nat)
    requires Fair(r) && h < |r.at(n).pc| && HoldsPt(r.at(n).pc[h])
    ensures MovesAgain(r, n, h)
  {
    if !MovesAgain(r, n, h) {
      forall m | m >= n ensures CanMoveAgain(r, m, h) {
        Stays(r, n, m, h);
        assert CanMove(r.at(m), h);
      }
    }
  }

  function PtRank(s: Sys): nat {
    if 0 <= s.pt < |s.pc| then if s.pc[s.pt].Both? then 2 else 1 else 0
  }

  /** ptable.lock is released again and again. */
  lemma {:induction false} Released(r: Forever, n: nat, k: nat, m: nat) returns (j: nat)
    requires Fair(r) && Inv(r.at(0)) && SleepsOn(r, n, k) && m >= n
    ensures j >= m && r.at(j).pt == FREE
    decreases PtRank(r.at(m))
  {
    InvForever(r, m);
    if r.at(m).pt == FREE {
      j := m;
    } else {
      var h := r.at(m).pt;
      HolderMoves(r, m, h);
      j := FirstFrom(r, m, h);
      InvForever(r, j);
      assert r.at(j).pc[k].Asleep? && r.at(j + 1).pc[k].Asleep?;
      j := j + 1;
      if r.at(m).pc[h].Both? {
        j := Released(r, n, k, j);
      }
    }
  }

  lemma OwerMoves(r: Forever, n: nat, k: nat, m: nat, w: nat)
    requires Fair(r) && Inv(r.at(0)) && SleepsOn(r, n, k) && m >= n
    requires w < |r.at(m).pc| && Owing(r.at(m).pc[w])
    ensures MovesAgain(r, m, w)
  {
    if !MovesAgain(r, m, w) {
      forall x | x >= m ensures CanMoveAgain(r, x, w) {
        var j := Released(r, n, k, x);
        Stays(r, m, j, w);
        assert CanMove(r.at(j), w);
      }
    }
  }

  function Distance(p: Pc): nat {
    if p.Owes? then 3 else if p.OwesOut? then 2 else 1
  }

  /** A process that owes the wakeup cannot leave the sleeper asleep forever. */
  lemma {:induction false} CannotOweForever(r: Forever, n: nat, k: nat, m: nat, w: nat)
    requires Fair(r) && Inv(r.at(0)) && SleepsOn(r, n, k) && m >= n
    requires w < |r.at(m).pc| && Owing(r.at(m).pc[w])
    ensures false
    decreases Distance(r.at(m).pc[w])
  {
    OwerMoves(r, n, k, m, w);
    var j := FirstFrom(r, m, w);
    assert r.at(j).pc[k].Asleep? && r.at(j + 1).pc[k].Asleep?;
    CannotOweForever(r, n, k, j + 1, w);
  }

  ghost predicate WokenAt(r: Forever, m: nat, k: nat) {
    k < |r.at(m).pc| && r.at(m).pc[k].Woken?
  }

  lemma {:induction false} SleepsUntilWoken(r: Forever, n: nat, m: nat, k: nat)
    requires Fair(r) && n <= m && k < |r.at(n).pc| && r.at(n).pc[k].Asleep?
    requires forall x :: n < x ==> !WokenAt(r, x, k)
    ensures k < |r.at(m).pc| && r.at(m).pc[k].Asleep?
    decreases m
  {
    if n == m {
    } else {
      SleepsUntilWoken(r, n, m - 1, k);
      assert Goes(r, m - 1) && !WokenAt(r, m, k);
    }
  }

  /** Every sleeper that is owed a wakeup is woken, in every fair run of any number of processes. */
  lemma WakeupArrives(r: Forever, n: nat, k: nat)
    requires Fair(r) && Initial(r.at(0)) && k < |r.at(n).pc| && r.at(n).pc[k].Asleep? && WakeupDue(r.at(n))
    ensures exists m :: n < m && WokenAt(r, m, k)
  {
    if forall m :: n < m ==> !WokenAt(r, m, k) {
      forall m | m >= n ensures k < |r.at(m).pc| && r.at(m).pc[k].Asleep? {
        SleepsUntilWoken(r, n, m, k);
      }
      var w :| 0 <= w < |r.at(n).pc| && Owing(r.at(n).pc[w]);
      CannotOweForever(r, n, k, n, w);
    }
  }

  /** In particular a sleeper whose condition is true is woken: it is owed a wakeup. */
  lemma TrueConditionWakes(r: Forever, n: nat, k: nat)
    requires Fair(r) && Initial(r.at(0)) && k < |r.at(n).pc| && r.at(n).pc[k].Asleep? && r.at(n).cond
    ensures exists m :: n < m && WokenAt(r, m, k)
  {
    InvForever(r, n);
    WakeupArrives(r, n, k);
  }
}
