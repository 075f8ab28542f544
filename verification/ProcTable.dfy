/** The process table (xv6/proc.c): fork, exit, wait, sleep and wakeup as the steps that run
    under ptable.lock, for a table of any size.  A process is named by its table index, which
    is also the channel it sleeps on in wait; other channels are numbers past the table. */
module ProcTable {
  import opened Collections

  datatype State = Unused | Embryo | Sleeping | Runnable | Running | Zombie

  const NONE := -1

  datatype Proc = Proc(state: State, pid: nat, parent: int, chan: int, killed: bool)

  type Table = seq<Proc>

  datatype Step =
    | Alloc(slot: nat)              // allocproc, first part of fork
    | Abort(slot: nat)              // fork gives up before np->parent is set
    | Parent(proc: nat, slot: nat)    // fork sets np->parent
    | Ready(slot: nat)              // end of fork
    | Exit(proc: nat)
    | Reap(proc: nat, slot: nat)      // wait finds a zombie
    | WaitSleep(proc: nat)            // wait goes to sleep
    | SleepOn(proc: nat, chan: int)   // any other sleep
    | Wakeup(chan: int)
    | Kill(slot: nat)
    | Schedule(slot: nat)
    | Yield(proc: nat)

  function Set(t: Table, i: nat, s: State): Table
    requires i < |t|
  {
    t[i := t[i].(state := s)]
  }

  /** wakeup1: every process asleep on c becomes runnable. */
  function WokenOne(p: Proc, c: int): Proc {
    if p.state == Sleeping && p.chan == c then p.(state := Runnable) else p
  }

  function Woken(t: Table, c: int): (r: Table)
    ensures |r| == |t|
  {
    seq(|t|, i requires 0 <= i < |t| => WokenOne(t[i], c))
  }

  function Adopted(t: Table, p: nat, init: nat): (r: Table)
    ensures |r| == |t|
  {
    seq(|t|, i requires 0 <= i < |t| => if t[i].parent == p then t[i].(parent := init) else t[i])
  }

  ghost predicate ZombieChild(t: Table, p: nat) {
    exists i :: 0 <= i < |t| && t[i].parent == p && t[i].state == Zombie
  }

  ghost predicate HasChild(t: Table, p: nat) {
    exists i :: 0 <= i < |t| && t[i].parent == p
  }

  /** exit's work under the lock: wake the parent, hand the children to init, waking it if
      one of them is a zombie, and become a zombie. */
  ghost function Exited(t: Table, p: nat, init: nat): Table
    requires p < |t|
  {
    var t1 := Woken(t, t[p].parent);
    var t2 := Adopted(t1, p, init);
    Set(if ZombieChild(t1, p) then Woken(t2, init) else t2, p, Zombie)
  }

  predicate Enabled(t: Table, init: nat, s: Step) {
    match s
    case Alloc(q) => q < |t| && t[q].state == Unused
    case Abort(q) => q < |t| && t[q].state == Embryo && t[q].parent == NONE
    case Parent(p, q) => p < |t| && q < |t| && p != q && t[p].state == Running && t[q].state == Embryo && t[q].parent == NONE
    case Ready(q) => q < |t| && t[q].state == Embryo && t[q].parent != NONE
    case Exit(p) => p < |t| && t[p].state == Running && p != init
    case Reap(p, q) => p < |t| && q < |t| && t[p].state == Running && t[q].parent == p && t[q].state == Zombie
    case WaitSleep(p) => p < |t| && t[p].state == Running && !t[p].killed && (exists i :: 0 <= i < |t| && t[i].parent == p)
      && (forall i :: 0 <= i < |t| && t[i].parent == p ==> t[i].state != Zombie)
    case SleepOn(p, c) => p < |t| && t[p].state == Running && c >= |t|
    case Wakeup(c) => true
    case Kill(q) => q < |t|
    case Schedule(q) => q < |t| && t[q].state == Runnable
    case Yield(p) => p < |t| && t[p].state == Running
  }

  ghost function Apply(t: Table, init: nat, nextpid: nat, s: Step): Table
    requires Enabled(t, init, s)
  {
    match s
    case Alloc(q) => t[q := t[q].(state := Embryo, pid := nextpid)]
    case Abort(q) => Set(t, q, Unused)
    case Parent(p, q) => t[q := t[q].(parent := p)]
    case Ready(q) => Set(t, q, Runnable)
    case Exit(p) => Exited(t, p, init)
    case Reap(p, q) => t[q := Proc(Unused, 0, NONE, t[q].chan, false)]
    case WaitSleep(p) => t[p := t[p].(state := Sleeping, chan := p)]
    case SleepOn(p, c) => t[p := t[p].(state := Sleeping, chan := c)]
    case Wakeup(c) => Woken(t, c)
    case Kill(q) => t[q := t[q].(killed := true, state := if t[q].state == Sleeping then Runnable else t[q].state)]
    case Schedule(q) => t[q := t[q].(state := Running, chan := NONE)]
    case Yield(p) => Set(t, p, Runnable)
  }

  predicate Alive(s: State) {
    s == Sleeping || s == Runnable || s == Running
  }

  /** A process asleep in wait has a child, no zombie child, and has not been killed. */
  ghost predicate WaitOk(t: Table) {
    forall p: nat :: p < |t| && t[p].state == Sleeping && t[p].chan == p ==>
      !t[p].killed && HasChild(t, p) && !ZombieChild(t, p)
  }

  ghost predicate ParentOk(t: Table, i: int)
    requires 0 <= i < |t|
  {
    t[i].parent != NONE ==> 0 <= t[i].parent < |t| && t[i].parent != i && Alive(t[t[i].parent].state) && t[i].state != Unused
  }

  /** Parents are alive, unused slots have none, and every process but init has one. */
  ghost predicate Family(t: Table, init: nat) {
    && init < |t| && Alive(t[init].state) && t[init].parent == NONE
    && (forall i :: 0 <= i < |t| ==> ParentOk(t, i))
    && (forall i :: 0 <= i < |t| && i != init && (Alive(t[i].state) || t[i].state == Zombie) ==> t[i].parent != NONE)
  }

  /** Process ids are never used twice: those in the table differ, and none of them has been
      reaped. */
  ghost predicate Fresh(t: Table, nextpid: nat, reaped: set<int>) {
    && (forall i, j :: 0 <= i < j < |t| && t[i].state != Unused && t[j].state != Unused ==> t[i].pid != t[j].pid)
    && (forall i :: 0 <= i < |t| && t[i].state != Unused ==> t[i].pid < nextpid && t[i].pid !in reaped)
    && (forall x :: x in reaped ==> x < nextpid)
  }

  lemma ZombieWoken(t: Table, c: int, p: nat)
    ensures ZombieChild(Woken(t, c), p) <==> ZombieChild(t, p)
  {
    var t1 := Woken(t, c);
    if ZombieChild(t, p) {
      var z :| 0 <= z < |t| && t[z].parent == p && t[z].state == Zombie;
      assert t1[z].parent == p && t1[z].state == Zombie;
    }
    if ZombieChild(t1, p) {
      var z :| 0 <= z < |t1| && t1[z].parent == p && t1[z].state == Zombie;
      assert t[z].parent == p && t[z].state == Zombie;
    }
  }

  /** One entry of the table after exit of process p. */
  ghost function ExitedOne(t: Table, p: nat, init: nat, i: nat): Proc
    requires p < |t| && i < |t|
  {
    var q := WokenOne(t[i], t[p].parent);
    var q1 := if q.parent == p then q.(parent := init) else q;
    var q2 := if ZombieChild(t, p) then WokenOne(q1, init) else q1;
    if i == p then q2.(state := Zombie) else q2
  }

  lemma ExitedAt(t: Table, p: nat, init: nat, i: nat)
    requires p < |t| && i < |t|
    ensures Exited(t, p, init)[i] == ExitedOne(t, p, init, i)
  {
    ZombieWoken(t, t[p].parent, p);
  }

  lemma ExitTable(t: Table, p: nat, init: nat) returns (u: Table)
    requires p < |t|
    ensures u == Exited(t, p, init) && |u| == |t| && forall i :: 0 <= i < |t| ==> u[i] == ExitedOne(t, p, init, i)
  {
    u := Exited(t, p, init);
    forall i | 0 <= i < |t| ensures u[i] == ExitedOne(t, p, init, i) {
      ExitedAt(t, p, init, i);
    }
  }

  // ----- every step keeps the invariants -----

  lemma FamilyExit(t: Table, p: nat, init: nat)
    requires Family(t, init) && Enabled(t, init, Exit(p))
    ensures Family(Exited(t, p, init), init)
  {
    var u := ExitTable(t, p, init);
    forall i | 0 <= i < |u| ensures ParentOk(u, i) {
      ParentExit(t, p, init, i, u);
    }
    forall i | 0 <= i < |u| && i != init && (Alive(u[i].state) || u[i].state == Zombie) ensures u[i].parent != NONE {
      assert u[i] == ExitedOne(t, p, init, i);
    }
    assert u[init] == ExitedOne(t, p, init, init);
  }

  lemma ParentExit(t: Table, p: nat, init: nat, i: nat, u: Table)
    requires Family(t, init) && Enabled(t, init, Exit(p)) && i < |t|
    requires |u| == |t| && forall i :: 0 <= i < |t| ==> u[i] == ExitedOne(t, p, init, i)
    ensures ParentOk(u, i)
  {
    hide ZombieChild;
    assert ParentOk(t, i);
    assert u[i] == ExitedOne(t, p, init, i);
    if u[i].parent != NONE {
      assert u[u[i].parent] == ExitedOne(t, p, init, u[i].parent);
    }
  }

  lemma FamilyWoken(t: Table, c: int, init: nat)
    requires Family(t, init)
    ensures Family(Woken(t, c), init)
  {
    var u := Woken(t, c);
    forall i | 0 <= i < |u| ensures ParentOk(u, i) {
      assert ParentOk(t, i);
    }
  }

  lemma FamilyStep(t: Table, init: nat, nextpid: nat, s: Step, u: Table)
    requires Family(t, init) && Enabled(t, init, s) && u == Apply(t, init, nextpid, s)
    ensures Family(u, init)
  {
    match s
    case Exit(p) => FamilyExit(t, p, init);
    case Wakeup(c) => FamilyWoken(t, c, init);
    case _ =>
      var i := Changed(s);
      assert ParentOk(t, i);
      FamilyLocal(t, init, i, u[i]);
      assert u == t[i := u[i]];
  }

  /** The one entry a step other than exit and wakeup changes. */
  function Changed(s: Step): nat {
    match s
    case Alloc(q) => q
    case Abort(q) => q
    case Parent(p, q) => q
    case Ready(q) => q
    case Exit(p) => p
    case Reap(p, q) => q
    case WaitSleep(p) => p
    case SleepOn(p, c) => p
    case Wakeup(c) => 0
    case Kill(q) => q
    case Schedule(q) => q
    case Yield(p) => p
  }

  lemma FamilyLocal(t: Table, init: nat, i: nat, q: Proc)
    requires Family(t, init) && i < |t| && (Alive(t[i].state) ==> Alive(q.state))
    requires q.parent != NONE ==> 0 <= q.parent < |t| && q.parent != i && Alive(t[q.parent].state) && q.state != Unused
    requires if i == init then q.parent == NONE else Alive(q.state) || q.state == Zombie ==> q.parent != NONE
    ensures Family(t[i := q], init)
  {
    var u := t[i := q];
    forall j | 0 <= j < |u| ensures ParentOk(u, j) {
      assert ParentOk(t, j);
    }
  }

  // ----- waiting -----

  lemma WaitWoken(t: Table, c: int)
    requires WaitOk(t)
    ensures WaitOk(Woken(t, c))
  {
    var u := Woken(t, c);
    forall p: nat | p < |u| && u[p].state == Sleeping && u[p].chan == p
      ensures !u[p].killed && HasChild(u, p) && !ZombieChild(u, p)
    {
      assert t[p].state == Sleeping && HasChild(t, p);
      var x :| 0 <= x < |t| && t[x].parent == p;
      assert u[x].parent == p;
      ZombieWoken(t, c, p);
    }
  }

  /** A step that changes one entry, makes no zombie and takes no child away from a sleeper. */
  lemma WaitLocal(t: Table, i: nat, q: Proc)
    requires WaitOk(t) && i < |t| && (q.state == Zombie ==> t[i].state == Zombie && q.parent == t[i].parent)
    requires q.parent == t[i].parent || (0 <= t[i].parent < |t| ==> t[t[i].parent].state != Sleeping)
    requires q.state == Sleeping && q.chan == i ==>
      !q.killed && HasChild(t, i) && !ZombieChild(t, i) && t[i].parent != i && q.parent != i
    ensures WaitOk(t[i := q])
  {
    var u := t[i := q];
    forall p: nat | p < |u| && u[p].state == Sleeping && u[p].chan == p
      ensures !u[p].killed && HasChild(u, p) && !ZombieChild(u, p)
    {
      assert HasChild(t, p);
      var x :| 0 <= x < |t| && t[x].parent == p;
      assert u[x].parent == p;
    }
  }

  lemma WaitStep(t: Table, init: nat, nextpid: nat, s: Step, u: Table)
    requires Family(t, init) && WaitOk(t) && Enabled(t, init, s) && u == Apply(t, init, nextpid, s)
    ensures WaitOk(u)
  {
    match s
    case Exit(p) =>
      var u' := ExitTable(t, p, init);
      forall x: nat | x < |u| && u[x].state == Sleeping && u[x].chan == x
        ensures !u[x].killed && HasChild(u, x) && !ZombieChild(u, x)
      {
        WaitExit(t, p, init, x, u);
      }
    case Wakeup(c) => WaitWoken(t, c);
    case _ =>
      var i := Changed(s);
      assert ParentOk(t, i);
      WaitLocal(t, i, u[i]);
      assert u == t[i := u[i]];
  }

  /** Every wakeup of exit comes in time: no one is left asleep in wait with a zombie child,
      or without children. */
  lemma WaitExit(t: Table, p: nat, init: nat, x: nat, u: Table)
    requires Family(t, init) && WaitOk(t) && Enabled(t, init, Exit(p)) && x < |t|
    requires |u| == |t| && (forall i :: 0 <= i < |t| ==> u[i] == ExitedOne(t, p, init, i)) && u[x].state == Sleeping
    requires u[x].chan == x
    ensures !u[x].killed && HasChild(u, x) && !ZombieChild(u, x)
  {
    assert u[x] == ExitedOne(t, p, init, x);
    assert HasChild(t, x);
    var c :| 0 <= c < |t| && t[c].parent == x;
    assert u[c] == ExitedOne(t, p, init, c);
    forall z | 0 <= z < |u| ensures !(u[z].parent == x && u[z].state == Zombie) {
      NoZombie(t, p, init, x, z, u);
    }
  }

  lemma NoZombie(t: Table, p: nat, init: nat, x: nat, z: nat, u: Table)
    requires Family(t, init) && WaitOk(t) && Enabled(t, init, Exit(p)) && x < |t| && z < |t|
    requires |u| == |t| && u[x] == ExitedOne(t, p, init, x) && u[z] == ExitedOne(t, p, init, z)
    requires u[x].state == Sleeping && u[x].chan == x
    ensures !(u[z].parent == x && u[z].state == Zombie)
  {
    assert ParentOk(t, p);
    if z != p && t[z].parent == p && t[z].state == Zombie {
      assert ZombieChild(t, p);
    }
  }

  // ----- process ids -----

  lemma FreshExit(t: Table, init: nat, nextpid: nat, reaped: set<int>, p: nat)
    requires Fresh(t, nextpid, reaped) && Enabled(t, init, Exit(p))
    ensures Fresh(Exited(t, p, init), nextpid, reaped)
  {
    var u := ExitTable(t, p, init);
    forall i | 0 <= i < |u| ensures u[i].pid == t[i].pid && (u[i].state != Unused ==> t[i].state != Unused) {
      assert u[i] == ExitedOne(t, p, init, i);
    }
  }

  lemma FreshWoken(t: Table, nextpid: nat, reaped: set<int>, c: int)
    requires Fresh(t, nextpid, reaped)
    ensures Fresh(Woken(t, c), nextpid, reaped)
  {
    var u := Woken(t, c);
    forall i | 0 <= i < |u| ensures u[i].pid == t[i].pid && (u[i].state != Unused ==> t[i].state != Unused) {
    }
  }

  // ----- whole runs -----

  /** The table, the next process id, and the ids wait has returned so far. */
  datatype Sys = Sys(t: Table, nextpid: nat, reaped: seq<nat>)

  ghost predicate Inv(s: Sys, init: nat) {
    Family(s.t, init) && WaitOk(s.t) && Fresh(s.t, s.nextpid, Elements(s.reaped))
  }

  ghost predicate Next(s: Sys, init: nat, e: Step, s': Sys) {
    && Enabled(s.t, init, e) && s'.t == Apply(s.t, init, s.nextpid, e)
    && s'.nextpid == (if e.Alloc? then s.nextpid + 1 else s.nextpid)
    && s'.reaped == if e.Reap? then s.reaped + [s.t[e.slot].pid] else s.reaped
  }

  lemma FreshLocal(t: Table, nextpid: nat, reaped: set<int>, i: nat, q: Proc)
    requires Fresh(t, nextpid, reaped) && i < |t| && (q.state != Unused ==> t[i].state != Unused && q.pid == t[i].pid)
    ensures Fresh(t[i := q], nextpid, reaped)
  {
  }

  lemma FreshAlloc(t: Table, nextpid: nat, reaped: set<int>, i: nat, q: Proc)
    requires Fresh(t, nextpid, reaped) && i < |t| && q.pid == nextpid
    ensures Fresh(t[i := q], nextpid + 1, reaped)
  {
  }

  lemma FreshReap(t: Table, nextpid: nat, reaped: set<int>, i: nat, q: Proc)
    requires Fresh(t, nextpid, reaped) && i < |t| && t[i].state != Unused && q.state == Unused
    ensures Fresh(t[i := q], nextpid, reaped + {t[i].pid as int})
  {
  }

  lemma ElementsMore(s: seq<nat>, x: nat)
    ensures Elements(s + [x]) == Elements(s) + {x as int}
  {
  }

  lemma FreshStep(s: Sys, init: nat, e: Step, s': Sys)
    requires Fresh(s.t, s.nextpid, Elements(s.reaped)) && Next(s, init, e, s')
    ensures Fresh(s'.t, s'.nextpid, Elements(s'.reaped))
  {
    hide Fresh, Elements, Exited, Woken;
    var r := Elements(s.reaped);
    match e
    case Exit(p) => FreshExit(s.t, init, s.nextpid, r, p);
    case Wakeup(c) => FreshWoken(s.t, s.nextpid, r, c);
    case Reap(p, q) =>
      ElementsMore(s.reaped, s.t[q].pid);
      FreshReap(s.t, s.nextpid, r, q, s'.t[q]);
    case Alloc(q) => FreshAlloc(s.t, s.nextpid, r, q, s'.t[q]);
    case _ =>
      var i := Changed(e);
      FreshLocal(s.t, s.nextpid, r, i, s'.t[i]);
      assert s'.t == s.t[i := s'.t[i]];
  }

  lemma InvStep(s: Sys, init: nat, e: Step, s': Sys)
    requires Inv(s, init) && Next(s, init, e, s')
    ensures Inv(s', init)
  {
    hide Family, WaitOk, Fresh, Apply;
    FamilyStep(s.t, init, s.nextpid, e, s'.t);
    WaitStep(s.t, init, s.nextpid, e, s'.t);
    FreshStep(s, init, e, s');
  }

  /** A zombie stays what it is until its current parent, which is alive, reaps it. */
  lemma ZombieStays(s: Sys, init: nat, e: Step, s': Sys, z: nat)
    requires Inv(s, init) && Next(s, init, e, s') && z < |s.t| && s.t[z].state == Zombie
    ensures |s'.t| == |s.t|
    ensures (s'.t[z].state == Zombie && s'.t[z].pid == s.t[z].pid) || (s.t[z].parent >= 0 && e == Reap(s.t[z].parent, z))
    ensures 0 <= s.t[z].parent < |s.t| && Alive(s.t[s.t[z].parent].state)
  {
    hide WaitOk, Fresh;
    assert ParentOk(s.t, z);
    match e
    case Exit(p) =>
      var u := ExitTable(s.t, p, init);
      assert u[z] == ExitedOne(s.t, p, init, z);
    case _ =>
  }

  ghost predicate IsRun(run: seq<Sys>, init: nat, steps: seq<Step>) {
    |run| == |steps| + 1 && forall i, j :: 0 <= i < |steps| && j == i + 1 ==> Next(run[i], init, steps[i], run[j])
  }

  lemma ReapFresh(s: Sys, init: nat, e: Step, s': Sys)
    requires Inv(s, init) && Next(s, init, e, s') && Distinct(s.reaped)
    ensures Distinct(s'.reaped)
  {
    hide Family, WaitOk, Apply;
    if e.Reap? {
      assert s.t[e.slot].pid !in Elements(s.reaped);
    }
  }

  /** After userinit: init alone in the table, with process id 1. */
  ghost predicate Initial(s: Sys, init: nat) {
    && init < |s.t| && s.t[init].state == Runnable && s.t[init].pid == 1 && s.nextpid == 2 && s.reaped == []
    && (forall i :: 0 <= i < |s.t| ==> s.t[i].parent == NONE)
    && (forall i :: 0 <= i < |s.t| && i != init ==> s.t[i].state == Unused)
  }

  lemma {:induction false} RunKeeps(run: seq<Sys>, init: nat, steps: seq<Step>)
    requires IsRun(run, init, steps) && Initial(run[0], init)
    ensures Inv(run[|steps|], init) && Distinct(run[|steps|].reaped)
    decreases |steps|
  {
    if |steps| == 0 {
    } else {
      var n := |steps| - 1;
      RunKeeps(run[..n + 1], init, steps[..n]);
      InvStep(run[n], init, steps[n], run[n + 1]);
      ReapFresh(run[n], init, steps[n], run[n + 1]);
    }
  }

  /** Over every run of any number of processes: whoever is asleep in wait has a child and no
      zombie child, parents are alive, and no process id is returned by wait twice. */
  lemma WaitExitProtocol(run: seq<Sys>, init: nat, steps: seq<Step>)
    requires IsRun(run, init, steps) && Initial(run[0], init)
    ensures Inv(run[|steps|], init)
    ensures var t := run[|steps|].t;
      && (forall p: nat :: p < |t| && t[p].state == Sleeping && t[p].chan == p ==>
        && (exists c :: 0 <= c < |t| && t[c].parent == p)
        && (forall z :: 0 <= z < |t| && t[z].parent == p ==> t[z].state != Zombie))
      && (forall c :: 0 <= c < |t| && t[c].parent != NONE ==>
        0 <= t[c].parent < |t| && (var s := t[t[c].parent].state; s == Sleeping || s == Runnable || s == Running))
      && (forall c :: 0 <= c < |t| && c != init && t[c].state != Unused && t[c].state != Embryo ==> t[c].parent != NONE)
    ensures var ids := run[|steps|].reaped; forall i, j :: 0 <= i < j < |ids| ==> ids[i] != ids[j]
  {
    RunKeeps(run, init, steps);
    var t := run[|steps|].t;
    forall p: nat | p < |t| && t[p].state == Sleeping && t[p].chan == p
      ensures exists c :: 0 <= c < |t| && t[c].parent == p
      ensures forall z :: 0 <= z < |t| && t[z].parent == p ==> t[z].state != Zombie
    {
      assert HasChild(t, p) && !ZombieChild(t, p);
    }
    forall c | 0 <= c < |t| && t[c].parent != NONE
      ensures 0 <= t[c].parent < |t| && (var s := t[t[c].parent].state; s == Sleeping || s == Runnable || s == Running)
    {
      assert ParentOk(t, c);
    }
  }
}
