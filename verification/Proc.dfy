/** The table scans of proc.c, as they run with ptable.lock held. */
module Proc {
  import opened ProcTable

  /** What one pass of wait's loop comes to. */
  datatype WaitResult = Pid(pid: nat, slot: nat) | Failed | Asleep

  ghost predicate FirstWith(t: Table, pid: nat, q: nat) {
    q < |t| && t[q].pid == pid && forall x :: 0 <= x < q ==> t[x].pid != pid
  }

  class Ptable {
    const init: nat
    var t: Table
    var nextpid: nat

    constructor (table: Table, i: nat, n: nat)
      ensures t == table && init == i && nextpid == n
    {
      t, init, nextpid := table, i, n;
    }

    /** wakeup1. */
    method Wakeup1(c: int)
      modifies this`t
      ensures t == Woken(old(t), c)
      ensures |t| == |old(t)| && forall k :: 0 <= k < |t| ==>
        t[k] == if old(t)[k].state == Sleeping && old(t)[k].chan == c then old(t)[k].(state := Runnable) else old(t)[k]
    {
      var i := 0;
      while i < |t|
        invariant i <= |t| == |old(t)|
        invariant forall k :: 0 <= k < |t| ==> t[k] == if k < i then WokenOne(old(t)[k], c) else old(t)[k]
      {
        if t[i].state == Sleeping && t[i].chan == c {
          t := t[i := t[i].(state := Runnable)];
        }
        i := i + 1;
      }
      assert t == Woken(old(t), c);
    }

    /** exit, from the wakeup of the parent to the change of state. */
    method Exit(p: nat)
      requires Enabled(t, init, Step.Exit(p))
      modifies this`t
      ensures t == Exited(old(t), p, init)
      ensures |t| == |old(t)| && t[p].state == Zombie
      ensures forall k :: 0 <= k < |t| ==>
        t[k].(state := Unused) ==
          old(t)[k].(state := Unused, parent := if old(t)[k].parent == p then init else old(t)[k].parent)
      ensures forall k :: 0 <= k < |t| && k != p ==>
        t[k].state ==
          if old(t)[k].state == Sleeping && (old(t)[k].chan == old(t)[p].parent || (old(t)[k].chan == init &&
              exists z :: 0 <= z < |old(t)| && old(t)[z].parent == p && old(t)[z].state == Zombie))
          then Runnable else old(t)[k].state
    {
      ghost var u := ExitTable(t, p, init);
      Wakeup1(t[p].parent);
      HandOver(p);
      t := t[p := t[p].(state := Zombie)];
    }

    /** exit's loop: the children go to init, which is woken for each zombie among them. */
    method HandOver(p: nat)
      requires p != init
      modifies this`t
      ensures t == if ZombieChild(old(t), p) then Woken(Adopted(old(t), p, init), init) else Adopted(old(t), p, init)
      ensures |t| == |old(t)| && forall k :: 0 <= k < |t| ==>
        t[k].(state := Unused) ==
          old(t)[k].(state := Unused, parent := if old(t)[k].parent == p then init else old(t)[k].parent)
    {
      var i := 0;
      ghost var seen := false;
      while i < |t|
        invariant i <= |t| == |old(t)|
        invariant (seen <==> exists x :: 0 <= x < i && old(t)[x].parent == p && old(t)[x].state == Zombie)
        invariant forall k :: 0 <= k < |t| ==> t[k] == Half(old(t)[k], p, init, k < i, seen)
      {
        if t[i].parent == p {
          t := t[i := t[i].(parent := init)];
          if t[i].state == Zombie {
            Wakeup1(init);
            seen := true;
          }
        }
        i := i + 1;
      }
      ghost var u := Adopted(old(t), p, init);
      assert t == if seen then Woken(u, init) else u;
    }

    /** An entry in the middle of exit's loop. */
    static ghost function Half(q: ProcTable.Proc, p: nat, init: nat, done: bool, seen: bool): ProcTable.Proc {
      var r := if done && q.parent == p then q.(parent := init) else q;
      if seen then WokenOne(r, init) else r
    }

    /** One pass of wait: the first zombie child is reaped; without children, or when killed,
        wait fails; otherwise the process goes to sleep on itself. */
    method Wait(p: nat) returns (r: WaitResult)
      requires p < |t| && t[p].state == Running
      modifies this`t
      ensures r.Pid? <==> ZombieChild(old(t), p)
      ensures r.Pid? <==> exists x :: 0 <= x < |old(t)| && old(t)[x].parent == p && old(t)[x].state == Zombie
      ensures r.Pid? ==>
        && r.slot < |old(t)| && old(t)[r.slot].parent == p && old(t)[r.slot].state == Zombie
        && t == old(t)[r.slot := Proc(Unused, 0, NONE, old(t)[r.slot].chan, false)]
      ensures r.Pid? ==> Enabled(old(t), init, Reap(p, r.slot)) && r.pid == old(t)[r.slot].pid
      ensures r.Pid? ==> t == Apply(old(t), init, nextpid, Reap(p, r.slot))
      ensures r.Pid? ==>
        forall x :: 0 <= x < r.slot && x < |old(t)| ==> !(old(t)[x].parent == p && old(t)[x].state == Zombie)
      ensures r.Failed? <==> !ZombieChild(old(t), p) && (!HasChild(old(t), p) || old(t)[p].killed)
      ensures r.Failed? <==> !r.Pid? && (old(t)[p].killed || forall x :: 0 <= x < |old(t)| ==> old(t)[x].parent != p)
      ensures r.Failed? ==> t == old(t)
      ensures r.Asleep? ==> t == old(t)[p := old(t)[p].(state := Sleeping, chan := p)]
      ensures r.Asleep? ==> Enabled(old(t), init, WaitSleep(p)) && t == Apply(old(t), init, nextpid, WaitSleep(p))
    {
      var havekids := false;
      var i := 0;
      while i < |t|
        invariant i <= |t| && t == old(t) && (havekids <==> exists x :: 0 <= x < i && t[x].parent == p)
        invariant forall x :: 0 <= x < i ==> !(t[x].parent == p && t[x].state == Zombie)
      {
        if t[i].parent == p {
          havekids := true;
          if t[i].state == Zombie {
            r := Pid(t[i].pid, i);
            t := t[i := Proc(Unused, 0, NONE, t[i].chan, false)];
            return;
          }
        }
        i := i + 1;
      }
      if !havekids || t[p].killed {
        return Failed;
      }
      t := t[p := t[p].(state := Sleeping, chan := p)];
      r := Asleep;
    }

    /** allocproc's scan: the first unused slot gets the next process id, |t| for none. */
    method Alloc() returns (q: nat)
      modifies this`t, this`nextpid
      ensures q <= |old(t)| && (forall x :: 0 <= x < q ==> old(t)[x].state != Unused)
      ensures q == |old(t)| ==> t == old(t) && nextpid == old(nextpid)
      ensures q < |old(t)| ==> Enabled(old(t), init, Step.Alloc(q)) && nextpid == old(nextpid) + 1
      ensures q < |old(t)| ==> t == Apply(old(t), init, old(nextpid), Step.Alloc(q))
      ensures q < |old(t)| ==>
        old(t)[q].state == Unused && t == old(t)[q := old(t)[q].(state := Embryo, pid := old(nextpid))]
    {
      q := 0;
      while q < |t|
        invariant q <= |t| && forall x :: 0 <= x < q ==> t[x].state != Unused
      {
        if t[q].state == Unused {
          t := t[q := t[q].(state := Embryo, pid := nextpid)];
          nextpid := nextpid + 1;
          return;
        }
        q := q + 1;
      }
    }

    /** kill: marks the first entry with the process id and wakes it. */
    method Kill(pid: nat) returns (r: int)
      modifies this`t
      ensures r == 0 || (r == -1 && t == old(t) && forall x :: 0 <= x < |t| ==> t[x].pid != pid)
      ensures r == 0 ==>
        exists q :: 0 <= q < |old(t)| && FirstWith(old(t), pid, q) && t == Apply(old(t), init, nextpid, Step.Kill(q))
      ensures r == 0 ==>
        exists q :: 0 <= q < |old(t)| && FirstWith(old(t), pid, q) && t == old(t)[q := old(t)[q].(killed := true,
          state := if old(t)[q].state == Sleeping then Runnable else old(t)[q].state)]
    {
      var q := 0;
      while q < |t|
        invariant q <= |t| && t == old(t) && forall x :: 0 <= x < q ==> t[x].pid != pid
      {
        if t[q].pid == pid {
          t := t[q := t[q].(killed := true)];
          if t[q].state == Sleeping {
            t := t[q := t[q].(state := Runnable)];
          }
          assert t == Apply(old(t), init, nextpid, Step.Kill(q));
          return 0;
        }
        q := q + 1;
      }
      r := -1;
    }
  }
}
