/** The buffer cache (xv6/bio.c) over the synchronous disk contract of iderw
    (xv6/memide.c).  Buffers are entries of the static table bcache.buf, so a
    pointer to one is its index; index NBUF stands for the list head. */
module BufferCache {
  import opened Blocks
  import opened Collections

  const NBUF := 30
  const ROOTDEV := 1

  datatype Buf = Buf(valid: bool, dirty: bool, dev: int, blockno: int, locked: bool, refcnt: nat, data: Block)

  const FRESH_BUF := Buf(false, false, 0, 0, false, 0, ZERO_BLOCK)

  // ----- the circular doubly linked list -----

  /** The k-th stop of a walk that starts and ends at the head. */
  ghost function Stop(order: seq<nat>, k: nat): nat
    requires k <= |order| + 1
  {
    if k == 0 || k == |order| + 1 then NBUF else order[k - 1]
  }

  /** Following next from the head visits exactly `order`; prev is the way back. */
  ghost predicate Linked(next: seq<nat>, prev: seq<nat>, order: seq<nat>) {
    && |next| == NBUF + 1 && |prev| == NBUF + 1
    && (forall k :: 0 <= k < |order| ==> order[k] < NBUF)
    && Distinct(order)
    && (forall a, b {:trigger Stop(order, a), Stop(order, b)} :: 0 <= a <= |order| && b == a + 1 ==>
      next[Stop(order, a)] == Stop(order, b) && prev[Stop(order, b)] == Stop(order, a))
  }

  ghost function Without(order: seq<nat>, k: nat): seq<nat>
    requires k < |order|
  {
    order[..k] + order[k + 1..]
  }

  lemma Unlink(next: seq<nat>, prev: seq<nat>, order: seq<nat>, k: nat)
    requires Linked(next, prev, order) && k < |order|
    ensures next[order[k]] <= NBUF && prev[order[k]] <= NBUF
    ensures Linked(next[prev[order[k]] := next[order[k]]], prev[next[order[k]] := prev[order[k]]], Without(order, k))
  {
    var i, o := order[k], Without(order, k);
    assert i == Stop(order, k + 1);
    assert next[i] == Stop(order, k + 2) && prev[i] == Stop(order, k);
    var n, p := next[prev[i] := next[i]], prev[next[i] := prev[i]];
    forall a, b {:trigger Stop(o, a), Stop(o, b)} | 0 <= a <= |o| && b == a + 1
      ensures n[Stop(o, a)] == Stop(o, b) && p[Stop(o, b)] == Stop(o, a)
    {
      var c, d := if a <= k then a else a + 1, if b <= k then b else b + 1;
      assert Stop(o, a) == Stop(order, c) && Stop(o, b) == Stop(order, d);
      if a != k {
        assert next[Stop(order, c)] == Stop(order, d) && prev[Stop(order, d)] == Stop(order, c);
        StopInjective(order, c, k);
        StopInjective(order, d, k + 2);
      }
    }
  }

  lemma LinkedEmpty(next: seq<nat>, prev: seq<nat>)
    requires |next| == NBUF + 1 && |prev| == NBUF + 1 && next[NBUF] == NBUF && prev[NBUF] == NBUF
    ensures Linked(next, prev, [])
  {
    assert Stop([], 0) == NBUF && Stop([], 1) == NBUF;
  }

  lemma StopInjective(order: seq<nat>, a: nat, b: nat)
    requires Distinct(order) && forall k :: 0 <= k < |order| ==> order[k] < NBUF
    requires a <= |order| + 1 && b <= |order| + 1 && a != b
    ensures Stop(order, a) == Stop(order, b) ==> {a, b} == {0, |order| + 1}
  {
  }

  lemma LinkFront(next: seq<nat>, prev: seq<nat>, order: seq<nat>, i: nat)
    requires Linked(next, prev, order) && i < NBUF && i !in order
    ensures next[NBUF] <= NBUF
    ensures Linked(next[i := next[NBUF]][NBUF := i], prev[i := NBUF][next[NBUF] := i], [i] + order)
  {
    var o := [i] + order;
    assert Stop(order, 0) == NBUF;
    assert next[NBUF] == Stop(order, 1);
    var n, p := next[i := next[NBUF]][NBUF := i], prev[i := NBUF][next[NBUF] := i];
    assert forall k :: 0 <= k < |order| ==> order[k] in order;
    forall a, b {:trigger Stop(o, a), Stop(o, b)} | 0 <= a <= |o| && b == a + 1
      ensures n[Stop(o, a)] == Stop(o, b) && p[Stop(o, b)] == Stop(o, a)
    {
      if a >= 2 {
        assert Stop(o, a) == Stop(order, a - 1) && Stop(o, b) == Stop(order, a);
        assert next[Stop(order, a - 1)] == Stop(order, a) && prev[Stop(order, a)] == Stop(order, a - 1);
        StopInjective(order, 1, a);
      } else if a == 1 {
        assert Stop(o, 2) == Stop(order, 1);
      }
    }
  }

  /** List order is order of last release, most recent first. */
  ghost predicate ByRelease(order: seq<nat>, stamp: seq<int>, clock: int) {
    && |stamp| == NBUF
    && (forall i :: 0 <= i < NBUF ==> stamp[i] < clock)
    && (forall k :: 0 <= k < |order| ==> order[k] < NBUF)
    && (forall a, b :: 0 <= a < b < |order| ==> stamp[order[a]] > stamp[order[b]])
  }

  lemma WithoutMembers(order: seq<nat>, k: nat)
    requires k < |order| && Distinct(order)
    ensures order[k] !in Without(order, k)
    ensures forall j :: j in order ==> j == order[k] || j in Without(order, k)
  {
    var o := Without(order, k);
    forall j | j in order && j != order[k] ensures j in o {
      var a :| 0 <= a < |order| && order[a] == j;
      assert j == if a < k then o[a] else o[a - 1];
    }
  }

  lemma ReleasedLast(order: seq<nat>, stamp: seq<int>, clock: int, k: nat)
    requires Distinct(order) && ByRelease(order, stamp, clock) && k < |order|
    ensures ByRelease([order[k]] + Without(order, k), stamp[order[k] := clock], clock + 1)
  {
    var i, o, s := order[k], [order[k]] + Without(order, k), stamp[order[k] := clock];
    forall a, b | 0 <= a < b < |o| ensures s[o[a]] > s[o[b]] {
      assert o[b] == if b <= k then order[b - 1] else order[b];
      if a > 0 {
        assert o[a] == if a <= k then order[a - 1] else order[a];
      }
    }
  }

  /** Unlinking the k-th buffer and relinking it at the head keeps the list a list. */
  lemma MoveToFront(next: seq<nat>, prev: seq<nat>, order: seq<nat>, k: nat)
    requires Linked(next, prev, order) && k < |order|
    ensures var i := order[k]; next[i] <= NBUF && prev[i] <= NBUF
    ensures var i := order[k]; var n, p := next[prev[i] := next[i]], prev[next[i] := prev[i]];
      && n[NBUF] <= NBUF
      && Linked(n[i := n[NBUF]][NBUF := i], p[i := NBUF][n[NBUF] := i], [i] + Without(order, k))
  {
    var i := order[k];
    Unlink(next, prev, order, k);
    WithoutMembers(order, k);
    LinkFront(next[prev[i] := next[i]], prev[next[i] := prev[i]], Without(order, k), i);
  }

  // ----- the cache as a view of the disk -----

  /** No two buffers hold the same block of a device in use. */
  ghost predicate UniqueIdentity(buf: seq<Buf>) {
    forall i, j :: 0 <= i < j < |buf| && buf[i].dev != 0 ==>
      buf[i].dev != buf[j].dev || buf[i].blockno != buf[j].blockno
  }

  ghost predicate Holds(b: Buf, dev: int, bno: int) {
    b.dev == dev && b.blockno == bno
  }

  /** `view` is what the file system sees.  Each valid buffer agrees with it, and so does
      the disk except on the blocks in `pinned`, which maps each block that has a dirty
      buffer to that buffer. */
  ghost predicate Coherent(buf: seq<Buf>, disk: seq<Block>, view: seq<Block>, pinned: map<int, nat>) {
    && |view| == |disk|
    && UniqueIdentity(buf)
    && (forall i :: 0 <= i < |buf| ==> BufOk(buf[i], i, view, pinned))
    && (forall b :: b in pinned ==>
      0 <= b < |disk| && pinned[b] < |buf| && buf[pinned[b]].dirty && Holds(buf[pinned[b]], ROOTDEV, b))
    && (forall b :: 0 <= b < |disk| ==> disk[b] == view[b] || b in pinned)
  }

  ghost predicate BufOk(b: Buf, i: nat, view: seq<Block>, pinned: map<int, nat>) {
    && (b.valid ==> b.dev == ROOTDEV && 0 <= b.blockno < |view| && b.data == view[b.blockno])
    && (b.dirty ==> b.valid && b.blockno in pinned && pinned[b.blockno] == i)
    && (b.locked ==> b.refcnt > 0)
  }

  /** Replacing a buffer by one for the same block keeps the cache coherent. */
  lemma CoherentReplace(buf: seq<Buf>, disk: seq<Block>, view: seq<Block>, pinned: map<int, nat>, i: nat, b: Buf)
    requires Coherent(buf, disk, view, pinned) && i < |buf|
    requires Holds(b, buf[i].dev, buf[i].blockno) && b.dirty == buf[i].dirty && BufOk(b, i, view, pinned)
    ensures Coherent(buf[i := b], disk, view, pinned)
  {
  }

  /** Writing buffer i out makes disk and view agree on its block, which is unpinned. */
  lemma CoherentWrite(buf: seq<Buf>, disk: seq<Block>, view: seq<Block>, pinned: map<int, nat>, i: nat, data: Block)
    requires Coherent(buf, disk, view, pinned) && i < |buf| && buf[i].valid
    ensures var b := buf[i].blockno;
      Coherent(buf[i := buf[i].(data := data, dirty := false)], disk[b := data], view[b := data], pinned - {b})
  {
    var b := buf[i].blockno;
    var buf', view', pinned' := buf[i := buf[i].(data := data, dirty := false)], view[b := data], pinned - {b};
    forall j | 0 <= j < |buf| ensures BufOk(buf'[j], j, view', pinned') {
      assert BufOk(buf[j], j, view, pinned);
      assert j != i && buf[j].valid ==> buf[j].blockno != b;
    }
  }

  ghost predicate Recyclable(b: Buf) {
    b.refcnt == 0 && !b.dirty
  }

  /** The buffer b, which holds block bno or is recycled for it, once it is locked and read. */
  ghost function Opened(b: Buf, bno: int, data: Block): Buf {
    Buf(true, b.dirty, ROOTDEV, bno, true, b.refcnt + 1, data)
  }

  class BCache {
    var disk: seq<Block>
    var buf: seq<Buf>
    var next: seq<nat>
    var prev: seq<nat>

    ghost var view: seq<Block>
    ghost var pinned: map<int, nat>
    ghost var writes: seq<Write>
    ghost var order: seq<nat>
    ghost var stamp: seq<int>
    ghost var clock: int

    ghost predicate Valid()
      reads this
    {
      |buf| == NBUF && Coherent(buf, disk, view, pinned) && ListValid()
    }

    /** The list holds every buffer once, ordered by last release. */
    ghost predicate ListValid()
      reads this
    {
      && Linked(next, prev, order)
      && |order| == NBUF
      && (forall i :: 0 <= i < NBUF ==> i in order)
      && ByRelease(order, stamp, clock)
    }

    /** binit: the cache right after boot sees exactly what is on the disk. */
    constructor (d: seq<Block>)
      ensures Valid()
      ensures disk == d && view == d && pinned == map[] && writes == []
      ensures forall i :: 0 <= i < NBUF ==> buf[i] == FRESH_BUF
    {
      disk, view, pinned, writes := d, d, map[], [];
      buf := seq(NBUF, _ => FRESH_BUF);
      next := seq(NBUF + 1, _ => NBUF);
      prev := seq(NBUF + 1, _ => NBUF);
      stamp := seq(NBUF, i => i);
      clock := NBUF;
      order := [];
      new;
      LinkedEmpty(next, prev);
      var b := 0;
      while b < NBUF
        invariant 0 <= b <= NBUF && |order| == b
        invariant forall k :: 0 <= k < b ==> order[k] == b - 1 - k
        invariant Linked(next, prev, order)
        invariant disk == d && view == d && pinned == map[] && writes == []
        invariant |buf| == NBUF && forall i :: 0 <= i < NBUF ==> buf[i] == FRESH_BUF
        invariant |stamp| == NBUF && clock == NBUF && forall i :: 0 <= i < NBUF ==> stamp[i] == i
      {
        LinkFront(next, prev, order, b);
        next := next[b := next[NBUF]];
        prev := prev[b := NBUF];
        prev := prev[next[NBUF] := b];
        next := next[NBUF := b];
        order := [b] + order;
        b := b + 1;
      }
      forall i | 0 <= i < NBUF ensures i in order { assert order[NBUF - 1 - i] == i; }
    }

    /** bget's first loop: walk the list from the most recently used end. */
    method FindCached(dev: int, bno: int) returns (i: nat)
      requires Valid()
      ensures i <= NBUF
      ensures i < NBUF ==> Holds(buf[i], dev, bno)
      ensures i == NBUF ==> forall j :: 0 <= j < NBUF ==> !Holds(buf[j], dev, bno)
    {
      ghost var k := 1;
      assert Stop(order, 0) == NBUF;
      assert next[NBUF] == Stop(order, 1);
      i := next[NBUF];
      while i != NBUF
        invariant 1 <= k <= NBUF + 1 && i == Stop(order, k)
        invariant forall a :: 0 <= a < k - 1 ==> !Holds(buf[order[a]], dev, bno)
        decreases NBUF + 1 - k
      {
        if buf[i].dev == dev && buf[i].blockno == bno { return; }
        assert next[i] == Stop(order, k + 1);
        i, k := next[i], k + 1;
      }
      forall j | 0 <= j < NBUF ensures !Holds(buf[j], dev, bno) {
        assert j in order;
      }
    }

    /** bget's second loop: walk back from the least recently released end. */
    method FindVictim() returns (i: nat)
      requires Valid()
      ensures i <= NBUF
      ensures i < NBUF ==> Recyclable(buf[i])
      ensures forall j :: 0 <= j < NBUF && Recyclable(buf[j]) ==> i < NBUF && stamp[i] <= stamp[j]
    {
      ghost var k := NBUF;
      assert Stop(order, NBUF + 1) == NBUF;
      assert prev[NBUF] == Stop(order, NBUF);
      i := prev[NBUF];
      while i != NBUF
        invariant 0 <= k <= NBUF && i == Stop(order, k)
        invariant forall a :: k <= a < NBUF ==> !Recyclable(buf[order[a]])
        decreases k
      {
        if buf[i].refcnt == 0 && !buf[i].dirty {
          forall j | 0 <= j < NBUF && Recyclable(buf[j]) ensures stamp[i] <= stamp[j] {
            assert j in order;
            var a :| 0 <= a < NBUF && order[a] == j;
            assert a < k;
          }
          return;
        }
        assert prev[i] == Stop(order, k - 1);
        i, k := prev[i], k - 1;
      }
      forall j | 0 <= j < NBUF ensures !Recyclable(buf[j]) {
        assert j in order;
      }
    }

    /** bget: i == NBUF is the "no buffers" panic, raised exactly when the block is
        uncached and every buffer is in use or dirty. */
    method BGet(dev: int, bno: int) returns (i: nat)
      requires Valid() && dev != 0
      modifies this`buf
      ensures Valid() && i <= NBUF
      ensures i == NBUF <==> forall j :: 0 <= j < NBUF ==> !Holds(old(buf[j]), dev, bno) && !Recyclable(old(buf[j]))
      ensures i == NBUF ==> buf == old(buf)
      ensures i < NBUF && Holds(old(buf[i]), dev, bno) ==> buf == old(buf[i := buf[i].(refcnt := buf[i].refcnt + 1)])
      ensures i < NBUF && !Holds(old(buf[i]), dev, bno) ==>
        && (forall j :: 0 <= j < NBUF ==> !Holds(old(buf[j]), dev, bno))
        && Recyclable(old(buf[i]))
        && (forall j :: 0 <= j < NBUF && Recyclable(old(buf[j])) ==> stamp[i] <= stamp[j])
        && buf == old(buf[i := Buf(false, false, dev, bno, buf[i].locked, 1, buf[i].data)])
    {
      i := FindCached(dev, bno);
      if i < NBUF {
        buf := buf[i := buf[i].(refcnt := buf[i].refcnt + 1)];
      } else {
        i := FindVictim();
        if i < NBUF {
          buf := buf[i := buf[i].(dev := dev, blockno := bno, valid := false, dirty := false, refcnt := 1)];
        }
      }
    }

    /** bread: the returned buffer holds the latest logged or written contents.  The
        buffer must not be locked already: acquiresleep would wait. */
    method Bread(bno: nat) returns (i: nat)
      requires Valid() && bno < |disk|
      requires forall j :: 0 <= j < NBUF && Holds(buf[j], ROOTDEV, bno) ==> !buf[j].locked
      modifies this`buf
      ensures Valid() && i <= NBUF
      ensures i == NBUF <==> forall j :: 0 <= j < NBUF ==> !Holds(old(buf[j]), ROOTDEV, bno) && !Recyclable(old(buf[j]))
      ensures i == NBUF ==> buf == old(buf)
      ensures forall j :: 0 <= j < NBUF && Holds(old(buf)[j], ROOTDEV, bno) ==> i == j
      ensures i < NBUF && !Holds(old(buf[i]), ROOTDEV, bno) ==>
        Recyclable(old(buf[i])) && forall j :: 0 <= j < NBUF && Recyclable(old(buf[j])) ==> stamp[i] <= stamp[j]
      ensures i < NBUF ==> buf == old(buf)[i := Opened(old(buf[i]), bno, view[bno])]
      ensures i < NBUF ==> var b := buf[i];
        b.valid && b.locked && Holds(b, ROOTDEV, bno) && b.data == view[bno] && b.refcnt == old(buf[i].refcnt) + 1
    {
      i := BGet(ROOTDEV, bno);
      if i == NBUF { return; }
      ghost var got := buf;
      buf := buf[i := buf[i].(locked := true)];
      if !buf[i].valid {
        assert bno !in pinned;
        buf := buf[i := buf[i].(data := disk[bno], valid := true)];
      }
      assert buf == got[i := buf[i]];
      CoherentReplace(got, disk, view, pinned, i, buf[i]);
    }

    /** The holder stores new contents in its buffer and writes them out (bwrite). */
    method Bwrite(i: nat, data: Block)
      requires Valid() && i < NBUF && buf[i].valid && buf[i].locked
      modifies this`buf, this`disk, this`view, this`pinned, this`writes
      ensures Valid()
      ensures buf == old(buf)[i := old(buf[i]).(data := data, dirty := false)]
      ensures disk == old(disk)[old(buf[i].blockno) := data]
      ensures view == old(view)[old(buf[i].blockno) := data]
      ensures pinned == old(pinned) - {old(buf[i].blockno)}
      ensures writes == old(writes) + [Write(old(buf[i].blockno), data)]
    {
      var b := buf[i].blockno;
      CoherentWrite(buf, disk, view, pinned, i, data);
      buf := buf[i := buf[i].(data := data, dirty := true)];
      // iderw with B_DIRTY set
      buf := buf[i := buf[i].(dirty := false)];
      disk := disk[b := data];
      view := view[b := data];
      pinned := pinned - {b};
      writes := writes + [Write(b, data)];
      assert buf == old(buf)[i := old(buf[i]).(data := data, dirty := false)];
    }

    /** log_write's effect on the cache: new contents, pinned by B_DIRTY. */
    method Pin(i: nat, data: Block)
      requires Valid() && i < NBUF && buf[i].valid && buf[i].locked
      modifies this`buf, this`view, this`pinned
      ensures Valid()
      ensures buf == old(buf)[i := old(buf[i]).(data := data, dirty := true)]
      ensures view == old(view)[old(buf[i].blockno) := data]
      ensures pinned == old(pinned)[old(buf[i].blockno) := i]
    {
      view := view[buf[i].blockno := data];
      pinned := pinned[buf[i].blockno := i];
      buf := buf[i := buf[i].(data := data, dirty := true)];
    }

    /** brelse's relinking of a buffer no one waits for. */
    method MoveToHead(i: nat)
      requires ListValid() && i < NBUF
      modifies this`next, this`prev, this`order, this`stamp, this`clock
      ensures ListValid()
      ensures exists k :: 0 <= k < NBUF && old(order)[k] == i && order == [i] + Without(old(order), k)
      ensures stamp == old(stamp)[i := old(clock)] && clock == old(clock) + 1
    {
      assert i in order;
      ghost var k :| 0 <= k < NBUF && order[k] == i;
      MoveToFront(next, prev, order, k);
      WithoutMembers(order, k);
      ReleasedLast(order, stamp, clock, k);
      prev := prev[next[i] := prev[i]];
      next := next[prev[i] := next[i]];
      next := next[i := next[NBUF]];
      prev := prev[i := NBUF];
      prev := prev[next[NBUF] := i];
      next := next[NBUF := i];
      order := [i] + Without(order, k);
      stamp := stamp[i := clock];
      clock := clock + 1;
    }

    /** brelse: the last release moves the buffer to the most recently used end. */
    method Brelse(i: nat)
      requires Valid() && i < NBUF && buf[i].locked
      modifies this`buf, this`next, this`prev, this`order, this`stamp, this`clock
      ensures Valid()
      ensures buf == old(buf)[i := old(buf[i]).(locked := false, refcnt := old(buf[i].refcnt) - 1)]
      ensures old(buf[i].refcnt) > 1 ==> order == old(order) && stamp == old(stamp)
      ensures old(buf[i].refcnt) == 1 ==>
        exists k :: 0 <= k < NBUF && old(order)[k] == i && order == [i] + Without(old(order), k)
      ensures old(buf[i].refcnt) == 1 ==> stamp == old(stamp)[i := old(clock)] && clock == old(clock) + 1
    {
      CoherentReplace(buf, disk, view, pinned, i, buf[i].(locked := false, refcnt := buf[i].refcnt - 1));
      buf := buf[i := buf[i].(locked := false, refcnt := buf[i].refcnt - 1)];
      if buf[i].refcnt == 0 {
        MoveToHead(i);
      }
    }
  }
}
