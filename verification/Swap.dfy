/** FIFO page replacement (xv6/vm.c): the queue of resident pages, the table of swap slots,
    and the exchange between memory and swap files, for one process whose frames are not
    shared. */
module Swap {
  import opened Blocks
  import opened Collections
  import opened SwapFiles
  import FsState
  import FileSys

  const NONE := -1
  const GROUP := 64  // slots in one struct virtual_page

  type Page = p: seq<Byte> | |p| == PGSIZE witness seq(PGSIZE, _ => 0)

  /** A user page is in a frame or marked PTE_PG. */
  datatype Pte = InMem(frame: nat) | OnDisk

  // ----- the queue -----

  /** q is the doubly linked list from head to tail, newest page first. */
  ghost predicate Linked(head: int, tail: int, next: seq<int>, prev: seq<int>, q: seq<nat>) {
    && |next| == |prev| && Distinct(q) && (forall i :: 0 <= i < |q| ==> q[i] < |next|)
    && (|q| == 0 ==> head == NONE && tail == NONE)
    && (|q| > 0 ==> head == q[0] && tail == q[|q| - 1] && prev[q[0]] == NONE && next[q[|q| - 1]] == NONE)
    && (forall i, j :: 0 <= i && j == i + 1 && j < |q| ==> next[q[i]] == q[j] && prev[q[j]] == q[i])
  }

  lemma DropTail(head: int, tail: int, next: seq<int>, prev: seq<int>, q: seq<nat>)
    requires Linked(head, tail, next, prev, q) && |q| >= 2
    ensures tail == q[|q| - 1] && prev[tail] == q[|q| - 2]
    ensures Linked(head, prev[tail], next[prev[tail] := NONE], prev[tail := NONE], q[..|q| - 1])
  {
    var n := |q| - 1;
    assert prev[q[n]] == q[n - 1];
    assert q[n - 1] != q[n];
    var next', prev' := next[q[n - 1] := NONE], prev[q[n] := NONE];
    forall i, j | 0 <= i && j == i + 1 && j < n ensures next'[q[i]] == q[j] && prev'[q[j]] == q[i] {
      assert next[q[i]] == q[j] && prev[q[j]] == q[i];
      assert q[i] != q[n - 1] && q[j] != q[n];
    }
  }

  lemma PushHead(head: int, tail: int, next: seq<int>, prev: seq<int>, q: seq<nat>, e: nat)
    requires Linked(head, tail, next, prev, q) && e < |next| && e !in q && prev[e] == NONE
    ensures head == NONE <==> |q| == 0
    ensures |q| == 0 ==> Linked(e, e, next[e := head], prev, [e] + q)
    ensures |q| > 0 ==> 0 <= head < |prev| && Linked(e, tail, next[e := head], prev[head := e], [e] + q)
  {
    if |q| > 0 {
      var next', prev', q' := next[e := head], prev[head := e], [e] + q;
      forall i, j | 0 <= i && j == i + 1 && j < |q'| ensures next'[q'[i]] == q'[j] && prev'[q'[j]] == q'[i] {
        if i > 0 {
          assert next[q[i - 1]] == q[j - 1] && prev[q[j - 1]] == q[i - 1];
          assert q[j - 1] != q[0];
        }
      }
    }
  }

  /** Entries in the queue record pages; entries outside it are usable and have no prev. */
  ghost predicate Recorded(vaddr: seq<int>, prev: seq<int>, q: seq<nat>) {
    && |vaddr| == |prev|
    && forall e :: 0 <= e < |vaddr| ==> if e in q then vaddr[e] >= 0 else vaddr[e] == NONE && prev[e] == NONE
  }

  // ----- pages, frames and slots -----

  /** The queue records exactly the resident pages, each once. */
  ghost predicate Resident(vaddr: seq<int>, q: seq<nat>, pte: map<int, Pte>, entry: map<int, nat>) {
    && (forall v :: v in pte && pte[v].InMem? ==>
      v in entry && entry[v] in q && entry[v] < |vaddr| && vaddr[entry[v]] == v)
    && (forall e :: e in q ==>
      e < |vaddr| && vaddr[e] in pte && pte[vaddr[e]].InMem? && vaddr[e] in entry && entry[vaddr[e]] == e)
  }

  ghost predicate Framed(pte: map<int, Pte>, page: map<nat, Page>) {
    && (forall v :: v in pte && pte[v].InMem? ==> pte[v].frame in page)
    && (forall v, w :: v in pte && w in pte && pte[v].InMem? && pte[w].InMem? && pte[v].frame == pte[w].frame ==>
      v == w)
  }

  /** place is the slot of every page on disk; used slots are below the high-water mark. */
  ghost predicate Slotted(slot: seq<int>, pte: map<int, Pte>, place: map<int, nat>, hw: nat) {
    && |slot| % GROUP == 0 && (forall v :: v in pte ==> v >= 0)
    && (forall v :: v in pte && pte[v].OnDisk? ==>
      v in place && place[v] < |slot| && place[v] < hw && slot[place[v]] == v)
    && (forall s :: 0 <= s < |slot| && slot[s] != NONE ==>
      s < hw && slot[s] in pte && pte[slot[s]].OnDisk? && slot[s] in place && place[slot[s]] == s)
  }

  lemma SlotPageRoom(files: seq<seq<Byte>>, hw: nat, s: nat)
    requires Dense(files, hw) && s < hw
    ensures s / 16 < |files| && (s % 16 + 1) * PGSIZE <= |files[s / 16]|
  {
  }

  ghost function SlotPage(files: seq<seq<Byte>>, hw: nat, s: nat): Page
    requires Dense(files, hw) && s < hw
  {
    SlotPageRoom(files, hw, s);
    files[s / 16][s % 16 * PGSIZE..(s % 16 + 1) * PGSIZE]
  }

  lemma SlotPageHolds(files: seq<seq<Byte>>, hw: nat, s: nat, data: Page)
    requires Dense(files, hw) && s < hw
    ensures Holds(files, s, data) <==> SlotPage(files, hw, s) == data
  {
    SlotPageRoom(files, hw, s);
    var p := SlotPage(files, hw, s);
    forall a: nat | a < PGSIZE ensures SlotByte(files, s, a) == p[a] {
    }
    if Holds(files, s, data) {
      forall a | 0 <= a < PGSIZE ensures p[a] == data[a] {
        assert SlotByte(files, s, a) == data[a];
      }
    }
  }

  // ----- swapping out -----

  lemma ResidentOut(vaddr: seq<int>, q: seq<nat>, pte: map<int, Pte>, entry: map<int, nat>, v: int)
    requires Resident(vaddr, q, pte, entry) && Distinct(q) && |q| > 0 && q[|q| - 1] < |vaddr| && vaddr[q[|q| - 1]] == v
    ensures Resident(vaddr, q[..|q| - 1], pte[v := OnDisk], entry)
  {
    var e, q' := q[|q| - 1], q[..|q| - 1];
    assert e in q && entry[v] == e;
    forall w | w in pte && pte[w].InMem? && w != v ensures entry[w] in q' {
      var i :| 0 <= i < |q| && q[i] == entry[w];
      assert i < |q| - 1;
    }
    forall x | x in q' ensures x < |vaddr| && vaddr[x] != v {
      var i :| 0 <= i < |q'| && q'[i] == x;
      assert q[i] == x && x in q && entry[vaddr[x]] == x;
    }
  }

  lemma FramedOut(pte: map<int, Pte>, page: map<nat, Page>, v: int)
    requires Framed(pte, page) && v in pte && pte[v].InMem?
    ensures Framed(pte[v := OnDisk], page - {pte[v].frame})
  {
  }

  lemma SlottedOut(slot: seq<int>, pte: map<int, Pte>, place: map<int, nat>, hw: nat, v: int, s: nat, hw': nat)
    requires Slotted(slot, pte, place, hw) && v in pte && pte[v].InMem? && s < |slot| && slot[s] == NONE && hw <= hw'
    requires s < hw'
    ensures Slotted(slot[s := v], pte[v := OnDisk], place[v := s], hw')
  {
    forall w | w in pte && pte[w].OnDisk? ensures place[w] != s {
      assert slot[place[w]] == w;
    }
  }

  /** A fresh group of usable slots. */
  lemma GrownSlots(slot: seq<int>, pte: map<int, Pte>, place: map<int, nat>, hw: nat, slot': seq<int>)
    requires Slotted(slot, pte, place, hw) && slot <= slot' && |slot'| % GROUP == 0
    requires forall t :: |slot| <= t < |slot'| ==> slot'[t] == NONE
    ensures Slotted(slot', pte, place, hw)
  {
  }

  /** Some slot that lies in the swap files is free. */
  ghost predicate Room(slot: seq<int>) {
    |slot| < SLOTS || NONE in slot[..SLOTS]
  }

  /** The lowest free slot is at most the high-water mark. */
  lemma FirstFit(slot: seq<int>, pte: map<int, Pte>, place: map<int, nat>, hw: nat, s: nat)
    requires Slotted(slot, pte, place, hw) && s <= |slot| && forall t :: 0 <= t < s ==> slot[t] != NONE
    ensures s <= hw
  {
    if s > 0 {
      assert slot[s - 1] != NONE;
    }
  }

  /** A whole page written to slot s, at or right below the high-water mark. */
  lemma StorePage(files: seq<seq<Byte>>, hw: nat, s: nat, data: Page)
    returns (files': seq<seq<Byte>>, hw': nat)
    requires Dense(files, hw) && s <= hw && s < SLOTS
    ensures s / 16 < |files| && s % 16 * PGSIZE <= |files[s / 16]| && files' == VpWritten(files, s, 0, data)
    ensures hw' == (if s == hw then hw + 1 else hw) && Dense(files', hw') && SlotPage(files', hw', s) == data
    ensures forall t :: 0 <= t < hw && t != s ==> SlotPage(files', hw', t) == SlotPage(files, hw, t)
  {
    NoRejection(files, hw, s, 0, PGSIZE);
    files', hw' := VpWritten(files, s, 0, data), if s == hw then hw + 1 else hw;
    if s == hw {
      WriteExtends(files, hw, data);
    } else {
      WriteKeepsDense(files, hw, s, 0, data);
    }
    hide VpWritten, Dense, SlotPage, Holds;
    HoldsWhole(files, s, data);
    SlotPageHolds(files', hw', s, data);
    forall t | 0 <= t < hw && t != s ensures SlotPage(files', hw', t) == SlotPage(files, hw, t) {
      var p := SlotPage(files, hw, t);
      SlotPageHolds(files, hw, t, p);
      HoldsElsewhere(files, s, 0, data, t, p);
      SlotPageHolds(files', hw', t, p);
    }
  }

  lemma WrittenIs(files: seq<seq<Byte>>, s: nat, data: Page)
    requires s / 16 < |files| && s % 16 * PGSIZE <= |files[s / 16]|
    ensures VpWritten(files, s, 0, data) == files[s / 16 := FsState.Splice(files[s / 16], s % 16 * PGSIZE, data)]
  {
  }

  lemma Oldest(head: int, tail: int, next: seq<int>, prev: seq<int>, vaddr: seq<int>, q: seq<nat>, pte: map<int, Pte>,
               entry: map<int, nat>)
    requires Linked(head, tail, next, prev, q) && Resident(vaddr, q, pte, entry) && |q| > 0
    ensures Distinct(q) && q[|q| - 1] < |vaddr| && vaddr[q[|q| - 1]] in pte && pte[vaddr[q[|q| - 1]]].InMem?
  {
    assert q[|q| - 1] in q;
  }

  lemma RecordedOut(vaddr: seq<int>, prev: seq<int>, q: seq<nat>)
    requires Recorded(vaddr, prev, q) && Distinct(q) && |q| > 0 && q[|q| - 1] < |vaddr|
    ensures Recorded(vaddr[q[|q| - 1] := NONE], prev[q[|q| - 1] := NONE], q[..|q| - 1]) && q[|q| - 1] !in q[..|q| - 1]
  {
    var n := |q| - 1;
    forall e | 0 <= e < |vaddr| && e != q[n] ensures e in q <==> e in q[..n] {
      if e in q {
        var i :| 0 <= i < |q| && q[i] == e;
        assert q[..n][i] == e;
      }
    }
  }

  lemma SomeUsable(vaddr: seq<int>, prev: seq<int>, q: seq<nat>)
    requires Recorded(vaddr, prev, q) && |q| < |vaddr|
    ensures exists e :: 0 <= e < |vaddr| && vaddr[e] == NONE
  {
    if forall e :: 0 <= e < |vaddr| ==> vaddr[e] != NONE {
      assert Below(|vaddr|) <= Elements(q);
      SubsetSize(Below(|vaddr|), Elements(q));
    }
  }

  lemma UsableEntry(vaddr: seq<int>, prev: seq<int>, q: seq<nat>, e: nat)
    requires Recorded(vaddr, prev, q) && e < |vaddr| && vaddr[e] == NONE
    ensures e !in q && vaddr[e := NONE] == vaddr
  {
  }

  lemma FreeEntry(vaddr: seq<int>, prev: seq<int>, q: seq<nat>, e: nat)
    requires e < |vaddr| && e !in q && Recorded(vaddr[e := NONE], prev, q)
    ensures e < |prev| && prev[e] == NONE
  {
    assert vaddr[e := NONE][e] == NONE;
  }

  lemma LinkedSize(head: int, tail: int, next: seq<int>, prev: seq<int>, q: seq<nat>)
    requires Linked(head, tail, next, prev, q)
    ensures |next| == |prev|
  {
  }

  lemma ResidentIn(vaddr: seq<int>, q: seq<nat>, pte: map<int, Pte>, entry: map<int, nat>, e: nat, a: int, g: nat)
    requires Resident(vaddr, q, pte, entry) && e < |vaddr| && e !in q && (a in pte ==> pte[a].OnDisk?)
    ensures Resident(vaddr[e := a], [e] + q, pte[a := InMem(g)], entry[a := e])
  {
    var vaddr', q', pte', entry' := vaddr[e := a], [e] + q, pte[a := InMem(g)], entry[a := e];
    forall x | x in q'
      ensures x < |vaddr'| && vaddr'[x] in pte' && pte'[vaddr'[x]].InMem? && vaddr'[x] in entry' && entry'[vaddr'[x]] == x
    {
      if x != e {
        assert x in q;
      }
    }
  }

  lemma RecordedIn(vaddr: seq<int>, prev: seq<int>, prev': seq<int>, q: seq<nat>, e: nat, a: int)
    requires e < |vaddr| && a >= 0 && Recorded(vaddr[e := NONE], prev, q) && |prev'| == |prev|
    requires forall x :: 0 <= x < |prev'| && x !in [e] + q ==> prev'[x] == prev[x]
    ensures Recorded(vaddr[e := a], prev', [e] + q)
  {
    var w := vaddr[e := NONE];
    forall x | 0 <= x < |vaddr|
      ensures if x in [e] + q then vaddr[e := a][x] >= 0 else vaddr[e := a][x] == NONE && prev'[x] == NONE
    {
      assert if x in q then w[x] >= 0 else w[x] == NONE && prev[x] == NONE;
    }
  }

  lemma SlottedIn(slot: seq<int>, pte: map<int, Pte>, place: map<int, nat>, hw: nat, a: int, g: nat)
    requires Slotted(slot, pte, place, hw) && a >= 0 && a !in pte
    ensures Slotted(slot, pte[a := InMem(g)], place, hw)
  {
  }

  // ----- swapping in -----

  const BUF := 1024  // REPLACE_BUF_SIZE

  /** The first n bytes of slot s and of the frame have changed places. */
  ghost predicate Halfway(files: seq<seq<Byte>>, p: Page, s: nat, n: nat, out: Page, back: Page) {
    forall a :: 0 <= a < PGSIZE ==>
      && SlotByte(files, s, a) == (if a < n then out[a] else back[a])
      && p[a] == (if a < n then back[a] else out[a])
  }

  lemma HalfwayStart(files: seq<seq<Byte>>, s: nat, out: Page, back: Page)
    requires Holds(files, s, back)
    ensures Halfway(files, out, s, 0, out, back)
  {
  }

  lemma HalfwayEnd(files: seq<seq<Byte>>, p: Page, hw: nat, s: nat, out: Page, back: Page)
    requires Dense(files, hw) && s < hw && Halfway(files, p, s, PGSIZE, out, back)
    ensures SlotPage(files, hw, s) == out && p == back
  {
    assert Holds(files, s, out);
    SlotPageHolds(files, hw, s, out);
    assert forall a :: 0 <= a < PGSIZE ==> p[a] == back[a];
  }

  /** The read and the write of one chunk stay inside the file of slot s. */
  lemma DenseFiles(files: seq<seq<Byte>>, hw: nat, s: nat, o: nat)
    requires Dense(files, hw) && s < hw && o + BUF <= PGSIZE
    ensures FileNo(s * PGSIZE + o) == s / 16 < MAX_VPFILES == |files| && FileOff(s * PGSIZE + o) == s % 16 * PGSIZE + o
    ensures s % 16 * PGSIZE + o + BUF <= |files[s / 16]|
    ensures FileSys.Accepted(|files[s / 16]|, s % 16 * PGSIZE + o, BUF) == BUF
  {
    SlotFile(s, o);
    NoRejection(files, hw, s, o, BUF);
    SlotPageRoom(files, hw, s);
  }

  /** One chunk written to slot s: the other slots are as before. */
  lemma ChunkOut(files: seq<seq<Byte>>, hw: nat, s: nat, o: nat, data: seq<Byte>, files': seq<seq<Byte>>)
    requires Dense(files, hw) && s < hw && o + |data| <= PGSIZE && s / 16 < |files|
    requires s % 16 * PGSIZE + o <= |files[s / 16]|
    requires files' == files[s / 16 := FsState.Splice(files[s / 16], s % 16 * PGSIZE + o, data)]
    ensures Dense(files', hw) && forall t :: 0 <= t < hw && t != s ==> SlotPage(files', hw, t) == SlotPage(files, hw, t)
  {
    WriteKeepsDense(files, hw, s, o, data);
    assert files' == VpWritten(files, s, o, data);
    hide VpWritten, Dense, SlotPage, Holds, FsState.Splice;
    forall t | 0 <= t < hw && t != s ensures SlotPage(files', hw, t) == SlotPage(files, hw, t) {
      var p := SlotPage(files, hw, t);
      SlotPageHolds(files, hw, t, p);
      HoldsElsewhere(files, s, o, data, t, p);
      SlotPageHolds(files', hw, t, p);
    }
  }

  lemma ChunkHalf(files: seq<seq<Byte>>, p: Page, hw: nat, s: nat, o: nat, out: Page, back: Page, buf: seq<Byte>,
                  data: seq<Byte>,
                  files': seq<seq<Byte>>, p': Page)
    requires Dense(files, hw) && s < hw && o + BUF <= PGSIZE && Halfway(files, p, s, o, out, back)
    requires s / 16 < |files| && s % 16 * PGSIZE + o + BUF <= |files[s / 16]|
    requires buf == files[s / 16][s % 16 * PGSIZE + o..s % 16 * PGSIZE + o + BUF] && data == p[o..o + BUF]
    requires files' == files[s / 16 := FsState.Splice(files[s / 16], s % 16 * PGSIZE + o, data)]
    requires p' == p[..o] + buf + p[o + BUF..]
    ensures Halfway(files', p', s, o + BUF, out, back)
  {
    assert files' == VpWritten(files, s, o, data);
    forall a | 0 <= a < PGSIZE
      ensures SlotByte(files', s, a) == (if a < o + BUF then out[a] else back[a])
      ensures p'[a] == (if a < o + BUF then back[a] else out[a])
    {
      assert SlotByte(files, s, a) == if a < o then out[a] else back[a];
      ByteAfterWrite(files, s, o, data, s, a);
      if o <= a < o + BUF {
        assert buf[a - o] == SlotByte(files, s, a);
      }
    }
  }

  lemma SwapSlots(slot: seq<int>, pte: map<int, Pte>, place: map<int, nat>, hw: nat, a: int, v: int, s: nat, f: nat)
    requires Slotted(slot, pte, place, hw) && a in pte && pte[a].OnDisk? && v in pte && pte[v].InMem? && s < |slot|
    requires slot[s] == a
    ensures a >= 0 && s == place[a] < hw && Slotted(slot[s := v], pte[a := InMem(f)][v := OnDisk], place[v := s], hw)
    ensures forall w :: w in pte && pte[w].OnDisk? && w != a ==> w in place && place[w] < hw && place[w] != s
  {
    forall w | w in pte && pte[w].OnDisk? && w != a ensures place[w] != s {
      assert slot[place[w]] == w;
    }
  }

  lemma SwapKeys(pte: map<int, Pte>, a: int, v: int, f: nat)
    requires a in pte && v in pte && a != v
    ensures pte[v := OnDisk][a := InMem(f)] == pte[a := InMem(f)][v := OnDisk]
  {
  }

  class Swap {
    const fs: FileSys.FileSys
    const ino: seq<nat>         // inodes of the swap files vpfile[0..4]
    // the queue of resident pages, as entries of the mem_page arrays
    var vaddr: seq<int>
    var next: seq<int>
    var prev: seq<int>
    var head: int
    var tail: int
    var count: nat              // num_mem_page_entries
    var slot: seq<int>          // entries of the virtual_page arrays
    var pte: map<int, Pte>
    var page: map<nat, Page>

    ghost var files: seq<seq<Byte>>   // contents of the swap files
    ghost var queue: seq<nat>
    ghost var entry: map<int, nat>
    ghost var place: map<int, nat>
    ghost var hw: nat

    /** A process with n queue entries, no pages and empty swap files. */
    constructor (n: nat, fileSystem: FileSys.FileSys, inodes: seq<nat>)
      requires fileSystem.Valid() && |inodes| == MAX_VPFILES && Distinct(inodes)
      requires forall k :: 0 <= k < MAX_VPFILES ==>
        inodes[k] < fileSystem.sb.ninodes && fileSystem.File(inodes[k]) == []
      ensures Valid() && pte == map[] && |vaddr| == n && slot == [] && fs == fileSystem && ino == inodes
    {
      hide fileSystem.Valid;
      fs, ino := fileSystem, inodes;
      vaddr, next, prev := seq(n, _ => NONE), seq(n, _ => NONE), seq(n, _ => NONE);
      head, tail, count, slot := NONE, NONE, 0, [];
      files := [[], [], [], []];
      pte, page := map[], map[];
      queue, entry, place, hw := [], map[], map[], 0;
    }

    /** The file system holds the swap files, four different ones, with contents `files`. */
    ghost predicate Backed()
      reads this`files, fs
    {
      && fs.Valid() && |ino| == MAX_VPFILES == |files| && Distinct(ino)
      && forall k :: 0 <= k < MAX_VPFILES ==> ino[k] < fs.sb.ninodes && files[k] == fs.File(ino[k])
    }

    /** The contents of all other files. */
    ghost function Foreign(): map<nat, seq<Byte>>
      requires Backed()
      reads this`files, fs
    {
      map j | 0 <= j < fs.sb.ninodes && j !in ino :: fs.File(j)
    }

    /** Everything but the bookkeeping of entry `free`, which is about to be reused. */
    ghost predicate Ok(free: int)
      reads this, fs
    {
      && Linked(head, tail, next, prev, queue)
      && (0 <= free < |vaddr| ==> free !in queue)
      && Recorded(if 0 <= free < |vaddr| then vaddr[free := NONE] else vaddr, prev, queue)
      && Resident(vaddr, queue, pte, entry) && Framed(pte, page)
      && Slotted(slot, pte, place, hw) && Dense(files, hw) && Backed()
    }

    ghost predicate Valid()
      reads this, fs
    {
      Ok(NONE) && count == |queue|
    }

    /** What the process reads at page v: the frame if present, else the swap slot. */
    ghost function Logical(v: int): Page
      requires Framed(pte, page) && Slotted(slot, pte, place, hw) && Dense(files, hw) && v in pte
      reads this
    {
      match pte[v]
      case InMem(f) => page[f]
      case OnDisk => SlotPage(files, hw, place[v])
    }

    /** A resident page reads as its frame, any other one as its slot's part of the swap files. */
    lemma LogicalMeans(v: int)
      requires Valid() && v in pte
      ensures pte[v].InMem? ==> pte[v].frame in page && Logical(v) == page[pte[v].frame]
      ensures pte[v].OnDisk? ==> v in place && place[v] < |slot| && slot[place[v]] == v && place[v] < SLOTS
      ensures pte[v].OnDisk? ==> forall x :: 0 <= x < PGSIZE ==>
        var f := fs.File(ino[place[v] / 16]); var o := place[v] % 16 * PGSIZE + x;
        o < |f| && Logical(v)[x] == f[o]
    {
      hide fs.Valid, fs.File;
      if pte[v].OnDisk? {
        var s := place[v];
        SlotPageHolds(files, hw, s, SlotPage(files, hw, s));
        assert s < hw <= SLOTS && s / 16 < MAX_VPFILES;
        forall x | 0 <= x < PGSIZE ensures s % 16 * PGSIZE + x < |files[s / 16]|
          && Logical(v)[x] == files[s / 16][s % 16 * PGSIZE + x]
        {
          assert SlotByte(files, s, x) == SlotPage(files, hw, s)[x];
        }
      }
    }

    /** fifo_write's and fifo_replace's removal of the oldest entry. */
    method TakeOldest() returns (last: nat)
      requires Linked(head, tail, next, prev, queue) && |queue| >= 2
      modifies this`tail, this`next, this`prev, this`queue
      ensures last == old(queue)[|old(queue)| - 1] && queue == old(queue)[..|old(queue)| - 1]
      ensures Linked(head, tail, next, prev, queue)
      ensures last < |prev| == |old(prev)| && last !in queue
      ensures prev == old(prev)[last := NONE]
    {
      DropTail(head, tail, next, prev, queue);
      last := tail;
      tail := prev[last];
      next := next[prev[last] := NONE];
      prev := prev[last := NONE];
      queue := queue[..|queue| - 1];
    }

    /** The entry e becomes the newest. */
    method PushFront(e: nat)
      requires Linked(head, tail, next, prev, queue) && e < |next| && e !in queue && prev[e] == NONE
      modifies this`head, this`tail, this`next, this`prev, this`queue
      ensures queue == [e] + old(queue) && Linked(head, tail, next, prev, queue) && |prev| == |old(prev)|
      ensures forall x :: 0 <= x < |prev| && x !in queue ==> prev[x] == old(prev)[x]
    {
      PushHead(head, tail, next, prev, queue, e);
      next := next[e := head];
      if head == NONE {
        head, tail := e, e;
      } else {
        prev := prev[head := e];
        head := e;
      }
      queue := [e] + queue;
    }

    /** fifo_write's choice of a slot: the first usable one, in a new group if need be. */
    method FindSlot() returns (s: nat)
      requires |slot| % GROUP == 0
      modifies this`slot
      ensures s < |slot| && slot[s] == NONE && forall t :: 0 <= t < s ==> slot[t] != NONE
      ensures |slot| % GROUP == 0 && old(slot) <= slot && forall t :: |old(slot)| <= t < |slot| ==> slot[t] == NONE
      ensures s < SLOTS <==> Room(old(slot))
      ensures s < SLOTS <==> |old(slot)| < SLOTS || exists t :: 0 <= t < SLOTS && old(slot)[t] == NONE
    {
      var pg := 0;
      while pg * GROUP < |slot|
        invariant pg * GROUP <= |slot| && forall t :: 0 <= t < pg * GROUP ==> slot[t] != NONE
      {
        var i := 0;
        while i < GROUP
          invariant i <= GROUP && forall t :: 0 <= t < pg * GROUP + i ==> slot[t] != NONE
        {
          if slot[pg * GROUP + i] == NONE {
            s := pg * GROUP + i;
            if s < SLOTS {
              assert |slot| >= SLOTS ==> slot[..SLOTS][s] == NONE;
            }
            return;
          }
          i := i + 1;
        }
        pg := pg + 1;
      }
      s := pg * GROUP;
      slot := slot + seq(GROUP, _ => NONE);
    }

    /** balloc found no free block for a swap file that has to grow. */
    ghost predicate DiskFull()
      reads fs
    {
      |fs.disk| == fs.sb.size && FsState.Layout(fs.sb) && FileSys.DiskFull(fs.disk, fs.sb)
    }

    /** vpwrite: filewrite of data at an offset in the swap space. */
    method VpWrite(offset: nat, data: seq<Byte>) returns (r: int, panic: bool)
      requires Backed() && FileNo(offset) < MAX_VPFILES && |data| < U32
      modifies this`files, fs
      ensures panic ==> DiskFull() && FileOff(offset) + |data| > |old(files)[FileNo(offset)]|
      ensures !panic ==> Backed() && Foreign() == old(Foreign())
      ensures !panic ==> forall j :: 0 <= j < fs.sb.ninodes && j !in ino ==> fs.File(j) == old(fs.File(j))
      ensures !panic ==> var k, off := FileNo(offset), FileOff(offset);
        var a := FileSys.Accepted(|old(files)[k]|, off, |data|);
        && r == (if a == |data| then |data| else -1)
        && files == if a == 0 then old(files) else old(files)[k := FsState.Splice(old(files)[k], off, data[..a])]
    {
      hide fs.Valid, fs.File, FsState.Splice, FileSys.DiskFull, FileSys.Accepted;
      var k, off := FileNo(offset), FileOff(offset);
      var off';
      r, off', panic := fs.FileWrite(ino[k], data, off);
      if !panic {
        files := files[k := fs.File(ino[k])];
        assert forall j :: 0 <= j < MAX_VPFILES && j != k ==> ino[j] != ino[k];
      }
    }

    /** vpread: fileread of n bytes at an offset in the swap space. */
    method VpRead(offset: nat, n: nat) returns (r: int, data: seq<Byte>)
      requires Backed() && FileNo(offset) < MAX_VPFILES && n <= VPFILE_SIZE
      modifies fs
      ensures Backed() && Foreign() == old(Foreign())
      ensures var c, off := files[FileNo(offset)], FileOff(offset);
        && (r == -1 <==> off > |c|)
        && (r != -1 ==> r == |data| && data == c[off..if off + n < |c| then off + n else |c|])
    {
      hide fs.Valid;
      var k, off := FileNo(offset), FileOff(offset);
      r, data := fs.Readi(ino[k], off, n);
    }

    /** A page written to slot s.  The write is never refused. */
    method WriteSlot(s: nat, data: Page) returns (r: int, panic: bool)
      requires Backed() && Dense(files, hw) && s <= hw && s < SLOTS
      modifies this`files, this`hw, fs
      ensures panic ==> DiskFull() && s == old(hw)
      ensures !panic ==> Backed() && Foreign() == old(Foreign())
      ensures !panic ==> r == PGSIZE && hw == (if s == old(hw) then s + 1 else old(hw)) && Dense(files, hw)
      ensures !panic ==> SlotPage(files, hw, s) == data
      ensures !panic ==>
        forall t :: 0 <= t < old(hw) && t != s ==> SlotPage(files, hw, t) == old(SlotPage(files, hw, t))
    {
      hide SlotPage, VpWritten, Backed, Foreign, DiskFull;
      ghost var files', hw' := StorePage(files, hw, s, data);
      SlotFile(s, 0);
      NoRejection(files, hw, s, 0, PGSIZE);
      WrittenIs(files, s, data);
      assert data[..PGSIZE] == data;
      if s < hw {
        SlotPageRoom(files, hw, s);
      }
      r, panic := VpWrite(s * PGSIZE, data);
      if panic {
        return;
      }
      assert files == files';
      hw := hw';
    }

    /** fifo_write's store: page v goes to the first usable slot. */
    method StoreOut(v: int, data: Page) returns (r: int, panic: bool)
      requires Slotted(slot, pte, place, hw) && Dense(files, hw) && v in pte && pte[v].InMem? && Room(slot)
      requires Backed()
      modifies this`slot, this`files, this`place, this`hw, fs
      ensures panic ==> DiskFull()
      ensures !panic ==> Backed() && Foreign() == old(Foreign())
      ensures !panic ==> r == PGSIZE && Dense(files, hw) && Slotted(slot, pte[v := OnDisk], place, hw)
      ensures !panic ==> v in place && forall t :: 0 <= t < place[v] && t < |old(slot)| ==> old(slot)[t] != NONE
      ensures !panic ==> old(hw) <= hw && place == old(place)[v := place[v]] && SlotPage(files, hw, place[v]) == data
      ensures !panic ==> forall w :: w in pte && pte[w].OnDisk? ==>
        SlotPage(files, hw, place[w]) == old(SlotPage(files, hw, place[w]))
    {
      hide SlotPage, Dense, Room, Backed, Foreign, DiskFull;
      var s := FindSlot();
      GrownSlots(old(slot), pte, place, hw, slot);
      FirstFit(slot, pte, place, hw, s);
      SlottedOut(slot, pte, place, hw, v, s, if s == hw then s + 1 else hw);
      forall w | w in pte && pte[w].OnDisk? ensures place[w] < hw && place[w] != s {
        assert slot[place[w]] == w;
      }
      slot := slot[s := v];
      r, panic := WriteSlot(s, data);
      place := place[v := s];
    }

    /** fifo_write: the oldest resident page goes to the first usable slot and its frame is
        released; every page still reads the same. */
    method FifoWrite() returns (last: nat, panic: bool)
      requires Valid() && |queue| >= 2 && Room(slot)
      modifies this, fs
      ensures panic ==> DiskFull()
      ensures !panic ==> Ok(last) && last == old(queue)[|old(queue)| - 1] && last < |vaddr| && vaddr == old(vaddr)
      ensures !panic ==> queue == old(queue)[..|old(queue)| - 1] && Foreign() == old(Foreign())
      ensures !panic ==> count == old(count) && vaddr[last] in old(pte) && old(pte)[vaddr[last]].InMem?
      ensures !panic ==> pte == old(pte)[vaddr[last] := OnDisk]
      ensures !panic ==> page == old(page) - {old(pte)[vaddr[last]].frame}
      ensures !panic ==> forall w :: w in pte ==> Logical(w) == old(Logical(w))
    {
      hide SlotPage, Dense, Room, Slotted, Linked, Resident, Recorded, Backed, Foreign, DiskFull;
      Oldest(head, tail, next, prev, vaddr, queue, pte, entry);
      ResidentOut(vaddr, queue, pte, entry, vaddr[queue[|queue| - 1]]);
      RecordedOut(vaddr, prev, queue);
      last := TakeOldest();
      var v := vaddr[last];
      var f := pte[v].frame;
      var r;
      r, panic := StoreOut(v, page[f]);
      if panic || r == 0 {
        return;
      }
      FramedOut(pte, page, v);
      page := page - {f};
      pte := pte[v := OnDisk];
    }

    /** find_slot's search: the first usable entry. */
    method FindEntry() returns (e: nat)
      requires Linked(head, tail, next, prev, queue) && Recorded(vaddr, prev, queue) && |queue| < |vaddr|
      ensures e < |vaddr| && vaddr[e] == NONE && forall x :: 0 <= x < e ==> vaddr[x] != NONE
    {
      SomeUsable(vaddr, prev, queue);
      e := 0;
      while vaddr[e] != NONE
        invariant e < |vaddr| && forall x :: 0 <= x < e ==> vaddr[x] != NONE
        decreases |vaddr| - e
      {
        e := e + 1;
        if e == |vaddr| {
          assert false;
        }
      }
    }

    /** Entry e now records page a and becomes the newest. */
    method Requeue(e: nat, a: int)
      requires Linked(head, tail, next, prev, queue) && e < |vaddr| && e !in queue
      requires Recorded(vaddr[e := NONE], prev, queue) && a >= 0
      modifies this`head, this`tail, this`next, this`prev, this`queue, this`vaddr
      ensures Linked(head, tail, next, prev, queue) && Recorded(vaddr, prev, queue)
      ensures queue == [e] + old(queue) && vaddr == old(vaddr)[e := a]
    {
      hide Linked, Recorded;
      FreeEntry(vaddr, prev, queue, e);
      LinkedSize(head, tail, next, prev, queue);
      PushFront(e);
      RecordedIn(vaddr, old(prev), prev, old(queue), e, a);
      vaddr := vaddr[e := a];
    }

    /** Entry e records the new page a in frame g as the newest one. */
    method Admit(e: nat, a: int, g: nat, data: Page)
      requires Ok(e) && e < |vaddr| && a >= 0 && a !in pte && g !in page
      modifies this
      ensures Ok(NONE) && queue == [e] + old(queue) && vaddr == old(vaddr)[e := a] && pte == old(pte)[a := InMem(g)]
      ensures count == old(count) && page == old(page)[g := data] && slot == old(slot) && files == old(files)
      ensures Logical(a) == data && forall w :: w in old(pte) ==> Logical(w) == old(Logical(w))
    {
      hide SlotPage, Dense, Linked, Slotted, Resident, Recorded, Backed;
      SlottedIn(slot, pte, place, hw, a, g);
      ResidentIn(vaddr, queue, pte, entry, e, a, g);
      Requeue(e, a);
      entry := entry[a := e];
      page, pte := page[g := data], pte[a := InMem(g)];
    }

    /** One turn of allocuvm's loop: with all entries taken, the oldest page makes room. */
    method Grow(a: int, g: nat, data: Page) returns (panic: bool)
      requires Valid() && a >= 0 && a !in pte && g !in page && (count < |vaddr| || (count >= 2 && Room(slot)))
      modifies this, fs
      ensures panic ==> DiskFull() && old(count) >= |old(vaddr)|
      ensures !panic ==> Valid() && |vaddr| == |old(vaddr)| && |queue| > 0 && queue[0] < |vaddr| && vaddr[queue[0]] == a
      ensures !panic ==> pte.Keys == old(pte).Keys + {a} && Logical(a) == data && Foreign() == old(Foreign())
      ensures old(count) < |old(vaddr)| ==>
        pte == old(pte)[a := InMem(g)] && count == old(count) + 1 && queue[1..] == old(queue) && slot == old(slot)
      ensures !panic && old(count) >= |old(vaddr)| ==>
        && count == old(count) && queue[1..] == old(queue)[..|old(queue)| - 1]
        && queue[0] == old(queue)[|old(queue)| - 1] && queue[0] < |old(vaddr)|
        && pte == old(pte)[old(vaddr)[queue[0]] := OnDisk][a := InMem(g)]
      ensures !panic ==> forall w :: w in old(pte) ==> Logical(w) == old(Logical(w))
    {
      hide SlotPage, Dense, Linked, Slotted, Resident, Recorded, Framed, Backed, Foreign, DiskFull;
      panic := false;
      if count >= |vaddr| {
        var l;
        l, panic := FifoWrite();
        if panic {
          return;
        }
        Admit(l, a, g, data);
      } else {
        var e := FindEntry();
        UsableEntry(vaddr, prev, queue, e);
        Admit(e, a, g, data);
        count := count + 1;
      }
    }

    /** One turn of fifo_replace's exchange: BUF bytes at o change places. */
    method ExchangeChunk(s: nat, f: nat, o: nat, ghost out: Page, ghost back: Page)
      requires Dense(files, hw) && s < hw && f in page && o + BUF <= PGSIZE && Halfway(files, page[f], s, o, out, back)
      requires Backed()
      modifies this`files, this`page, fs
      ensures Backed() && Foreign() == old(Foreign())
      ensures Dense(files, hw) && f in page && page == old(page)[f := page[f]]
      ensures Halfway(files, page[f], s, o + BUF, out, back)
      ensures forall t :: 0 <= t < hw && t != s ==> SlotPage(files, hw, t) == old(SlotPage(files, hw, t))
    {
      hide SlotPage, SlotByte, Dense, Halfway, FsState.Splice, Backed, Foreign, DiskFull;
      DenseFiles(files, hw, s, o);
      var r, buf := VpRead(s * PGSIZE + o, BUF);
      var data := page[f][o..o + BUF];
      assert data[..BUF] == data;
      var w, panic := VpWrite(s * PGSIZE + o, data);
      page := page[f := page[f][..o] + buf + page[f][o + BUF..]];
      ChunkOut(old(files), hw, s, o, data, files);
      ChunkHalf(old(files), old(page)[f], hw, s, o, out, back, buf, data, files, page[f]);
    }

    /** fifo_replace's exchange of slot s with frame f, a quarter page at a time. */
    method Exchange(s: nat, f: nat)
      requires Backed() && Dense(files, hw) && s < hw && f in page
      modifies this`files, this`page, fs
      ensures Backed() && Foreign() == old(Foreign())
      ensures Dense(files, hw) && SlotPage(files, hw, s) == old(page)[f]
      ensures page == old(page)[f := old(SlotPage(files, hw, s))]
      ensures forall t :: 0 <= t < hw && t != s ==> SlotPage(files, hw, t) == old(SlotPage(files, hw, t))
    {
      hide SlotPage, Halfway, Dense, Holds, Backed, Foreign;
      ghost var out, back, files0 := page[f], SlotPage(files, hw, s), files;
      SlotPageHolds(files, hw, s, back);
      HalfwayStart(files, s, out, back);
      var j := 0;
      while j < 4
        invariant Backed() && Foreign() == old(Foreign())
        invariant j <= 4 && Dense(files, hw) && f in page && page == old(page)[f := page[f]]
        invariant Halfway(files, page[f], s, j * BUF, out, back)
        invariant forall t :: 0 <= t < hw && t != s ==> SlotPage(files, hw, t) == SlotPage(files0, hw, t)
      {
        ExchangeChunk(s, f, j * BUF, out, back);
        j := j + 1;
      }
      HalfwayEnd(files, page[f], hw, s, out, back);
    }

    /** fifo_replace's search for the slot of page a. */
    method FindPage(a: int) returns (s: nat)
      requires Slotted(slot, pte, place, hw) && a in pte && pte[a].OnDisk?
      ensures s < |slot| && slot[s] == a && s == place[a] && s < hw
    {
      var pg := 0;
      s := 0;
      while pg * GROUP < |slot|
        invariant pg * GROUP <= |slot| && forall t :: 0 <= t < pg * GROUP ==> slot[t] != a
      {
        var i := 0;
        while i < GROUP
          invariant i <= GROUP && forall t :: 0 <= t < pg * GROUP + i ==> slot[t] != a
        {
          if slot[pg * GROUP + i] == a {
            return pg * GROUP + i;
          }
          i := i + 1;
        }
        pg := pg + 1;
      }
      assert false;
    }

    /** fifo_replace's change of entries and contents: page a takes the frame of page v, page
        v takes the slot of page a. */
    method TradePlaces(a: int, v: int)
      requires Framed(pte, page) && Slotted(slot, pte, place, hw) && Dense(files, hw)
      requires a in pte && pte[a].OnDisk? && v in pte && pte[v].InMem? && Backed()
      modifies this`slot, this`pte, this`files, this`page, this`place, fs
      ensures Backed() && Foreign() == old(Foreign())
      ensures a >= 0 && pte == old(pte)[a := old(pte)[v]][v := OnDisk]
      ensures Framed(pte, page) && Slotted(slot, pte, place, hw) && Dense(files, hw)
      ensures page == old(page)[old(pte)[v].frame := old(Logical(a))]
      ensures forall w :: w in old(pte) ==> Logical(w) == old(Logical(w))
    {
      hide SlotPage, Dense, Slotted, Backed, Foreign;
      var f := pte[v].frame;
      var s := FindPage(a);
      SwapSlots(slot, pte, place, hw, a, v, s, f);
      slot := slot[s := v];
      pte := pte[a := InMem(f)];
      Exchange(s, f);
      pte := pte[v := OnDisk];
      place := place[v := s];
    }

    /** fifo_replace: page a and the oldest resident page change places.  Every page reads the
        same as before, a is resident and newest, and only the oldest page has left.  No block is
        allocated, so a full disk does not matter. */
    method FifoReplace(a: int)
      requires Valid() && |queue| >= 2 && a in pte && pte[a].OnDisk?
      modifies this, fs
      ensures Valid() && Foreign() == old(Foreign()) && |queue| == |old(queue)| && |vaddr| == |old(vaddr)|
      ensures queue[0] == old(queue)[|queue| - 1] && queue[1..] == old(queue)[..|queue| - 1] && queue[0] < |vaddr|
      ensures vaddr == old(vaddr)[queue[0] := a]
      ensures var v := old(vaddr)[queue[0]];
        && v in old(pte) && old(pte)[v].InMem? && pte == old(pte)[a := old(pte)[v]][v := OnDisk]
        && page == old(page)[old(pte)[v].frame := old(Logical(a))]
      ensures forall w :: w in old(pte) ==> Logical(w) == old(Logical(w))
    {
      hide SlotPage, Dense, Slotted, Linked, Resident, Recorded, Backed, Foreign;
      Oldest(head, tail, next, prev, vaddr, queue, pte, entry);
      ResidentOut(vaddr, queue, pte, entry, vaddr[queue[|queue| - 1]]);
      RecordedOut(vaddr, prev, queue);
      var last := TakeOldest();
      var v := vaddr[last];
      ResidentIn(vaddr, queue, pte[v := OnDisk], entry, last, a, pte[v].frame);
      SwapKeys(pte, a, v, pte[v].frame);
      TradePlaces(a, v);
      Requeue(last, a);
      entry := entry[a := last];
    }
  }
}
