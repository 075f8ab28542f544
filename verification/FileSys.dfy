/** fs.c over the buffer cache: `disk` is what bread returns, a log_write changes it and
    notes the block number.  The in-memory copies of all inodes are kept by number. */
module FileSys {
  import opened Blocks
  import opened Bitmap
  import opened Collections
  import opened Inodes
  import opened FsState

  function IndSet(ip: Inode): set<nat> {
    if IndOf(ip) == 0 then {} else {IndOf(ip)}
  }

  ghost predicate IsMapBlock(sb: Super, x: nat) {
    sb.size > 0 && sb.bmapstart <= x <= sb.bmapstart + (sb.size - 1) / BPB
  }

  /** Between logs l and l' only bitmap blocks and the blocks in extra were logged. */
  ghost predicate LogsOnly(l: set<nat>, l': set<nat>, sb: Super, extra: set<nat>) {
    l <= l' && forall x :: x in l' ==> x in l || x in extra || IsMapBlock(sb, x)
  }

  lemma LogsTrans(a: set<nat>, b: set<nat>, c: set<nat>, sb: Super, extra: set<nat>)
    requires LogsOnly(a, b, sb, extra) && LogsOnly(b, c, sb, extra)
    ensures LogsOnly(a, c, sb, extra)
  {
  }

  ghost predicate DiskFull(d: seq<Block>, sb: Super)
    requires |d| == sb.size && Layout(sb)
  {
    forall c :: 0 <= c < sb.size ==> InUse(d, sb.bmapstart, c)
  }

  lemma DiskFullMeans(d: seq<Block>, sb: Super)
    requires |d| == sb.size && Layout(sb) && DiskFull(d, sb)
    ensures forall c :: 0 <= c < sb.size ==> InUse(d, sb.bmapstart, c)
  {
  }

  /** The bitmap marks the metadata and the blocks with an owner, and no others. */
  lemma MapExact(d: seq<Block>, sb: Super, f: Files)
    requires Consistent(d, sb, f, sb.ninodes, sb.ninodes, {})
    ensures forall b :: 0 <= b < sb.size ==> (InUse(d, sb.bmapstart, b) <==> b < sb.datastart || b in f.owner)
    ensures forall b :: b in f.owner ==> sb.datastart <= b < sb.size
  {
    hide Rep, InUse, Stored;
    forall b | b in f.owner ensures sb.datastart <= b < sb.size {
    }
  }

  lemma WithoutMeans(owner: map<nat, Owner>, i: nat)
    ensures forall b :: b in Without(owner, i) <==> b in owner && owner[b].inum != i
  {
  }

  /** Blocks with an owner are as before. */
  ghost predicate Keeps(d: seq<Block>, d': seq<Block>, owner: map<nat, Owner>) {
    |d| == |d'| && forall x :: x in owner && x < |d| ==> d'[x] == d[x]
  }

  /** Every inode but i, and every block of theirs, is as before; inode i keeps its size and
      its indirect block. */
  ghost predicate Others(d: seq<Block>, f: Files, d': seq<Block>, f': Files, i: nat)
    requires |f.inode| == |f'.inode| && i < |f.inode|
  {
    && |d| == |d'| && f'.inode == f.inode[i := f.inode[i].(addrs := f'.inode[i].addrs)]
    && (IndOf(f.inode[i]) != 0 ==> IndOf(f'.inode[i]) == IndOf(f.inode[i]))
    && forall b :: b in f.owner ==>
      b in f'.owner && f'.owner[b] == f.owner[b] && (f.owner[b].inum != i && b < |d| ==> d'[b] == d[b])
  }

  lemma OthersTrans(d0: seq<Block>, f0: Files, d1: seq<Block>, f1: Files, d2: seq<Block>, f2: Files, i: nat)
    requires |f0.inode| == |f1.inode| == |f2.inode| && i < |f0.inode| && Others(d0, f0, d1, f1, i)
    requires Others(d1, f1, d2, f2, i)
    ensures Others(d0, f0, d2, f2, i)
  {
  }

  lemma KeepsDataTrans(d0: seq<Block>, d1: seq<Block>, d2: seq<Block>, o0: map<nat, Owner>, o1: map<nat, Owner>,
                       b: nat, i: nat)
    requires KeepsData(d0, d1, o0) && KeepsData(d1, d2, o1) && o1 == o0[b := Indirect(i)] && b !in o0
    ensures KeepsData(d0, d2, o0)
  {
  }

  lemma LogsMore(l: set<nat>, l': set<nat>, sb: Super, a: set<nat>, b: set<nat>)
    requires LogsOnly(l, l', sb, a) && a <= b
    ensures LogsOnly(l, l', sb, b)
  {
  }

  /** Data blocks are as before. */
  ghost predicate KeepsData(d: seq<Block>, d': seq<Block>, owner: map<nat, Owner>) {
    |d| == |d'| && forall b :: b in owner && owner[b].Data? && b < |d| ==> d'[b] == d[b]
  }

  lemma Unchanged(d: seq<Block>, f: Files, i: nat)
    requires i < |f.inode|
    ensures Others(d, f, d, f, i) && KeepsData(d, d, f.owner)
  {
  }

  /** The blocks of a file are where they were and hold what they held. */
  lemma FileKept(d: seq<Block>, sb: Super, f: Files, out: nat, who: nat, pending: set<nat>, i: nat, d': seq<Block>)
    requires Consistent(d, sb, f, out, who, pending) && i < sb.ninodes && i != out && KeepsData(d, d', f.owner)
    ensures forall p :: 0 <= p < |f.blocks[i]| ==>
      f.blocks[i][p] < |d| == |d'| && d'[f.blocks[i][p]] == d[f.blocks[i][p]]
  {
    hide Rep, Stored, InUse;
    forall p | 0 <= p < |f.blocks[i]| ensures f.blocks[i][p] < |d| && d'[f.blocks[i][p]] == d[f.blocks[i][p]] {
      InData(d, sb, f, out, who, pending, i, p);
    }
  }

  lemma OthersSame(d: seq<Block>, f: Files, d': seq<Block>, f': Files, i: nat)
    requires |f.inode| == |f'.inode| && i < |f.inode| && Others(d, f, d', f', i)
    ensures f'.inode == f.inode[i := f'.inode[i]] && f'.inode[i] == f.inode[i].(addrs := f'.inode[i].addrs)
    ensures f'.inode[i].size == f.inode[i].size && (IndOf(f.inode[i]) != 0 ==> IndOf(f'.inode[i]) == IndOf(f.inode[i]))
  {
  }

  lemma OthersPatch(d0: seq<Block>, f0: Files, d: seq<Block>, f: Files, i: nat, b: nat, d': seq<Block>)
    requires |f0.inode| == |f.inode| && i < |f0.inode| && Others(d0, f0, d, f, i) && b in f.owner
    requires f.owner[b].inum == i
    requires |d'| == |d| && forall x :: 0 <= x < |d| && x != b ==> d'[x] == d[x]
    ensures Others(d0, f0, d', f, i)
  {
  }

  lemma LogsNone(l: set<nat>, sb: Super, extra: set<nat>)
    ensures LogsOnly(l, l, sb, extra)
  {
  }

  lemma LogsOne(l: set<nat>, l': set<nat>, sb: Super, extra: set<nat>, b: nat)
    requires LogsOnly(l, l', sb, extra) && b in extra
    ensures LogsOnly(l, l' + {b}, sb, extra)
  {
  }

  /** One more block of a write that started at off: what was logged so far. */
  lemma LogsBlock(l0: set<nat>, l: set<nat>, l': set<nat>, sb: Super, ip: Inode, ip': Inode, bl: seq<nat>,
                  bl': seq<nat>, off: nat, o: nat, m: nat)
    requires LogsOnly(l0, l, sb, Touched(bl, off / BSIZE, Ceil(o)) + IndSet(ip)) && bl <= bl' && o / BSIZE < |bl'|
    requires off <= o
    requires LogsOnly(l, l', sb, {bl'[o / BSIZE]} + IndSet(ip')) && 0 < m
    requires (IndOf(ip) != 0 ==> IndOf(ip') == IndOf(ip))
    ensures LogsOnly(l0, l', sb, Touched(bl', off / BSIZE, Ceil(o + m)) + IndSet(ip'))
  {
    var all := Touched(bl', off / BSIZE, Ceil(o + m)) + IndSet(ip');
    TouchedMore(bl, bl', off / BSIZE, Ceil(o), Ceil(o + m));
    assert bl'[o / BSIZE] in Touched(bl', off / BSIZE, Ceil(o + m));
    hide LogsOnly, Touched;
    LogsMore(l0, l, sb, Touched(bl, off / BSIZE, Ceil(o)) + IndSet(ip), all);
    LogsMore(l, l', sb, {bl'[o / BSIZE]} + IndSet(ip'), all);
    LogsTrans(l0, l, l', sb, all);
  }

  lemma DenseAt(f: Files, n: nat, i: nat)
    requires |f.inode| == |f.blocks| && NoHoles(f, n, 0) && i < |f.inode| && i != n
    ensures |f.blocks[i]| == Ceil(f.inode[i].size) && (IndOf(f.inode[i]) != 0 <==> |f.blocks[i]| > NDIRECT)
  {
    assert Dense(f.inode[i], |f.blocks[i]|, f.inode[i].size);
  }

  lemma KeptSelf(d: seq<Block>, sb: Super)
    ensures InodesKept(d, d, sb)
  {
  }

  lemma FileRoom(d: seq<Block>, sb: Super, f: Files, i: nat)
    requires Consistent(d, sb, f, sb.ninodes, sb.ninodes, {}) && NoHoles(f, sb.ninodes, 0) && i < sb.ninodes
    ensures Listed(d, f.blocks[i]) && f.inode[i].size <= BSIZE * |f.blocks[i]| && f.inode[i].size <= BSIZE * MAXFILE
  {
    hide Owners, Stored, Mapped;
    DataApart(d, sb, f, sb.ninodes, sb.ninodes, {}, i);
    assert Dense(f.inode[i], |f.blocks[i]|, f.inode[i].size);
    assert Rep(d, f.inode[i], f.blocks[i]);
    CeilBound(f.inode[i].size);
  }

  lemma NoHolesAfter(f0: Files, f: Files, i: nat, n: nat)
    requires |f0.inode| == |f0.blocks| == |f.inode| == |f.blocks| == n && i < n && NoHoles(f0, n, 0)
    requires f.inode == f0.inode[i := f.inode[i]] && f.blocks == f0.blocks[i := f.blocks[i]]
    requires Dense(f.inode[i], |f.blocks[i]|, f.inode[i].size)
    ensures NoHoles(f, n, 0)
  {
    forall j | 0 <= j < n ensures Dense(f.inode[j], |f.blocks[j]|, f.inode[j].size) {
      assert Dense(f0.inode[j], |f0.blocks[j]|, f0.inode[j].size);
    }
  }

  lemma FileSize(d: seq<Block>, sb: Super, f: Files, i: nat)
    requires Consistent(d, sb, f, sb.ninodes, sb.ninodes, {}) && NoHoles(f, sb.ninodes, 0) && i < sb.ninodes
    ensures Listed(d, f.blocks[i]) && f.inode[i].size <= BSIZE * |f.blocks[i]| && f.inode[i].size <= BSIZE * MAXFILE
    ensures |Content(d, f.blocks[i], f.inode[i].size)| == f.inode[i].size
  {
    FileRoom(d, sb, f, i);
  }

  lemma IndSame(ip: Inode, ip': Inode)
    requires ip.addrs == ip'.addrs
    ensures IndSet(ip) == IndSet(ip')
  {
  }

  lemma LogsEnd(l0: set<nat>, l: set<nat>, l': set<nat>, sb: Super, extra: set<nat>, b: nat)
    requires LogsOnly(l0, l, sb, extra) && l <= l' <= l + {b}
    ensures LogsOnly(l0, l', sb, extra + {b})
  {
  }

  /** After the loop and the end of writei, file i holds the spliced contents. */
  lemma WriteContents(d0: seq<Block>, sb: Super, f0: Files, d: seq<Block>, f: Files, i: nat, off: nat, src: seq<Byte>,
                      d': seq<Block>, f': Files)
    requires Consistent(d0, sb, f0, sb.ninodes, sb.ninodes, {}) && NoHoles(f0, sb.ninodes, 0) && i < sb.ninodes
    requires Consistent(d', sb, f', sb.ninodes, sb.ninodes, {}) && NoHoles(f', sb.ninodes, 0)
    requires off <= f0.inode[i].size && f'.inode[i].size == Max(f0.inode[i].size, off + |src|)
    requires |f.blocks| == sb.ninodes && Patched(d0, f0.blocks[i], off, src, d, f.blocks[i]) && f'.blocks == f.blocks
    requires |d'| == |d|
    requires forall x :: sb.bmapstart <= x < |d| ==> d'[x] == d[x]
    ensures f0.inode[i].size <= BSIZE * |f0.blocks[i]| && f'.inode[i].size <= BSIZE * |f'.blocks[i]|
    ensures Listed(d0, f0.blocks[i]) && Listed(d', f'.blocks[i])
    ensures Content(d', f'.blocks[i], f'.inode[i].size) == Splice(Content(d0, f0.blocks[i], f0.inode[i].size), off, src)
  {
    FileSize(d0, sb, f0, i);
    FileSize(d', sb, f', i);
    DataApart(d', sb, f', sb.ninodes, sb.ninodes, {}, i);
    PatchedFrame(d0, f0.blocks[i], off, src, d, f.blocks[i], d', sb);
    PatchedContent(d0, f0.blocks[i], f0.inode[i].size, off, src, d', f'.blocks[i]);
  }

  lemma PatchedFrame(d0: seq<Block>, bl0: seq<nat>, off: nat, src: seq<Byte>, d: seq<Block>, bl: seq<nat>,
                     d': seq<Block>, sb: Super)
    requires Patched(d0, bl0, off, src, d, bl) && |d'| == |d| && (forall p :: 0 <= p < |bl| ==> sb.bmapstart <= bl[p])
    requires forall x :: sb.bmapstart <= x < |d| ==> d'[x] == d[x]
    ensures Patched(d0, bl0, off, src, d', bl)
  {
    forall k: nat ensures Peek(d', bl, k) == Peek(d, bl, k) {
    }
  }

  /** Other files keep their contents. */
  lemma ForeignContents(d0: seq<Block>, sb: Super, f0: Files, d: seq<Block>, f: Files, i: nat, d': seq<Block>,
                        f': Files, j: nat)
    requires Consistent(d0, sb, f0, sb.ninodes, sb.ninodes, {}) && NoHoles(f0, sb.ninodes, 0) && i < sb.ninodes
    requires j < sb.ninodes && j != i
    requires Consistent(d', sb, f', sb.ninodes, sb.ninodes, {}) && NoHoles(f', sb.ninodes, 0)
    requires |f.inode| == sb.ninodes && Others(d0, f0, d, f, i) && |d'| == |d|
    requires forall x :: sb.bmapstart <= x < |d| ==> d'[x] == d[x]
    requires f'.blocks[j] == f0.blocks[j] && f'.inode[j] == f0.inode[j]
    ensures f0.inode[j].size <= BSIZE * |f0.blocks[j]| && Listed(d0, f0.blocks[j]) && Listed(d', f0.blocks[j])
    ensures Content(d', f0.blocks[j], f0.inode[j].size) == Content(d0, f0.blocks[j], f0.inode[j].size)
  {
    hide Rep, Stored, InUse, NoHoles;
    FileSize(d0, sb, f0, j);
    FileSize(d', sb, f', j);
    forall p | 0 <= p < |f0.blocks[j]| ensures d'[f0.blocks[j][p]] == d0[f0.blocks[j][p]] {
      InData(d0, sb, f0, sb.ninodes, sb.ninodes, {}, j, p);
    }
    ContentSame(d0, d', f0.blocks[j], f0.inode[j].size);
  }

  lemma BlocksBound(d: seq<Block>, sb: Super, f: Files, i: nat)
    requires Consistent(d, sb, f, sb.ninodes, sb.ninodes, {}) && i < sb.ninodes
    ensures |f.blocks[i]| <= MAXFILE
  {
    hide Owners, Stored, Mapped;
    assert Rep(d, f.inode[i], f.blocks[i]);
  }

  const CHUNK := 1536  // filewrite's max: ((MAXOPBLOCKS-1-1-2) / 2) * 512

  /** Four data blocks, the indirect block, one bitmap block and the inode's block. */
  lemma OneOp(l: set<nat>, sb: Super, ip: Inode, bl: seq<nat>, off: nat, n: nat, ib: nat)
    requires sb.size <= BPB && n <= CHUNK
    requires LogsOnly({}, l, sb, Touched(bl, off / BSIZE, Ceil(off + n)) + IndSet(ip) + {ib})
    ensures |l| <= 7
  {
    var t := Touched(bl, off / BSIZE, Ceil(off + n));
    TouchedSize(bl, off / BSIZE, Ceil(off + n));
    assert |IndSet(ip)| <= 1;
    var all := t + IndSet(ip) + {ib} + {sb.bmapstart};
    assert l <= all;
    SubsetSize(l, all);
  }

  lemma TwoBlocks(l: set<nat>, sb: Super, ib: nat)
    requires sb.size <= BPB && LogsOnly({}, l, sb, {ib})
    ensures |l| <= 2
  {
    assert l <= {ib, sb.bmapstart};
    SubsetSize(l, {ib, sb.bmapstart});
  }

  /** How many of n bytes filewrite stores at off in a file of the given size. */
  function Accepted(size: nat, off: nat, n: nat): (r: nat)
    ensures n == 0 || (off <= size && off + n <= MAXFILE * BSIZE) ==> r == n
    ensures n > 0 && off > size ==> r == 0
    ensures n > 0 && off <= size && off <= MAXFILE * BSIZE < off + n ==>
      r % CHUNK == 0 && off + r <= MAXFILE * BSIZE < off + r + CHUNK
  {
    if n == 0 || (off <= size && off + n <= MAXFILE * BSIZE) then n
    else if off > size || off > MAXFILE * BSIZE then 0
    else (MAXFILE * BSIZE - off) / CHUNK * CHUNK
  }

  lemma AcceptedShort(size: nat, off: nat, n: nat, k: nat, n1: nat)
    requires k < n && k % CHUNK == 0 && n1 == (if n - k > CHUNK then CHUNK else n - k)
    requires
      if k == 0 then off > size || off + n1 > MAXFILE * BSIZE
      else off <= size && off + k <= MAXFILE * BSIZE < off + k + n1
    ensures k == Accepted(size, off, n)
  {
  }

  lemma SpliceLength(c: seq<Byte>, off: nat, src: seq<Byte>)
    requires off <= |c|
    ensures |Splice(c, off, src)| == Max(|c|, off + |src|)
  {
  }

  /** What itrunc reads from inode ip with blocks bl: each block once, zeros after them. */
  ghost predicate Lookup(ip: Inode, bl: seq<nat>) {
    && Fits(ip) && |bl| <= MAXFILE && (IndOf(ip) == 0 ==> |bl| <= NDIRECT)
    && (forall p :: 0 <= p < NDIRECT ==> ip.addrs[p] == if p < |bl| then bl[p] else 0)
    && (forall p :: 0 <= p < |bl| ==> bl[p] != 0) && IndOf(ip) !in bl
    && (forall p, q :: 0 <= p < |bl| && 0 <= q < |bl| && p != q ==> bl[p] != bl[q])
  }

  lemma TruncLookup(d: seq<Block>, sb: Super, f: Files, i: nat)
    requires Consistent(d, sb, f, sb.ninodes, sb.ninodes, {}) && i < sb.ninodes
    ensures Lookup(f.inode[i], f.blocks[i])
    ensures IndOf(f.inode[i]) != 0 ==>
      sb.datastart <= IndOf(f.inode[i]) < |d| && Lists(d[IndOf(f.inode[i])], f.blocks[i])
  {
    hide Owners, Stored, InUse;
    assert Rep(d, f.inode[i], f.blocks[i]);
    DataApart(d, sb, f, sb.ninodes, sb.ninodes, {}, i);
    if IndOf(f.inode[i]) != 0 {
      InIndirect(d, sb, f, sb.ninodes, sb.ninodes, {}, i);
    }
    forall p | 0 <= p < |f.blocks[i]| ensures f.blocks[i][p] != 0 && f.blocks[i][p] != IndOf(f.inode[i]) {
      InData(d, sb, f, sb.ninodes, sb.ninodes, {}, i, p);
    }
  }

  ghost predicate SameFrom(d: seq<Block>, d': seq<Block>, a: nat) {
    |d| == |d'| && forall x :: a <= x < |d| ==> d'[x] == d[x]
  }

  lemma SameFromSelf(d: seq<Block>, a: nat)
    ensures SameFrom(d, d, a)
  {
  }

  lemma SameFromTrans(d0: seq<Block>, d1: seq<Block>, d2: seq<Block>, a: nat)
    requires SameFrom(d0, d1, a) && SameFrom(d1, d2, a)
    ensures SameFrom(d0, d2, a)
  {
  }

  lemma EmptyFile(d: seq<Block>, bl: seq<nat>)
    requires Listed(d, bl)
    ensures Content(d, bl, 0) == []
  {
  }

  /** A file none of whose blocks or inode changed keeps its contents. */
  lemma KeptContents(d0: seq<Block>, sb: Super, f0: Files, d: seq<Block>, f: Files, j: nat)
    requires Consistent(d0, sb, f0, sb.ninodes, sb.ninodes, {}) && NoHoles(f0, sb.ninodes, 0) && j < sb.ninodes
    requires Consistent(d, sb, f, sb.ninodes, sb.ninodes, {}) && NoHoles(f, sb.ninodes, 0)
    requires SameFrom(d0, d, sb.datastart) && f.blocks[j] == f0.blocks[j] && f.inode[j] == f0.inode[j]
    ensures Listed(d, f.blocks[j]) && Listed(d0, f0.blocks[j])
    ensures f0.inode[j].size <= BSIZE * |f0.blocks[j]|
    ensures Content(d, f.blocks[j], f.inode[j].size) == Content(d0, f0.blocks[j], f0.inode[j].size)
  {
    hide Rep, Stored, InUse, NoHoles;
    FileSize(d0, sb, f0, j);
    FileSize(d, sb, f, j);
    DataApart(d0, sb, f0, sb.ninodes, sb.ninodes, {}, j);
    ContentSame(d0, d, f0.blocks[j], f0.inode[j].size);
  }

  /** A disk that holds these files, with nothing stale and no holes. */
  ghost predicate Whole(d: seq<Block>, sb: Super, f: Files) {
    Consistent(d, sb, f, sb.ninodes, sb.ninodes, {}) && NoHoles(f, sb.ninodes, 0)
  }

  /** An operation took a whole file system to a whole file system and changed only blocks it
      logged, none of them below the inode blocks. */
  ghost predicate Transaction(sb: Super, d0: seq<Block>, f0: Files, d1: seq<Block>, f1: Files, logged: set<nat>) {
    && Whole(d0, sb, f0) && Whole(d1, sb, f1)
    && (forall b :: 0 <= b < |d0| && b < |d1| && b !in logged ==> d1[b] == d0[b])
    && (forall b :: b in logged ==> sb.inodestart <= b < sb.size)
  }

  /** What an operation on inode i logs lies in the inode blocks, the bitmap or the data. */
  lemma LogsInPlace(l: set<nat>, d: seq<Block>, sb: Super, f: Files, i: nat, a: nat, b: nat)
    requires Whole(d, sb, f) && i < sb.ninodes
    requires LogsOnly({}, l, sb, Touched(f.blocks[i], a, b) + IndSet(f.inode[i]) + {IBlock(sb, i)})
    ensures forall x :: x in l ==> sb.inodestart <= x < sb.size
  {
    hide NoHoles, Rep, Stored;
    DataApart(d, sb, f, sb.ninodes, sb.ninodes, {}, i);
    if IndOf(f.inode[i]) != 0 {
      InIndirect(d, sb, f, sb.ninodes, sb.ninodes, {}, i);
    }
  }

  function ReadInodes(d: seq<Block>, sb: Super): seq<Inode>
    requires |d| == sb.size && Layout(sb)
  {
    seq(sb.ninodes, i requires 0 <= i < sb.ninodes => GetInode(d[IBlock(sb, i)], i % IPB))
  }

  class FileSys {
    const sb: Super
    var disk: seq<Block>
    var inode: seq<Inode>
    ghost var before: seq<Block>  // the disk at begin_op
    ghost var logged: set<nat>    // given to log_write since begin_op
    ghost var blocks: seq<seq<nat>>
    ghost var owner: map<nat, Owner>

    /** A mounted image, with every inode read as ilock reads it. */
    constructor (super: Super, image: seq<Block>, ghost lists: seq<seq<nat>>, ghost owners: map<nat, Owner>)
      requires |image| == super.size && Layout(super)
      requires Consistent(image, super, Files(ReadInodes(image, super), lists, owners), super.ninodes, super.ninodes, {})
      requires NoHoles(Files(ReadInodes(image, super), lists, owners), super.ninodes, 0)
      ensures Valid() && disk == image && sb == super
    {
      sb, disk, inode := super, image, ReadInodes(image, super);
      before, logged, blocks, owner := image, {}, lists, owners;
    }

    /** Every block changed since begin_op has been logged. */
    ghost predicate Tx()
      reads this`disk, this`before, this`logged
    {
      |before| == |disk| && forall b :: 0 <= b < |disk| && b !in logged ==> disk[b] == before[b]
    }

    ghost function F(): Files
      reads this
    {
      Files(inode, blocks, owner)
    }

    /** fs.c's invariant while inode who may be ahead of its disk copy. */
    ghost predicate Ok(out: nat, who: nat, pending: set<nat>)
      reads this
    {
      Consistent(disk, sb, F(), out, who, pending) && Tx()
    }

    method LogWrite(b: nat, data: Block)
      requires b < |disk| && Tx()
      modifies this`disk, this`logged
      ensures Tx() && disk == old(disk)[b := data] && logged == old(logged) + {b}
    {
      disk := disk[b := data];
      logged := logged + {b};
    }

    /** balloc's search for the first clear bit; sb.size when there is none. */
    method FindFree() returns (r: nat)
      requires |disk| == sb.size && Layout(sb)
      ensures r <= sb.size && (forall c :: 0 <= c < r ==> InUse(disk, sb.bmapstart, c))
      ensures r < sb.size ==> !InUse(disk, sb.bmapstart, r)
    {
      var b := 0;
      while b < sb.size
        invariant b % BPB == 0 && forall c :: 0 <= c < b && c < sb.size ==> InUse(disk, sb.bmapstart, c)
      {
        var bp := disk[BBlock(sb, b)];
        var bi := 0;
        while bi < BPB && b + bi < sb.size
          invariant 0 <= bi <= BPB && forall c :: 0 <= c < b + bi && c < sb.size ==> InUse(disk, sb.bmapstart, c)
        {
          assert (b + bi) / BPB == b / BPB && (b + bi) % BPB == bi;
          if !Bit(bp, bi) {
            return b + bi;
          }
          bi := bi + 1;
        }
        b := b + BPB;
      }
      r := sb.size;
    }

    /** balloc: the lowest free block, marked and zeroed; 0 stands for the "out of blocks"
        panic. */
    method Balloc(ghost out: nat, ghost who: nat, ghost pending: set<nat>) returns (b: nat)
      requires Ok(out, who, pending)
      modifies this`disk, this`logged
      ensures b == 0 ==>
        disk == old(disk) && logged == old(logged) && |disk| == sb.size && Layout(sb) && DiskFull(disk, sb)
      ensures b != 0 ==> Ok(out, who, pending + {b}) && sb.datastart <= b < sb.size && b !in owner && b !in pending
      ensures b != 0 ==> Keeps(old(disk), disk, owner) && disk[b] == ZERO_BLOCK
      ensures b == 0 <==> forall c :: 0 <= c < sb.size ==> InUse(old(disk), sb.bmapstart, c)
      ensures b != 0 ==> !InUse(old(disk), sb.bmapstart, b) && forall c :: 0 <= c < b ==> InUse(old(disk), sb.bmapstart, c)
      ensures b != 0 ==>
        forall c :: 0 <= c < sb.size ==> (InUse(disk, sb.bmapstart, c) <==> c == b || InUse(old(disk), sb.bmapstart, c))
      ensures b != 0 ==> LogsOnly(old(logged), logged, sb, {b})
    {
      hide AllRep, Owners, Stored, InUse, Tx;
      b := FindFree();
      if b == sb.size {
        return 0;
      }
      ghost var d := disk;
      LogWrite(BBlock(sb, b), Marked(disk[BBlock(sb, b)], b % BPB));
      ghost var d1 := disk;
      LogWrite(b, ZERO_BLOCK);
      Alloc(d, sb, F(), out, who, pending, b, d1, disk, ZERO_BLOCK);
      assert IsMapBlock(sb, BBlock(sb, b));
    }

    /** bfree of a block in use, so that the panic "freeing free block" is not reached. */
    method Bfree(b: nat, ghost out: nat, ghost who: nat, ghost pending: set<nat>)
      requires Ok(out, who, pending) && b in pending
      modifies this`disk, this`logged
      ensures Ok(out, who, pending - {b}) && |disk| == |old(disk)| && LogsOnly(old(logged), logged, sb, {})
      ensures forall x :: sb.datastart <= x < sb.size ==> disk[x] == old(disk)[x]
      ensures forall c :: 0 <= c < sb.size ==>
        (InUse(disk, sb.bmapstart, c) <==> c != b && InUse(old(disk), sb.bmapstart, c))
    {
      hide AllRep, Owners, Stored, Tx;
      var bp := disk[BBlock(sb, b)];
      assert InUse(disk, sb.bmapstart, b);
      assert Bit(bp, b % BPB);
      ghost var d := disk;
      LogWrite(BBlock(sb, b), Cleared(bp, b % BPB));
      Free(d, sb, F(), out, who, pending, b, disk);
    }

    /** A block bmap may return for position bn: inode i's next block after the ones it has. */
    ghost predicate Extends(i: nat, b: nat, d0: seq<Block>, f0: Files)
      reads this
    {
      && i < sb.ninodes && |f0.inode| == |f0.blocks| == sb.ninodes && |inode| == |blocks| == sb.ninodes
      && Ok(sb.ninodes, i, {}) && b < |disk| && disk[b] == ZERO_BLOCK && b !in f0.owner
      && blocks == f0.blocks[i := f0.blocks[i] + [b]] && b in owner && owner[b] == Data(i, |f0.blocks[i]|)
      && Others(d0, f0, disk, F(), i) && KeepsData(d0, disk, f0.owner)
    }

    /** bmap's allocation of a direct block. */
    method GrowDirect(i: nat, bn: nat) returns (b: nat)
      requires Ok(sb.ninodes, i, {}) && i < sb.ninodes && bn == |blocks[i]| < NDIRECT
      modifies this`disk, this`inode, this`logged, this`blocks, this`owner
      ensures b == 0 ==> |disk| == sb.size && Layout(sb) && DiskFull(disk, sb)
      ensures b != 0 ==>
        Extends(i, b, old(disk), old(F())) && |inode| == sb.ninodes && IndOf(inode[i]) == IndOf(old(inode)[i])
      ensures b != 0 ==> LogsOnly(old(logged), logged, sb, {b})
    {
      hide Rep, Owners, Stored, InUse, OwnerHolds, Tx;
      b := Balloc(sb.ninodes, i, {});
      if b == 0 {
        return;
      }
      ghost var f := F();
      var ip := inode[i].(addrs := inode[i].addrs[bn := b]);
      inode := inode[i := ip];
      blocks := blocks[i := blocks[i] + [b]];
      owner := owner[b := Data(i, bn)];
      AdoptDirect(disk, sb, f, sb.ninodes, i, b, {b}, ip, F());
      assert {b} - {b} == {};
    }

    /** bmap's allocation of the indirect block. */
    method NewIndirect(i: nat) returns (b: nat)
      requires Ok(sb.ninodes, i, {}) && i < sb.ninodes && IndOf(inode[i]) == 0
      modifies this`disk, this`inode, this`logged, this`blocks, this`owner
      ensures b == 0 ==> |disk| == sb.size && Layout(sb) && DiskFull(disk, sb)
      ensures b != 0 ==> Ok(sb.ninodes, i, {}) && blocks == old(blocks) && IndOf(inode[i]) == b
      ensures b != 0 ==>
        Others(old(disk), old(F()), disk, F(), i) && owner == old(owner)[b := Indirect(i)] && b !in old(owner)
      ensures b != 0 ==> KeepsData(old(disk), disk, old(owner))
      ensures b != 0 ==> LogsOnly(old(logged), logged, sb, {b})
    {
      hide Rep, Owners, Stored, InUse, OwnerHolds, Tx;
      b := Balloc(sb.ninodes, i, {});
      if b == 0 {
        return;
      }
      ghost var f := F();
      var ip := inode[i].(addrs := inode[i].addrs[NDIRECT := b]);
      inode := inode[i := ip];
      owner := owner[b := Indirect(i)];
      AdoptNewIndirect(disk, sb, f, sb.ninodes, i, b, {b}, ip, F());
      assert {b} - {b} == {};
    }

    /** bmap's allocation of a block listed in the indirect block. */
    method GrowIndirect(i: nat, bn: nat) returns (b: nat)
      requires Ok(sb.ninodes, i, {}) && i < sb.ninodes && NDIRECT <= bn == |blocks[i]| < MAXFILE && IndOf(inode[i]) != 0
      modifies this`disk, this`inode, this`logged, this`blocks, this`owner
      ensures b == 0 ==> |disk| == sb.size && Layout(sb) && DiskFull(disk, sb)
      ensures b != 0 ==> Extends(i, b, old(disk), old(F())) && inode == old(inode)
      ensures b != 0 ==> LogsOnly(old(logged), logged, sb, {b} + IndSet(inode[i]))
    {
      hide Rep, Stored, InUse, Owners, SetWord, Tx;
      b := Balloc(sb.ninodes, i, {});
      if b == 0 {
        return;
      }
      ghost var d, f := disk, F();
      var ind := inode[i].addrs[NDIRECT];
      InIndirect(disk, sb, f, sb.ninodes, i, {b}, i);
      LogWrite(ind, SetWord(disk[ind], bn - NDIRECT, b));
      blocks := blocks[i := blocks[i] + [b]];
      owner := owner[b := Data(i, bn)];
      AdoptIndirect(d, sb, f, sb.ninodes, i, b, {b}, disk, F());
      assert {b} - {b} == {};
    }

    /** bmap for a position in the file or right after its last block; 0 when the disk is
        full.  Blocks that are there are found without a change. */
    method Bmap(i: nat, bn: nat) returns (addr: nat)
      requires Ok(sb.ninodes, i, {}) && i < sb.ninodes && bn < MAXFILE && bn <= |blocks[i]|
      requires IndOf(inode[i]) != 0 <==> |blocks[i]| > NDIRECT
      modifies this`disk, this`inode, this`logged, this`blocks, this`owner
      ensures addr == 0 ==> |disk| == sb.size && Layout(sb) && DiskFull(disk, sb)
      ensures bn < |old(blocks)[i]| ==> addr == old(blocks)[i][bn] && addr != 0
      ensures bn < |old(blocks)[i]| ==> F() == old(F()) && disk == old(disk) && logged == old(logged)
      ensures addr != 0 && bn == |old(blocks)[i]| ==> Extends(i, addr, old(disk), old(F()))
      ensures addr != 0 && bn == |old(blocks)[i]| ==> |inode| == sb.ninodes && (IndOf(inode[i]) != 0 <==> bn >= NDIRECT)
      ensures addr != 0 && bn == |old(blocks)[i]| ==> LogsOnly(old(logged), logged, sb, {addr} + IndSet(inode[i]))
    {
      hide Rep, Owners, Stored, LogsOnly, DiskFull, Extends, Others, InUse, Tx;
      if bn < NDIRECT {
        LookDirect(disk, sb, F(), sb.ninodes, i, {}, i, bn);
        addr := inode[i].addrs[bn];
        if addr == 0 {
          addr := GrowDirect(i, bn);
          if addr != 0 {
            LogsMore(old(logged), logged, sb, {addr}, {addr} + IndSet(inode[i]));
          }
        }
      } else if inode[i].addrs[NDIRECT] != 0 {
        LookIndirect(disk, sb, F(), sb.ninodes, i, {}, i, bn);
        addr := WordAt(disk[inode[i].addrs[NDIRECT]], bn - NDIRECT);
        if addr == 0 {
          addr := GrowIndirect(i, bn);
        }
      } else {
        addr := FirstIndirect(i, bn);
      }
    }

    /** bmap's allocation of the indirect block and of the first block listed in it. */
    method FirstIndirect(i: nat, bn: nat) returns (b: nat)
      requires Ok(sb.ninodes, i, {}) && i < sb.ninodes && bn == |blocks[i]| == NDIRECT && IndOf(inode[i]) == 0
      modifies this`disk, this`inode, this`logged, this`blocks, this`owner
      ensures b == 0 ==> |disk| == sb.size && Layout(sb) && DiskFull(disk, sb)
      ensures b != 0 ==> Extends(i, b, old(disk), old(F())) && |inode| == sb.ninodes && IndOf(inode[i]) != 0
      ensures b != 0 ==> LogsOnly(old(logged), logged, sb, {b} + IndSet(inode[i]))
    {
      hide Rep, Owners, Stored, Mapped, LogsOnly, DiskFull, Others, KeepsData, Tx;
      b := NewIndirect(i);
      if b == 0 {
        return;
      }
      ghost var ind, d, f, l := b, disk, F(), logged;
      LookIndirect(disk, sb, F(), sb.ninodes, i, {}, i, bn);
      b := WordAt(disk[inode[i].addrs[NDIRECT]], bn - NDIRECT);
      b := GrowIndirect(i, bn);
      if b != 0 {
        OthersTrans(old(disk), old(F()), d, f, disk, F(), i);
        KeepsDataTrans(old(disk), d, disk, old(owner), f.owner, ind, i);
        LogsMore(old(logged), l, sb, {ind}, {b} + IndSet(inode[i]));
        LogsTrans(old(logged), l, logged, sb, {b} + IndSet(inode[i]));
      }
    }

    /** Relative to disk d0 and files f0, data has been written at off into inode i, which
        may have more blocks than before. */
    ghost predicate Wrote(i: nat, off: nat, data: seq<Byte>, d0: seq<Block>, f0: Files)
      reads this
    {
      && i < sb.ninodes && |f0.inode| == |f0.blocks| == sb.ninodes && |inode| == |blocks| == sb.ninodes
      && Ok(sb.ninodes, i, {}) && Others(d0, f0, disk, F(), i) && Patched(d0, f0.blocks[i], off, data, disk, blocks[i])
      && blocks == f0.blocks[i := blocks[i]] && f0.blocks[i] <= blocks[i]
      && (IndOf(inode[i]) != 0 <==> |blocks[i]| > NDIRECT)
      && (|blocks[i]| == |f0.blocks[i]| ==> inode == f0.inode && InodesKept(d0, disk, sb))
    }

    /** The body of writei's loop: one block, read, patched and logged. */
    method WriteBlock(i: nat, off: nat, data: seq<Byte>) returns (panic: bool)
      requires Ok(sb.ninodes, i, {}) && i < sb.ninodes && (IndOf(inode[i]) != 0 <==> |blocks[i]| > NDIRECT)
      requires off / BSIZE <= |blocks[i]| && off / BSIZE < MAXFILE && 0 < |data| <= BSIZE - off % BSIZE
      modifies this`disk, this`inode, this`logged, this`blocks, this`owner
      ensures panic ==> |disk| == sb.size && Layout(sb) && DiskFull(disk, sb)
      ensures panic ==> off / BSIZE == |old(blocks)[i]|
      ensures !panic ==> Wrote(i, off, data, old(disk), old(F()))
      ensures !panic ==> |inode| == |blocks| == sb.ninodes && off / BSIZE < |blocks[i]|
      ensures !panic ==> |blocks[i]| == if off / BSIZE < |old(blocks)[i]| then |old(blocks)[i]| else off / BSIZE + 1
      ensures !panic ==> LogsOnly(old(logged), logged, sb, {blocks[i][off / BSIZE]} + IndSet(inode[i]))
    {
      hide Rep, Owners, Stored, InUse, LogsOnly, DiskFull, Patched, PatchBlock, Others, KeepsData, Tx;
      ghost var d0, f0 := disk, F();
      var bn := off / BSIZE;
      Unchanged(disk, F(), i);
      LogsNone(logged, sb, {});
      var addr := Bmap(i, bn);
      if addr == 0 {
        return true;
      }
      InData(disk, sb, F(), sb.ninodes, i, {}, i, bn);
      DataApart(disk, sb, F(), sb.ninodes, i, {}, i);
      FileKept(d0, sb, f0, sb.ninodes, i, {}, i, disk);
      ghost var d, l := disk, logged;
      LogWrite(addr, PatchBlock(disk[addr], off % BSIZE, data));
      WriteData(d, sb, F(), sb.ninodes, i, {}, addr, disk);
      OthersPatch(d0, f0, d, F(), i, addr, disk);
      PatchBytes(d0, d, f0.blocks[i], blocks[i], off, data, disk);
      LogsMore(old(logged), l, sb, if bn < |f0.blocks[i]| then {} else {addr} + IndSet(inode[i]), {addr} + IndSet(inode[i]));
      LogsOne(old(logged), l, sb, {addr} + IndSet(inode[i]), addr);
      panic := false;
    }

    /** The invariant between operations: block lists, owners and bitmap agree, the disk has
        every inode as memory has it, and no file has holes or spare blocks. */
    ghost predicate Valid()
      reads this
    {
      Ok(sb.ninodes, sb.ninodes, {}) && NoHoles(F(), sb.ninodes, 0)
    }

    /** The contents of file i. */
    ghost function File(i: nat): seq<Byte>
      requires Valid() && i < sb.ninodes
      reads this
    {
      FileRoom(disk, sb, F(), i);
      Content(disk, blocks[i], inode[i].size)
    }

    lemma FileBound(i: nat)
      requires Valid() && i < sb.ninodes
      ensures |File(i)| <= MAXFILE * BSIZE
    {
      FileSize(disk, sb, F(), i);
    }

    /** iupdate. */
    method Iupdate(i: nat, ghost out: nat, ghost pending: set<nat>)
      requires Ok(out, i, pending) && i < sb.ninodes
      modifies this`disk, this`logged
      ensures Ok(out, sb.ninodes, pending) && logged == old(logged) + {IBlock(sb, i)}
      ensures |disk| == |old(disk)| && forall x :: 0 <= x < |disk| && x != IBlock(sb, i) ==> disk[x] == old(disk)[x]
      ensures GetInode(disk[sb.inodestart + i / 8], i % 8) == inode[i]
    {
      hide Rep, Owners, Stored, InUse, PutInode, Tx;
      ghost var d := disk;
      assert IBlock(sb, i) < |disk|;
      GetAfterPut(disk[IBlock(sb, i)], i % IPB, inode[i], i % IPB);
      LogWrite(IBlock(sb, i), PutInode(disk[IBlock(sb, i)], i % IPB, inode[i]));
      Update(d, sb, F(), out, i, pending, disk);
    }

    /** writei's loop; o is the offset after the last byte written. */
    method WriteLoop(i: nat, src: seq<Byte>, off: nat) returns (o: nat, panic: bool)
      requires Valid() && i < sb.ninodes && off <= inode[i].size && off + |src| <= MAXFILE * BSIZE
      modifies this`disk, this`inode, this`logged, this`blocks, this`owner
      ensures panic ==> |disk| == sb.size && Layout(sb) && DiskFull(disk, sb)
      ensures panic ==> off + |src| > old(inode)[i].size
      ensures !panic ==>
        o == off + |src| && Wrote(i, off, src, old(disk), old(F())) && |inode| == |blocks| == sb.ninodes
      ensures !panic ==> |blocks[i]| == Ceil(Max(old(inode)[i].size, o))
      ensures !panic ==> LogsOnly(old(logged), logged, sb, Touched(blocks[i], off / BSIZE, Ceil(o)) + IndSet(inode[i]))
    {
      hide Rep, Owners, Stored, InUse, LogsOnly, DiskFull, Patched, Others, InodesKept, Touched, Mapped, IndOf, IndSet,
        Tx;
      ghost var d0, f0, size := disk, F(), inode[i].size;
      MayChange(disk, sb, F(), sb.ninodes, i, {});
      Unchanged(disk, F(), i);
      PatchedNone(disk, blocks[i], off);
      KeptSelf(disk, sb);
      LogsNone(logged, sb, Touched(blocks[i], off / BSIZE, Ceil(off)) + IndSet(inode[i]));
      DenseAt(F(), sb.ninodes, i);
      var tot := 0;
      o, panic := off, false;
      assert src[..0] == [];
      while tot < |src|
        invariant tot <= |src| && o == off + tot && Wrote(i, off, src[..tot], d0, f0)
        invariant |blocks[i]| == Ceil(Max(size, o)) && inode[i].size == size
        invariant LogsOnly(old(logged), logged, sb, Touched(blocks[i], off / BSIZE, Ceil(o)) + IndSet(inode[i]))
      {
        var m := if |src| - tot < BSIZE - o % BSIZE then |src| - tot else BSIZE - o % BSIZE;
        CeilStep(size, o, m);
        ghost var d, f, l := disk, F(), logged;
        panic := WriteBlock(i, o, src[tot..tot + m]);
        if panic {
          return;
        }
        OthersSame(d, f, disk, F(), i);
        WroteMore(i, off, src, tot, m, d0, f0, d, f);
        LogsBlock(old(logged), l, logged, sb, f.inode[i], inode[i], f.blocks[i], blocks[i], off, o, m);
        tot, o := tot + m, o + m;
      }
      assert src[..tot] == src;
    }

    lemma WroteMore(i: nat, off: nat, src: seq<Byte>, tot: nat, m: nat, d0: seq<Block>, f0: Files, d: seq<Block>,
                    f: Files)
      requires tot + m <= |src| && i < sb.ninodes && |f0.inode| == |f0.blocks| == sb.ninodes == |f.inode| == |f.blocks|
      requires Others(d0, f0, d, f, i) && Patched(d0, f0.blocks[i], off, src[..tot], d, f.blocks[i])
      requires f.blocks == f0.blocks[i := f.blocks[i]] && f0.blocks[i] <= f.blocks[i]
      requires |f.blocks[i]| == |f0.blocks[i]| ==> f.inode == f0.inode && InodesKept(d0, d, sb)
      requires Wrote(i, off + tot, src[tot..tot + m], d, f) && (tot > 0 ==> off + tot <= BSIZE * |f.blocks[i]|)
      ensures Wrote(i, off, src[..tot + m], d0, f0)
    {
      hide Rep, Owners, Stored, InUse, Patched, Tx;
      assert src[..tot] + src[tot..tot + m] == src[..tot + m];
      OthersTrans(d0, f0, d, f, disk, F(), i);
      PatchedTrans(d0, f0.blocks[i], d, f.blocks[i], disk, blocks[i], off, src[..tot], src[tot..tot + m]);
    }

    /** The end of writei: a file that grew gets its new size and the inode goes to disk; a
        file that did not grow got no block either. */
    method FinishWrite(i: nat, src: seq<Byte>, off: nat, o: nat, ghost d0: seq<Block>, ghost f0: Files)
      requires Consistent(d0, sb, f0, sb.ninodes, sb.ninodes, {}) && NoHoles(f0, sb.ninodes, 0) && i < sb.ninodes
      requires off <= f0.inode[i].size && o == off + |src| <= MAXFILE * BSIZE && Wrote(i, off, src, d0, f0)
      requires |blocks[i]| == Ceil(Max(f0.inode[i].size, o))
      modifies this`disk, this`inode, this`logged, this`blocks, this`owner
      ensures Valid() && blocks == old(blocks) && owner == old(owner)
      ensures inode == old(inode)[i := old(inode)[i].(size := Max(f0.inode[i].size, o))]
      ensures |disk| == |old(disk)| && forall x :: sb.bmapstart <= x < |disk| ==> disk[x] == old(disk)[x]
      ensures old(logged) <= logged <= old(logged) + {IBlock(sb, i)}
    {
      hide Rep, Owners, InUse, OnDisk, Patched, Others, InodesKept, PutInode, Tx;
      OthersSame(d0, f0, disk, F(), i);
      DenseAt(f0, sb.ninodes, i);
      if |src| > 0 && o > inode[i].size {
        ghost var f := F();
        inode := inode[i := inode[i].(size := o)];
        SetSize(disk, sb, f, sb.ninodes, i, {}, inode[i], F());
        Iupdate(i, sb.ninodes, {});
      } else {
        NoChange(disk, sb, F(), sb.ninodes, i, {}, d0, f0.inode);
        assert inode[i := inode[i].(size := Max(f0.inode[i].size, o))] == inode;
      }
      NoHolesAfter(f0, F(), i, sb.ninodes);
    }

    /** writei on a regular file.  On success the file holds src at off and is as before
        elsewhere, no other file changes, and only the blocks touched, the indirect block,
        bitmap blocks and the inode's block are logged. */
    method Writei(i: nat, src: seq<Byte>, off: nat) returns (r: int, panic: bool)
      requires Valid() && i < sb.ninodes && off < U32 && |src| < U32
      modifies this`disk, this`inode, this`logged, this`blocks, this`owner
      ensures panic ==> |disk| == sb.size && Layout(sb) && DiskFull(disk, sb)
      ensures panic ==> forall c :: 0 <= c < sb.size ==> InUse(disk, sb.bmapstart, c)
      ensures panic ==> off + |src| > |old(File(i))|
      ensures !panic ==> Valid() && r == if off > |old(File(i))| || off + |src| > MAXFILE * BSIZE then -1 else |src|
      ensures !panic ==> File(i) == if r == -1 then old(File(i)) else Splice(old(File(i)), off, src)
      ensures !panic ==> forall j :: 0 <= j < sb.ninodes && j != i ==> File(j) == old(File(j))
      ensures !panic ==> |inode| == |old(inode)| && inode[i].w0 == old(inode)[i].w0 && inode[i].w1 == old(inode)[i].w1
      ensures !panic ==> |blocks| == sb.ninodes && LogsOnly(old(logged), logged, sb,
          Touched(blocks[i], off / BSIZE, Ceil(off + |src|)) + IndSet(inode[i]) + {IBlock(sb, i)})
    {
      hide Rep, Owners, Stored, Mapped, LogsOnly, DiskFull, Patched, Others, InodesKept, Touched, IndOf, IndSet,
        Content, Splice, NoHoles, Tx;
      var size := inode[i].size;
      LogsNone(logged, sb, Touched(blocks[i], off / BSIZE, Ceil(off + |src|)) + IndSet(inode[i]) + {IBlock(sb, i)});
      FileSize(disk, sb, F(), i);
      if off > size || (off + |src|) % U32 < off || off + |src| > MAXFILE * BSIZE {
        return -1, false;
      }
      ghost var d0, f0 := disk, F();
      var o;
      o, panic := WriteLoop(i, src, off);
      r := |src|;
      if panic {
        DiskFullMeans(disk, sb);
        return;
      }
      ghost var d, f, l := disk, F(), logged;
      OthersSame(d0, f0, d, f, i);
      FinishWrite(i, src, off, o, d0, f0);
      WriteContents(d0, sb, f0, d, f, i, off, src, disk, F());
      forall j | 0 <= j < sb.ninodes && j != i ensures File(j) == old(File(j)) {
        ForeignContents(d0, sb, f0, d, f, i, disk, F(), j);
      }
      IndSame(f.inode[i], inode[i]);
      LogsEnd(old(logged), l, logged, sb, Touched(blocks[i], off / BSIZE, Ceil(o)) + IndSet(inode[i]), IBlock(sb, i));
    }

    /** readi on a regular file: the bytes of the range that the file has.  Every block it
        asks bmap for is there, so reading allocates nothing and changes nothing. */
    method Readi(i: nat, off: nat, n: nat) returns (r: int, data: seq<Byte>)
      requires Valid() && i < sb.ninodes && off < U32 && n < U32
      modifies this`disk, this`inode, this`logged, this`blocks, this`owner
      ensures Valid() && F() == old(F()) && disk == old(disk) && logged == old(logged)
      ensures r == -1 <==> off > |File(i)| || off + n >= U32
      ensures r != -1 ==> r == |data| && data == File(i)[off..if off + n < |File(i)| then off + n else |File(i)|]
    {
      hide Rep, Owners, Stored, Mapped, NoHoles, Content, IndOf, Tx;
      ghost var c := File(i);
      FileSize(disk, sb, F(), i);
      data := [];
      if off > inode[i].size || (off + n) % U32 < off {
        return -1, data;
      }
      var n' := if off + n > inode[i].size then inode[i].size - off else n;
      var tot, o := 0, off;
      while tot < n'
        invariant tot <= n' && o == off + tot && Valid() && F() == old(F()) && disk == old(disk)
        invariant logged == old(logged)
        invariant |c| == inode[i].size && data == c[off..o]
      {
        var m := if n' - tot < BSIZE - o % BSIZE then n' - tot else BSIZE - o % BSIZE;
        ContentSlice(disk, blocks[i], inode[i].size, o, m);
        DenseAt(F(), sb.ninodes, i);
        MayChange(disk, sb, F(), sb.ninodes, i, {});
        BlocksBound(disk, sb, F(), i);
        var addr := Bmap(i, o / BSIZE);
        data := data + disk[addr][o % BSIZE..o % BSIZE + m];
        assert c[off..o + m] == c[off..o] + c[o..o + m];
        tot, o := tot + m, o + m;
      }
      r := n';
    }

    /** One turn of filewrite's loop, between begin_op and end_op: within MAXOPBLOCKS. */
    method WriteOp(i: nat, src: seq<Byte>, off: nat) returns (r: int, panic: bool)
      requires Valid() && i < sb.ninodes && off < U32 && |src| <= CHUNK
      modifies this
      ensures panic ==> |disk| == sb.size && Layout(sb) && DiskFull(disk, sb)
      ensures panic ==> forall c :: 0 <= c < sb.size ==> InUse(disk, sb.bmapstart, c)
      ensures panic ==> off + |src| > |old(File(i))|
      ensures !panic ==> Valid() && r == if off > |old(File(i))| || off + |src| > MAXFILE * BSIZE then -1 else |src|
      ensures !panic ==> File(i) == if r == -1 then old(File(i)) else Splice(old(File(i)), off, src)
      ensures !panic ==> forall j :: 0 <= j < sb.ninodes && j != i ==> File(j) == old(File(j))
      ensures !panic && sb.size <= BPB ==> |logged| <= 7
      ensures !panic ==> Transaction(sb, old(disk), old(F()), disk, F(), logged)
    {
      hide Rep, Owners, Stored, Mapped, LogsOnly, DiskFull, IndOf, IndSet, Content, Splice, NoHoles, Touched;
      before, logged := disk, {};
      r, panic := Writei(i, src, off);
      if !panic {
        LogsInPlace(logged, disk, sb, F(), i, off / BSIZE, Ceil(off + |src|));
        if sb.size <= BPB {
          OneOp(logged, sb, inode[i], blocks[i], off, |src|, IBlock(sb, i));
        }
      }
    }

    /** filewrite on an inode: chunks of at most CHUNK bytes, each in its own transaction.
        It returns |src| when the file could take all of it, else -1 after as many whole
        chunks as fit; none if off is past the end. */
    method FileWrite(i: nat, src: seq<Byte>, off: nat) returns (r: int, off': nat, panic: bool)
      requires Valid() && i < sb.ninodes && off < U32 && |src| < U32
      modifies this
      ensures panic ==> |disk| == sb.size && Layout(sb) && DiskFull(disk, sb)
      ensures panic ==> forall c :: 0 <= c < sb.size ==> InUse(disk, sb.bmapstart, c)
      ensures panic ==> off + |src| > |old(File(i))|
      ensures !panic ==> Valid() && off' == off + Accepted(|old(File(i))|, off, |src|)
      ensures !panic ==> r == if off' == off + |src| then |src| else -1
      ensures !panic ==> File(i) == if off' == off then old(File(i)) else Splice(old(File(i)), off, src[..off' - off])
      ensures !panic ==> forall j :: 0 <= j < sb.ninodes && j != i ==> File(j) == old(File(j))
      ensures !panic && off <= |old(File(i))| && off + |src| <= MAXFILE * BSIZE ==>
        r == |src| && off' == off + |src| && File(i) == Splice(old(File(i)), off, src)
      ensures !panic && |src| > 0 && (off > |old(File(i))| || off + |src| > MAXFILE * BSIZE) ==> r == -1
      ensures !panic && |src| > 0 && off > |old(File(i))| ==> off' == off && File(i) == old(File(i))
      ensures !panic && off <= |old(File(i))| && off + |src| > MAXFILE * BSIZE ==>
        off <= off' <= MAXFILE * BSIZE < off' + CHUNK && (off' - off) % CHUNK == 0
      ensures !panic && off <= |old(File(i))| && off + |src| > MAXFILE * BSIZE ==>
        off' - off <= |src| && File(i) == Splice(old(File(i)), off, src[..off' - off])
      ensures !panic && |src| == 0 ==> r == 0 && off' == off && File(i) == old(File(i))
    {
      hide Rep, Owners, Stored, Mapped, DiskFull, Content, Splice, NoHoles, Ok, Tx;
      ghost var c := File(i);
      FileBound(i);
      if off <= |c| {
        SpliceNothing(c, off);
      }
      assert src[..0] == [] && src[..|src|] == src;
      var k := 0;
      off' := off;
      panic, r := false, 0;
      while k < |src|
        invariant k <= |src| && off' == off + k && (k < |src| ==> k % CHUNK == 0) && Valid()
        invariant k > 0 ==> off <= |c| && off + k <= MAXFILE * BSIZE && off + k <= |File(i)|
        invariant |c| <= |File(i)|
        invariant File(i) == if k == 0 then c else Splice(c, off, src[..k])
        invariant forall j :: 0 <= j < sb.ninodes && j != i ==> File(j) == old(File(j))
      {
        var n1 := if |src| - k > CHUNK then CHUNK else |src| - k;
        ghost var c1 := File(i);
        var w;
        FileBound(i);
        w, panic := WriteOp(i, src[k..k + n1], off');
        if panic {
          return;
        }
        if w < 0 {
          AcceptedShort(|c|, off, |src|, k, n1);
          return -1, off', false;
        }
        if k == 0 {
          assert src[..n1] == src[0..n1];
        } else {
          SpliceTwice(c, off, src[..k], src[k..k + n1]);
          assert src[..k] + src[k..k + n1] == src[..k + n1];
        }
        SpliceLength(c1, off', src[k..k + n1]);
        off' := off' + w;
        k := k + w;
      }
      r := |src|;
    }

    /** itrunc's loop over the direct blocks. */
    method FreeDirect(i: nat, ghost bl: seq<nat>, ghost ip: Inode)
      requires i < sb.ninodes && Ok(i, i, ToFree(bl, 0, ip)) && i < |inode| && inode[i] == ip && Lookup(ip, bl)
      modifies this`disk, this`inode, this`logged
      ensures Ok(i, i, ToFree(bl, NDIRECT, ip)) && SameFrom(old(disk), disk, sb.datastart)
      ensures LogsOnly(old(logged), logged, sb, {})
      ensures |inode| == |old(inode)| && inode == old(inode)[i := inode[i]] && inode[i] == ip.(addrs := inode[i].addrs)
      ensures |inode[i].addrs| == NDIRECT + 1
      ensures inode[i].addrs[NDIRECT] == ip.addrs[NDIRECT] && forall p :: 0 <= p < NDIRECT ==> inode[i].addrs[p] == 0
    {
      hide Rep, Owners, Stored, InUse, ToFree, Tx;
      SameFromSelf(disk, sb.datastart);
      LogsNone(logged, sb, {});
      var k := 0;
      while k < NDIRECT
        invariant k <= NDIRECT && Ok(i, i, ToFree(bl, k, ip)) && |inode| == |old(inode)|
        invariant inode == old(inode)[i := inode[i]]
        invariant inode[i] == ip.(addrs := inode[i].addrs) && |inode[i].addrs| == NDIRECT + 1
        invariant forall p :: 0 <= p <= NDIRECT ==> inode[i].addrs[p] == if p < k then 0 else ip.addrs[p]
        invariant SameFrom(old(disk), disk, sb.datastart) && LogsOnly(old(logged), logged, sb, {})
      {
        if inode[i].addrs[k] != 0 {
          ToFreeNext(bl, k, ip);
          ghost var d, l := disk, logged;
          Bfree(inode[i].addrs[k], i, i, ToFree(bl, k, ip));
          SameFromTrans(old(disk), d, disk, sb.datastart);
          LogsTrans(old(logged), l, logged, sb, {});
          ghost var f := F();
          inode := inode[i := inode[i].(addrs := inode[i].addrs[k := 0])];
          OutChange(disk, sb, f, i, ToFree(bl, k + 1, ip), inode[i], F());
        } else {
          ToFreeSkip(bl, k, ip);
          ToFreeSkip(bl, k + 1, ip);
        }
        k := k + 1;
      }
    }

    /** itrunc's loop over the indirect block, and the indirect block itself. */
    method FreeIndirect(i: nat, ghost bl: seq<nat>, ghost ip: Inode)
      requires i < sb.ninodes && Ok(i, i, ToFree(bl, NDIRECT, ip)) && Lookup(ip, bl) && IndOf(ip) != 0
      requires IndOf(ip) < |disk|
      requires i < |inode| && |inode[i].addrs| == NDIRECT + 1 && inode[i].addrs[NDIRECT] == IndOf(ip)
      requires Lists(disk[IndOf(ip)], bl)
      requires sb.datastart <= IndOf(ip)
      modifies this`disk, this`inode, this`logged
      ensures Ok(i, i, {}) && SameFrom(old(disk), disk, sb.datastart) && LogsOnly(old(logged), logged, sb, {})
      ensures |inode| == |old(inode)|
      ensures inode == old(inode)[i := old(inode)[i].(addrs := old(inode)[i].addrs[NDIRECT := 0])]
    {
      hide Rep, Owners, Stored, InUse, ToFree, Tx;
      SameFromSelf(disk, sb.datastart);
      LogsNone(logged, sb, {});
      var a := disk[inode[i].addrs[NDIRECT]];
      var j := 0;
      while j < NINDIRECT
        invariant j <= NINDIRECT && Ok(i, i, ToFree(bl, NDIRECT + j, ip)) && inode == old(inode)
        invariant SameFrom(old(disk), disk, sb.datastart) && LogsOnly(old(logged), logged, sb, {})
      {
        if WordAt(a, j) != 0 {
          ToFreeNext(bl, NDIRECT + j, ip);
          ghost var d, l := disk, logged;
          Bfree(WordAt(a, j), i, i, ToFree(bl, NDIRECT + j, ip));
          SameFromTrans(old(disk), d, disk, sb.datastart);
          LogsTrans(old(logged), l, logged, sb, {});
        } else {
          ToFreeSkip(bl, NDIRECT + j, ip);
          ToFreeSkip(bl, NDIRECT + j + 1, ip);
        }
        j := j + 1;
      }
      ToFreeSkip(bl, MAXFILE, ip);
      ghost var d, l := disk, logged;
      Bfree(inode[i].addrs[NDIRECT], i, i, {IndOf(ip)});
      SameFromTrans(old(disk), d, disk, sb.datastart);
      LogsTrans(old(logged), l, logged, sb, {});
      assert {IndOf(ip)} - {IndOf(ip)} == {};
      ghost var f := F();
      inode := inode[i := inode[i].(addrs := inode[i].addrs[NDIRECT := 0])];
      OutChange(disk, sb, f, i, {}, inode[i], F());
    }

    /** The calls of bfree in itrunc. */
    method FreeBlocks(i: nat, ghost bl: seq<nat>, ghost ip: Inode)
      requires i < sb.ninodes && Ok(i, i, ToFree(bl, 0, ip)) && i < |inode| && inode[i] == ip && Lookup(ip, bl)
      requires IndOf(ip) != 0 ==> sb.datastart <= IndOf(ip) < |disk| && Lists(disk[IndOf(ip)], bl)
      modifies this`disk, this`inode, this`logged
      ensures Ok(i, i, {}) && SameFrom(old(disk), disk, sb.datastart) && LogsOnly(old(logged), logged, sb, {})
      ensures |inode| == |old(inode)| && inode == old(inode)[i := inode[i]] && inode[i] == ip.(addrs := inode[i].addrs)
      ensures |inode[i].addrs| == NDIRECT + 1 && forall p :: 0 <= p <= NDIRECT ==> inode[i].addrs[p] == 0
    {
      hide Rep, Owners, Stored, InUse, ToFree, Lists, Tx;
      FreeDirect(i, bl, ip);
      ghost var d, l := disk, logged;
      if inode[i].addrs[NDIRECT] != 0 {
        FreeIndirect(i, bl, ip);
        SameFromTrans(old(disk), d, disk, sb.datastart);
        LogsTrans(old(logged), l, logged, sb, {});
      } else {
        ToFreeSkip(bl, NDIRECT, ip);
      }
    }

    /** itrunc: frees exactly the blocks of inode i, each of them in use until then, and
        leaves it empty on disk and in memory. */
    method Itrunc(i: nat)
      requires Valid() && i < sb.ninodes
      modifies this`disk, this`inode, this`logged, this`blocks, this`owner
      ensures Valid() && File(i) == [] && owner == Without(old(owner), i)
      ensures forall b :: b in owner <==> b in old(owner) && old(owner)[b].inum != i
      ensures forall b :: 0 <= b < sb.size ==> (InUse(disk, sb.bmapstart, b) <==>
        InUse(old(disk), sb.bmapstart, b) && !(b in old(owner) && old(owner)[b].inum == i))
      ensures LogsOnly(old(logged), logged, sb, {IBlock(sb, i)})
      ensures forall j :: 0 <= j < sb.ninodes && j != i ==> File(j) == old(File(j))
    {
      hide Rep, Owners, Stored, InUse, ToFree, Without, NoHoles, Content, Lookup, Lists, Listed, Tx;
      ghost var d0, f0, bl, ip := disk, F(), blocks[i], inode[i];
      MapExact(disk, sb, F());
      TruncLookup(disk, sb, F(), i);
      blocks := blocks[i := []];
      owner := Without(owner, i);
      TruncStart(d0, sb, f0, i, F());
      FreeBlocks(i, bl, ip);
      ghost var f := F();
      inode := inode[i := inode[i].(size := 0)];
      OutChange(disk, sb, f, i, {}, inode[i], F());
      ghost var l := logged;
      Iupdate(i, i, {});
      LogsEnd(old(logged), l, logged, sb, {}, IBlock(sb, i));
      assert {} + {IBlock(sb, i)} == {IBlock(sb, i)};
      TruncEnd(disk, sb, F(), i);
      NoHolesAfter(f0, F(), i, sb.ninodes);
      EmptyFile(disk, blocks[i]);
      MapExact(disk, sb, F());
      WithoutMeans(f0.owner, i);
      forall j | 0 <= j < sb.ninodes && j != i ensures File(j) == old(File(j)) {
        KeptContents(d0, sb, f0, disk, F(), j);
      }
    }

    /** itrunc as a transaction of its own: two blocks when the bitmap is one block. */
    method TruncOp(i: nat)
      requires Valid() && i < sb.ninodes
      modifies this
      ensures Valid() && File(i) == [] && forall j :: 0 <= j < sb.ninodes && j != i ==> File(j) == old(File(j))
      ensures sb.size <= BPB ==> |logged| <= 2
      ensures Transaction(sb, old(disk), old(F()), disk, F(), logged)
    {
      hide Rep, Owners, Stored, Mapped, LogsOnly, Content, NoHoles, IndSet, Touched;
      before, logged := disk, {};
      Itrunc(i);
      LogsMore({}, logged, sb, {IBlock(sb, i)}, Touched(blocks[i], 0, 0) + IndSet(inode[i]) + {IBlock(sb, i)});
      LogsInPlace(logged, disk, sb, F(), i, 0, 0);
      if sb.size <= BPB {
        TwoBlocks(logged, sb, IBlock(sb, i));
      }
    }
  }
}
