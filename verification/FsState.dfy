/** What the blocks of an xv6 file system stand for (xv6/fs.c): block lists of inodes, the
    owner of every data block, and the contents of files. */
module FsState {
  import opened Blocks
  import opened Bitmap
  import opened Collections
  import opened Inodes

  /** The part of the super block that matters here; data blocks start at datastart. */
  datatype Super = Super(size: nat, ninodes: nat, inodestart: nat, bmapstart: nat, datastart: nat)

  predicate Layout(sb: Super) {
    && 0 < sb.inodestart && sb.inodestart + sb.ninodes / IPB + 1 <= sb.bmapstart
    && sb.bmapstart + sb.size / BPB + 1 <= sb.datastart <= sb.size < U32
  }

  function IBlock(sb: Super, i: nat): nat {
    i / IPB + sb.inodestart
  }

  function BBlock(sb: Super, b: nat): nat {
    sb.bmapstart + b / BPB
  }

  datatype Owner = Data(inum: nat, pos: nat) | Indirect(inum: nat)

  /** Inode contents, the block list of every inode, and what each data block in use is for. */
  datatype Files = Files(inode: seq<Inode>, blocks: seq<seq<nat>>, owner: map<nat, Owner>)

  /** The number of the indirect block, 0 for none. */
  function IndOf(ip: Inode): nat {
    if |ip.addrs| == NDIRECT + 1 then ip.addrs[NDIRECT] else 0
  }

  /** bl lists the data blocks that ip refers to, directly or through its indirect block. */
  ghost predicate Rep(d: seq<Block>, ip: Inode, bl: seq<nat>) {
    && Fits(ip) && |bl| <= MAXFILE
    && (forall p :: 0 <= p < NDIRECT ==> ip.addrs[p] == if p < |bl| then bl[p] else 0)
    && (IndOf(ip) == 0 ==> |bl| <= NDIRECT)
    && (IndOf(ip) != 0 ==> IndOf(ip) < |d| && Lists(d[IndOf(ip)], bl))
  }

  /** The indirect block ib holds the list bl from position NDIRECT on, then zeros. */
  ghost predicate Lists(ib: Block, bl: seq<nat>) {
    forall q :: 0 <= q < NINDIRECT ==> WordAt(ib, q) == if NDIRECT + q < |bl| then bl[NDIRECT + q] else 0
  }

  ghost predicate AllRep(d: seq<Block>, sb: Super, f: Files, out: nat) {
    && |f.inode| == |f.blocks| == sb.ninodes
    && (forall i :: 0 <= i < sb.ninodes ==> Fits(f.inode[i]))
    && forall i :: 0 <= i < sb.ninodes && i != out ==> Rep(d, f.inode[i], f.blocks[i])
  }

  /** No block has two uses: owner says what each block in use is for, and it is used for
      exactly that. */
  ghost predicate Owners(sb: Super, f: Files, out: nat)
    requires |f.inode| == |f.blocks| == sb.ninodes
  {
    && (forall i, p :: 0 <= i < sb.ninodes && i != out && 0 <= p < |f.blocks[i]| ==>
          f.blocks[i][p] in f.owner && f.owner[f.blocks[i][p]] == Data(i, p))
    && (forall i :: 0 <= i < sb.ninodes && i != out && IndOf(f.inode[i]) != 0 ==>
          IndOf(f.inode[i]) in f.owner && f.owner[IndOf(f.inode[i])] == Indirect(i))
    && (forall b :: b in f.owner ==> sb.datastart <= b < sb.size && OwnerHolds(sb, f, out, f.owner[b], b))
  }

  ghost predicate OwnerHolds(sb: Super, f: Files, out: nat, o: Owner, b: nat)
    requires |f.inode| == |f.blocks| == sb.ninodes
  {
    match o
    case Data(i, p) => i < sb.ninodes && i != out && p < |f.blocks[i]| && f.blocks[i][p] == b
    case Indirect(i) => i < sb.ninodes && i != out && IndOf(f.inode[i]) == b
  }

  /** The bitmap marks exactly the metadata, the owned blocks and the ones in pending. */
  ghost predicate Mapped(d: seq<Block>, sb: Super, owner: map<nat, Owner>, pending: set<nat>) {
    && |d| == sb.size && Layout(sb)
    && (forall b :: b in pending ==> sb.datastart <= b < sb.size && b !in owner)
    && forall b :: 0 <= b < sb.size ==> (InUse(d, sb.bmapstart, b) <==> b < sb.datastart || b in owner || b in pending)
  }

  /** Write-through: the disk holds every inode but possibly `who`. */
  ghost predicate Stored(d: seq<Block>, sb: Super, inode: seq<Inode>, who: nat)
    requires |d| == sb.size && Layout(sb) && |inode| == sb.ninodes
  {
    forall i :: 0 <= i < sb.ninodes && i != who ==> OnDisk(d, sb, i, inode[i])
  }

  ghost predicate OnDisk(d: seq<Block>, sb: Super, i: nat, ip: Inode)
    requires |d| == sb.size && Layout(sb) && i < sb.ninodes
  {
    GetInode(d[IBlock(sb, i)], i % IPB) == ip
  }

  function Ceil(n: nat): nat {
    (n + BSIZE - 1) / BSIZE
  }

  /** No holes: a file has exactly the blocks its size calls for; `who` has those for top. */
  ghost predicate NoHoles(f: Files, who: nat, top: nat)
    requires |f.inode| == |f.blocks|
  {
    forall i :: 0 <= i < |f.inode| ==> Dense(f.inode[i], |f.blocks[i]|, if i == who then top else f.inode[i].size)
  }

  ghost predicate Dense(ip: Inode, n: nat, size: nat) {
    n == Ceil(size) && (IndOf(ip) != 0 <==> n > NDIRECT)
  }

  ghost predicate Consistent(d: seq<Block>, sb: Super, f: Files, out: nat, who: nat, pending: set<nat>) {
    && AllRep(d, sb, f, out) && Owners(sb, f, out) && Mapped(d, sb, f.owner, pending) && Stored(d, sb, f.inode, who)
  }

  // ----- what a change of blocks leaves alone -----

  /** Indirect blocks and inode blocks are as they were. */
  lemma RepFrame(d: seq<Block>, d': seq<Block>, sb: Super, f: Files, out: nat)
    requires AllRep(d, sb, f, out) && Owners(sb, f, out) && |d'| == |d| == sb.size
    requires forall b :: b in f.owner && f.owner[b].Indirect? ==> d'[b] == d[b]
    ensures AllRep(d', sb, f, out)
  {
    forall i | 0 <= i < sb.ninodes && i != out ensures Rep(d', f.inode[i], f.blocks[i]) {
      assert Rep(d, f.inode[i], f.blocks[i]);
    }
  }

  lemma StoredFrame(d: seq<Block>, d': seq<Block>, sb: Super, inode: seq<Inode>, who: nat)
    requires |d| == |d'| == sb.size && Layout(sb) && |inode| == sb.ninodes && Stored(d, sb, inode, who)
    requires forall b :: sb.inodestart <= b < sb.bmapstart ==> d'[b] == d[b]
    ensures Stored(d', sb, inode, who)
  {
    forall i | 0 <= i < sb.ninodes && i != who ensures OnDisk(d', sb, i, inode[i]) {
      assert OnDisk(d, sb, i, inode[i]);
    }
  }

  lemma MappedFrame(d: seq<Block>, d': seq<Block>, sb: Super, owner: map<nat, Owner>, pending: set<nat>)
    requires Mapped(d, sb, owner, pending) && |d'| == |d|
    requires forall b :: sb.bmapstart <= b < sb.datastart ==> d'[b] == d[b]
    ensures Mapped(d', sb, owner, pending)
  {
    forall b | 0 <= b < sb.size ensures InUse(d', sb.bmapstart, b) <==> InUse(d, sb.bmapstart, b) {
      assert b / BPB <= sb.size / BPB;
    }
  }

  // ----- allocation and release of a block -----

  lemma MarkMap(d: seq<Block>, sb: Super, owner: map<nat, Owner>, pending: set<nat>, b: nat)
    requires Mapped(d, sb, owner, pending) && b < sb.size && !InUse(d, sb.bmapstart, b)
    ensures sb.datastart <= b && b !in owner && b !in pending
    ensures Mapped(d[BBlock(sb, b) := Marked(d[BBlock(sb, b)], b % BPB)], sb, owner, pending + {b})
  {
    var d' := d[BBlock(sb, b) := Marked(d[BBlock(sb, b)], b % BPB)];
    forall c | 0 <= c < sb.size
      ensures InUse(d', sb.bmapstart, c) <==> c < sb.datastart || c in owner || c in pending + {b}
    {
      MarkOne(d, sb.bmapstart, b, c);
    }
  }

  lemma ClearMap(d: seq<Block>, sb: Super, owner: map<nat, Owner>, pending: set<nat>, b: nat)
    requires Mapped(d, sb, owner, pending) && b in pending
    ensures InUse(d, sb.bmapstart, b)
    ensures Mapped(d[BBlock(sb, b) := Cleared(d[BBlock(sb, b)], b % BPB)], sb, owner, pending - {b})
  {
    var d' := d[BBlock(sb, b) := Cleared(d[BBlock(sb, b)], b % BPB)];
    forall c | 0 <= c < sb.size
      ensures InUse(d', sb.bmapstart, c) <==> c < sb.datastart || c in owner || c in pending - {b}
    {
      ClearOne(d, sb.bmapstart, b, c);
    }
  }

  /** balloc's two block writes. */
  lemma Alloc(d: seq<Block>, sb: Super, f: Files, out: nat, who: nat, pending: set<nat>, b: nat, d1: seq<Block>,
              d2: seq<Block>, zero: Block)
    requires Consistent(d, sb, f, out, who, pending) && b < sb.size && !InUse(d, sb.bmapstart, b)
    requires d1 == d[BBlock(sb, b) := Marked(d[BBlock(sb, b)], b % BPB)] && d2 == d1[b := zero]
    ensures sb.datastart <= b && b !in f.owner && b !in pending && Consistent(d2, sb, f, out, who, pending + {b})
    ensures forall x :: x in f.owner ==> x < |d2| && d2[x] == d[x]
  {
    hide Rep, OwnerHolds, Marked, InUse, OnDisk;
    MarkMap(d, sb, f.owner, pending, b);
    MappedFrame(d1, d2, sb, f.owner, pending + {b});
    RepFrame(d, d2, sb, f, out);
    StoredFrame(d, d2, sb, f.inode, who);
  }

  /** bfree's block write. */
  lemma Free(d: seq<Block>, sb: Super, f: Files, out: nat, who: nat, pending: set<nat>, b: nat, d': seq<Block>)
    requires Consistent(d, sb, f, out, who, pending) && b in pending
    requires d' == d[BBlock(sb, b) := Cleared(d[BBlock(sb, b)], b % BPB)]
    ensures Consistent(d', sb, f, out, who, pending - {b})
    ensures forall x :: sb.datastart <= x < sb.size ==> d'[x] == d[x]
  {
    hide Rep, OwnerHolds, Cleared, InUse, OnDisk;
    ClearMap(d, sb, f.owner, pending, b);
    RepFrame(d, d', sb, f, out);
    StoredFrame(d, d', sb, f.inode, who);
  }

  // ----- a pending block becomes part of a file -----

  /** The owners after block b becomes block |f.blocks[i]| of inode i. */
  lemma OwnersData(sb: Super, f: Files, out: nat, i: nat, b: nat, ip: Inode, f': Files)
    requires |f.inode| == |f.blocks| == sb.ninodes && Owners(sb, f, out) && i < sb.ninodes && i != out
    requires b !in f.owner && sb.datastart <= b < sb.size && IndOf(ip) == IndOf(f.inode[i])
    requires f' == Files(f.inode[i := ip], f.blocks[i := f.blocks[i] + [b]], f.owner[b := Data(i, |f.blocks[i]|)])
    ensures Owners(sb, f', out)
  {
    forall j, p | 0 <= j < sb.ninodes && j != out && 0 <= p < |f'.blocks[j]|
      ensures f'.blocks[j][p] in f'.owner && f'.owner[f'.blocks[j][p]] == Data(j, p)
    {
      if j != i || p < |f.blocks[i]| {
        assert f'.blocks[j][p] == f.blocks[j][p];
        assert f.owner[f.blocks[j][p]] == Data(j, p);
      }
    }
    forall j | 0 <= j < sb.ninodes && j != out && IndOf(f'.inode[j]) != 0
      ensures IndOf(f'.inode[j]) in f'.owner && f'.owner[IndOf(f'.inode[j])] == Indirect(j)
    {
      assert f.owner[IndOf(f.inode[j])] == Indirect(j);
    }
    forall x | x in f'.owner ensures sb.datastart <= x < sb.size && OwnerHolds(sb, f', out, f'.owner[x], x) {
      if x != b {
        assert OwnerHolds(sb, f, out, f.owner[x], x);
      }
    }
  }

  /** The owners after block b becomes the indirect block of inode i. */
  lemma OwnersIndirect(sb: Super, f: Files, out: nat, i: nat, b: nat, ip: Inode, f': Files)
    requires |f.inode| == |f.blocks| == sb.ninodes && Owners(sb, f, out) && i < sb.ninodes && i != out
    requires b !in f.owner && 0 < sb.datastart <= b < sb.size && IndOf(f.inode[i]) == 0 && IndOf(ip) == b
    requires f' == Files(f.inode[i := ip], f.blocks, f.owner[b := Indirect(i)])
    ensures Owners(sb, f', out)
  {
    forall j, p | 0 <= j < sb.ninodes && j != out && 0 <= p < |f'.blocks[j]|
      ensures f'.blocks[j][p] in f'.owner && f'.owner[f'.blocks[j][p]] == Data(j, p)
    {
      assert f.owner[f.blocks[j][p]] == Data(j, p);
    }
    forall j | 0 <= j < sb.ninodes && j != out && IndOf(f'.inode[j]) != 0
      ensures IndOf(f'.inode[j]) in f'.owner && f'.owner[IndOf(f'.inode[j])] == Indirect(j)
    {
      if j != i {
        assert f.owner[IndOf(f.inode[j])] == Indirect(j);
      }
    }
    forall x | x in f'.owner ensures sb.datastart <= x < sb.size && OwnerHolds(sb, f', out, f'.owner[x], x) {
      if x != b {
        assert OwnerHolds(sb, f, out, f.owner[x], x);
      }
    }
  }

  lemma MappedAdopt(d: seq<Block>, sb: Super, owner: map<nat, Owner>, pending: set<nat>, b: nat, o: Owner)
    requires Mapped(d, sb, owner, pending) && b in pending
    ensures Mapped(d, sb, owner[b := o], pending - {b})
  {
  }

  lemma RepDirect(d: seq<Block>, ip: Inode, bl: seq<nat>, b: nat)
    requires Rep(d, ip, bl) && |bl| < NDIRECT && b < U32
    ensures var ip' := ip.(addrs := ip.addrs[|bl| := b]);
      IndOf(ip') == IndOf(ip) && Rep(d, ip', bl + [b])
  {
    var ip' := ip.(addrs := ip.addrs[|bl| := b]);
    if IndOf(ip) != 0 {
      forall q | 0 <= q < NINDIRECT ensures WordAt(d[IndOf(ip)], q) == 0 {
      }
    }
  }

  lemma RepNewIndirect(d: seq<Block>, ip: Inode, bl: seq<nat>, b: nat)
    requires Rep(d, ip, bl) && IndOf(ip) == 0 && 0 < b < U32 && b < |d| && d[b] == ZERO_BLOCK
    ensures var ip' := ip.(addrs := ip.addrs[NDIRECT := b]);
      IndOf(ip') == b && Rep(d, ip', bl)
  {
    forall q: nat | q < NINDIRECT ensures WordAt(d[b], q) == 0 {
      ZeroWord(q);
    }
  }

  lemma RepIndirect(d: seq<Block>, ip: Inode, bl: seq<nat>, b: nat)
    requires Rep(d, ip, bl) && NDIRECT <= |bl| < MAXFILE && b < U32 && IndOf(ip) != 0
    ensures IndOf(ip) < |d| && Rep(d[IndOf(ip) := SetWord(d[IndOf(ip)], |bl| - NDIRECT, b)], ip, bl + [b])
  {
    var ib := SetWord(d[IndOf(ip)], |bl| - NDIRECT, b);
    forall q: nat | q < NINDIRECT
      ensures WordAt(ib, q) == if NDIRECT + q < |bl + [b]| then (bl + [b])[NDIRECT + q] else 0
    {
      WordOfSetWord(d[IndOf(ip)], |bl| - NDIRECT, b, q);
      assert WordAt(d[IndOf(ip)], q) == if NDIRECT + q < |bl| then bl[NDIRECT + q] else 0;
    }
  }

  /** Only the disk copy of the inode itself goes out of date. */
  lemma StoredBut(d: seq<Block>, sb: Super, inode: seq<Inode>, i: nat, ip: Inode)
    requires |d| == sb.size && Layout(sb) && |inode| == sb.ninodes && i < sb.ninodes && Stored(d, sb, inode, i)
    ensures Stored(d, sb, inode[i := ip], i)
  {
    var inode' := inode[i := ip];
    forall j | 0 <= j < sb.ninodes && j != i ensures OnDisk(d, sb, j, inode'[j]) {
      assert OnDisk(d, sb, j, inode[j]);
    }
  }

  lemma RepsBut(d: seq<Block>, sb: Super, f: Files, out: nat, i: nat, ip: Inode, bl: seq<nat>, f': Files)
    requires AllRep(d, sb, f, out) && i < sb.ninodes && Rep(d, ip, bl)
    requires f'.inode == f.inode[i := ip] && f'.blocks == f.blocks[i := bl]
    ensures AllRep(d, sb, f', out)
  {
    forall j | 0 <= j < sb.ninodes && j != out ensures Rep(d, f'.inode[j], f'.blocks[j]) {
      if j != i {
        assert Rep(d, f.inode[j], f.blocks[j]);
      }
    }
  }

  /** bmap: a fresh block as the next direct block of inode i. */
  lemma AdoptDirect(d: seq<Block>, sb: Super, f: Files, out: nat, i: nat, b: nat, pending: set<nat>, ip: Inode,
                    f': Files)
    requires Consistent(d, sb, f, out, i, pending) && b in pending && i < sb.ninodes && i != out
    requires |f.blocks[i]| < NDIRECT
    requires ip == f.inode[i].(addrs := f.inode[i].addrs[|f.blocks[i]| := b])
    requires f' == Files(f.inode[i := ip], f.blocks[i := f.blocks[i] + [b]], f.owner[b := Data(i, |f.blocks[i]|)])
    ensures Consistent(d, sb, f', out, i, pending - {b})
  {
    hide OwnerHolds, InUse, OnDisk, Owners, Stored, Rep;
    RepDirect(d, f.inode[i], f.blocks[i], b);
    OwnersData(sb, f, out, i, b, ip, f');
    MappedAdopt(d, sb, f.owner, pending, b, Data(i, |f.blocks[i]|));
    StoredBut(d, sb, f.inode, i, ip);
    RepsBut(d, sb, f, out, i, ip, f.blocks[i] + [b], f');
  }

  /** bmap: a fresh zeroed block as the indirect block of inode i. */
  lemma AdoptNewIndirect(d: seq<Block>, sb: Super, f: Files, out: nat, i: nat, b: nat, pending: set<nat>, ip: Inode,
                         f': Files)
    requires Consistent(d, sb, f, out, i, pending) && b in pending && i < sb.ninodes && i != out
    requires IndOf(f.inode[i]) == 0 && d[b] == ZERO_BLOCK
    requires ip == f.inode[i].(addrs := f.inode[i].addrs[NDIRECT := b])
    requires f' == Files(f.inode[i := ip], f.blocks, f.owner[b := Indirect(i)])
    ensures Consistent(d, sb, f', out, i, pending - {b})
  {
    hide OwnerHolds, InUse, OnDisk, Owners, Stored, Rep;
    RepNewIndirect(d, f.inode[i], f.blocks[i], b);
    OwnersIndirect(sb, f, out, i, b, ip, f');
    MappedAdopt(d, sb, f.owner, pending, b, Indirect(i));
    StoredBut(d, sb, f.inode, i, ip);
    RepsBut(d, sb, f, out, i, ip, f.blocks[i], f');
  }

  /** A write to the indirect block of inode i touches no other block list. */
  lemma RepsApart(d: seq<Block>, d': seq<Block>, sb: Super, f: Files, out: nat, i: nat, bl: seq<nat>, f': Files)
    requires AllRep(d, sb, f, out) && Owners(sb, f, out) && i < sb.ninodes && i != out && |d'| == |d| == sb.size
    requires IndOf(f.inode[i]) != 0
    requires (forall b :: 0 <= b < |d| && b != IndOf(f.inode[i]) ==> d'[b] == d[b]) && Rep(d', f.inode[i], bl)
    requires f'.inode == f.inode && f'.blocks == f.blocks[i := bl]
    ensures AllRep(d', sb, f', out)
  {
    forall j | 0 <= j < sb.ninodes && j != out ensures Rep(d', f'.inode[j], f'.blocks[j]) {
      if j != i {
        assert Rep(d, f.inode[j], f.blocks[j]);
        assert f.owner[IndOf(f.inode[i])] == Indirect(i);
        if IndOf(f.inode[j]) != 0 {
          assert f.owner[IndOf(f.inode[j])] == Indirect(j);
        }
      }
    }
  }

  /** bmap: a fresh block as the next block listed in the indirect block of inode i. */
  lemma AdoptIndirect(d: seq<Block>, sb: Super, f: Files, out: nat, i: nat, b: nat, pending: set<nat>, d': seq<Block>,
                      f': Files)
    requires Consistent(d, sb, f, out, i, pending) && b in pending && i < sb.ninodes && i != out
    requires NDIRECT <= |f.blocks[i]| < MAXFILE && IndOf(f.inode[i]) != 0 && IndOf(f.inode[i]) < |d| && b < U32
    requires d' == d[IndOf(f.inode[i]) := SetWord(d[IndOf(f.inode[i])], |f.blocks[i]| - NDIRECT, b)]
    requires f' == Files(f.inode, f.blocks[i := f.blocks[i] + [b]], f.owner[b := Data(i, |f.blocks[i]|)])
    ensures Consistent(d', sb, f', out, i, pending - {b})
  {
    hide OwnerHolds, InUse, OnDisk, Stored, Rep, SetWord;
    RepIndirect(d, f.inode[i], f.blocks[i], b);
    assert f.inode[i := f.inode[i]] == f.inode;
    OwnersData(sb, f, out, i, b, f.inode[i], f');
    assert f.owner[IndOf(f.inode[i])] == Indirect(i);
    MappedAdopt(d, sb, f.owner, pending, b, Data(i, |f.blocks[i]|));
    MappedFrame(d, d', sb, f'.owner, pending - {b});
    StoredFrame(d, d', sb, f.inode, i);
    RepsApart(d, d', sb, f, out, i, f.blocks[i] + [b], f');
  }

  /** A write to a data block changes no metadata. */
  lemma WriteData(d: seq<Block>, sb: Super, f: Files, out: nat, who: nat, pending: set<nat>, b: nat, d': seq<Block>)
    requires Consistent(d, sb, f, out, who, pending) && b in f.owner && f.owner[b].Data?
    requires |d'| == |d| && forall x :: 0 <= x < |d| && x != b ==> d'[x] == d[x]
    ensures Consistent(d', sb, f, out, who, pending)
  {
    hide OwnerHolds, InUse, OnDisk, Rep, Stored;
    RepFrame(d, d', sb, f, out);
    MappedFrame(d, d', sb, f.owner, pending);
    StoredFrame(d, d', sb, f.inode, who);
  }

  lemma StoredUpdate(d: seq<Block>, sb: Super, inode: seq<Inode>, i: nat, d': seq<Block>)
    requires |d| == sb.size && Layout(sb) && |inode| == sb.ninodes && i < sb.ninodes && Stored(d, sb, inode, i)
    requires Fits(inode[i])
    requires d' == d[IBlock(sb, i) := PutInode(d[IBlock(sb, i)], i % IPB, inode[i])]
    ensures Stored(d', sb, inode, sb.ninodes)
  {
    forall j | 0 <= j < sb.ninodes ensures OnDisk(d', sb, j, inode[j]) {
      GetAfterPut(d[IBlock(sb, i)], i % IPB, inode[i], j % IPB);
      if j != i {
        assert OnDisk(d, sb, j, inode[j]);
      }
    }
  }

  /** iupdate brings the disk copy of inode i up to date. */
  lemma Update(d: seq<Block>, sb: Super, f: Files, out: nat, i: nat, pending: set<nat>, d': seq<Block>)
    requires Consistent(d, sb, f, out, i, pending) && i < sb.ninodes
    requires d' == d[IBlock(sb, i) := PutInode(d[IBlock(sb, i)], i % IPB, f.inode[i])]
    ensures Consistent(d', sb, f, out, sb.ninodes, pending)
  {
    hide OwnerHolds, InUse, OnDisk, Rep, Stored, PutInode;
    assert IBlock(sb, i) < sb.bmapstart;
    StoredUpdate(d, sb, f.inode, i, d');
    RepFrame(d, d', sb, f, out);
    MappedFrame(d, d', sb, f.owner, pending);
  }

  // ----- looking a block up -----

  lemma LookDirect(d: seq<Block>, sb: Super, f: Files, out: nat, who: nat, pending: set<nat>, i: nat, bn: nat)
    requires Consistent(d, sb, f, out, who, pending) && i < sb.ninodes && i != out && bn < NDIRECT
    ensures f.inode[i].addrs[bn] == if bn < |f.blocks[i]| then f.blocks[i][bn] else 0
    ensures bn < |f.blocks[i]| ==> 0 < f.blocks[i][bn] < |d|
  {
    hide Mapped, Stored;
    assert Rep(d, f.inode[i], f.blocks[i]);
    InData(d, sb, f, out, who, pending, i, bn);
  }

  lemma LookIndirect(d: seq<Block>, sb: Super, f: Files, out: nat, who: nat, pending: set<nat>, i: nat, bn: nat)
    requires Consistent(d, sb, f, out, who, pending) && i < sb.ninodes && i != out && NDIRECT <= bn < MAXFILE
    requires IndOf(f.inode[i]) != 0
    ensures IndOf(f.inode[i]) < |d|
    ensures WordAt(d[IndOf(f.inode[i])], bn - NDIRECT) == if bn < |f.blocks[i]| then f.blocks[i][bn] else 0
    ensures bn < |f.blocks[i]| ==> 0 < f.blocks[i][bn] < |d|
  {
    hide Mapped, Stored, Owners;
    assert Rep(d, f.inode[i], f.blocks[i]);
    assert Lists(d[IndOf(f.inode[i])], f.blocks[i]);
    InData(d, sb, f, out, who, pending, i, bn);
  }

  lemma InData(d: seq<Block>, sb: Super, f: Files, out: nat, who: nat, pending: set<nat>, i: nat, bn: nat)
    requires Consistent(d, sb, f, out, who, pending) && i < sb.ninodes && i != out
    ensures bn < |f.blocks[i]| ==>
      0 < sb.datastart <= f.blocks[i][bn] < |d| && f.blocks[i][bn] in f.owner && f.owner[f.blocks[i][bn]] == Data(i, bn)
  {
    hide Stored, Rep, InUse;
    if bn < |f.blocks[i]| {
      assert f.owner[f.blocks[i][bn]] == Data(i, bn);
    }
  }

  lemma InIndirect(d: seq<Block>, sb: Super, f: Files, out: nat, who: nat, pending: set<nat>, i: nat)
    requires Consistent(d, sb, f, out, who, pending) && i < sb.ninodes && i != out && IndOf(f.inode[i]) != 0
    ensures 0 < sb.datastart <= IndOf(f.inode[i]) < |d| && IndOf(f.inode[i]) in f.owner
    ensures f.owner[IndOf(f.inode[i])] == Indirect(i)
  {
    hide Stored, Rep, InUse;
    assert f.owner[IndOf(f.inode[i])] == Indirect(i);
  }

  /** The blocks of one file are distinct data blocks. */
  lemma DataApart(d: seq<Block>, sb: Super, f: Files, out: nat, who: nat, pending: set<nat>, i: nat)
    requires Consistent(d, sb, f, out, who, pending) && i < sb.ninodes && i != out
    ensures forall p, q :: 0 <= p < |f.blocks[i]| && 0 <= q < |f.blocks[i]| && p != q ==>
      f.blocks[i][p] != f.blocks[i][q]
    ensures Listed(d, f.blocks[i])
    ensures forall p :: 0 <= p < |f.blocks[i]| ==> f.blocks[i][p] >= sb.datastart
  {
    hide Stored, Rep, InUse;
    forall p, q | 0 <= p < |f.blocks[i]| && 0 <= q < |f.blocks[i]| && p != q ensures f.blocks[i][p] != f.blocks[i][q] {
      assert f.owner[f.blocks[i][p]] == Data(i, p) && f.owner[f.blocks[i][q]] == Data(i, q);
    }
    forall p | 0 <= p < |f.blocks[i]| ensures sb.datastart <= f.blocks[i][p] < |d| {
      InData(d, sb, f, out, who, pending, i, p);
    }
  }

  // ----- contents of files -----

  ghost predicate Listed(d: seq<Block>, bl: seq<nat>) {
    forall p :: 0 <= p < |bl| ==> bl[p] < |d|
  }

  /** Byte k of the file whose blocks bl lists, -1 when there is none. */
  function Peek(d: seq<Block>, bl: seq<nat>, k: nat): int {
    if k / BSIZE < |bl| && bl[k / BSIZE] < |d| then d[bl[k / BSIZE]][k % BSIZE] else -1
  }

  ghost function Content(d: seq<Block>, bl: seq<nat>, size: nat): seq<Byte>
    requires Listed(d, bl) && size <= BSIZE * |bl|
  {
    seq<Byte>(size, k requires 0 <= k < size => Peek(d, bl, k))
  }

  /** src written at off into c, growing it when needed. */
  ghost function Splice(c: seq<Byte>, off: nat, src: seq<Byte>): seq<Byte>
    requires off <= |c|
  {
    c[..off] + src + if off + |src| < |c| then c[off + |src|..] else []
  }

  /** What is read back after a write is what was written, and the rest is as before. */
  lemma SpliceRoundTrip(c: seq<Byte>, off: nat, src: seq<Byte>)
    requires off <= |c|
    ensures var r := Splice(c, off, src);
      && |r| == (if off + |src| < |c| then |c| else off + |src|)
      && r[off..off + |src|] == src
      && (forall k :: 0 <= k < |c| && !(off <= k < off + |src|) ==> r[k] == c[k])
  {
  }

  lemma SpliceNothing(c: seq<Byte>, off: nat)
    requires off <= |c|
    ensures Splice(c, off, []) == c
  {
  }

  /** Two writes in a row are one longer write. */
  lemma SpliceTwice(c: seq<Byte>, off: nat, a: seq<Byte>, b: seq<Byte>)
    requires off <= |c|
    ensures off + |a| <= |Splice(c, off, a)| && Splice(Splice(c, off, a), off + |a|, b) == Splice(c, off, a + b)
  {
    var x, y := Splice(Splice(c, off, a), off + |a|, b), Splice(c, off, a + b);
    assert |x| == |y|;
    forall k | 0 <= k < |x| ensures x[k] == y[k] {
    }
  }

  function PatchBlock(b: Block, o: nat, data: seq<Byte>): Block
    requires o + |data| <= BSIZE
  {
    b[..o] + data + b[o + |data|..]
  }

  /** The file listed by bl on d has become the one listed by bl' on d', with data at off. */
  ghost predicate Patched(d: seq<Block>, bl: seq<nat>, off: nat, data: seq<Byte>, d': seq<Block>, bl': seq<nat>) {
    forall k :: 0 <= k < BSIZE * |bl| || off <= k < off + |data| ==>
      Peek(d', bl', k) == if off <= k < off + |data| then data[k - off] else Peek(d, bl, k)
  }

  lemma PatchBytes(d: seq<Block>, d1: seq<Block>, bl: seq<nat>, bl': seq<nat>, off: nat, data: seq<Byte>,
                   d': seq<Block>)
    requires Listed(d, bl') && |d1| == |d| && bl <= bl' && off / BSIZE < |bl'| && off % BSIZE + |data| <= BSIZE
    requires (forall p :: 0 <= p < |bl| ==> d1[bl'[p]] == d[bl'[p]])
    requires (forall p :: 0 <= p < |bl'| && p != off / BSIZE ==> bl'[p] != bl'[off / BSIZE])
    requires d' == d1[bl'[off / BSIZE] := PatchBlock(d1[bl'[off / BSIZE]], off % BSIZE, data)]
    ensures Patched(d, bl, off, data, d', bl')
  {
    forall k | 0 <= k < BSIZE * |bl| || off <= k < off + |data|
      ensures Peek(d', bl', k) == if off <= k < off + |data| then data[k - off] else Peek(d, bl, k)
    {
      if off <= k < off + |data| {
        assert k / BSIZE == off / BSIZE;
      } else {
        assert bl'[k / BSIZE] == bl[k / BSIZE];
      }
    }
  }

  lemma ContentSame(d: seq<Block>, d': seq<Block>, bl: seq<nat>, size: nat)
    requires Listed(d, bl) && Listed(d', bl) && size <= BSIZE * |bl|
    requires forall p :: 0 <= p < |bl| ==> d'[bl[p]] == d[bl[p]]
    ensures Content(d', bl, size) == Content(d, bl, size)
  {
  }

  ghost predicate InodesKept(d: seq<Block>, d': seq<Block>, sb: Super) {
    |d| == |d'| && forall b :: sb.inodestart <= b < sb.bmapstart && b < |d| ==> d'[b] == d[b]
  }

  lemma CeilBound(n: nat)
    ensures n <= BSIZE * Ceil(n) < n + BSIZE
  {
  }

  /** An up-to-date disk is fine for an operation that may change inode i. */
  lemma MayChange(d: seq<Block>, sb: Super, f: Files, out: nat, i: nat, pending: set<nat>)
    requires Consistent(d, sb, f, out, sb.ninodes, pending)
    ensures Consistent(d, sb, f, out, i, pending)
  {
  }

  /** If inode i did not change either, the disk is up to date. */
  lemma NoChange(d: seq<Block>, sb: Super, f: Files, out: nat, i: nat, pending: set<nat>, d0: seq<Block>,
                 inode0: seq<Inode>)
    requires Consistent(d, sb, f, out, i, pending) && i < sb.ninodes && f.inode == inode0 && |d0| == |d|
    requires Stored(d0, sb, inode0, sb.ninodes)
    requires InodesKept(d0, d, sb)
    ensures Consistent(d, sb, f, out, sb.ninodes, pending)
  {
    StoredFrame(d0, d, sb, f.inode, sb.ninodes);
  }

  function Max(a: nat, b: nat): nat {
    if a < b then b else a
  }

  /** How many blocks a file has after m more bytes at o, inside one block. */
  lemma CeilStep(size: nat, o: nat, m: nat)
    requires 0 < m <= BSIZE - o % BSIZE
    ensures o / BSIZE <= Ceil(Max(size, o))
    ensures Ceil(Max(size, o + m)) == if o / BSIZE < Ceil(Max(size, o)) then Ceil(Max(size, o)) else o / BSIZE + 1
  {
    assert (o + m - 1) / BSIZE == o / BSIZE;
    if o < size {
      assert o / BSIZE <= (size - 1) / BSIZE;
    }
  }

  lemma PatchedTrans(d0: seq<Block>, b0: seq<nat>, d1: seq<Block>, b1: seq<nat>, d2: seq<Block>, b2: seq<nat>,
                     off: nat, x: seq<Byte>, y: seq<Byte>)
    requires Patched(d0, b0, off, x, d1, b1) && Patched(d1, b1, off + |x|, y, d2, b2) && |b0| <= |b1|
    requires x != [] ==> off + |x| <= BSIZE * |b1|
    ensures Patched(d0, b0, off, x + y, d2, b2)
  {
    forall k | 0 <= k < BSIZE * |b0| || off <= k < off + |x + y|
      ensures Peek(d2, b2, k) == if off <= k < off + |x + y| then (x + y)[k - off] else Peek(d0, b0, k)
    {
      if off + |x| <= k < off + |x + y| {
      } else {
        assert Peek(d2, b2, k) == Peek(d1, b1, k);
      }
    }
  }

  lemma PatchedNone(d: seq<Block>, bl: seq<nat>, off: nat)
    ensures Patched(d, bl, off, [], d, bl)
  {
  }

  /** A patched file holds the spliced contents. */
  lemma PatchedContent(d: seq<Block>, bl: seq<nat>, size: nat, off: nat, src: seq<Byte>, d': seq<Block>, bl': seq<nat>)
    requires Listed(d, bl) && Listed(d', bl') && size <= BSIZE * |bl| && off <= size
    requires Max(size, off + |src|) <= BSIZE * |bl'|
    requires Patched(d, bl, off, src, d', bl')
    ensures Content(d', bl', Max(size, off + |src|)) == Splice(Content(d, bl, size), off, src)
  {
    var x, y := Content(d', bl', Max(size, off + |src|)), Splice(Content(d, bl, size), off, src);
    forall k | 0 <= k < |x| ensures x[k] == y[k] {
      assert x[k] == Peek(d', bl', k);
      if !(off <= k < off + |src|) {
        assert y[k] == Content(d, bl, size)[k] == Peek(d, bl, k);
      }
    }
  }

  /** A new size in the memory copy of inode i. */
  lemma SetSize(d: seq<Block>, sb: Super, f: Files, out: nat, i: nat, pending: set<nat>, ip: Inode, f': Files)
    requires Consistent(d, sb, f, out, i, pending) && i < sb.ninodes && i != out
    requires ip == f.inode[i].(size := ip.size) && ip.size < U32 && f' == f.(inode := f.inode[i := ip])
    ensures Consistent(d, sb, f', out, i, pending)
  {
    hide InUse, OnDisk, Mapped, Stored;
    assert Rep(d, f.inode[i], f.blocks[i]);
    assert Rep(d, ip, f.blocks[i]);
    assert f'.blocks == f.blocks[i := f.blocks[i]];
    RepsBut(d, sb, f, out, i, ip, f.blocks[i], f');
    OwnersSame(sb, f, out, f');
    MappedLayout(d, sb, f.owner, pending);
    StoredBut(d, sb, f.inode, i, ip);
  }

  lemma MappedLayout(d: seq<Block>, sb: Super, owner: map<nat, Owner>, pending: set<nat>)
    requires Mapped(d, sb, owner, pending)
    ensures |d| == sb.size && Layout(sb)
  {
  }

  lemma OwnersSame(sb: Super, f: Files, out: nat, f': Files)
    requires |f.inode| == |f.blocks| == sb.ninodes == |f'.inode| && Owners(sb, f, out)
    requires f'.blocks == f.blocks && f'.owner == f.owner
    requires forall i :: 0 <= i < |f.inode| ==> IndOf(f'.inode[i]) == IndOf(f.inode[i])
    ensures Owners(sb, f', out)
  {
    forall b | b in f'.owner ensures OwnerHolds(sb, f', out, f'.owner[b], b) {
      assert OwnerHolds(sb, f, out, f.owner[b], b);
    }
  }

  // ----- the blocks a write touches -----

  ghost function Touched(bl: seq<nat>, a: nat, b: nat): set<nat> {
    set p | a <= p < b && p < |bl| :: bl[p]
  }

  lemma {:induction false} TouchedSize(bl: seq<nat>, a: nat, b: nat)
    requires a <= b
    ensures |Touched(bl, a, b)| <= b - a
    decreases b - a
  {
    if a < b {
      TouchedSize(bl, a, b - 1);
      assert Touched(bl, a, b) <= Touched(bl, a, b - 1) + if b - 1 < |bl| then {bl[b - 1]} else {};
      SubsetSize(Touched(bl, a, b), Touched(bl, a, b - 1) + if b - 1 < |bl| then {bl[b - 1]} else {});
    } else {
      assert Touched(bl, a, b) == {};
    }
  }

  lemma TouchedMore(bl: seq<nat>, bl': seq<nat>, a: nat, b: nat, c: nat)
    requires bl <= bl' && b <= c
    ensures Touched(bl, a, b) <= Touched(bl', a, c)
  {
    forall x | x in Touched(bl, a, b) ensures x in Touched(bl', a, c) {
      var p :| a <= p < b && p < |bl| && bl[p] == x;
      assert bl'[p] == x;
    }
  }

  /** Bytes o .. o+m-1 of a file, inside one block, are bytes of that block. */
  lemma ContentSlice(d: seq<Block>, bl: seq<nat>, size: nat, o: nat, m: nat)
    requires Listed(d, bl) && size <= BSIZE * |bl| && 0 < m <= BSIZE - o % BSIZE && o + m <= size
    ensures o / BSIZE < |bl| && |Content(d, bl, size)| == size
    ensures Content(d, bl, size)[o..o + m] == d[bl[o / BSIZE]][o % BSIZE..o % BSIZE + m]
  {
    var x, y := Content(d, bl, size)[o..o + m], d[bl[o / BSIZE]][o % BSIZE..o % BSIZE + m];
    forall k | 0 <= k < m ensures x[k] == y[k] {
      assert (o + k) / BSIZE == o / BSIZE;
      assert x[k] == Peek(d, bl, o + k);
    }
  }

  // ----- truncation -----

  ghost function Without(owner: map<nat, Owner>, i: nat): map<nat, Owner> {
    map b | b in owner && owner[b].inum != i :: owner[b]
  }

  /** The blocks of inode i from position k on, and its indirect block, are to be freed. */
  ghost function ToFree(bl: seq<nat>, k: nat, ip: Inode): set<nat> {
    Touched(bl, k, |bl|) + if IndOf(ip) == 0 then {} else {IndOf(ip)}
  }

  lemma OwnersWithout(sb: Super, f: Files, i: nat, f': Files)
    requires |f.inode| == |f.blocks| == sb.ninodes && Owners(sb, f, sb.ninodes) && i < sb.ninodes
    requires f' == Files(f.inode, f.blocks[i := []], Without(f.owner, i))
    ensures Owners(sb, f', i)
  {
    forall j, p | 0 <= j < sb.ninodes && j != i && 0 <= p < |f'.blocks[j]|
      ensures f'.blocks[j][p] in f'.owner && f'.owner[f'.blocks[j][p]] == Data(j, p)
    {
      assert f.owner[f.blocks[j][p]] == Data(j, p);
    }
    forall j | 0 <= j < sb.ninodes && j != i && IndOf(f'.inode[j]) != 0
      ensures IndOf(f'.inode[j]) in f'.owner && f'.owner[IndOf(f'.inode[j])] == Indirect(j)
    {
      assert f.owner[IndOf(f.inode[j])] == Indirect(j);
    }
    forall b | b in f'.owner ensures OwnerHolds(sb, f', i, f'.owner[b], b) {
      assert OwnerHolds(sb, f, sb.ninodes, f.owner[b], b);
    }
  }

  lemma ToFreeOwned(sb: Super, f: Files, i: nat, b: nat)
    requires |f.inode| == |f.blocks| == sb.ninodes && Owners(sb, f, sb.ninodes) && i < sb.ninodes && sb.datastart > 0
    ensures b in ToFree(f.blocks[i], 0, f.inode[i]) <==> b in f.owner && f.owner[b].inum == i
  {
    if b in Touched(f.blocks[i], 0, |f.blocks[i]|) {
      var p :| 0 <= p < |f.blocks[i]| && f.blocks[i][p] == b;
      assert f.owner[f.blocks[i][p]] == Data(i, p);
    }
    if b in f.owner && f.owner[b].inum == i {
      assert OwnerHolds(sb, f, sb.ninodes, f.owner[b], b);
    }
  }

  /** Truncation starts: inode i gives up all its blocks at once, still marked in use. */
  lemma TruncStart(d: seq<Block>, sb: Super, f: Files, i: nat, f': Files)
    requires Consistent(d, sb, f, sb.ninodes, sb.ninodes, {}) && i < sb.ninodes
    requires f' == Files(f.inode, f.blocks[i := []], Without(f.owner, i))
    ensures Consistent(d, sb, f', i, i, ToFree(f.blocks[i], 0, f.inode[i]))
  {
    hide Rep, Stored, OwnerHolds, InUse, Touched, ToFree;
    forall b ensures b in ToFree(f.blocks[i], 0, f.inode[i]) <==> b in f.owner && f.owner[b].inum == i {
      ToFreeOwned(sb, f, i, b);
    }
    OwnersWithout(sb, f, i, f');
    RepsWithout(d, sb, f, i, f');
    MayChange(d, sb, f, sb.ninodes, i, {});
  }

  lemma RepsWithout(d: seq<Block>, sb: Super, f: Files, i: nat, f': Files)
    requires AllRep(d, sb, f, sb.ninodes) && i < sb.ninodes && f'.inode == f.inode && f'.blocks == f.blocks[i := []]
    ensures AllRep(d, sb, f', i)
  {
    forall j | 0 <= j < sb.ninodes && j != i ensures Rep(d, f'.inode[j], f'.blocks[j]) {
      assert Rep(d, f.inode[j], f.blocks[j]);
    }
  }

  /** While inode i is out of the picture its memory copy may change freely. */
  lemma OutChange(d: seq<Block>, sb: Super, f: Files, i: nat, pending: set<nat>, ip: Inode, f': Files)
    requires Consistent(d, sb, f, i, i, pending) && i < sb.ninodes && Fits(ip) && f' == f.(inode := f.inode[i := ip])
    ensures Consistent(d, sb, f', i, i, pending)
  {
    hide InUse, OnDisk, Mapped, Stored, Rep;
    forall j | 0 <= j < sb.ninodes && j != i ensures Rep(d, f'.inode[j], f'.blocks[j]) {
      assert Rep(d, f.inode[j], f.blocks[j]);
    }
    forall b | b in f'.owner ensures OwnerHolds(sb, f', i, f'.owner[b], b) {
      assert OwnerHolds(sb, f, i, f.owner[b], b);
    }
    MappedLayout(d, sb, f.owner, pending);
    StoredBut(d, sb, f.inode, i, ip);
  }

  /** Truncation ends: inode i is back, with no blocks. */
  lemma TruncEnd(d: seq<Block>, sb: Super, f: Files, i: nat)
    requires Consistent(d, sb, f, i, sb.ninodes, {}) && i < sb.ninodes && f.blocks[i] == []
    requires forall p :: 0 <= p <= NDIRECT ==> f.inode[i].addrs[p] == 0
    ensures Consistent(d, sb, f, sb.ninodes, sb.ninodes, {})
  {
    hide InUse, OnDisk, Mapped, Stored;
    forall j | 0 <= j < sb.ninodes ensures Rep(d, f.inode[j], f.blocks[j]) {
      if j != i {
        assert Rep(d, f.inode[j], f.blocks[j]);
      }
    }
    forall b | b in f.owner ensures OwnerHolds(sb, f, sb.ninodes, f.owner[b], b) {
      assert OwnerHolds(sb, f, i, f.owner[b], b);
    }
  }

  /** The next block to free. */
  lemma ToFreeNext(bl: seq<nat>, k: nat, ip: Inode)
    requires k < |bl| && (forall p, q :: 0 <= p < |bl| && 0 <= q < |bl| && p != q ==> bl[p] != bl[q])
    requires IndOf(ip) !in bl
    ensures bl[k] in ToFree(bl, k, ip) && ToFree(bl, k, ip) - {bl[k]} == ToFree(bl, k + 1, ip)
  {
    assert bl[k] in Touched(bl, k, |bl|);
    forall x | x in Touched(bl, k, |bl|) && x != bl[k] ensures x in Touched(bl, k + 1, |bl|) {
      var p :| k <= p < |bl| && bl[p] == x;
      assert p != k;
    }
    forall x | x in Touched(bl, k + 1, |bl|) ensures x in Touched(bl, k, |bl|) && x != bl[k] {
      var p :| k + 1 <= p < |bl| && bl[p] == x;
    }
  }

  lemma ToFreeSkip(bl: seq<nat>, k: nat, ip: Inode)
    requires k >= |bl|
    ensures ToFree(bl, k, ip) == if IndOf(ip) == 0 then {} else {IndOf(ip)}
  {
  }
}
