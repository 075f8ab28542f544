/** Swap space (xv6/fs.c vpread and vpwrite, xv6/proc.h): page-sized slots laid out in the
    per-process swap files. */
module SwapFiles {
  import opened Blocks
  import opened FsState
  import FileSys

  const PGSIZE := 4096
  const VPFILE_SIZE := 65536
  const MAX_VPFILES := 4
  const SLOTS := 64  // MAX_VPFILES * VPFILE_SIZE / PGSIZE

  /** vpread and vpwrite split a slot's offset into file number and file offset. */
  function FileNo(offset: nat): nat { offset / VPFILE_SIZE }

  function FileOff(offset: nat): nat { offset % VPFILE_SIZE }

  /** What vpread and vpwrite check before they index vpfile. */
  predicate Checked(offset: nat) { FileNo(offset) <= MAX_VPFILES }

  /** A slot addresses one of the swap files exactly when it is below SLOTS; the check alone
      also lets the 16 slots after them through. */
  lemma CheckTooWeak(s: nat)
    ensures FileNo(s * PGSIZE) < MAX_VPFILES <==> s < SLOTS
    ensures Checked(s * PGSIZE) <==> s < SLOTS + 16
  {
  }

  /** Bytes of different slots are different bytes of the files, all inside the files. */
  lemma SlotsDisjoint(s: nat, a: nat, t: nat, b: nat)
    requires s < SLOTS && t < SLOTS && a < PGSIZE && b < PGSIZE
    ensures FileNo(s * PGSIZE + a) == FileNo(s * PGSIZE) < MAX_VPFILES
    ensures FileOff(s * PGSIZE + a) == FileOff(s * PGSIZE) + a < VPFILE_SIZE
    ensures FileNo(s * PGSIZE + a) == FileNo(t * PGSIZE + b) && FileOff(s * PGSIZE + a) == FileOff(t * PGSIZE + b)
      <==> s == t && a == b
  {
    SlotFile(s, a);
    SlotFile(t, b);
  }

  lemma SlotFile(s: nat, a: nat)
    requires s < SLOTS && a < PGSIZE
    ensures FileNo(s * PGSIZE + a) == s / 16 && FileOff(s * PGSIZE + a) == s % 16 * PGSIZE + a
  {
  }

  /** How long swap file k is when slots below hw have been written. */
  function Length(hw: nat, k: nat): nat {
    if hw <= 16 * k then 0 else if hw >= 16 * k + 16 then VPFILE_SIZE else (hw - 16 * k) * PGSIZE
  }

  /** The swap files hold exactly the slots below hw: no holes. */
  ghost predicate Dense(files: seq<seq<Byte>>, hw: nat) {
    |files| == MAX_VPFILES && hw <= SLOTS && forall k :: 0 <= k < MAX_VPFILES ==> |files[k]| == Length(hw, k)
  }

  /** Byte a of slot s. */
  ghost function SlotByte(files: seq<seq<Byte>>, s: nat, a: nat): int {
    if s / 16 < |files| && s % 16 * PGSIZE + a < |files[s / 16]| then files[s / 16][s % 16 * PGSIZE + a] else -1
  }

  ghost predicate Holds(files: seq<seq<Byte>>, s: nat, data: seq<Byte>) {
    |data| == PGSIZE && forall a :: 0 <= a < PGSIZE ==> SlotByte(files, s, a) == data[a]
  }

  /** A write of data at byte o of slot s, with filewrite's meaning. */
  ghost function VpWritten(files: seq<seq<Byte>>, s: nat, o: nat, data: seq<Byte>): seq<seq<Byte>>
    requires s / 16 < |files| && s % 16 * PGSIZE + o <= |files[s / 16]|
  {
    files[s / 16 := Splice(files[s / 16], s % 16 * PGSIZE + o, data)]
  }

  /** A slot at or below the high-water mark takes the write: the offset is not past the end
      of its file, and the file stays within its maximal size. */
  lemma NoRejection(files: seq<seq<Byte>>, hw: nat, s: nat, o: nat, n: nat)
    requires Dense(files, hw) && s < SLOTS && o + n <= PGSIZE && (s < hw || (s == hw && o == 0))
    ensures s / 16 < |files| && s % 16 * PGSIZE + o <= |files[s / 16]|
    ensures FileSys.Accepted(|files[s / 16]|, s % 16 * PGSIZE + o, n) == n
  {
  }

  lemma WriteKeepsDense(files: seq<seq<Byte>>, hw: nat, s: nat, o: nat, data: seq<Byte>)
    requires Dense(files, hw) && s < hw && o + |data| <= PGSIZE
    ensures s / 16 < |files| && s % 16 * PGSIZE + o <= |files[s / 16]| && Dense(VpWritten(files, s, o, data), hw)
  {
    assert s % 16 * PGSIZE + PGSIZE <= |files[s / 16]|;
  }

  lemma WriteExtends(files: seq<seq<Byte>>, hw: nat, data: seq<Byte>)
    requires Dense(files, hw) && hw < SLOTS && |data| == PGSIZE
    ensures hw / 16 < |files| && hw % 16 * PGSIZE <= |files[hw / 16]| && Dense(VpWritten(files, hw, 0, data), hw + 1)
  {
  }

  lemma ByteAfterWrite(files: seq<seq<Byte>>, s: nat, o: nat, data: seq<Byte>, t: nat, a: nat)
    requires s / 16 < |files| && s % 16 * PGSIZE + o <= |files[s / 16]| && o + |data| <= PGSIZE && a < PGSIZE
    ensures s == t && o <= a < o + |data| ==> SlotByte(VpWritten(files, s, o, data), t, a) == data[a - o]
    ensures !(s == t && o <= a < o + |data|) && SlotByte(files, t, a) != -1 ==>
      SlotByte(VpWritten(files, s, o, data), t, a) == SlotByte(files, t, a)
  {
    var c, off := files[s / 16], s % 16 * PGSIZE + o;
    SpliceRoundTrip(c, off, data);
    if t / 16 == s / 16 {
      var k := t % 16 * PGSIZE + a;
      if s == t && o <= a < o + |data| {
        assert Splice(c, off, data)[k] == Splice(c, off, data)[off..off + |data|][k - off];
      } else if k < |c| {
        assert !(off <= k < off + |data|);
      }
    }
  }

  /** Other slots keep what they hold. */
  lemma HoldsElsewhere(files: seq<seq<Byte>>, s: nat, o: nat, data: seq<Byte>, t: nat, page: seq<Byte>)
    requires s / 16 < |files| && s % 16 * PGSIZE + o <= |files[s / 16]| && o + |data| <= PGSIZE && s != t
    requires Holds(files, t, page)
    ensures Holds(VpWritten(files, s, o, data), t, page)
  {
    forall a | 0 <= a < PGSIZE ensures SlotByte(VpWritten(files, s, o, data), t, a) == page[a] {
      ByteAfterWrite(files, s, o, data, t, a);
    }
  }

  lemma HoldsWhole(files: seq<seq<Byte>>, s: nat, data: seq<Byte>)
    requires s / 16 < |files| && s % 16 * PGSIZE <= |files[s / 16]| && |data| == PGSIZE
    ensures Holds(VpWritten(files, s, 0, data), s, data)
  {
    forall a | 0 <= a < PGSIZE ensures SlotByte(VpWritten(files, s, 0, data), s, a) == data[a] {
      ByteAfterWrite(files, s, 0, data, s, a);
    }
  }
}
