/** malloc and free (xv6/umalloc.c).  A block is named by the address of its header; `base` is
    the static header, below all memory that sbrk returns. */
module Heap {
  import opened HeapList
  import Blocks

  const U32 := Blocks.U32

  /** malloc's size in units, in 32-bit arithmetic. */
  function Units32(nbytes: nat): nat {
    (nbytes + 7) % U32 / 8 + 1
  }

  /** The block is large enough exactly when the rounding does not wrap. */
  lemma PayloadFits(nbytes: nat)
    requires nbytes < U32
    ensures 8 * (Units32(nbytes) - 1) >= nbytes <==> nbytes <= U32 - 8
    ensures if nbytes <= U32 - 8 then 8 * (Units32(nbytes) - 1) < nbytes + 8 else Units32(nbytes) == 1
  {
  }

  /** What morecore passes to sbrk, whose argument is a signed int. */
  function SbrkArgument(nu: nat): int {
    var n := nu * 8 % U32;
    if n < 0x8000_0000 then n else n - U32
  }

  /** sbrk is asked for the units that morecore records exactly below 2^28 of them. */
  lemma SbrkAsksEnough(nu: nat)
    requires nu <= 0x2000_0000
    ensures SbrkArgument(nu) == 8 * nu <==> nu < 0x1000_0000
  {
  }

  /** No two free blocks touch. */
  ghost predicate Coalesced(all: map<nat, nat>, free: set<nat>) {
    forall a :: a in free && a in all ==> a + all[a] !in free
  }

  lemma CoalescedMeans(all: map<nat, nat>, free: set<nat>)
    requires Coalesced(all, free)
    ensures forall a :: a in free && a in all ==> a + all[a] !in free
  {
  }

  /** The list holds base and the free blocks, whose headers tell their sizes. */
  ghost predicate Formed(base: nat, ptr: map<nat, nat>, size: map<nat, nat>, list: seq<nat>, all: map<nat, nat>,
                         free: set<nat>, at: map<nat, nat>) {
    && Circle(ptr, list) && list[0] == base && base > 0
    && (forall a :: a in free <==> a in list && a != base) && free <= all.Keys
    && Tiled(all, at) && (forall a :: a in all ==> a > base)
    && base in size && size[base] == 0 && (forall a :: a in all ==> a in size && size[a] == all[a])
  }

  /** The place of b in the list. */
  lemma {:induction false} Place(l: seq<nat>, b: nat, n: nat) returns (j: nat)
    requires Ascending(l) && 0 < n <= |l| && l[0] < b && b !in l && (n < |l| ==> b < l[n])
    ensures j < |l| && l[j] < b && (j + 1 < |l| ==> b < l[j + 1])
    decreases n
  {
    assert l[n - 1] in l;
    if l[n - 1] < b {
      j := n - 1;
    } else {
      j := Place(l, b, n - 1);
    }
  }

  /** Block b becomes free and goes into the list after position j. */
  lemma Add(base: nat, ptr: map<nat, nat>, size: map<nat, nat>, list: seq<nat>, all: map<nat, nat>, free: set<nat>,
            at: map<nat, nat>, j: nat, b: nat)
    requires Formed(base, ptr, size, list, all, free, at) && Coalesced(all, free)
    requires b in all && b !in free && j < |list| && list[j] < b && (j + 1 < |list| ==> b < list[j + 1])
    ensures Formed(base, ptr[b := ptr[list[j]]][list[j] := b], size, With(list, j, b), all, free + {b}, at)
    ensures Touching(all, free + {b}, b)
  {
    CircleInsert(ptr, list, j, b);
    var m := With(list, j, b);
    forall a ensures a in m <==> a in list || a == b {
      InWith(list, j, b, a);
    }
  }

  lemma InWith(l: seq<nat>, j: nat, b: nat, a: nat)
    requires j < |l|
    ensures a in With(l, j, b) <==> a in l || a == b
  {
    assert l == l[..j + 1] + l[j + 1..];
  }

  lemma InWithout(l: seq<nat>, j: nat, a: nat)
    requires j + 1 < |l| && Ascending(l)
    ensures a in Without(l, j) <==> a in l && a != l[j + 1]
  {
    var m := Without(l, j);
    if a in m {
      var i :| 0 <= i < |m| && m[i] == a;
      assert a == if i <= j then l[i] else l[i + 1];
    }
    if a in l && a != l[j + 1] {
      var i :| 0 <= i < |l| && l[i] == a;
      assert m[if i <= j then i else i - 1] == a;
    }
  }

  /** Free blocks touch only at block b. */
  ghost predicate Touching(all: map<nat, nat>, free: set<nat>, b: nat) {
    forall a :: a in free && a in all && a + all[a] in free ==> a == b || a + all[a] == b
  }

  /** A free block a and the next one in the list, which it touches, become one. */
  lemma Merge(base: nat, ptr: map<nat, nat>, size: map<nat, nat>, list: seq<nat>, all: map<nat, nat>, free: set<nat>,
              at: map<nat, nat>, j: nat,
              a: nat, c: nat, all': map<nat, nat>)
    requires Formed(base, ptr, size, list, all, free, at) && 0 < j && j + 1 < |list| && a == list[j] && c == list[j + 1]
    requires a in all && a + all[a] == c && c in all && all' == (all - {c})[a := all[a] + all[c]]
    ensures Formed(base, ptr[a := ptr[c]], size[a := size[a] + size[c]], Without(list, j), all', free - {c},
                   Remap(at, c, c + all[c], a))
  {
    CircleRemove(ptr, list, j);
    TiledMerge(all, at, a, c, all');
    var m := Without(list, j);
    forall x ensures x in m <==> x in list && x != c {
      InWithout(list, j, x);
    }
    assert a in list && c in list;
  }

  /** The block right above b is free exactly when it is the one p points to. */
  lemma NextIs(base: nat, ptr: map<nat, nat>, size: map<nat, nat>, list: seq<nat>, all: map<nat, nat>, free: set<nat>,
               at: map<nat, nat>, j: nat, b: nat)
    requires Formed(base, ptr, size, list, all, free, at)
    requires b in all && b !in free && j < |list| && list[j] < b && (j + 1 < |list| ==> b < list[j + 1])
    ensures list[j] in ptr && (b + all[b] == ptr[list[j]] <==> b + all[b] in free) && b in size && size[b] == all[b] > 0
    ensures b + all[b] == ptr[list[j]] ==> j + 1 < |list| && ptr[list[j]] == list[j + 1]
    ensures j + 1 < |list| ==> list[j + 1] in free && list[j + 1] in all && list[j + 1] in ptr
    ensures j + 1 < |list| ==> list[j + 1] in size && size[list[j + 1]] == all[list[j + 1]] > 0
  {
    Step(ptr, list, j);
    var y := b + all[b];
    if y in free {
      var i :| 0 <= i < |list| && list[i] == y;
      assert i > j;
      if i > j + 1 {
        assert list[j + 1] in free;
        Apart(all, at, b, list[j + 1]);
      }
    }
    if j + 1 < |list| {
      assert list[j + 1] in list && list[j + 1] != list[0];
    }
  }

  lemma RemapKeys(at: map<nat, nat>, lo: nat, hi: nat, a: nat)
    ensures Remap(at, lo, hi, a).Keys == at.Keys
  {
  }

  lemma RemapAt(at: map<nat, nat>, lo: nat, hi: nat, a: nat, u: nat)
    requires lo <= u < hi && u in at
    ensures Remap(at, lo, hi, a)[u] == a
  {
  }

  lemma OwnUnit(base: nat, ptr: map<nat, nat>, size: map<nat, nat>, list: seq<nat>, all: map<nat, nat>, free: set<nat>,
                at: map<nat, nat>, b: nat)
    requires Formed(base, ptr, size, list, all, free, at) && b in all
    ensures b in at && at[b] == b
  {
    assert Owns(all, b, b);
  }

  lemma WithAt(l: seq<nat>, j: nat, b: nat)
    requires j < |l|
    ensures |With(l, j, b)| == |l| + 1 && With(l, j, b)[j] == l[j] && With(l, j, b)[j + 1] == b
    ensures j + 1 < |l| ==> With(l, j, b)[j + 2] == l[j + 1]
  {
  }

  lemma WithoutAt(l: seq<nat>, j: nat)
    requires j + 1 < |l|
    ensures |Without(l, j)| == |l| - 1 && forall i :: 0 <= i <= j ==> Without(l, j)[i] == l[i]
  {
  }

  ghost function LiveOf(all: map<nat, nat>, free: set<nat>): map<nat, nat> {
    map a | a in all && a !in free :: all[a]
  }

  lemma LiveLess(all: map<nat, nat>, free: set<nat>, b: nat)
    ensures LiveOf(all, free + {b}) == LiveOf(all, free) - {b}
  {
  }

  lemma LiveMerge(all: map<nat, nat>, free: set<nat>, a: nat, c: nat, all': map<nat, nat>)
    requires a in free && c in free && a in all && c in all && a != c && all' == (all - {c})[a := all[a] + all[c]]
    ensures LiveOf(all', free - {c}) == LiveOf(all, free)
  {
  }

  /** After the merge nothing free touches b from above. */
  lemma MergeTouch(all: map<nat, nat>, free: set<nat>, b: nat, c: nat, all': map<nat, nat>)
    requires c in all && all[c] > 0 && b in all && Touching(all, free, b) && b in free && c in free
    requires b < c == b + all[b]
    requires all' == (all - {c})[b := all[b] + all[c]]
    ensures Touching(all', free - {c}, b) && b + all'[b] !in free - {c}
  {
    assert c + all[c] !in free;
  }

  /** The block right below b is free exactly when it is p. */
  lemma PrevIs(base: nat, ptr: map<nat, nat>, size: map<nat, nat>, list: seq<nat>, all: map<nat, nat>, free: set<nat>,
               at: map<nat, nat>, j: nat, p: nat, b: nat)
    requires Formed(base, ptr, size, list, all, free, at) && j + 1 < |list| && p == list[j] && b == list[j + 1]
    requires b in all
    ensures p in size && b in size && size[b] == all[b] > 0 && b in free && p < b && p > 0
    ensures p + size[p] == b ==> j > 0 && p in free && p in all && size[p] == all[p] && p in ptr && b in ptr
    ensures p + size[p] != b ==> forall x :: x in free && x in all ==> x + all[x] != b
  {
    assert p in list && b in list;
    if p + size[p] != b {
      forall x | x in free && x in all ensures x + all[x] != b {
        if x + all[x] == b {
          var i :| 0 <= i < |list| && list[i] == x;
          assert i < j + 1;
          if i < j {
            assert x < p && p in free;
            Apart(all, at, x, p);
          }
        }
      }
    }
  }

  lemma MergeApart(all: map<nat, nat>, free: set<nat>, p: nat, b: nat, all': map<nat, nat>)
    requires Touching(all, free, b) && p in free && p in all && b in all && p + all[p] == b && p != b
    requires b + all[b] !in free
    requires all' == (all - {b})[p := all[p] + all[b]]
    ensures Coalesced(all', free - {b})
  {
  }

  lemma StillApart(all: map<nat, nat>, free: set<nat>, b: nat)
    requires Touching(all, free, b) && b in all && b + all[b] !in free
    requires forall x :: x in free && x in all ==> x + all[x] != b
    ensures Coalesced(all, free)
  {
  }

  /** How many units morecore asks for. */
  function Chunk(n: nat): (r: nat)
    ensures n <= r && 4096 <= r && (r == n || r == 4096)
  {
    if n < 4096 then 4096 else n
  }

  lemma BaseFirst(base: nat, ptr: map<nat, nat>, size: map<nat, nat>, list: seq<nat>, all: map<nat, nat>,
                  free: set<nat>, at: map<nat, nat>, p: nat)
    requires Formed(base, ptr, size, list, all, free, at) && p in list
    ensures p >= base > 0 && p in ptr && p in size
  {
    var i :| 0 <= i < |list| && list[i] == p;
  }

  /** A fresh region becomes a block in use. */
  lemma Grant(base: nat, ptr: map<nat, nat>, size: map<nat, nat>, list: seq<nat>, all: map<nat, nat>, free: set<nat>,
              at: map<nat, nat>, b: nat, n: nat)
    requires Formed(base, ptr, size, list, all, free, at) && Coalesced(all, free) && n > 0 && b > base
    requires forall u :: b <= u < b + n ==> u !in at
    ensures b !in all && b !in free && Formed(base, ptr, size[b := n], list, all[b := n], free, Granted(at, b, n))
    ensures Coalesced(all[b := n], free)
    ensures LiveOf(all[b := n], free) - {b} == LiveOf(all, free)
    ensures Granted(at, b, n).Keys == at.Keys + Units(b, n)
  {
    TiledGrant(all, at, b, n);
  }

  /** A list element with a positive size is a free block. */
  lemma InFree(base: nat, ptr: map<nat, nat>, size: map<nat, nat>, list: seq<nat>, all: map<nat, nat>, free: set<nat>,
               at: map<nat, nat>, i: nat, p: nat)
    requires Formed(base, ptr, size, list, all, free, at) && i < |list| && p == list[Inc(i, |list|)] && p in size
    requires size[p] > 0
    ensures i + 1 < |list| && p == list[i + 1] && p in free && p in all && size[p] == all[p] && p in ptr
  {
    assert p in list;
  }

  lemma TakeWhole(base: nat, ptr: map<nat, nat>, size: map<nat, nat>, list: seq<nat>, all: map<nat, nat>,
                  free: set<nat>, at: map<nat, nat>, i: nat, p: nat)
    requires Formed(base, ptr, size, list, all, free, at) && Coalesced(all, free) && i + 1 < |list| && p == list[i + 1]
    requires p in free && p in all
    ensures Formed(base, ptr[list[i] := ptr[p]], size, Without(list, i), all, free - {p}, at)
    ensures Coalesced(all, free - {p})
    ensures LiveOf(all, free - {p}) == LiveOf(all, free)[p := all[p]] && p !in LiveOf(all, free)
    ensures |Without(list, i)| == |list| - 1 && Without(list, i)[i] == list[i]
  {
    CircleRemove(ptr, list, i);
    var m := Without(list, i);
    forall x ensures x in m <==> x in list && x != p {
      InWithout(list, i, x);
    }
  }

  lemma TakeEnd(base: nat, ptr: map<nat, nat>, size: map<nat, nat>, list: seq<nat>, all: map<nat, nat>, free: set<nat>,
                at: map<nat, nat>, p: nat, n: nat, h: nat)
    requires Formed(base, ptr, size, list, all, free, at) && Coalesced(all, free) && p in free && p in all
    requires 0 < n < all[p] && h == p + all[p] - n
    ensures var all' := all[p := all[p] - n][h := n];
      && Formed(base, ptr, size[p := size[p] - n][h := n], list, all', free, Remap(at, h, h + n, h)) && Coalesced(all', free)
      && LiveOf(all', free) == LiveOf(all, free)[h := n] && h !in LiveOf(all, free) && Remap(at, h, h + n, h).Keys == at.Keys
  {
    var all' := all[p := all[p] - n][h := n];
    TiledSplit(all, at, p, n, h, all');
    assert h !in free;
  }

  lemma StepOn(base: nat, ptr: map<nat, nat>, size: map<nat, nat>, list: seq<nat>, all: map<nat, nat>, free: set<nat>,
               at: map<nat, nat>, i: nat)
    requires Formed(base, ptr, size, list, all, free, at) && i < |list|
    ensures list[i] in ptr && ptr[list[i]] == list[Inc(i, |list|)] && list[Inc(i, |list|)] in size
  {
    Step(ptr, list, i);
    assert list[Inc(i, |list|)] in list;
  }

  lemma SizeIs(base: nat, ptr: map<nat, nat>, size: map<nat, nat>, list: seq<nat>, all: map<nat, nat>, free: set<nat>,
               at: map<nat, nat>, i: nat, p: nat)
    requires Formed(base, ptr, size, list, all, free, at) && i < |list| && p == list[Inc(i, |list|)] && p in size
    requires size[p] > 0
    ensures p in all && all[p] == size[p]
  {
    InFree(base, ptr, size, list, all, free, at, i, p);
  }

  lemma SamePlace(base: nat, ptr: map<nat, nat>, size: map<nat, nat>, list: seq<nat>, all: map<nat, nat>,
                  free: set<nat>, at: map<nat, nat>, i: nat, j: nat)
    requires Formed(base, ptr, size, list, all, free, at) && i < |list| && j < |list| && list[i] == list[j]
    ensures i == j
  {
  }

  lemma FitPlace(base: nat, ptr: map<nat, nat>, size: map<nat, nat>, list: seq<nat>, all: map<nat, nat>,
                 free: set<nat>, at: map<nat, nat>, a: nat) returns (t: nat)
    requires Formed(base, ptr, size, list, all, free, at) && a in free && a in all
    ensures t < |list| && list[t] == a && a in size && size[a] == all[a]
  {
    t :| 0 <= t < |list| && list[t] == a;
  }

  /** The list elements after position k, up to position i, are smaller than n. */
  ghost predicate Tried(list: seq<nat>, size: map<nat, nat>, k: nat, i: nat, n: nat) {
    && k < |list| && i < |list|
    && forall x :: 0 <= x < |list| && Dist(Inc(k, |list|), x, |list|) < Dist(Inc(k, |list|), Inc(i, |list|), |list|) ==>
      list[x] in size && size[list[x]] < n
  }

  /** The block cut off, before r, is the upper end of the first element after freep, going round from
      position k, that has n units. */
  ghost predicate FirstFit(list: seq<nat>, size: map<nat, nat>, freep: nat, k: nat, i: nat, n: nat, r: int) {
    && k < |list| && list[k] == freep && Tried(list, size, k, i, n)
    && var p := list[Inc(i, |list|)]; p in size && size[p] >= n && r == p + size[p] - n + 1
  }

  lemma FirstFitIs(list: seq<nat>, size: map<nat, nat>, freep: nat, k: nat, i: nat, n: nat, r: int)
    requires k < |list| && list[k] == freep && Tried(list, size, k, i, n)
    requires var p := list[Inc(i, |list|)]; p in size && size[p] >= n && r == p + size[p] - n + 1
    ensures FirstFit(list, size, freep, k, i, n, r)
  {
  }

  lemma GrownKeys(at: set<nat>, got: nat, n: nat)
    requires n > 0 && forall u :: got <= u < got + n ==> u !in at
    ensures at + Units(got, n) != at
  {
    UnitsRange(got, n);
    assert got in Units(got, n);
  }

  lemma TriedNone(list: seq<nat>, size: map<nat, nat>, k: nat, n: nat)
    requires k < |list|
    ensures Tried(list, size, k, k, n)
  {
  }

  lemma TriedMore(list: seq<nat>, size: map<nat, nat>, k: nat, i: nat, n: nat)
    requires Tried(list, size, k, i, n) && Inc(i, |list|) != k
    requires list[Inc(i, |list|)] in size && size[list[Inc(i, |list|)]] < n
    ensures Tried(list, size, k, Inc(i, |list|), n)
  {
    var m, j := |list|, Inc(i, |list|);
    forall x | 0 <= x < m && Dist(Inc(k, m), x, m) < Dist(Inc(k, m), Inc(j, m), m)
      ensures list[x] in size && size[list[x]] < n
    {
      if x != j {
        assert Dist(Inc(k, m), x, m) < Dist(Inc(k, m), j, m);
      }
    }
  }

  lemma AllTried(base: nat, ptr: map<nat, nat>, size: map<nat, nat>, list: seq<nat>, all: map<nat, nat>,
                 free: set<nat>, at: map<nat, nat>, i: nat, k: nat, n: nat)
    requires Formed(base, ptr, size, list, all, free, at) && Tried(list, size, k, i, n) && Inc(i, |list|) == k
    requires list[k] in size && size[list[k]] < n
    ensures forall a :: a in free && a in all ==> all[a] < n
  {
    forall a | a in free && a in all ensures all[a] < n {
      var x :| 0 <= x < |list| && list[x] == a;
      if x != k {
        assert Dist(Inc(k, |list|), x, |list|) < Dist(Inc(k, |list|), k, |list|);
      }
    }
  }

  class Heap {
    const base: nat
    var ptr: map<nat, nat>
    var size: map<nat, nat>
    var freep: nat

    ghost var list: seq<nat>
    ghost var all: map<nat, nat>
    ghost var free: set<nat>
    ghost var at: map<nat, nat>

    ghost predicate Listed()
      reads this
    {
      Formed(base, ptr, size, list, all, free, at) && freep in list && Coalesced(all, free)
    }

    /** Before the first call of malloc there is no list; afterwards it is well formed. */
    ghost predicate Valid()
      reads this
    {
      if freep == 0 then base > 0 && all == map[] && free == {} && at == map[] else Listed()
    }

    /** The blocks in use, with their sizes. */
    ghost function Live(): map<nat, nat>
      reads this
    {
      LiveOf(all, free)
    }

    constructor (b: nat)
      requires b > 0
      ensures Valid() && base == b && all == map[]
    {
      base, ptr, size, freep := b, map[], map[], 0;
      list, all, free, at := [], map[], {}, map[];
    }

    /** free's search for the free block below b. */
    method FindPlace(b: nat) returns (p: nat, ghost j: nat)
      requires Circle(ptr, list) && list[0] < b && b !in list && freep in list
      ensures j < |list| && p == list[j] < b && (j + 1 < |list| ==> b < list[j + 1])
    {
      j := Place(list, b, |list|);
      p := freep;
      ghost var i :| 0 <= i < |list| && list[i] == p;
      while !(b > p && b < ptr[p])
        invariant 0 <= i < |list| && p == list[i]
        decreases Dist(i, j, |list|)
      {
        Step(ptr, list, i);
        if p >= ptr[p] && (b > p || b < ptr[p]) {
          assert i == |list| - 1;
          break;
        }
        if i == j {
          assert false;
        }
        p := ptr[p];
        i := Inc(i, |list|);
      }
      Step(ptr, list, i);
      assert i == j;
    }

    /** free, upper neighbour: b takes over the block it touches, if any, and its link.  All
        that is missing then is the link from p to b. */
    method JoinUpper(p: nat, b: nat, ghost j: nat)
      requires Listed() && b in all && b !in free && j < |list| && p == list[j] < b
      requires (j + 1 < |list| ==> b < list[j + 1])
      modifies this`ptr, this`size, this`list, this`all, this`free, this`at
      ensures Formed(base, ptr[p := b], size, list, all, free, at) && Touching(all, free, b) && b in all
      ensures b + all[b] !in free
      ensures at.Keys == old(at).Keys && Live() == old(Live()) - {b}
      ensures j + 1 < |list| && list[j] == p && list[j + 1] == b && b in ptr && p in ptr && all[b] >= old(all)[b]
    {
      hide Formed, Touching, Coalesced, With, Without, Remap, LiveOf;
      Add(base, ptr, size, list, all, free, at, j, b);
      NextIs(base, ptr, size, list, all, free, at, j, b);
      ghost var c, l1, f1 := ptr[p], With(list, j, b), free + {b};
      WithAt(list, j, b);
      LiveLess(all, free, b);
      if b + size[b] == ptr[p] {
        ghost var all' := (all - {c})[b := all[b] + all[c]];
        Merge(base, ptr[b := c][p := b], size, l1, all, f1, at, j + 1, b, c, all');
        MergeTouch(all, f1, b, c, all');
        ghost var at' := Remap(at, c, c + all[c], b);
        RemapKeys(at, c, c + all[c], b);
        WithoutAt(l1, j + 1);
        LiveMerge(all, f1, b, c, all');
        size := size[b := size[b] + size[ptr[p]]];
        ptr := ptr[b := ptr[ptr[p]]];
        assert ptr[p := b] == old(ptr)[b := c][p := b][b := old(ptr)[c]];
        list, all, free, at := Without(l1, j + 1), all', f1 - {c}, at';
      } else {
        ptr := ptr[b := ptr[p]];
        list, free := l1, f1;
      }
    }

    /** free, lower neighbour: p takes over b if it touches it, else it links to b. */
    method JoinLower(p: nat, b: nat, ghost j: nat)
      requires Formed(base, ptr[p := b], size, list, all, free, at) && Touching(all, free, b) && b in all
      requires b + all[b] !in free
      requires j + 1 < |list| && list[j] == p && list[j + 1] == b && b in ptr && p in ptr && p < b
      modifies this`ptr, this`size, this`freep, this`list, this`all, this`free, this`at
      ensures Listed() && freep == p && at.Keys == old(at).Keys && Live() == old(Live())
      ensures b in at && at[b] in free && at[b] in all && all[at[b]] >= old(all)[b]
    {
      hide Formed, Touching, Coalesced, Without, Remap, LiveOf;
      PrevIs(base, ptr[p := b], size, list, all, free, at, j, p, b);
      OwnUnit(base, ptr[p := b], size, list, all, free, at, b);
      if p + size[p] == b {
        ghost var all' := (all - {b})[p := all[p] + all[b]];
        Merge(base, ptr[p := b], size, list, all, free, at, j, p, b, all');
        MergeApart(all, free, p, b, all');
        LiveMerge(all, free, p, b, all');
        RemapKeys(at, b, b + all[b], p);
        RemapAt(at, b, b + all[b], p, b);
        WithoutAt(list, j);
        ghost var at' := Remap(at, b, b + all[b], p);
        size := size[p := size[p] + size[b]];
        ptr := ptr[p := ptr[b]];
        assert ptr == old(ptr)[p := b][p := old(ptr)[b]];
        list, all, free, at := Without(list, j), all', free - {b}, at';
      } else {
        StillApart(all, free, b);
        ptr := ptr[p := b];
      }
      freep := p;
      assert list[j] == p;
    }

    /** free: the block joins the free list and the free blocks it touches.  Other blocks stay
        as they are and no unit of memory is lost. */
    method Free(ap: nat)
      requires freep != 0 && Valid() && ap > 0 && ap - 1 in all && ap - 1 !in free
      modifies this
      ensures freep != 0 && Valid() && at.Keys == old(at).Keys && Live() == old(Live()) - {ap - 1}
      ensures ap - 1 in at && at[ap - 1] in free && at[ap - 1] in all && all[at[ap - 1]] >= old(all)[ap - 1]
      ensures freep < ap - 1
      ensures forall a :: a in free && a in all ==> a + all[a] !in free
    {
      hide Touching, Coalesced, LiveOf, Tiled;
      var b := ap - 1;
      var p;
      ghost var j;
      p, j := FindPlace(b);
      JoinUpper(p, b, j);
      JoinLower(p, b, j);
      CoalescedMeans(all, free);
    }

    /** morecore: got is what sbrk returned, 0 for its failure value.  The memory is fresh and
        above base. */
    method Morecore(n: nat, got: nat) returns (r: nat)
      requires Listed() && n > 0
      requires got != 0 ==> got > base && forall u :: got <= u < got + Chunk(n) ==> u !in at
      modifies this
      ensures Listed() && Live() == old(Live()) && freep != 0
      ensures got == 0 ==> r == 0 && all == old(all) && free == old(free) && at == old(at)
      ensures got != 0 ==> r == freep && at.Keys == old(at).Keys + Units(got, Chunk(n))
      ensures got != 0 ==> got in at && at[got] in free && at[got] in all && all[at[got]] >= n
    {
      hide Touching, Coalesced, LiveOf, Tiled, Granted, Units;
      BaseFirst(base, ptr, size, list, all, free, at, freep);
      if got == 0 {
        return 0;
      }
      Grant(base, ptr, size, list, all, free, at, got, Chunk(n));
      size := size[got := Chunk(n)];
      all, at := all[got := Chunk(n)], Granted(at, got, Chunk(n));
      Free(got + 1);
      BaseFirst(base, ptr, size, list, all, free, at, freep);
      r := freep;
    }

    /** malloc's cut: the whole of free block p, or its upper end. */
    method Take(prevp: nat, p: nat, n: nat, ghost i: nat) returns (r: nat)
      requires Listed() && i < |list| && prevp == list[i] && p == list[Inc(i, |list|)] && p in size && size[p] >= n > 0
      modifies this
      ensures Listed() && at.Keys == old(at).Keys && r > 0 && r - 1 !in old(Live()) && Live() == old(Live())[r - 1 := n]
      ensures freep != 0 && freep == prevp
      ensures p in old(all) && p in old(free) && r - 1 == p + old(all)[p] - n
      ensures old(all)[p] == n ==> all == old(all) && free == old(free) - {p}
      ensures old(all)[p] > n ==> all == old(all)[p := old(all)[p] - n][r - 1 := n] && free == old(free)
    {
      hide Coalesced, Circle, Tiled, LiveOf, Without, Remap;
      InFree(base, ptr, size, list, all, free, at, i, p);
      BaseFirst(base, ptr, size, list, all, free, at, prevp);
      if size[p] == n {
        TakeWhole(base, ptr, size, list, all, free, at, i, p);
        ptr := ptr[prevp := ptr[p]];
        list, free := Without(list, i), free - {p};
        freep := prevp;
        assert list[i] == prevp;
        r := p + 1;
      } else {
        ghost var h := p + size[p] - n;
        TakeEnd(base, ptr, size, list, all, free, at, p, n, h);
        size := size[p := size[p] - n];
        var q := p + size[p];
        size := size[q := n];
        at := Remap(at, h, h + n, h);
        all := all[p := all[p] - n][h := n];
        freep := prevp;
        r := q + 1;
      }
    }

    /** malloc's first call sets up an empty list. */
    method Start()
      requires Valid() && freep == 0
      modifies this
      ensures Listed() && freep == base && all == map[] && free == {} && at == map[]
    {
      ptr, size, freep := ptr[base := base], size[base := 0], base;
      list := [base];
      assert list[0] in list;
    }

    /** malloc's loop: one round over the list, and after morecore at most one more, which
        ends at a block that is large enough. */
    method Search(n: nat, got: nat) returns (r: nat)
      requires Listed() && freep != 0 && n > 0
      requires got != 0 ==> got > base && forall u :: got <= u < got + Chunk(n) ==> u !in at
      modifies this
      ensures Listed() && freep != 0
      ensures r == 0 ==> got == 0 && all == old(all) && free == old(free) && at == old(at)
      ensures r == 0 ==> forall a :: a in free && a in all ==> all[a] < n
      ensures r != 0 ==> r - 1 !in old(Live()) && Live() == old(Live())[r - 1 := n]
      ensures r != 0 ==> at.Keys == old(at).Keys || (got != 0 && at.Keys == old(at).Keys + Units(got, Chunk(n)))
      ensures r == 0 || at.Keys != old(at).Keys ==> forall a :: a in old(free) && a in old(all) ==> old(all)[a] < n
      ensures r != 0 && at.Keys == old(at).Keys ==>
        exists k, i :: FirstFit(old(list), old(size), old(freep), k, i, n, r)
    {
      hide Formed, Coalesced, LiveOf, Units, Tried, FirstFit;
      var prevp := freep;
      ghost var k: nat :| k < |list| && list[k] == freep;
      ghost var i: nat, t: nat, grown := k, 0, false;
      TriedNone(list, size, k, n);
      if got != 0 {
        GrownKeys(at.Keys, got, Chunk(n));
      }
      StepOn(base, ptr, size, list, all, free, at, i);
      var p := ptr[prevp];
      while true
        invariant Listed() && freep != 0 && Live() == old(Live()) && i < |list| && k < |list| && list[k] == freep
        invariant prevp == list[i] && p == list[Inc(i, |list|)] && p in size
        invariant !grown ==> all == old(all) && free == old(free) && at == old(at) && Tried(list, size, k, i, n)
        invariant !grown ==> list == old(list) && size == old(size) && freep == old(freep)
        invariant grown ==> forall a :: a in old(free) && a in old(all) ==> old(all)[a] < n
        invariant grown ==> got != 0 && at.Keys == old(at).Keys + Units(got, Chunk(n))
        invariant grown ==> t < |list| && list[t] in size && size[list[t]] >= n
        invariant grown ==> Dist(Inc(i, |list|), t, |list|) <= Dist(Inc(i, |list|), k, |list|)
        decreases !grown, if grown then Dist(Inc(i, |list|), t, |list|) else Dist(Inc(i, |list|), k, |list|)
      {
        if size[p] >= n {
          ghost var q := size[p];
          SizeIs(base, ptr, size, list, all, free, at, i, p);
          r := Take(prevp, p, n, i);
          if !grown {
            FirstFitIs(old(list), old(size), old(freep), k, i, n, r);
          }
          return;
        }
        ghost var j := Inc(i, |list|);
        if p == freep {
          SamePlace(base, ptr, size, list, all, free, at, j, k);
          if !grown {
            AllTried(base, ptr, size, list, all, free, at, i, k, n);
          }
          p := Morecore(n, got);
          if p == 0 {
            return 0;
          }
          ghost var k': nat :| k' < |list| && list[k'] == freep;
          t := FitPlace(base, ptr, size, list, all, free, at, at[got]);
          k, j, grown := k', k', true;
        }
        StepOn(base, ptr, size, list, all, free, at, j);
        if !grown {
          TriedMore(list, size, k, i, n);
        }
        prevp := p;
        p := ptr[p];
        i := j;
      }
    }

    /** malloc: a block of Units32(nbytes) units that overlaps no other block in use, or 0 when
        no free block is large enough and sbrk fails. */
    method Malloc(nbytes: nat, got: nat) returns (r: nat)
      requires Valid() && nbytes < U32
      requires got != 0 ==> got > base && forall u :: got <= u < got + Chunk(Units32(nbytes)) ==> u !in at
      modifies this
      ensures Valid() && freep != 0
      ensures r == 0 ==> got == 0 && all == old(all) && free == old(free) && at == old(at)
      ensures r == 0 ==> forall a :: a in free && a in all ==> all[a] < Units32(nbytes)
      ensures r != 0 ==> r - 1 !in old(Live()) && Live() == old(Live())[r - 1 := Units32(nbytes)]
      ensures r != 0 ==>
        at.Keys == old(at).Keys || (got != 0 && at.Keys == old(at).Keys + Units(got, Chunk(Units32(nbytes))))
      ensures r == 0 || (old(freep) != 0 && at.Keys != old(at).Keys) ==>
        forall a :: a in old(free) && a in old(all) ==> old(all)[a] < Units32(nbytes)
      ensures r != 0 && old(freep) != 0 && at.Keys == old(at).Keys ==>
        exists k, i :: FirstFit(old(list), old(size), old(freep), k, i, Units32(nbytes), r)
    {
      hide Formed, Coalesced, LiveOf, Units, FirstFit;
      if freep == 0 {
        Start();
      }
      r := Search(Units32(nbytes), got);
    }
  }
}
