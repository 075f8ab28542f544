/** Two-level x86 page tables (xv6/mmu.h, xv6/vm.c) and the flat page map they stand for. */
module PageTable {
  import opened Collections
  import opened Cow

  const NPT := 1024            // entries per directory and per page table
  const USERPAGES := 0x8_0000  // KERNBASE / PGSIZE
  const ALLPAGES := 0x10_0000  // 4 GB / PGSIZE

  /** A directory or page table entry: address field and the P, W and U bits. */
  datatype Pte = Pte(frame: nat, p: bool, w: bool, u: bool)

  const ABSENT := Pte(0, false, false, false)

  /** Frames in use as directories or page tables, with their entries. */
  type Tables = map<nat, seq<Pte>>

  function ZeroTable(): seq<Pte> {
    seq(NPT, _ => ABSENT)
  }

  /** What refers to a table: nothing but a process, or one directory entry. */
  datatype Owner = Root | Slot(dir: nat, idx: nat)

  ghost predicate Sized(T: Tables) {
    forall t :: t in T ==> |T[t]| == NPT
  }

  /** Directories are roots, a present directory entry owns its page table, and every
      table has exactly one owner. */
  ghost predicate Owned(T: Tables, dirs: set<nat>, owner: map<nat, Owner>) {
    && Sized(T) && owner.Keys == T.Keys
    && (forall d :: d in dirs ==> d in T && owner[d] == Root)
    && (forall d, i :: d in dirs && 0 <= i < NPT && T[d][i].p ==>
      T[d][i].frame in T && owner[T[d][i].frame] == Slot(d, i))
    && (forall t :: t in T ==> OwnerHolds(T, dirs, owner[t], t))
  }

  ghost predicate OwnerHolds(T: Tables, dirs: set<nat>, o: Owner, t: nat)
    requires Sized(T) && forall d :: d in dirs ==> d in T
  {
    match o
    case Root => t in dirs
    case Slot(d, i) => d in dirs && i < NPT && T[d][i].p && T[d][i].frame == t
  }

  /** walkpgdir without allocation, read as the entry it finds. */
  ghost function Walk(T: Tables, d: nat, v: nat): Pte
    requires Sized(T) && d in T && v < ALLPAGES
  {
    var e := T[d][v / NPT];
    if e.p && e.frame in T then T[e.frame][v % NPT] else ABSENT
  }

  /** user is the map from user pages to present entries. */
  ghost predicate Flat(T: Tables, dirs: set<nat>, user: map<Key, Entry>)
    requires Sized(T) && forall d :: d in dirs ==> d in T
  {
    && (forall k :: k in user ==> k.dir in dirs && k.vpn < USERPAGES)
    && (forall d, v :: d in dirs && 0 <= v < USERPAGES ==> Reads(Walk(T, d, v), user, Key(d, v)))
  }

  ghost predicate Reads(e: Pte, user: map<Key, Entry>, k: Key) {
    if e.p then k in user && user[k] == Entry(e.frame, e.w, e.u) else k !in user
  }

  /** The entries of directory d that have a page table. */
  ghost function Pdes(T: Tables, d: nat): set<nat> {
    set i | 0 <= i < NPT && d in T && i < |T[d]| && T[d][i].p
  }

  /** The page tables for pages v .. v+n-1. */
  ghost function Spanned(v: nat, n: nat): set<nat> {
    if n == 0 then {} else Spanned(v, n - 1) + {(v + n - 1) / NPT}
  }

  lemma {:induction false} SpannedIs(v: nat, n: nat, i: nat)
    ensures i in Spanned(v, n) <==> n > 0 && v / NPT <= i <= (v + n - 1) / NPT
    decreases n
  {
    if n == 0 {
    } else {
      SpannedIs(v, n - 1, i);
      assert (v + n - 1) / NPT <= if n == 1 then v / NPT else (v + n - 2) / NPT + 1;
    }
  }

  lemma {:induction false} SpannedMore(v: nat, k: nat, n: nat)
    requires k <= n
    ensures Spanned(v, k) <= Spanned(v, n)
    decreases n - k
  {
    if k == n {
    } else {
      SpannedMore(v, k + 1, n);
    }
  }

  /** A page whose table is missing after the first k of n pages: the range needs more tables. */
  lemma Missing(p0: set<nat>, p: set<nat>, v: nat, n: nat, k: nat)
    requires p == p0 + Spanned(v, k) && k < n && (v + k) / NPT !in p
    ensures |p| < |p0 + Spanned(v, n)|
  {
    SpannedMore(v, k + 1, n);
    SmallerThan(p, (v + k) / NPT, p0 + Spanned(v, n));
  }

  lemma OneMore(p0: set<nat>, p: set<nat>, v: nat, k: nat)
    requires p == p0 + Spanned(v, k)
    ensures p + {(v + k) / NPT} == p0 + Spanned(v, k + 1)
  {
  }

  /** Page tables p and f free pages are left of p0 and f0 when pages v .. v+k-1 have their tables and
      `taken` pages have gone elsewhere. */
  ghost predicate Spent(p0: set<nat>, f0: nat, p: set<nat>, f: nat, v: nat, k: nat, taken: nat) {
    p == p0 + Spanned(v, k) && f + |p| + taken == f0 + |p0|
  }

  lemma SpentNothing(p: set<nat>, f: nat, v: nat)
    ensures Spent(p, f, p, f, v, 0, 0)
  {
  }

  lemma SpentMore(p0: set<nat>, f0: nat, p: set<nat>, f: nat, v: nat, k: nat, taken: nat, p': set<nat>, f': nat,
                  taken': nat)
    requires Spent(p0, f0, p, f, v, k, taken) && p' == p + {(v + k) / NPT} && f' + |p'| + taken' == f + |p| + taken
    ensures Spent(p0, f0, p', f', v, k + 1, taken')
  {
    OneMore(p0, p, v, k);
  }

  lemma SpentAll(p0: set<nat>, f0: nat, p: set<nat>, f: nat, v: nat, n: nat, taken: nat)
    requires Spent(p0, f0, p, f, v, n, taken)
    ensures p == p0 + Spanned(v, n) && f + |p| + taken == f0 + |p0|
    ensures |p0 + Spanned(v, n)| + taken <= f0 + |p0| && |Spanned(v, n) - p0| + taken <= f0
  {
    assert p0 + Spanned(v, n) == p0 + (Spanned(v, n) - p0);
  }

  /** With a page table missing and no free page left, the whole range needs more than there was. */
  lemma SpentUp(p0: set<nat>, f0: nat, p: set<nat>, f: nat, v: nat, k: nat, n: nat)
    requires Spent(p0, f0, p, f, v, k, 0) && k < n && (v + k) / NPT !in p && f == 0
    ensures |p0 + Spanned(v, n)| > f0 + |p0| && f + |p| == f0 + |p0|
  {
    Missing(p0, p, v, n, k);
  }

  /** The same when each page takes a page of its own besides. */
  lemma SpentUpGrowing(p0: set<nat>, f0: nat, p: set<nat>, f: nat, v: nat, k: nat, n: nat)
    requires Spent(p0, f0, p, f, v, k, k) && k < n && f < if (v + k) / NPT in p then 1 else 2
    ensures n + |Spanned(v, n) - p0| > f0
  {
    OneMore(p0, p, v, k);
    SpannedMore(v, k + 1, n);
    var q := p0 + Spanned(v, n);
    assert q == p0 + (Spanned(v, n) - p0);
    SubsetSize(p + {(v + k) / NPT}, q);
    SubsetSize(p, q);
    assert |q| == |p0| + |Spanned(v, n) - p0|;
    if (v + k) / NPT !in p {
      assert |p + {(v + k) / NPT}| == |p| + 1;
    }
  }

  /** A set with a further element in q is smaller than q. */
  lemma SmallerThan(p: set<nat>, i: nat, q: set<nat>)
    requires p + {i} <= q && i !in p
    ensures |p| < |q|
  {
    SubsetSize(p + {i}, q);
  }

  // ----- writing one entry -----

  /** Storing through the pointer walkpgdir returned changes the walk of one page of one
      directory and nothing else. */
  lemma WalkAfterSet(T: Tables, dirs: set<nat>, owner: map<nat, Owner>, d: nat, v: nat, e: Pte, d': nat, v': nat)
    requires Owned(T, dirs, owner) && d in dirs && d' in dirs && v < ALLPAGES && v' < ALLPAGES && T[d][v / NPT].p
    ensures var t := T[d][v / NPT].frame; var T' := T[t := T[t][v % NPT := e]];
      Sized(T') && Walk(T', d', v') == if d' == d && v' == v then e else Walk(T, d', v')
  {
    var t := T[d][v / NPT].frame;
    var T' := T[t := T[t][v % NPT := e]];
    assert owner[t] == Slot(d, v / NPT);
    assert T'[d'] == T[d'];
    var f := T[d'][v' / NPT];
    if f.p {
      assert owner[f.frame] == Slot(d', v' / NPT);
    }
  }

  lemma OwnedAfterSet(T: Tables, dirs: set<nat>, owner: map<nat, Owner>, d: nat, v: nat, e: Pte)
    requires Owned(T, dirs, owner) && d in dirs && v < ALLPAGES && T[d][v / NPT].p
    ensures var t := T[d][v / NPT].frame; Owned(T[t := T[t][v % NPT := e]], dirs, owner)
  {
    var t := T[d][v / NPT].frame;
    var T' := T[t := T[t][v % NPT := e]];
    assert owner[t] == Slot(d, v / NPT);
    forall x | x in T' ensures OwnerHolds(T', dirs, owner[x], x) {
      assert OwnerHolds(T, dirs, owner[x], x);
    }
  }

  /** The flat map after storing entry e for a user page. */
  ghost function Set(user: map<Key, Entry>, k: Key, e: Pte): map<Key, Entry> {
    if e.p then user[k := Entry(e.frame, e.w, e.u)] else user - {k}
  }

  lemma FlatAfterSet(T: Tables, dirs: set<nat>, owner: map<nat, Owner>, user: map<Key, Entry>, d: nat, v: nat, e: Pte)
    requires Owned(T, dirs, owner) && Flat(T, dirs, user) && d in dirs && v < USERPAGES && T[d][v / NPT].p
    ensures var t := T[d][v / NPT].frame; var T' := T[t := T[t][v % NPT := e]];
      Sized(T') && Flat(T', dirs, Set(user, Key(d, v), e))
  {
    var t := T[d][v / NPT].frame;
    var T' := T[t := T[t][v % NPT := e]];
    forall d', v' | d' in dirs && 0 <= v' < USERPAGES
      ensures Reads(Walk(T', d', v'), Set(user, Key(d, v), e), Key(d', v'))
    {
      WalkAfterSet(T, dirs, owner, d, v, e, d', v');
      assert Reads(Walk(T, d', v'), user, Key(d', v'));
    }
  }

  lemma FlatAfterKernelSet(T: Tables, dirs: set<nat>, owner: map<nat, Owner>, user: map<Key, Entry>, d: nat, v: nat,
                           e: Pte)
    requires Owned(T, dirs, owner) && Flat(T, dirs, user) && d in dirs && USERPAGES <= v < ALLPAGES && T[d][v / NPT].p
    ensures var t := T[d][v / NPT].frame; var T' := T[t := T[t][v % NPT := e]];
      Sized(T') && Flat(T', dirs, user)
  {
    var t := T[d][v / NPT].frame;
    var T' := T[t := T[t][v % NPT := e]];
    forall d', v' | d' in dirs && 0 <= v' < USERPAGES ensures Reads(Walk(T', d', v'), user, Key(d', v')) {
      WalkAfterSet(T, dirs, owner, d, v, e, d', v');
      assert Reads(Walk(T, d', v'), user, Key(d', v'));
    }
  }

  // ----- adding a page table, a directory -----

  ghost function WithTable(T: Tables, d: nat, i: nat, t: nat): Tables
    requires d in T && i < |T[d]|
  {
    T[t := ZeroTable()][d := T[d][i := Pte(t, true, true, true)]]
  }

  /** A fresh page table is all zeros, so it changes no walk. */
  lemma WalkWithTable(T: Tables, dirs: set<nat>, owner: map<nat, Owner>, d: nat, i: nat, t: nat, d': nat, v': nat)
    requires Owned(T, dirs, owner) && d in dirs && i < NPT && !T[d][i].p && t !in T
    requires d' in dirs && v' < ALLPAGES
    ensures Sized(WithTable(T, d, i, t)) && Walk(WithTable(T, d, i, t), d', v') == Walk(T, d', v')
  {
    var e := T[d'][v' / NPT];
    if e.p {
      assert owner[e.frame] == Slot(d', v' / NPT);
      assert e.frame != d && e.frame != t;
    }
  }

  lemma OwnedWithTable(T: Tables, dirs: set<nat>, owner: map<nat, Owner>, d: nat, i: nat, t: nat)
    requires Owned(T, dirs, owner) && d in dirs && i < NPT && !T[d][i].p && t !in T
    ensures Owned(WithTable(T, d, i, t), dirs, owner[t := Slot(d, i)])
  {
    var T': Tables, o' := WithTable(T, d, i, t), owner[t := Slot(d, i)];
    forall e, j | e in dirs && 0 <= j < NPT && T'[e][j].p
      ensures T'[e][j].frame in T' && o'[T'[e][j].frame] == Slot(e, j)
    {
      if e != d || j != i {
        assert T'[e][j] == T[e][j];
        assert owner[T[e][j].frame] == Slot(e, j);
      }
    }
    forall x | x in T' ensures OwnerHolds(T', dirs, o'[x], x) {
      if x != t {
        assert OwnerHolds(T, dirs, owner[x], x);
      }
    }
  }

  lemma FlatWithTable(T: Tables, dirs: set<nat>, owner: map<nat, Owner>, user: map<Key, Entry>, d: nat, i: nat, t: nat)
    requires Owned(T, dirs, owner) && Flat(T, dirs, user) && d in dirs && i < NPT && !T[d][i].p && t !in T
    ensures Sized(WithTable(T, d, i, t)) && Flat(WithTable(T, d, i, t), dirs, user)
  {
    var T' := WithTable(T, d, i, t);
    forall d', v' | d' in dirs && 0 <= v' < USERPAGES ensures Reads(Walk(T', d', v'), user, Key(d', v')) {
      WalkWithTable(T, dirs, owner, d, i, t, d', v');
      assert Reads(Walk(T, d', v'), user, Key(d', v'));
    }
  }

  /** A new directory is all zeros and maps nothing. */
  lemma WithDirectory(T: Tables, dirs: set<nat>, owner: map<nat, Owner>, user: map<Key, Entry>, d: nat)
    requires Owned(T, dirs, owner) && Flat(T, dirs, user) && d !in T
    ensures Owned(T[d := ZeroTable()], dirs + {d}, owner[d := Root])
    ensures Flat(T[d := ZeroTable()], dirs + {d}, user)
  {
    var T', D, o' := T[d := ZeroTable()], dirs + {d}, owner[d := Root];
    forall x | x in T' ensures OwnerHolds(T', D, o'[x], x) {
      if x != d {
        assert OwnerHolds(T, dirs, owner[x], x);
      }
    }
    forall d', v' | d' in D && 0 <= v' < USERPAGES ensures Reads(Walk(T', d', v'), user, Key(d', v')) {
      if d' != d {
        assert Reads(Walk(T, d', v'), user, Key(d', v'));
        var e := T[d'][v' / NPT];
        if e.p {
          assert owner[e.frame] == Slot(d', v' / NPT);
        }
      }
    }
  }

  ghost predicate MapsNothing(T: Tables, d: nat) {
    Sized(T) && d in T && forall v :: 0 <= v < ALLPAGES ==> !Walk(T, d, v).p
  }

  lemma WalkWithDirectory(T: Tables, dirs: set<nat>, owner: map<nat, Owner>, d: nat)
    requires Owned(T, dirs, owner) && d !in T
    ensures SameWalks(T, T[d := ZeroTable()], dirs)
    ensures MapsNothing(T[d := ZeroTable()], d)
  {
    forall e, v | e in dirs && 0 <= v < ALLPAGES ensures Walk(T[d := ZeroTable()], e, v) == Walk(T, e, v) {
      var x := T[e][v / NPT];
      if x.p {
        assert owner[x.frame] == Slot(e, v / NPT);
      }
    }
  }

  // ----- the same facts, ready for the code that stores entries -----

  ghost predicate SameWalks(T: Tables, T': Tables, dirs: set<nat>) {
    && Sized(T) && Sized(T') && (forall d :: d in dirs ==> d in T && d in T')
    && forall d, v :: d in dirs && 0 <= v < ALLPAGES ==> Walk(T', d, v) == Walk(T, d, v)
  }

  /** Only page v of directory d is mapped differently, namely by e. */
  ghost predicate SameButFor(T: Tables, T': Tables, dirs: set<nat>, d: nat, v: nat, e: Pte) {
    && Sized(T) && Sized(T') && (forall c :: c in dirs ==> c in T && c in T')
    && forall c, x :: c in dirs && 0 <= x < ALLPAGES ==> Walk(T', c, x) == if c == d && x == v then e else Walk(T, c, x)
  }

  /** A user page with a page table has the entry that table holds for it. */
  lemma PresentEntry(T: Tables, dirs: set<nat>, owner: map<nat, Owner>, user: map<Key, Entry>, d: nat, v: nat)
    requires Owned(T, dirs, owner) && Flat(T, dirs, user) && d in dirs && v < USERPAGES && T[d][v / NPT].p
    ensures T[d][v / NPT].frame in T && |T[T[d][v / NPT].frame]| == NPT
    ensures Reads(T[T[d][v / NPT].frame][v % NPT], user, Key(d, v))
  {
    assert Reads(Walk(T, d, v), user, Key(d, v));
  }

  /** A mapped user page has a page table; an unmapped one has no present entry. */
  lemma MappedEntry(T: Tables, dirs: set<nat>, owner: map<nat, Owner>, user: map<Key, Entry>, d: nat, v: nat)
    requires Owned(T, dirs, owner) && Flat(T, dirs, user) && d in dirs && v < USERPAGES
    ensures Sized(T) && d in T
    ensures Key(d, v) in user ==> T[d][v / NPT].p
    ensures Key(d, v) !in user ==> !Walk(T, d, v).p
  {
    assert Reads(Walk(T, d, v), user, Key(d, v));
  }

  /** Without a page table, none of the pages it would map is there. */
  lemma AbsentTable(T: Tables, dirs: set<nat>, user: map<Key, Entry>, d: nat, a: nat)
    requires Sized(T) && (forall c :: c in dirs ==> c in T) && Flat(T, dirs, user)
    requires d in dirs && a < USERPAGES && !T[d][a / NPT].p
    ensures a < (a / NPT + 1) * NPT <= USERPAGES
    ensures forall v :: a <= v < (a / NPT + 1) * NPT ==> Key(d, v) !in user
  {
    forall v | a <= v < (a / NPT + 1) * NPT ensures Key(d, v) !in user {
      assert v / NPT == a / NPT;
      assert Reads(Walk(T, d, v), user, Key(d, v));
    }
  }

  /** Pages v .. v+k-1 of d are mapped to frames pa .. pa+k-1, everything else as before. */
  ghost predicate MapsRange(T: Tables, T': Tables, dirs: set<nat>, d: nat, v: nat, k: nat, pa: nat, w: bool, u: bool) {
    && Sized(T) && Sized(T') && (forall c :: c in dirs ==> c in T && c in T')
    && forall c, x :: c in dirs && 0 <= x < ALLPAGES ==>
      Walk(T', c, x) == if c == d && v <= x < v + k then Pte(pa + x - v, true, w, u) else Walk(T, c, x)
  }

  lemma MapsNone(T: Tables, dirs: set<nat>, owner: map<nat, Owner>, d: nat, v: nat, pa: nat, w: bool, u: bool)
    requires Owned(T, dirs, owner)
    ensures MapsRange(T, T, dirs, d, v, 0, pa, w, u)
  {
  }

  lemma MapsRangeAbsent(T: Tables, T': Tables, dirs: set<nat>, d: nat, v: nat, k: nat, pa: nat, w: bool, u: bool)
    requires MapsRange(T, T', dirs, d, v, k, pa, w, u) && d in dirs && v + k < ALLPAGES && !Walk(T, d, v + k).p
    ensures Sized(T') && d in T' && !Walk(T', d, v + k).p
  {
  }

  lemma MapsRangeNext(T: Tables, T1: Tables, T2: Tables, dirs: set<nat>, d: nat, v: nat, k: nat, pa: nat, w: bool,
                      u: bool)
    requires MapsRange(T, T1, dirs, d, v, k, pa, w, u) && SameButFor(T1, T2, dirs, d, v + k, Pte(pa + k, true, w, u))
    ensures MapsRange(T, T2, dirs, d, v, k + 1, pa, w, u)
  {
  }

  /** Mapping pages of d changes no other directory. */
  lemma MapsElsewhere(T0: Tables, T: Tables, T': Tables, others: set<nat>, dirs: set<nat>, d: nat, v: nat, k: nat,
                      pa: nat, w: bool, u: bool)
    requires SameWalks(T0, T, others) && MapsRange(T, T', dirs, d, v, k, pa, w, u) && others <= dirs && d !in others
    ensures SameWalks(T0, T', others)
  {
  }

  lemma StoreEntry(T: Tables, dirs: set<nat>, owner: map<nat, Owner>, user: map<Key, Entry>, d: nat, v: nat, e: Pte)
    returns (T': Tables, user': map<Key, Entry>)
    requires Owned(T, dirs, owner) && Flat(T, dirs, user) && d in dirs && v < ALLPAGES && T[d][v / NPT].p
    ensures T' == T[T[d][v / NPT].frame := T[T[d][v / NPT].frame][v % NPT := e]]
    ensures user' == if v < USERPAGES then Set(user, Key(d, v), e) else user
    ensures Owned(T', dirs, owner) && Flat(T', dirs, user') && SameButFor(T, T', dirs, d, v, e)
    ensures T'.Keys == T.Keys && forall c :: c in dirs ==> T'[c] == T[c]
  {
    var t := T[d][v / NPT].frame;
    T' := T[t := T[t][v % NPT := e]];
    assert owner[t] == Slot(d, v / NPT);
    OwnedAfterSet(T, dirs, owner, d, v, e);
    forall c, x | c in dirs && 0 <= x < ALLPAGES
      ensures Walk(T', c, x) == if c == d && x == v then e else Walk(T, c, x)
    {
      WalkAfterSet(T, dirs, owner, d, v, e, c, x);
    }
    if v < USERPAGES {
      FlatAfterSet(T, dirs, owner, user, d, v, e);
      user' := Set(user, Key(d, v), e);
    } else {
      FlatAfterKernelSet(T, dirs, owner, user, d, v, e);
      user' := user;
    }
  }

  lemma AddTable(T: Tables, dirs: set<nat>, owner: map<nat, Owner>, user: map<Key, Entry>, d: nat, i: nat, t: nat)
    returns (T': Tables, owner': map<nat, Owner>)
    requires Owned(T, dirs, owner) && Flat(T, dirs, user) && d in dirs && i < NPT && !T[d][i].p && t !in T
    ensures T' == WithTable(T, d, i, t) && owner' == owner[t := Slot(d, i)]
    ensures Owned(T', dirs, owner') && Flat(T', dirs, user) && SameWalks(T, T', dirs)
    ensures T'.Keys == T.Keys + {t} && T'[d][i] == Pte(t, true, true, true)
  {
    T', owner' := WithTable(T, d, i, t), owner[t := Slot(d, i)];
    OwnedWithTable(T, dirs, owner, d, i, t);
    FlatWithTable(T, dirs, owner, user, d, i, t);
    forall e, x | e in dirs && 0 <= x < ALLPAGES ensures Walk(T', e, x) == Walk(T, e, x) {
      WalkWithTable(T, dirs, owner, d, i, t, e, x);
    }
  }

  // ----- taking a directory apart -----

  /** freevm has released the page tables of d below index i; the directories in D are
      whole. */
  ghost predicate Dying(T: Tables, D: set<nat>, owner: map<nat, Owner>, d: nat, i: nat) {
    && Sized(T) && owner.Keys == T.Keys && d in T && d !in D && owner[d] == Root
    && (forall e :: e in D ==> e in T && owner[e] == Root)
    && (forall e, j :: e in D && 0 <= j < NPT && T[e][j].p ==> T[e][j].frame in T && owner[T[e][j].frame] == Slot(e, j))
    && (forall j :: i <= j < NPT && T[d][j].p ==> T[d][j].frame in T && owner[T[d][j].frame] == Slot(d, j))
    && (forall t :: t in T ==> DyingOwner(T, D, owner[t], d, i, t))
  }

  ghost predicate DyingOwner(T: Tables, D: set<nat>, o: Owner, d: nat, i: nat, t: nat)
    requires Sized(T) && d in T && forall e :: e in D ==> e in T
  {
    match o
    case Root => t in D || t == d
    case Slot(e, j) => j < NPT && (if e == d then i <= j else e in D) && T[e][j].p && T[e][j].frame == t
  }

  lemma DyingStart(T: Tables, dirs: set<nat>, owner: map<nat, Owner>, d: nat)
    requires Owned(T, dirs, owner) && d in dirs
    ensures Dying(T, dirs - {d}, owner, d, 0)
  {
    var D := dirs - {d};
    forall t | t in T ensures DyingOwner(T, D, owner[t], d, 0, t) {
      assert OwnerHolds(T, dirs, owner[t], t);
    }
  }

  lemma DyingNext(T: Tables, D: set<nat>, owner: map<nat, Owner>, d: nat, i: nat)
    requires Dying(T, D, owner, d, i) && i < NPT
    ensures d in T && |T[d]| == NPT
    ensures T[d][i].p ==> T[d][i].frame in T && T[d][i].frame in owner && owner[T[d][i].frame] == Slot(d, i)
    ensures T[d][i].p ==> Dying(T - {T[d][i].frame}, D, owner - {T[d][i].frame}, d, i + 1)
    ensures !T[d][i].p ==> Dying(T, D, owner, d, i + 1)
  {
    if T[d][i].p {
      var f := T[d][i].frame;
      var T', o' := T - {f}, owner - {f};
      assert owner[f] == Slot(d, i);
      forall t | t in T' ensures DyingOwner(T', D, o'[t], d, i + 1, t) {
        assert DyingOwner(T, D, owner[t], d, i, t);
      }
    } else {
      forall t | t in T ensures DyingOwner(T, D, owner[t], d, i + 1, t) {
        assert DyingOwner(T, D, owner[t], d, i, t);
      }
    }
  }

  lemma DyingEnd(T: Tables, D: set<nat>, owner: map<nat, Owner>, d: nat)
    requires Dying(T, D, owner, d, NPT)
    ensures d in T && d in owner && Owned(T - {d}, D, owner - {d})
  {
    var T', o' := T - {d}, owner - {d};
    forall t | t in T' ensures OwnerHolds(T', D, o'[t], t) {
      assert DyingOwner(T, D, owner[t], d, NPT, t);
    }
  }

  /** A walk through a whole directory never meets a table that is not its own. */
  lemma WalkWithout(T: Tables, D: set<nat>, owner: map<nat, Owner>, d: nat, i: nat, t: nat, e: nat, v: nat)
    requires Dying(T, D, owner, d, i) && e in D && v < ALLPAGES && t in T && (t == d || owner[t] == Slot(d, i))
    ensures Sized(T - {t}) && e in T - {t} && Walk(T - {t}, e, v) == Walk(T, e, v)
  {
    var x := T[e][v / NPT];
    if x.p {
      assert owner[x.frame] == Slot(e, v / NPT);
    }
  }

  lemma FlatWithout(T: Tables, D: set<nat>, owner: map<nat, Owner>, user: map<Key, Entry>, d: nat, i: nat, t: nat)
    requires Dying(T, D, owner, d, i) && Flat(T, D, user) && t in T && (t == d || owner[t] == Slot(d, i))
    ensures Sized(T - {t}) && (forall e :: e in D ==> e in T - {t}) && Flat(T - {t}, D, user)
  {
    forall e, v | e in D && 0 <= v < USERPAGES ensures Reads(Walk(T - {t}, e, v), user, Key(e, v)) {
      WalkWithout(T, D, owner, d, i, t, e, v);
      assert Reads(Walk(T, e, v), user, Key(e, v));
    }
  }
}
