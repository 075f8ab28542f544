/** vm.c over kalloc.c: walking, mapping, copying and releasing page tables.  Address
    spaces are named by the frame of their page directory. */
module Vm {
  import opened Collections
  import opened Cow
  import opened PageTable
  import opened Kalloc

  /** A kmap row: n pages from page vpn up, mapped to frames from pa up. */
  datatype Range = Range(vpn: nat, n: nat, pa: nat, w: bool)

  /** The kmap of vm.c; data is the page where the kernel's writable data starts. */
  function Kmap(data: nat): (k: seq<Range>)
    requires DataPage(data)
    ensures forall i :: 0 <= i < |k| ==> USERPAGES <= k[i].vpn && 1 <= k[i].n && k[i].vpn + k[i].n <= ALLPAGES
    ensures forall i, j :: 0 <= i < j < |k| ==> k[i].vpn + k[i].n <= k[j].vpn
  {
    [Range(0x8_0000, 0x100, 0, true),
     Range(0x8_0100, data - 0x8_0100, 0x100, false),
     Range(data, 0x8_E000 - data, data - 0x8_0000, true),
     Range(0xF_E000, 0x2000, 0xF_E000, true)]
  }

  predicate DataPage(data: nat) {
    0x8_0100 < data < 0x8_E000
  }

  /** The entry the first n rows of a kmap give page x. */
  ghost function KernelEntry(k: seq<Range>, n: nat, x: nat): Pte
    requires n <= |k|
  {
    if n == 0 then ABSENT
    else if k[n - 1].vpn <= x < k[n - 1].vpn + k[n - 1].n then Pte(k[n - 1].pa + x - k[n - 1].vpn, true, k[n - 1].w, false)
    else KernelEntry(k, n - 1, x)
  }

  /** The kernel's part of every address space: I/O space and the kernel's text, read-only, its data
      and all of physical memory up to PHYSTOP, and the devices, none of it for user code. */
  lemma KernelEntries(data: nat, x: nat)
    requires DataPage(data)
    ensures var e := KernelEntry(Kmap(data), |Kmap(data)|, x);
      if 0x8_0000 <= x < 0x8_E000 then e == Pte(x - 0x8_0000, true, !(0x8_0100 <= x < data), false)
      else if 0xF_E000 <= x < 0x10_0000 then e == Pte(x, true, true, false)
      else e == ABSENT
  {
    var k := Kmap(data);
    assert KernelEntry(k, 0, x) == ABSENT;
    assert KernelEntry(k, 1, x) == if 0x8_0000 <= x < 0x8_0100 then Pte(x - 0x8_0000, true, true, false) else ABSENT;
    assert KernelEntry(k, 2, x) ==
      if 0x8_0100 <= x < data then Pte(x - 0x8_0000, true, false, false) else KernelEntry(k, 1, x);
    assert KernelEntry(k, 3, x) ==
      if data <= x < 0x8_E000 then Pte(x - 0x8_0000, true, true, false) else KernelEntry(k, 2, x);
  }

  /** The page tables that the first n rows of a kmap need. */
  ghost function KernelTabs(k: seq<Range>, n: nat): set<nat>
    requires n <= |k|
  {
    if n == 0 then {} else KernelTabs(k, n - 1) + Spanned(k[n - 1].vpn, k[n - 1].n)
  }

  lemma {:induction false} KernelTabsMore(k: seq<Range>, i: nat, n: nat)
    requires i <= n <= |k|
    ensures KernelTabs(k, i) <= KernelTabs(k, n)
    decreases n
  {
    if i == n {
    } else {
      KernelTabsMore(k, i, n - 1);
    }
  }

  lemma KernelTabsAre(data: nat, i: nat)
    requires DataPage(data)
    ensures i in KernelTabs(Kmap(data), 4) <==> 512 <= i < 568 || 1016 <= i < 1024
  {
    var k := Kmap(data);
    hide Spanned;
    SpannedIs(0x8_0000, 0x100, i);
    SpannedIs(0x8_0100, data - 0x8_0100, i);
    SpannedIs(data, 0x8_E000 - data, i);
    SpannedIs(0xF_E000, 0x2000, i);
    assert KernelTabs(k, 0) == {};
    assert KernelTabs(k, 1) == Spanned(0x8_0000, 0x100);
    assert KernelTabs(k, 2) == KernelTabs(k, 1) + Spanned(0x8_0100, data - 0x8_0100);
    assert KernelTabs(k, 3) == KernelTabs(k, 2) + Spanned(data, 0x8_E000 - data);
    assert KernelTabs(k, 4) == KernelTabs(k, 3) + Spanned(0xF_E000, 0x2000);
  }

  /** Every address space has 64 page tables for the kernel. */
  lemma KernelTabsSize(data: nat)
    requires DataPage(data)
    ensures |KernelTabs(Kmap(data), 4)| == 64
  {
    hide Below, KernelTabs;
    forall i: nat ensures i in KernelTabs(Kmap(data), 4) <==> 512 <= i < 568 || 1016 <= i < 1024 {
      KernelTabsAre(data, i);
    }
    IntervalSize(512, 568);
    IntervalSize(1016, 1024);
    var a, b := Below(568) - Below(512), Below(1024) - Below(1016);
    assert KernelTabs(Kmap(data), 4) == a + b && a !! b;
  }

  lemma PdesSame(T: Tables, T': Tables, d: nat)
    requires d in T && d in T' && T'[d] == T[d]
    ensures Pdes(T', d) == Pdes(T, d)
  {
  }

  /** What mappages of a single page takes. */
  lemma OneTable(p: set<nat>, v: nat, free: nat)
    ensures Spanned(v, 1) == {v / NPT}
    ensures |p + Spanned(v, 1)| <= free + |p| <==> v / NPT in p || free > 0
  {
    assert Spanned(v, 0) == {};
    if v / NPT in p {
      assert p + {v / NPT} == p;
    }
  }

  /** The page tables of the pages of p that copyuvm has visited. */
  ghost function VisitedTabs(u0: map<Key, Entry>, p: nat, i: nat, s: nat, j: nat): set<nat> {
    set k | k in u0 && k.dir == p && Visited(k.vpn, i, s, j) :: k.vpn / NPT
  }

  lemma VisitedTabsNext(u0: map<Key, Entry>, p: nat, i: nat, s: nat, j: nat, v: nat, i': nat, j': nat)
    requires 1 <= i <= s <= j
    requires (i' == i + 1 && j' == j == s && v == i && i < s) || (i' == i && j' == j + 1 && v == j)
    ensures VisitedTabs(u0, p, i', s, j') ==
      if Key(p, v) in u0 then VisitedTabs(u0, p, i, s, j) + {v / NPT} else VisitedTabs(u0, p, i, s, j)
  {
    assert forall w: nat :: Visited(w, i', s, j') <==> Visited(w, i, s, j) || w == v;
    assert forall k :: k in u0 && k.dir == p && k.vpn == v ==> k == Key(p, v);
  }

  lemma VisitedTabsMore(u0: map<Key, Entry>, p: nat, i: nat, s: nat, j: nat, i': nat, j': nat)
    requires 1 <= i <= i' && s <= j <= j'
    ensures VisitedTabs(u0, p, i, s, j) <= VisitedTabs(u0, p, i', s, j')
  {
  }

  lemma VisitedTabsNone(u0: map<Key, Entry>, p: nat, s: nat)
    ensures VisitedTabs(u0, p, 1, s, s) == {}
  {
  }

  /** User and kernel pages are in different page tables. */
  lemma ForkTabs(data: nat, u0: map<Key, Entry>, p: nat, i: nat, s: nat)
    requires DataPage(data) && forall k :: k in u0 ==> k.vpn < USERPAGES
    ensures var vt := VisitedTabs(u0, p, i, s, USERPAGES);
      |KernelTabs(Kmap(data), 4)| == 64 && |KernelTabs(Kmap(data), 4) + vt| == 64 + |vt|
  {
    hide KernelTabs;
    var kt, vt := KernelTabs(Kmap(data), 4), VisitedTabs(u0, p, i, s, USERPAGES);
    KernelTabsSize(data);
    forall x | x in vt ensures x !in kt {
      KernelTabsAre(data, x);
    }
    assert kt !! vt;
  }

  /** A page table that is missing at page v is one that fork needs and has not got. */
  lemma ForkShort(kt: set<nat>, pdes: set<nat>, u0: map<Key, Entry>, p: nat, i: nat, s: nat, j: nat, v: nat, low: nat)
    requires pdes == kt + VisitedTabs(u0, p, i, s, j) && Key(p, v) in u0 && v / NPT !in pdes && 1 <= i <= low
    requires s <= j <= USERPAGES && Visited(v, low, s, USERPAGES)
    ensures |pdes| < |kt + VisitedTabs(u0, p, low, s, USERPAGES)|
  {
    VisitedTabsMore(u0, p, i, s, j, low, USERPAGES);
    assert Key(p, v).vpn / NPT in VisitedTabs(u0, p, low, s, USERPAGES);
    SmallerThan(pdes, v / NPT, kt + VisitedTabs(u0, p, low, s, USERPAGES));
  }

  lemma KernelShort(k: seq<Range>, i: nat, p: set<nat>, free: nat)
    requires i < |k| && p == KernelTabs(k, i) && |p + Spanned(k[i].vpn, k[i].n)| > free
    ensures |KernelTabs(k, |k|)| > free
  {
    KernelTabsMore(k, i + 1, |k|);
    SubsetSize(KernelTabs(k, i + 1), KernelTabs(k, |k|));
  }

  /** Directory d maps what the first n rows of k say and nothing else. */
  ghost predicate MapsKernel(T: Tables, d: nat, k: seq<Range>, n: nat)
    requires n <= |k|
  {
    Sized(T) && d in T && forall x :: 0 <= x < ALLPAGES ==> KernelPage(Walk(T, d, x), k, n, x)
  }

  ghost predicate KernelPage(e: Pte, k: seq<Range>, n: nat, x: nat)
    requires n <= |k|
  {
    if KernelEntry(k, n, x).p then e == KernelEntry(k, n, x) else !e.p
  }

  lemma KernelMeans(T: Tables, d: nat, data: nat)
    requires DataPage(data) && MapsKernel(T, d, Kmap(data), |Kmap(data)|)
    ensures Sized(T) && d in T && forall x :: 0 <= x < ALLPAGES ==>
      if 0x8_0000 <= x < 0x8_E000 then Walk(T, d, x) == Pte(x - 0x8_0000, true, !(0x8_0100 <= x < data), false)
      else if x >= 0xF_E000 then Walk(T, d, x) == Pte(x, true, true, false)
      else !Walk(T, d, x).p
  {
    hide Walk, Kmap, KernelEntry;
    forall x | 0 <= x < ALLPAGES
      ensures if 0x8_0000 <= x < 0x8_E000 then Walk(T, d, x) == Pte(x - 0x8_0000, true, !(0x8_0100 <= x < data), false)
        else if x >= 0xF_E000 then Walk(T, d, x) == Pte(x, true, true, false)
        else !Walk(T, d, x).p
    {
      KernelEntries(data, x);
      assert KernelPage(Walk(T, d, x), Kmap(data), |Kmap(data)|, x);
    }
  }

  lemma {:induction false} KernelAbove(k: seq<Range>, n: nat, x: nat)
    requires n <= |k| && forall i :: 0 <= i < n ==> k[i].vpn + k[i].n <= x
    ensures KernelEntry(k, n, x) == ABSENT
    decreases n
  {
    if n == 0 {
    } else {
      KernelAbove(k, n - 1, x);
    }
  }

  lemma KernelFree(T: Tables, d: nat, k: seq<Range>, n: nat)
    requires n < |k| && MapsKernel(T, d, k, n) && k[n].vpn + k[n].n <= ALLPAGES
    requires forall i, j :: 0 <= i < j < |k| ==> k[i].vpn + k[i].n <= k[j].vpn
    ensures Sized(T) && d in T && forall x :: k[n].vpn <= x < k[n].vpn + k[n].n ==> !Walk(T, d, x).p
  {
    forall x | k[n].vpn <= x < k[n].vpn + k[n].n ensures !Walk(T, d, x).p {
      KernelAbove(k, n, x);
      assert KernelPage(Walk(T, d, x), k, n, x);
    }
  }

  lemma KernelNext(T: Tables, T': Tables, dirs: set<nat>, d: nat, k: seq<Range>, n: nat)
    requires n < |k| && d in dirs && MapsKernel(T, d, k, n)
    requires MapsRange(T, T', dirs, d, k[n].vpn, k[n].n, k[n].pa, k[n].w, false)
    ensures MapsKernel(T', d, k, n + 1)
  {
    forall x | 0 <= x < ALLPAGES ensures KernelPage(Walk(T', d, x), k, n + 1, x) {
      assert KernelPage(Walk(T, d, x), k, n, x);
    }
  }

  /** The tables that do not belong to directory d, with their owners. */
  ghost function Others(owner: map<nat, Owner>, d: nat): map<nat, Owner> {
    map t | t in owner && t != d && !(owner[t].Slot? && owner[t].dir == d) :: owner[t]
  }

  lemma OthersSlot(owner: map<nat, Owner>, d: nat, t: nat, i: nat)
    requires t !in owner
    ensures Others(owner[t := Slot(d, i)], d) == Others(owner, d)
  {
  }

  lemma OthersNew(T: Tables, dirs: set<nat>, owner: map<nat, Owner>, d: nat)
    requires Owned(T, dirs, owner) && d !in T
    ensures Others(owner[d := Root], d) == owner
  {
    forall t | t in owner ensures !(owner[t].Slot? && owner[t].dir == d) {
      assert OwnerHolds(T, dirs, owner[t], t);
    }
  }

  /** Every managed frame is a table with count 1, a user page, in other kernel use, or
      free with count 0. */
  ghost predicate Accounted(tables: set<nat>, pages: set<nat>, held: map<nat, nat>, managed: set<nat>,
                            count: map<nat, nat>) {
    && (forall f :: f in managed ==> f in count)
    && tables <= managed && pages <= managed && held.Keys <= managed
    && tables !! pages && tables !! held.Keys && pages !! held.Keys
    && forall f :: f in managed ==>
      if f in tables then count[f] == 1
      else if f in pages then count[f] > 0
      else if f in held then count[f] == held[f] && held[f] > 0
      else count[f] == 0
  }

  /** a and b have the same counts for the frames in s. */
  ghost predicate Agree(s: set<nat>, a: map<nat, nat>, b: map<nat, nat>) {
    forall f :: f in s ==> f in a && f in b && a[f] == b[f]
  }

  lemma AgreeSelf(tables: set<nat>, pages: set<nat>, held: map<nat, nat>, managed: set<nat>, count: map<nat, nat>)
    requires Accounted(tables, pages, held, managed, count)
    ensures Agree(pages, count, count)
  {
  }

  lemma AgreeAt(s: set<nat>, a: map<nat, nat>, b: map<nat, nat>, f: nat)
    requires Agree(s, a, b) && f in s
    ensures f in a && f in b && a[f] == b[f]
  {
  }

  lemma AgreeTrans(s: set<nat>, a: map<nat, nat>, b: map<nat, nat>, c: map<nat, nat>)
    requires Agree(s, a, b) && Agree(s, b, c)
    ensures Agree(s, a, c)
  {
  }

  lemma AccountTable(tables: set<nat>, pages: set<nat>, held: map<nat, nat>, managed: set<nat>, count: map<nat, nat>,
                     t: nat)
    requires Accounted(tables, pages, held, managed, count) && t in managed && count[t] == 0
    ensures t !in tables && t !in pages && Accounted(tables + {t}, pages, held, managed, count[t := 1])
    ensures Agree(pages, count, count[t := 1])
  {
  }

  /** A frame kalloc returned becomes a user page. */
  lemma AccountPage(tables: set<nat>, pages: set<nat>, held: map<nat, nat>, managed: set<nat>, count: map<nat, nat>,
                    f: nat)
    requires Accounted(tables, pages, held, managed, count) && f in managed && count[f] == 0
    ensures f !in pages && Accounted(tables, pages + {f}, held, managed, count[f := 1])
    ensures Agree(pages, count, count[f := 1])
  {
  }

  lemma AccountCount(tables: set<nat>, pages: set<nat>, held: map<nat, nat>, managed: set<nat>, count: map<nat, nat>,
                     f: nat, c: nat)
    requires Accounted(tables, pages, held, managed, count) && f in pages && c > 0
    ensures f in managed && f in count && count[f] > 0 && Accounted(tables, pages, held, managed, count[f := c])
  {
  }

  lemma AccountDrop(tables: set<nat>, pages: set<nat>, held: map<nat, nat>, managed: set<nat>, count: map<nat, nat>,
                    f: nat)
    requires Accounted(tables, pages, held, managed, count) && f in pages
    ensures f in managed && f in count && count[f] > 0
    ensures Accounted(tables, if count[f] == 1 then pages - {f} else pages, held, managed, count[f := count[f] - 1])
  {
  }

  /** With the same tables, user pages and other uses, every count is the same. */
  lemma AccountSame(tables: set<nat>, pages: set<nat>, held: map<nat, nat>, managed: set<nat>, a: map<nat, nat>,
                    b: map<nat, nat>)
    requires Accounted(tables, pages, held, managed, a) && Accounted(tables, pages, held, managed, b)
    requires Agree(pages, a, b)
    ensures Agree(managed, a, b)
  {
  }

  lemma AccountRelease(tables: set<nat>, pages: set<nat>, held: map<nat, nat>, managed: set<nat>, count: map<nat, nat>,
                       t: nat)
    requires Accounted(tables, pages, held, managed, count) && t in tables
    ensures t in managed && count[t] == 1 && Accounted(tables - {t}, pages, held, managed, count[t := 0])
    ensures Agree(pages, count, count[t := 0])
  {
  }

  /** The copy-on-write invariant looks at the counts of user frames only. */
  lemma CountsAgree(m: Mem, c: map<nat, nat>)
    requires Inv(m) && Agree(m.page.Keys, m.count, c)
    ensures Inv(m.(count := c)) && (forall l :: SameContents(l, m) ==> SameContents(l, m.(count := c)))
  {
    CountElsewhere(m, c);
  }

  lemma OthersWithout(owner: map<nat, Owner>, d: nat, t: nat)
    requires t in owner && owner[t].Slot? && owner[t].dir == d
    ensures Others(owner - {t}, d) == Others(owner, d)
  {
  }

  lemma OthersEnd(T: Tables, D: set<nat>, owner: map<nat, Owner>, d: nat)
    requires Dying(T, D, owner, d, NPT)
    ensures owner - {d} == Others(owner, d)
  {
    forall t | t in owner && t != d ensures !(owner[t].Slot? && owner[t].dir == d) {
      assert DyingOwner(T, D, owner[t], d, NPT, t);
    }
    assert (owner - {d}).Keys == Others(owner, d).Keys;
  }

  lemma OwnedKeys(T: Tables, dirs: set<nat>, owner: map<nat, Owner>, d: nat)
    requires Owned(T, dirs, owner) && d !in T
    ensures d !in dirs && d !in owner
  {
  }

  /** Without its user pages a directory can leave the flat map. */
  lemma FlatFewer(T: Tables, dirs: set<nat>, owner: map<nat, Owner>, u0: map<Key, Entry>, user: map<Key, Entry>, d: nat)
    requires Owned(T, dirs, owner) && Flat(T, dirs, user)
    requires user == Minus(u0, d, 0, USERPAGES)
    ensures Flat(T, dirs - {d}, user)
  {
    assert forall e, v :: e in dirs && 0 <= v < USERPAGES ==> Reads(Walk(T, e, v), user, Key(e, v));
  }

  const PGSIZE := 4096

  /** PGROUNDUP, as a page number. */
  function PageUp(sz: nat): (r: nat)
    ensures sz <= r * PGSIZE && (r > 0 ==> (r - 1) * PGSIZE < sz)
  {
    (sz + PGSIZE - 1) / PGSIZE
  }

  /** The pages that start in newsz .. oldsz-1 are gone from directory d, all others read as before. */
  lemma RangeGone(m: Mem, n: Mem, d: nat, oldsz: nat, newsz: nat)
    requires SameContents(m, n)
    requires n.user == Minus(m.user, d, PageUp(newsz), if newsz >= oldsz then PageUp(newsz) else PageUp(oldsz))
    ensures forall k :: k in n.user <==> k in m.user && !(k.dir == d && newsz <= k.vpn * PGSIZE < oldsz)
    ensures forall k :: k in n.user ==>
      && n.user[k] == m.user[k] && n.user[k].frame in n.page && n.user[k].frame in m.page
      && n.page[n.user[k].frame] == m.page[n.user[k].frame]
  {
  }

  /** A turn of deallocuvm that ends at b: skipped pages are pages that are not there. */
  lemma MinusTurn(u0: map<Key, Entry>, d: nat, lo: nat, a: nat, b: nat, u: map<Key, Entry>)
    requires lo <= a < b && u == Minus(u0, d, lo, a)
    requires b > a + 1 ==> forall v :: a <= v < b ==> Key(d, v) !in u
    ensures u - {Key(d, a)} == Minus(u0, d, lo, b)
    ensures b > a + 1 ==> forall v :: a <= v < b ==> Key(d, v) !in u0
  {
    MinusNext(u0, d, lo, a);
    if b > a + 1 {
      forall v | a <= v < b ensures Key(d, v) !in u0 {
        assert Key(d, v) !in u;
      }
      MinusNone(u0, d, lo, a + 1, b);
    }
  }

  lemma DropFrame(m: Mem, d: nat, v: nat, f: nat)
    requires Inv(m) && Key(d, v) in m.user && m.user[Key(d, v)].frame == f
    ensures f in m.page && f in m.count
  {
  }

  /** A released frame and a cleared entry are a Drop step. */
  lemma DropDone(m: Mem, d: nat, v: nat, f: nat, n: Mem)
    requires Inv(m) && Key(d, v) in m.user && m.user[Key(d, v)].frame == f
    requires n.user == Set(m.user, Key(d, v), ABSENT) && f in m.count && n.count == m.count[f := m.count[f] - 1]
    requires n.page == if m.count[f] == 1 then m.page - {f} else m.page
    ensures Inv(n) && n.user == m.user - {Key(d, v)} && SameContents(m, n)
  {
    DropKeeps(m, d, v, n);
  }

  /** A protected parent entry, a mapped child entry and one more share are a Share step. */
  lemma ShareDone(m: Mem, p: nat, c: nat, v: nat, count: map<nat, nat>, n: Mem)
    requires Inv(m) && Key(p, v) in m.user && Key(c, v) !in m.user && p != c && Agree(m.page.Keys, m.count, count)
    requires var e := m.user[Key(p, v)].(writable := false);
      e.frame in count && n == Mem(m.user[Key(p, v) := e][Key(c, v) := e], m.page, count[e.frame := count[e.frame] + 1])
    ensures Inv(n)
  {
    CountElsewhere(m, count);
    InvShare(m.(count := count), p, c, v, n);
  }

  lemma ProtectDone(m: Mem, k: Key, count: map<nat, nat>, n: Mem)
    requires Inv(m) && k in m.user && Agree(m.page.Keys, m.count, count)
    requires n == Mem(m.user[k := m.user[k].(writable := false)], m.page, count)
    ensures Inv(n)
  {
    CountElsewhere(m, count);
    InvProtect(m.(count := count), k, n);
  }

  lemma ShareRoom(m: Mem, k: Key, dirs: set<nat>, T: Tables, owner: map<nat, Owner>)
    requires Inv(m) && k in m.user && Owned(T, dirs, owner) && Flat(T, dirs, m.user)
    ensures m.user[k].frame in m.page && m.count[m.user[k].frame] <= |dirs|
  {
    CountBound(m, m.user[k].frame, dirs);
  }

  /** A directory that was given up leaves no trace. */
  lemma SetupUndone(m: Mem, mid: Mem, n: Mem, d: nat, T: Tables, dirs: set<nat>, owner: map<nat, Owner>)
    requires Inv(m) && Inv(n) && mid.page == m.page && mid.user == m.user && SameContents(mid, n)
    requires Owned(T, dirs, owner) && Flat(T, dirs, m.user) && d !in dirs && n.user == Minus(m.user, d, 0, USERPAGES)
    ensures n.user == m.user && n.page == m.page && Agree(m.page.Keys, m.count, n.count)
  {
    MinusUnborn(m.user, d, 0, USERPAGES);
    Undone(m, mid, n);
  }

  lemma OwnedSame(T: Tables, dirs: set<nat>, owner: map<nat, Owner>, T': Tables, dirs': set<nat>)
    requires Owned(T, dirs, owner) && Owned(T', dirs', owner)
    ensures T.Keys == T'.Keys
  {
  }

  lemma KernelStart(T: Tables, d: nat, k: seq<Range>)
    requires MapsNothing(T, d)
    ensures MapsKernel(T, d, k, 0)
  {
  }

  /** Directory p has a page table for every page from s up to the stack's top. */
  ghost predicate HasTables(T: Tables, p: nat, s: nat) {
    p in T && |T[p]| == NPT && forall x :: s <= x < USERPAGES ==> T[p][x / NPT].p
  }

  /** Tables added for directory c leave the page tables of p where they are. */
  lemma TableStays(T: Tables, D: set<nat>, o: map<nat, Owner>, T': Tables, D': set<nat>, o': map<nat, Owner>, p: nat,
                   c: nat, i: nat)
    requires Owned(T, D, o) && Owned(T', D', o') && Others(o', c) == Others(o, c) && (c in o ==> o[c].Root?)
    requires p in D && p != c && i < NPT && T[p][i].p
    ensures p in T' && |T'[p]| == NPT && T'[p][i].p
  {
    var t := T[p][i].frame;
    assert o[t] == Slot(p, i);
    assert t in Others(o', c);
    assert OwnerHolds(T', D', o'[t], t);
  }

  lemma TablesStay(T: Tables, D: set<nat>, o: map<nat, Owner>, T': Tables, D': set<nat>, o': map<nat, Owner>, p: nat,
                   c: nat, s: nat)
    requires Owned(T, D, o) && Owned(T', D', o') && (o == Others(o', c) || (c in D && Others(o', c) == Others(o, c)))
    requires p in D && p in D' && p != c && HasTables(T, p, s)
    ensures HasTables(T', p, s)
  {
    assert Others(Others(o', c), c) == Others(o', c);
    forall x | s <= x < USERPAGES ensures T'[p][x / NPT].p {
      TableStays(T, D, o, T', D', o', p, c, x / NPT);
    }
  }

  /** The page after the last one copyuvm's first loop visits. */
  function LowEnd(sz: nat): (r: nat)
    ensures r >= 1 && sz <= r * PGSIZE && (r > 1 ==> (r - 1) * PGSIZE < sz)
  {
    if PageUp(sz) <= 1 then 1 else PageUp(sz)
  }

  lemma KernelPageNotUser(T: Tables, dirs: set<nat>, owner: map<nat, Owner>, user: map<Key, Entry>, k: Key)
    requires Owned(T, dirs, owner) && Flat(T, dirs, user) && k.vpn >= USERPAGES
    ensures k !in user
  {
  }

  lemma AllUser(T: Tables, dirs: set<nat>, owner: map<nat, Owner>, user: map<Key, Entry>)
    requires Owned(T, dirs, owner) && Flat(T, dirs, user)
    ensures forall k :: k in user ==> k.vpn < USERPAGES
  {
  }

  lemma NewUnborn(T: Tables, dirs: set<nat>, owner: map<nat, Owner>, user: map<Key, Entry>, c: nat)
    requires Owned(T, dirs, owner) && Flat(T, dirs, user) && c !in dirs
    ensures Unborn(user, c) && forall k :: k in user ==> k.vpn < USERPAGES
  {
  }

  /** Which pages the child of a fork has, and what becomes of the parent's entries. */
  lemma ForkedPages(m: Mem, p: nat, c: nat, sz: nat, s: nat, n: Mem)
    requires Inv(m) && Inv(n) && n.page == m.page && Unborn(m.user, c) && p != c
    requires n.user == Forked(m.user, p, c, LowEnd(sz), s, USERPAGES) && forall k :: k in m.user ==> k.vpn < USERPAGES
    ensures forall x: nat :: Key(c, x) in n.user <==>
      Key(p, x) in m.user && ((1 <= x && x * PGSIZE < sz) || s <= x < USERPAGES)
    ensures forall x: nat :: Key(c, x) in n.user ==>
      n.user[Key(c, x)] == n.user[Key(p, x)] == m.user[Key(p, x)].(writable := false)
    ensures forall k :: k in m.user ==>
      && k in n.user && n.user[k].(writable := true) == m.user[k].(writable := true)
      && (n.user[k].writable <==> m.user[k].writable && !(k.dir == p && Key(c, k.vpn) in n.user))
    ensures forall x: nat :: Key(c, x) in n.user ==> View(n)[Key(c, x)] == View(m)[Key(p, x)]
    ensures forall k :: k in m.user ==> View(n)[k] == View(m)[k]
  {
    hide Counted, SameAddress, Sealed, Used, Kids;
    forall x: nat ensures Key(c, x) in n.user <==>
      Key(p, x) in m.user && ((1 <= x && x * PGSIZE < sz) || s <= x < USERPAGES)
    {
      ChildHas(m.user, p, c, LowEnd(sz), s, USERPAGES, x);
    }
    forall k | k in m.user
      ensures k in n.user
      ensures n.user[k].(writable := true) == m.user[k].(writable := true)
      ensures n.user[k].writable <==> m.user[k].writable && !(k.dir == p && Key(c, k.vpn) in n.user)
    {
      ChildHas(m.user, p, c, LowEnd(sz), s, USERPAGES, k.vpn);
      assert k == Key(k.dir, k.vpn);
    }
  }

  lemma TabsMeans(T: Tables, dirs: set<nat>, owner: map<nat, Owner>, user: map<Key, Entry>, p: nat, sz: nat, s: nat)
    requires Owned(T, dirs, owner) && Flat(T, dirs, user)
    ensures VisitedTabs(user, p, LowEnd(sz), s, USERPAGES) == set k | k in user && k.dir == p &&
      ((1 <= k.vpn && k.vpn * PGSIZE < sz) || s <= k.vpn) :: k.vpn / NPT
  {
    AllUser(T, dirs, owner, user);
  }

  lemma ProtectedMeans(u0: map<Key, Entry>, u: map<Key, Entry>)
    requires OnlyProtected(u0, u)
    ensures u.Keys == u0.Keys && forall k :: k in u ==> u[k] == u0[k] || u[k] == u0[k].(writable := false)
  {
  }

  lemma AgreeMeans(s: set<nat>, a: map<nat, nat>, b: map<nat, nat>)
    requires Agree(s, a, b)
    ensures forall f :: f in s ==> f in a && f in b && b[f] == a[f]
  {
  }

  lemma ForkUndone(m: Mem, p: nat, c: nat, i: nat, s: nat, j: nat, v: nat, mid: Mem, n: Mem)
    requires Inv(m) && Inv(n) && mid.page == m.page && SameContents(mid, n)
    requires n.user == Minus(mid.user, c, 0, USERPAGES)
    requires Unborn(m.user, c) && p != c && Halfway(m.user, p, c, i, s, j, v, mid.user)
    requires forall k :: k in m.user ==> k.vpn < USERPAGES
    ensures OnlyProtected(m.user, n.user) && n.page == m.page && Agree(m.page.Keys, m.count, n.count)
  {
    ForkFailed(m.user, p, c, i, s, j, v, mid.user, USERPAGES);
    Undone(m, mid, n);
  }

  /** The pages visited are shared, and page v has just been protected in the parent. */
  ghost predicate Halfway(u0: map<Key, Entry>, p: nat, c: nat, i: nat, s: nat, j: nat, v: nat, u: map<Key, Entry>) {
    && Key(p, v) in u0 && Key(p, v) in Forked(u0, p, c, i, s, j)
    && u == Forked(u0, p, c, i, s, j)[Key(p, v) := Forked(u0, p, c, i, s, j)[Key(p, v)].(writable := false)]
  }

  lemma MinusNothing(user: map<Key, Entry>, d: nat, a: nat)
    ensures Minus(user, d, a, a) == user
  {
  }

  /** A step of the copy-on-write machine keeps its invariant; faults are invisible. */
  lemma StepDone(m: Mem, s: Step, n: Mem)
    requires Inv(m) && (s.Unprotect? || s.CopyPage?) && Enabled(m, s) && n == Apply(m, s)
    ensures Inv(n) && View(n) == View(m)
  {
    StepRefines(m, s, n);
  }

  /** A zeroed page of one's own, with counts elsewhere unchanged, is a Grow step. */
  lemma GrowDone(m: Mem, d: nat, v: nat, g: nat, c0: map<nat, nat>, n: Mem)
    requires Inv(m) && Key(d, v) !in m.user && Fresh(m, g) && c0 == m.count[g := 1] && Agree(n.page.Keys, c0, n.count)
    requires n.user == m.user[Key(d, v) := Entry(g, true, true)] && n.page == m.page[g := ZeroPage()]
    ensures Inv(n) && View(n) == View(m)[Key(d, v) := ZeroPage()]
  {
    var s := Grow(d, v, g, ZeroPage());
    StepRefines(m, s, Apply(m, s));
    CountElsewhere(Apply(m, s), n.count);
    assert View(n) == View(Apply(m, s));
  }

  function ZeroPage(): (r: Page)
    ensures |r| == PGSIZE && forall i :: 0 <= i < PGSIZE ==> r[i] == 0
  {
    seq(PGSIZE, _ => 0)
  }

  lemma MappedFrame(m: Mem, k: Key)
    requires Inv(m) && k in m.user
    ensures m.user[k].frame in m.page && m.user[k].frame in m.count && m.count[m.user[k].frame] > 0
  {
  }

  datatype Fault = Killed | Panic | Resumed

  /** b has, besides what a has, zeroed pages lo .. hi-1 of directory d. */
  ghost predicate GrewBy(a: Eager, b: Eager, d: nat, lo: nat, hi: nat) {
    && (forall k :: k in b <==> k in a || (k.dir == d && lo <= k.vpn < hi))
    && (forall k :: k in b ==>
      b[k] == if k.dir == d && lo <= k.vpn < hi then ZeroPage() else if k in a then a[k] else b[k])
  }

  lemma GrewNone(e: Eager, d: nat, lo: nat)
    ensures GrewBy(e, e, d, lo, lo)
  {
  }

  lemma GrewNext(a: Eager, b: Eager, c: Eager, d: nat, lo: nat, hi: nat)
    requires GrewBy(a, b, d, lo, hi) && lo <= hi && c == b[Key(d, hi) := ZeroPage()]
    ensures GrewBy(a, c, d, lo, hi + 1)
  {
  }

  lemma GrewMeans(m: Mem, n: Mem, d: nat, oldsz: nat, newsz: nat)
    requires Tracked(m) && Tracked(n) && GrewBy(View(m), View(n), d, PageUp(oldsz), PageUp(newsz)) && oldsz <= newsz
    requires forall v :: oldsz <= v * PGSIZE < newsz ==> Key(d, v) !in m.user
    ensures forall k :: k in n.user <==> k in m.user || (k.dir == d && oldsz <= k.vpn * PGSIZE < newsz)
    ensures forall k :: k in n.user ==>
      if k in m.user then View(n)[k] == View(m)[k] else View(n)[k] == seq(PGSIZE, _ => 0)
  {
    assert ZeroPage() == seq(PGSIZE, _ => 0);
    forall k: Key ensures k in n.user <==> k in m.user || (k.dir == d && oldsz <= k.vpn * PGSIZE < newsz) {
      assert k in n.user <==> k in View(n);
      assert k in m.user <==> k in View(m);
    }
    forall k | k in n.user
      ensures if k in m.user then View(n)[k] == View(m)[k] else View(n)[k] == seq(PGSIZE, _ => 0)
    {
      assert k == Key(k.dir, k.vpn) && k in View(n);
    }
  }

  lemma MinusAbsent(user: map<Key, Entry>, d: nat, lo: nat, hi: nat)
    requires forall v :: lo <= v < hi ==> Key(d, v) !in user
    ensures Minus(user, d, lo, hi) == user
  {
    forall k | k in user ensures !(k.dir == d && lo <= k.vpn < hi) {
      assert k == Key(k.dir, k.vpn);
    }
  }

  lemma MinusInserted(user: map<Key, Entry>, d: nat, lo: nat, hi: nat, v: nat, user': map<Key, Entry>)
    requires lo <= v < hi && Key(d, v) in user' && user' == user[Key(d, v) := user'[Key(d, v)]]
    ensures Minus(user', d, lo, hi) == Minus(user, d, lo, hi)
  {
  }

  /** Releasing the new pages leaves what was there before. */
  lemma GaveBack(m: Mem, n: Mem, o: Mem, d: nat, lo: nat, hi: nat)
    requires Inv(m) && Inv(n) && Inv(o) && o.user == m.user && SameContents(n, o)
    requires forall v :: lo <= v < hi ==> Key(d, v) !in m.user
    requires GrewBy(View(m), View(n), d, lo, hi)
    ensures View(o) == View(m)
  {
    hide Counted, SameAddress, Sealed, Used;
    forall k | k in m.user ensures View(o)[k] == View(m)[k] {
      assert k == Key(k.dir, k.vpn);
      assert k in View(m) && k in View(n);
    }
    assert View(o).Keys == View(m).Keys;
  }

  class Vm {
    const km: KMem
    var table: Tables
    var page: map<nat, Page>

    ghost var dirs: set<nat>
    ghost var owner: map<nat, Owner>
    ghost var user: map<Key, Entry>
    ghost var held: map<nat, nat>   // frames in other kernel use, with their counts

    /** Before the first address space: every managed frame is free. */
    constructor (k: KMem)
      requires k.Valid() && forall f :: f in k.managed ==> k.count[f] == 0
      ensures Valid() && km == k && dirs == {} && user == map[] && page == map[] && held == map[]
    {
      km, table, page, dirs, owner, user, held := k, map[], map[], {}, map[], map[], map[];
    }

    ghost function State(): Mem
      reads this, km
    {
      Mem(user, page, km.count)
    }

    ghost predicate TablesValid()
      reads this, km
    {
      && km.Valid()
      && Owned(table, dirs, owner)
      && Flat(table, dirs, user)
      && Accounted(table.Keys, page.Keys, held, km.managed, km.count)
    }

    ghost predicate Valid()
      reads this, km
    {
      TablesValid() && Inv(State())
    }

    /** A zeroed page table t becomes entry i of directory d. */
    method InstallTable(d: nat, i: nat, t: nat)
      requires Owned(table, dirs, owner) && Flat(table, dirs, user) && d in dirs && i < NPT && !table[d][i].p
      requires t !in table
      modifies this`table, this`owner
      ensures Owned(table, dirs, owner) && Flat(table, dirs, user) && SameWalks(old(table), table, dirs)
      ensures table.Keys == old(table).Keys + {t} && owner == old(owner)[t := Slot(d, i)]
      ensures table[d][i].p && table[d][i].frame == t && Pdes(table, d) == Pdes(old(table), d) + {i}
    {
      ghost var T', o' := AddTable(table, dirs, owner, user, d, i, t);
      table := table[t := ZeroTable()][d := table[d][i := Pte(t, true, true, true)]];
      owner := o';
      assert table == T';
    }

    /** walkpgdir's allocation of a missing page table; 0 when memory is out. */
    method NewTable(d: nat, i: nat) returns (t: nat)
      requires TablesValid() && d in dirs && i < NPT && !table[d][i].p
      modifies this`table, this`owner, km
      ensures TablesValid() && km.managed == old(km.managed)
      ensures t == 0 <==> old(km.free) == []
      ensures t == 0 ==> table == old(table) && owner == old(owner) && km.count == old(km.count) && km.free == old(km.free)
      ensures t != 0 ==> t !in old(table) && t !in page && table.Keys == old(table).Keys + {t}
      ensures t != 0 ==> owner == old(owner)[t := Slot(d, i)] && table[d][i].p && table[d][i].frame == t
      ensures Pdes(table, d) == if t == 0 then Pdes(old(table), d) else Pdes(old(table), d) + {i}
      ensures |km.free| == if t == 0 then |old(km.free)| else |old(km.free)| - 1
      ensures SameWalks(old(table), table, dirs)
      ensures Agree(page.Keys, old(km.count), km.count)
    {
      hide Accounted, Flat, Agree, Pdes;
      AgreeSelf(table.Keys, page.Keys, held, km.managed, km.count);
      t := km.Kalloc();
      if t != 0 {
        AccountTable(table.Keys, page.Keys, held, km.managed, old(km.count), t);
        InstallTable(d, i, t);
      }
    }

    /** walkpgdir with alloc == 0: the page-table frame whose entry v % NPT maps page v, or
        0 when there is none. */
    method FindTable(d: nat, v: nat) returns (t: nat)
      requires TablesValid() && d in dirs && v < ALLPAGES
      ensures t != 0 <==> table[d][v / NPT].p
      ensures t != 0 ==> t in table && table[d][v / NPT].frame == t && Walk(table, d, v) == table[t][v % NPT]
    {
      var pde := table[d][v / NPT];
      if pde.p {
        t := pde.frame;
        assert owner[t] == Slot(d, v / NPT);
      } else {
        t := 0;
      }
    }

    /** walkpgdir with alloc == 1: 0 only when a page table is missing and memory is out. */
    method WalkPgdir(d: nat, v: nat) returns (t: nat)
      requires TablesValid() && d in dirs && v < ALLPAGES
      modifies this`table, this`owner, km
      ensures TablesValid() && km.managed == old(km.managed)
      ensures Pdes(table, d) == if t == 0 then Pdes(old(table), d) else Pdes(old(table), d) + {v / NPT}
      ensures |km.free| + |Pdes(table, d)| == |old(km.free)| + |Pdes(old(table), d)|
      ensures t != 0 ==> table[d][v / NPT].p && table[d][v / NPT].frame == t && t in table
      ensures t == 0 <==> !old(table[d][v / NPT].p) && old(km.free) == []
      ensures t == 0 || old(table[d][v / NPT].p) ==>
        table == old(table) && owner == old(owner) && km.count == old(km.count) && km.free == old(km.free)
      ensures SameWalks(old(table), table, dirs)
      ensures Agree(page.Keys, old(km.count), km.count)
      ensures Others(owner, d) == Others(old(owner), d)
    {
      t := FindTable(d, v);
      if t == 0 {
        t := NewTable(d, v / NPT);
        if t != 0 {
          OthersSlot(old(owner), d, t, v / NPT);
        }
      }
    }

    /** A store through a pointer walkpgdir returned. */
    method SetPte(d: nat, v: nat, t: nat, e: Pte)
      requires TablesValid() && d in dirs && v < ALLPAGES && table[d][v / NPT].p && table[d][v / NPT].frame == t
      modifies this`table, this`user
      ensures TablesValid() && table.Keys == old(table).Keys && forall e :: e in dirs ==> table[e] == old(table)[e]
      ensures user == if v < USERPAGES then Set(old(user), Key(d, v), e) else old(user)
      ensures SameButFor(old(table), table, dirs, d, v, e)
    {
      ghost var T', u' := StoreEntry(table, dirs, owner, user, d, v, e);
      table := table[t := table[t][v % NPT := e]];
      user := u';
      assert table == T';
    }

    /** One turn of mappages: no page table for the page means out of memory. */
    method MapOne(d: nat, v: nat, pa: nat, w: bool, u: bool) returns (ok: bool)
      requires TablesValid() && d in dirs && v < ALLPAGES && !Walk(table, d, v).p
      modifies this`table, this`owner, this`user, km
      ensures TablesValid() && km.managed == old(km.managed)
      ensures ok ==> SameButFor(old(table), table, dirs, d, v, Pte(pa, true, w, u))
      ensures !ok ==> table == old(table) && owner == old(owner) && km.count == old(km.count) && km.free == old(km.free)
      ensures user == if ok && v < USERPAGES then old(user)[Key(d, v) := Entry(pa, w, u)] else old(user)
      ensures Agree(page.Keys, old(km.count), km.count)
      ensures Others(owner, d) == Others(old(owner), d)
      ensures ok <==> v / NPT in Pdes(old(table), d) || old(km.free) != []
      ensures Pdes(table, d) == if ok then Pdes(old(table), d) + {v / NPT} else Pdes(old(table), d)
      ensures |km.free| + |Pdes(table, d)| == |old(km.free)| + |Pdes(old(table), d)|
    {
      hide TablesValid, Others;
      var t := WalkPgdir(d, v);
      if t == 0 {
        return false;
      }
      SetPte(d, v, t, Pte(pa, true, w, u));
      ok := true;
    }

    /** mappages: maps the first k pages of the range, all n of them or those before memory
        ran out.  Every caller maps a single user page or a range of kernel pages; a page that
        is mapped already is the "remap" panic. */
    method MapPages(d: nat, v: nat, n: nat, pa: nat, w: bool, u: bool) returns (ok: bool, ghost k: nat)
      requires TablesValid() && d in dirs && n >= 1 && v + n <= ALLPAGES && (v < USERPAGES ==> n == 1)
      requires forall x :: v <= x < v + n ==> !Walk(table, d, x).p
      modifies this`table, this`owner, this`user, km
      ensures TablesValid() && km.managed == old(km.managed)
      ensures k <= n && (ok <==> k == n) && MapsRange(old(table), table, dirs, d, v, k, pa, w, u)
      ensures user == if ok && v < USERPAGES then old(user)[Key(d, v) := Entry(pa, w, u)] else old(user)
      ensures !ok && n == 1 ==> table == old(table) && owner == old(owner) && km.count == old(km.count)
      ensures Agree(page.Keys, old(km.count), km.count)
      ensures Others(owner, d) == Others(old(owner), d)
      ensures ok <==> |Pdes(old(table), d) + Spanned(v, n)| <= |old(km.free)| + |Pdes(old(table), d)|
      ensures ok ==> Pdes(table, d) == Pdes(old(table), d) + Spanned(v, n)
      ensures |km.free| + |Pdes(table, d)| == |old(km.free)| + |Pdes(old(table), d)|
      ensures !ok && n == 1 ==> km.free == old(km.free)
    {
      hide Others, Walk, MapsRange, SameButFor, Agree, Owned, Flat, Accounted, Pdes, Spanned, Spent, km.Valid;
      ghost var p0, f0 := Pdes(table, d), |km.free|;
      SpentNothing(p0, f0, v);
      MapsNone(table, dirs, owner, d, v, pa, w, u);
      AgreeSelf(table.Keys, page.Keys, held, km.managed, km.count);
      var a := v;
      k := 0;
      while true
        invariant v <= a < v + n && k == a - v && TablesValid() && km.managed == old(km.managed)
        invariant MapsRange(old(table), table, dirs, d, v, k, pa, w, u)
        invariant a == v ==> table == old(table) && owner == old(owner) && km.count == old(km.count)
        invariant user == old(user)
        invariant Agree(page.Keys, old(km.count), km.count)
        invariant Others(owner, d) == Others(old(owner), d)
        invariant Spent(p0, f0, Pdes(table, d), |km.free|, v, k, 0) && (a == v ==> km.free == old(km.free))
        decreases v + n - a
      {
        MapsRangeAbsent(old(table), table, dirs, d, v, k, pa, w, u);
        ghost var before, counts, free := table, km.count, |km.free|;
        ok := MapOne(d, a, pa + a - v, w, u);
        AgreeTrans(page.Keys, old(km.count), counts, km.count);
        if !ok {
          SpentUp(p0, f0, Pdes(table, d), |km.free|, v, k, n);
          return;
        }
        SpentMore(p0, f0, Pdes(before, d), free, v, k, 0, Pdes(table, d), |km.free|, 0);
        MapsRangeNext(old(table), before, table, dirs, d, v, k, pa, w, u);
        k := k + 1;
        if a == v + n - 1 {
          SpentAll(p0, f0, Pdes(table, d), |km.free|, v, n, 0);
          return;
        }
        a := a + 1;
      }
    }

    /** kfree of a user page. */
    method ReleaseFrame(f: nat)
      requires TablesValid() && f in page
      modifies this`page, km
      ensures TablesValid() && km.managed == old(km.managed)
      ensures km.count == old(km.count)[f := old(km.count)[f] - 1]
      ensures page == if old(km.count)[f] == 1 then old(page) - {f} else old(page)
      ensures |km.free| == if old(km.count)[f] == 1 then |old(km.free)| + 1 else |old(km.free)|
    {
      hide Owned, Flat, Accounted;
      AccountDrop(table.Keys, page.Keys, held, km.managed, km.count, f);
      km.Kfree(f);
      if km.count[f] == 0 {
        page := page - {f};
      }
      assert km.managed == old(km.managed);
    }

    /** deallocuvm's release of one present page. */
    method DropPage(d: nat, v: nat, t: nat)
      requires Valid() && d in dirs && v < USERPAGES && table[d][v / NPT].p && table[d][v / NPT].frame == t
      requires Key(d, v) in user
      modifies this`table, this`user, this`page, km
      ensures Valid() && user == old(user) - {Key(d, v)} && SameContents(old(State()), State())
      ensures table.Keys == old(table).Keys && table[d] == old(table)[d] && km.managed == old(km.managed)
    {
      hide Accounted, Inv, Owned, Flat;
      PresentEntry(table, dirs, owner, user, d, v);
      ghost var m := State();
      var f := table[t][v % NPT].frame;
      DropFrame(m, d, v, f);
      ReleaseFrame(f);
      SetPte(d, v, t, ABSENT);
      DropDone(m, d, v, f, State());
    }

    /** deallocuvm on a page directory that is not the current process's: a missing page
        table is skipped as a whole. */
    method DeallocUvm(d: nat, oldsz: nat, newsz: nat) returns (r: nat)
      requires Valid() && d in dirs && oldsz <= USERPAGES * PGSIZE
      modifies this`table, this`user, this`page, km
      ensures Valid() && table.Keys == old(table).Keys && km.managed == old(km.managed)
      ensures r == if newsz >= oldsz then oldsz else newsz
      ensures user == Minus(old(user), d, PageUp(newsz), if newsz >= oldsz then PageUp(newsz) else PageUp(oldsz))
      ensures SameContents(old(State()), State())
      ensures forall k :: k in user <==> k in old(user) && !(k.dir == d && newsz <= k.vpn * PGSIZE < oldsz)
      ensures forall k :: k in user ==>
        && user[k] == old(user)[k] && user[k].frame in page && user[k].frame in old(page)
        && page[user[k].frame] == old(page)[user[k].frame]
    {
      hide TablesValid, Owned, Flat, Accounted, Inv, Minus, SameContents;
      if newsz >= oldsz {
        MinusNothing(user, d, PageUp(newsz));
        SameContentsSelf(State());
        RangeGone(old(State()), State(), d, oldsz, newsz);
        return oldsz;
      }
      var a := PageUp(newsz);
      MinusNothing(user, d, a);
      SameContentsSelf(State());
      while a * PGSIZE < oldsz
        invariant PageUp(newsz) <= a <= USERPAGES && Valid()
        invariant table.Keys == old(table).Keys && km.managed == old(km.managed)
        invariant user == Minus(old(user), d, PageUp(newsz), a)
        invariant a > PageUp(oldsz) ==> user == Minus(old(user), d, PageUp(newsz), PageUp(oldsz))
        invariant SameContents(old(State()), State())
        decreases USERPAGES - a
      {
        ghost var m := State();
        var b := DeallocTurn(d, a);
        MinusTurn(old(user), d, PageUp(newsz), a, b, m.user);
        SameContentsTrans(old(State()), m, State());
        if b > PageUp(oldsz) {
          MinusNone(old(user), d, PageUp(newsz), PageUp(oldsz), b);
        }
        a := b;
      }
      RangeGone(old(State()), State(), d, oldsz, newsz);
      r := newsz;
    }

    /** One turn of deallocuvm's loop, including the step to the next page. */
    method DeallocTurn(d: nat, a: nat) returns (b: nat)
      requires Valid() && d in dirs && a < USERPAGES
      modifies this`table, this`user, this`page, km
      ensures Valid() && table.Keys == old(table).Keys && km.managed == old(km.managed)
      ensures a < b <= USERPAGES && user == old(user) - {Key(d, a)} && SameContents(old(State()), State())
      ensures b > a + 1 ==> forall v :: a <= v < b ==> Key(d, v) !in old(user)
    {
      var t := FindTable(d, a);
      assert Reads(Walk(table, d, a), user, Key(d, a));
      if t == 0 {
        AbsentTable(table, dirs, user, d, a);
        assert user - {Key(d, a)} == user;
        b := (a / NPT + 1) * NPT;
      } else {
        if table[t][a % NPT].p {
          DropPage(d, a, t);
        } else {
          assert user - {Key(d, a)} == user;
        }
        b := a + 1;
      }
    }

    /** Between the calls of kfree in freevm: directory d has left dirs, its page tables
        below index i are gone. */
    ghost predicate Teardown(d: nat, i: nat)
      reads this, km
    {
      && km.Valid()
      && Dying(table, dirs, owner, d, i)
      && Flat(table, dirs, user)
      && Accounted(table.Keys, page.Keys, held, km.managed, km.count)
    }

    /** kfree of a page that holds a table. */
    method ReleaseTable(t: nat)
      requires km.Valid() && Accounted(table.Keys, page.Keys, held, km.managed, km.count) && t in table && t in owner
      modifies this`table, this`owner, km
      ensures km.Valid() && km.managed == old(km.managed) && Agree(page.Keys, old(km.count), km.count)
      ensures Accounted(table.Keys, page.Keys, held, km.managed, km.count)
      ensures table == old(table) - {t} && owner == old(owner) - {t}
    {
      hide Owned, Flat, Accounted;
      AccountRelease(table.Keys, page.Keys, held, km.managed, km.count, t);
      km.Kfree(t);
      table, owner := table - {t}, owner - {t};
      assert table.Keys == old(table).Keys - {t} && km.managed == old(km.managed);
    }

    /** freevm's loop over the directory. */
    method FreeTables(d: nat)
      requires Teardown(d, 0)
      modifies this`table, this`owner, km
      ensures Teardown(d, NPT) && km.managed == old(km.managed) && Agree(page.Keys, old(km.count), km.count)
      ensures Others(owner, d) == Others(old(owner), d)
    {
      hide Owned, Flat, Accounted, Others, Agree, Dying, km.Valid;
      AgreeSelf(table.Keys, page.Keys, held, km.managed, km.count);
      var i := 0;
      while i < NPT
        invariant i <= NPT && Teardown(d, i) && km.managed == old(km.managed)
        invariant Agree(page.Keys, old(km.count), km.count) && Others(owner, d) == Others(old(owner), d)
      {
        DyingNext(table, dirs, owner, d, i);
        ghost var counts := km.count;
        if table[d][i].p {
          var t := table[d][i].frame;
          FlatWithout(table, dirs, owner, user, d, i, t);
          OthersWithout(owner, d, t);
          ReleaseTable(t);
          AgreeTrans(page.Keys, old(km.count), counts, km.count);
        }
        i := i + 1;
      }
    }

    /** freevm on a page directory that is not the current process's. */
    method FreeVm(d: nat)
      requires Valid() && d in dirs
      modifies this, km
      ensures Valid() && dirs == old(dirs) - {d} && km.managed == old(km.managed) && held == old(held)
      ensures user == Minus(old(user), d, 0, USERPAGES)
      ensures owner == Others(old(owner), d)
      ensures SameContents(old(State()), State())
      ensures forall k :: k in user <==> k in old(user) && k.dir != d
      ensures forall k :: k in user ==>
        && user[k] == old(user)[k] && user[k].frame in page && user[k].frame in old(page)
        && page[user[k].frame] == old(page)[user[k].frame]
    {
      hide Owned, Flat, Accounted, Others, Agree, Dying, Inv, Minus, SameContents, km.Valid;
      AllUser(table, dirs, owner, user);
      var r := DeallocUvm(d, USERPAGES * PGSIZE, 0);
      ghost var m := State();
      DyingStart(table, dirs, owner, d);
      FlatFewer(table, dirs, owner, old(user), user, d);
      dirs := dirs - {d};
      FreeTables(d);
      DyingEnd(table, dirs, owner, d);
      FlatWithout(table, dirs, owner, user, d, NPT, d);
      OthersEnd(table, dirs, owner, d);
      ghost var counts := km.count;
      ReleaseTable(d);
      AgreeTrans(page.Keys, m.count, counts, km.count);
      CountsAgree(m, km.count);
    }

    /** kalloc of an empty page directory. */
    method NewDirectory() returns (d: nat)
      requires TablesValid()
      modifies this`table, this`owner, this`dirs, km
      ensures TablesValid() && km.managed == old(km.managed) && Agree(page.Keys, old(km.count), km.count)
      ensures d == 0 <==> old(km.free) == []
      ensures d == 0 ==> table == old(table) && owner == old(owner) && dirs == old(dirs) && km.count == old(km.count)
      ensures d != 0 ==> d !in old(dirs) && dirs == old(dirs) + {d} && Others(owner, d) == old(owner)
      ensures d != 0 ==> SameWalks(old(table), table, old(dirs)) && MapsNothing(table, d) && Pdes(table, d) == {}
      ensures |km.free| == if d == 0 then |old(km.free)| else |old(km.free)| - 1
    {
      hide Owned, Flat, Accounted, Others, Agree, SameWalks, MapsNothing, km.Valid;
      AgreeSelf(table.Keys, page.Keys, held, km.managed, km.count);
      d := km.Kalloc();
      if d != 0 {
        AccountTable(table.Keys, page.Keys, held, km.managed, old(km.count), d);
        WithDirectory(table, dirs, owner, user, d);
        WalkWithDirectory(table, dirs, owner, d);
        OthersNew(table, dirs, owner, d);
        OwnedKeys(table, dirs, owner, d);
        table, owner, dirs := table[d := ZeroTable()], owner[d := Root], dirs + {d};
        assert table.Keys == old(table).Keys + {d};
      }
    }

    /** Clears W in the entry of a mapped page; e is the entry before. */
    method TakeWrite(p: nat, v: nat) returns (e: Pte)
      requires TablesValid() && p in dirs && v < USERPAGES && Key(p, v) in user
      modifies this`table, this`user
      ensures TablesValid() && e.p && old(user)[Key(p, v)] == Entry(e.frame, e.w, e.u)
      ensures user == old(user)[Key(p, v) := Entry(e.frame, false, e.u)]
      ensures forall c :: c in dirs ==> c in table && c in old(table) && table[c] == old(table)[c]
    {
      hide Owned, Flat, Accounted, SameButFor, Walk, km.Valid;
      MappedEntry(table, dirs, owner, user, p, v);
      PresentEntry(table, dirs, owner, user, p, v);
      var t := FindTable(p, v);
      e := table[t][v % NPT];
      SetPte(p, v, t, e.(w := false));
    }

    /** One page of copyuvm: take W from the parent's entry, map the frame in the child and
        count the share.  When the child's page table cannot be allocated the parent's page
        stays protected. */
    method SharePage(p: nat, c: nat, v: nat) returns (ok: bool)
      requires Valid() && p in dirs && c in dirs && p != c && v < USERPAGES && |dirs| < USHORT - 1
      requires Key(p, v) in user && Key(c, v) !in user
      modifies this`table, this`owner, this`user, km
      ensures Valid() && km.managed == old(km.managed) && Others(owner, c) == Others(old(owner), c)
      ensures var e := old(user)[Key(p, v)].(writable := false);
        user == if ok then old(user)[Key(p, v) := e][Key(c, v) := e] else old(user)[Key(p, v) := e]
      ensures ok <==> v / NPT in Pdes(old(table), c) || old(km.free) != []
      ensures Pdes(table, c) == if ok then Pdes(old(table), c) + {v / NPT} else Pdes(old(table), c)
      ensures |km.free| + |Pdes(table, c)| == |old(km.free)| + |Pdes(old(table), c)|
      ensures !ok ==> km.free == []
    {
      hide Owned, Flat, Accounted, Others, Agree, MapsRange, SameButFor, Inv, Walk, Pdes, km.Valid;
      ghost var m := State();
      ShareRoom(m, Key(p, v), dirs, table, owner);
      var e := TakeWrite(p, v);
      PdesSame(old(table), table, c);
      OneTable(Pdes(table, c), v, |km.free|);
      MappedEntry(table, dirs, owner, user, c, v);
      ghost var k;
      ok, k := MapPages(c, v, 1, e.frame, false, e.u);
      if !ok {
        ProtectDone(m, Key(p, v), km.count, State());
        return;
      }
      ghost var counts := km.count;
      AgreeAt(page.Keys, m.count, counts, e.frame);
      AccountCount(table.Keys, page.Keys, held, km.managed, km.count, e.frame, km.count[e.frame] + 1);
      km.AddShare(e.frame);
      ShareDone(m, p, c, v, counts, State());
    }

    /** freevm of a directory that has no user pages, after memory ran out: everything is as
        it was in state m. */
    method GiveUp(d: nat, ghost m: Mem, ghost T: Tables, ghost D: set<nat>, ghost o: map<nat, Owner>)
      requires TablesValid() && d !in D && dirs == D + {d} && user == m.user && page == m.page && Inv(m)
      requires Agree(page.Keys, m.count, km.count) && Others(owner, d) == o
      requires Owned(T, D, o) && Flat(T, D, m.user) && Accounted(T.Keys, page.Keys, held, km.managed, m.count)
      modifies this, km
      ensures Valid() && dirs == D && user == m.user && page == m.page && owner == o && held == old(held)
      ensures km.managed == old(km.managed) && Agree(km.managed, m.count, km.count)
    {
      hide Owned, Flat, Accounted, Others, Agree, Inv, SameContents, Minus, km.Valid;
      CountsAgree(m, km.count);
      ghost var mid := State();
      FreeVm(d);
      SetupUndone(m, mid, State(), d, T, D, o);
      OwnedSame(T, D, o, table, dirs);
      AccountSame(table.Keys, page.Keys, held, km.managed, m.count, km.count);
    }

    /** setupkvm: a directory that maps the kernel and nothing else, or 0 and no trace when
        memory is out. */
    method SetupKvm(data: nat) returns (d: nat)
      requires Valid() && DataPage(data)
      modifies this, km
      ensures Valid() && held == old(held) && user == old(user) && page == old(page) && km.managed == old(km.managed)
      ensures d == 0 ==> dirs == old(dirs) && owner == old(owner) && Agree(km.managed, old(km.count), km.count)
      ensures d != 0 ==> d !in old(dirs) && dirs == old(dirs) + {d} && Others(owner, d) == old(owner)
      ensures d != 0 ==> SameWalks(old(table), table, old(dirs)) && Sized(table) && d in table
      ensures d != 0 ==> forall x :: 0 <= x < ALLPAGES ==>
        if 0x8_0000 <= x < 0x8_E000 then Walk(table, d, x) == Pte(x - 0x8_0000, true, !(0x8_0100 <= x < data), false)
        else if x >= 0xF_E000 then Walk(table, d, x) == Pte(x, true, true, false)
        else !Walk(table, d, x).p
      ensures d != 0 <==> |old(km.free)| >= 65
      ensures d != 0 ==> |km.free| == |old(km.free)| - 65 && Pdes(table, d) == KernelTabs(Kmap(data), 4)
      ensures d == 0 ==> |km.free| == |old(km.free)|
    {
      hide Owned, Flat, Accounted, Others, Agree, Inv, MapsKernel, SameWalks, MapsNothing, MapsRange, Walk, Pdes,
        Spanned, FreeAre, km.Valid;
      km.Frees();
      ghost var free0 := km.free;
      KernelTabsSize(data);
      ghost var m, T0, D0, o0 := State(), table, dirs, owner;
      AgreeSelf(table.Keys, page.Keys, held, km.managed, km.count);
      AccountSame(table.Keys, page.Keys, held, km.managed, km.count, km.count);
      d := NewDirectory();
      if d == 0 {
        return;
      }
      var k := Kmap(data);
      KernelStart(table, d, k);
      var i := 0;
      while i < |k|
        invariant i <= |k| && TablesValid() && held == old(held) && user == m.user && page == m.page
        invariant km.managed == old(km.managed)
        invariant Agree(page.Keys, m.count, km.count) && dirs == D0 + {d} && Others(owner, d) == o0
        invariant MapsKernel(table, d, k, i) && SameWalks(T0, table, D0)
        invariant Pdes(table, d) == KernelTabs(k, i) && |km.free| + |Pdes(table, d)| == |free0| - 1
      {
        KernelFree(table, d, k, i);
        ghost var T, counts := table, km.count;
        var ok;
        ghost var n;
        ok, n := MapPages(d, k[i].vpn, k[i].n, k[i].pa, k[i].w, false);
        AgreeTrans(page.Keys, m.count, counts, km.count);
        if !ok {
          KernelShort(k, i, Pdes(T, d), |free0| - 1);
          GiveUp(d, m, T0, D0, o0);
          km.Frees();
          AgreeMeans(km.managed, m.count, km.count);
          FreeSize(free0, m.count, km.free, km.count, km.managed);
          d := 0;
          return;
        }
        KernelNext(T, table, dirs, d, k, i);
        MapsElsewhere(T0, T, table, D0, dirs, d, k[i].vpn, k[i].n, k[i].pa, k[i].w, false);
        i := i + 1;
      }
      CountsAgree(m, km.count);
      KernelMeans(table, d, data);
    }

    /** copyuvm's first loop: pages 1 up to sz, all of which the parent must have. */
    method CopyLow(p: nat, c: nat, sz: nat, s: nat, ghost u0: map<Key, Entry>) returns (ok: bool, ghost v: nat)
      requires Valid() && p in dirs && c in dirs && p != c && |dirs| < USHORT - 1
      requires user == u0 && Unborn(u0, c) && LowEnd(sz) <= s <= USERPAGES
      requires forall x :: 1 <= x < LowEnd(sz) ==> Key(p, x) in u0
      modifies this`table, this`owner, this`user, km
      ensures Valid() && km.managed == old(km.managed) && Others(owner, c) == Others(old(owner), c)
      ensures ok ==> user == Forked(u0, p, c, LowEnd(sz), s, s)
      ensures !ok ==> Halfway(u0, p, c, v, s, s, v, user)
      ensures |km.free| + |Pdes(table, c)| == |old(km.free)| + |Pdes(old(table), c)|
      ensures ok ==> Pdes(table, c) == Pdes(old(table), c) + VisitedTabs(u0, p, LowEnd(sz), s, s)
      ensures !ok ==> 1 <= v < LowEnd(sz) && Key(p, v) in u0 && km.free == [] && v / NPT !in Pdes(table, c)
      ensures !ok ==> Pdes(table, c) == Pdes(old(table), c) + VisitedTabs(u0, p, v, s, s)
    {
      hide TablesValid, Others, Inv, Forked, Unborn, Pdes, VisitedTabs;
      ForkedNone(u0, p, c, s);
      VisitedTabsNone(u0, p, s);
      v := 1;
      var i := 1;
      while i * PGSIZE < sz
        invariant 1 <= i <= LowEnd(sz) && Valid() && km.managed == old(km.managed)
        invariant Others(owner, c) == Others(old(owner), c)
        invariant user == Forked(u0, p, c, i, s, s)
        invariant |km.free| + |Pdes(table, c)| == |old(km.free)| + |Pdes(old(table), c)|
        invariant Pdes(table, c) == Pdes(old(table), c) + VisitedTabs(u0, p, i, s, s)
      {
        v := i;
        VisitedTabsNext(u0, p, i, s, s, i, i + 1, s);
        ForkedNext(u0, p, c, i, s, s, i, i + 1, s);
        ok := SharePage(p, c, i);
        if !ok {
          return;
        }
        i := i + 1;
      }
      ok := true;
    }

    /** copyuvm's second loop: the stack, where pages may be missing. */
    method CopyStack(p: nat, c: nat, i: nat, s: nat, ghost u0: map<Key, Entry>, ghost base: set<nat>)
        returns (ok: bool, ghost v: nat)
      requires Valid() && p in dirs && c in dirs && p != c && |dirs| < USHORT - 1
      requires user == Forked(u0, p, c, i, s, s) && Unborn(u0, c) && 1 <= i <= s <= USERPAGES
      requires HasTables(table, p, s) && Pdes(table, c) == base + VisitedTabs(u0, p, i, s, s)
      modifies this`table, this`owner, this`user, km
      ensures Valid() && km.managed == old(km.managed) && Others(owner, c) == Others(old(owner), c)
      ensures ok ==> user == Forked(u0, p, c, i, s, USERPAGES)
      ensures !ok ==> Halfway(u0, p, c, i, s, v, v, user)
      ensures |km.free| + |Pdes(table, c)| == |old(km.free)| + |Pdes(old(table), c)|
      ensures ok ==> Pdes(table, c) == base + VisitedTabs(u0, p, i, s, USERPAGES)
      ensures !ok ==> s <= v < USERPAGES && Key(p, v) in u0 && km.free == [] && v / NPT !in Pdes(table, c)
      ensures !ok ==> Pdes(table, c) == base + VisitedTabs(u0, p, i, s, v)
    {
      hide Owned, Flat, Accounted, Others, Inv, Forked, Unborn, Walk, Pdes, VisitedTabs, km.Valid;
      ghost var T, o := table, owner;
      v := s;
      var j := s;
      while j < USERPAGES
        invariant s <= j <= USERPAGES && Valid() && km.managed == old(km.managed) && Others(owner, c) == Others(o, c)
        invariant user == Forked(u0, p, c, i, s, j)
        invariant |km.free| + |Pdes(table, c)| == |old(km.free)| + |Pdes(old(table), c)|
        invariant Pdes(table, c) == base + VisitedTabs(u0, p, i, s, j)
      {
        v := j;
        VisitedTabsNext(u0, p, i, s, j, j, i, j + 1);
        ForkedNext(u0, p, c, i, s, j, j, i, j + 1);
        TablesStay(T, dirs, o, table, dirs, owner, p, c, s);
        PresentEntry(table, dirs, owner, user, p, j);
        ForkedHas(u0, p, c, i, s, j, j);
        var t := FindTable(p, j);
        if table[t][j % NPT].p {
          ok := SharePage(p, c, j);
          if !ok {
            return;
          }
        }
        j := j + 1;
      }
      ok := true;
    }

    /** Both loops of copyuvm; i, j and v are where they stopped. */
    method CopyBoth(p: nat, c: nat, sz: nat, s: nat, ghost u0: map<Key, Entry>)
        returns (ok: bool, ghost i: nat, ghost j: nat, ghost v: nat)
      requires Valid() && p in dirs && c in dirs && p != c && |dirs| < USHORT - 1
      requires user == u0 && Unborn(u0, c) && LowEnd(sz) <= s <= USERPAGES && HasTables(table, p, s)
      requires forall x :: 1 <= x < LowEnd(sz) ==> Key(p, x) in u0
      modifies this`table, this`owner, this`user, km
      ensures Valid() && km.managed == old(km.managed) && Others(owner, c) == Others(old(owner), c)
      ensures ok ==> user == Forked(u0, p, c, LowEnd(sz), s, USERPAGES)
      ensures !ok ==> Halfway(u0, p, c, i, s, j, v, user)
      ensures |km.free| + |Pdes(table, c)| == |old(km.free)| + |Pdes(old(table), c)|
      ensures var all := Pdes(old(table), c) + VisitedTabs(u0, p, LowEnd(sz), s, USERPAGES);
        if ok then Pdes(table, c) == all else km.free == [] && |Pdes(table, c)| < |all|
    {
      hide Owned, Flat, Accounted, Others, Inv, Forked, Unborn, Halfway, HasTables, Pdes, VisitedTabs, km.Valid;
      ghost var kt, T, o := Pdes(table, c), table, owner;
      ok, v := CopyLow(p, c, sz, s, u0);
      i, j := v, s;
      if !ok {
        ForkShort(kt, Pdes(table, c), u0, p, i, s, j, v, LowEnd(sz));
        return;
      }
      TablesStay(T, dirs, o, table, dirs, owner, p, c, s);
      ok, v := CopyStack(p, c, LowEnd(sz), s, u0, kt);
      i, j := LowEnd(sz), v;
      if !ok {
        ForkShort(kt, Pdes(table, c), u0, p, i, s, j, v, LowEnd(sz));
      }
    }

    /** setupkvm and the two loops of copyuvm, in terms of the pages they visit. */
    method CopyPages(p: nat, sz: nat, s: nat, data: nat) returns (c: nat)
      requires Valid() && DataPage(data) && p in dirs && |dirs| < USHORT - 2 && LowEnd(sz) <= s <= USERPAGES
      requires forall x :: 1 <= x < LowEnd(sz) ==> Key(p, x) in user
      requires HasTables(table, p, s)
      modifies this, km
      ensures Valid() && held == old(held) && page == old(page) && km.managed == old(km.managed)
      ensures c != 0 ==> c !in old(dirs) && dirs == old(dirs) + {c} && Others(owner, c) == old(owner)
      ensures c != 0 ==> user == Forked(old(user), p, c, LowEnd(sz), s, USERPAGES)
      ensures c != 0 ==>
        View(State()) == EagerFork(View(old(State())), p, c, Kids(old(user), p, c, LowEnd(sz), s, USERPAGES))
      ensures c == 0 ==> dirs == old(dirs) && owner == old(owner) && OnlyProtected(old(user), user)
      ensures c == 0 ==> Agree(km.managed, old(km.count), km.count)
      ensures c != 0 <==> |old(km.free)| >= 65 + |VisitedTabs(old(user), p, LowEnd(sz), s, USERPAGES)|
    {
      hide Owned, Flat, Accounted, Others, Agree, Inv, Forked, Unborn, Halfway, OnlyProtected, SameWalks, Walk,
        Minus, SameContents, HasTables, View, EagerFork, Kids, Pdes, VisitedTabs, KernelTabs, km.Valid;
      ghost var m, T, D, o := State(), table, dirs, owner;
      c := SetupKvm(data);
      if c == 0 {
        ProtectNone(user);
        return;
      }
      NewUnborn(T, D, o, m.user, c);
      assert forall k :: k in m.user ==> k.vpn < USERPAGES;
      ghost var kt := Pdes(table, c);
      ForkTabs(data, m.user, p, LowEnd(sz), s);
      TablesStay(T, D, o, table, dirs, owner, p, c, s);
      var ok;
      ghost var i, j, v;
      ok, i, j, v := CopyBoth(p, c, sz, s, m.user);
      if !ok {
        ghost var mid := State();
        FreeVm(c);
        ForkUndone(m, p, c, i, s, j, v, mid, State());
        OwnedSame(T, D, o, table, dirs);
        AccountSame(table.Keys, page.Keys, held, km.managed, m.count, km.count);
        c := 0;
      } else {
        ForkedView(m, p, c, LowEnd(sz), s, USERPAGES, State());
      }
    }

    /** copyuvm without swapped-out pages; the stack's pages start at page s.  The child has pages 1
        up to sz and the parent's stack pages, reads the same there, and shares all of them without
        write permission; no other contents change.  When memory is out, write protection is the
        only trace. */
    method CopyUvm(p: nat, sz: nat, s: nat, data: nat) returns (c: nat)
      requires Valid() && DataPage(data) && p in dirs && |dirs| < USHORT - 2 && 1 <= s <= USERPAGES && sz <= s * PGSIZE
      requires forall x :: 1 <= x && x * PGSIZE < sz ==> Key(p, x) in user
      requires HasTables(table, p, s)
      modifies this, km
      ensures Valid() && held == old(held) && page == old(page) && km.managed == old(km.managed)
      ensures
        var tabs := set k | k in old(user) && k.dir == p && ((1 <= k.vpn && k.vpn * PGSIZE < sz) || s <= k.vpn) ::
          k.vpn / NPT;
        c != 0 <==> |old(km.free)| >= 65 + |tabs|
      ensures c != 0 ==> c !in old(dirs) && dirs == old(dirs) + {c} && Others(owner, c) == old(owner)
      ensures c != 0 ==> forall x: nat :: Key(c, x) in user <==>
        Key(p, x) in old(user) && ((1 <= x && x * PGSIZE < sz) || s <= x < USERPAGES)
      ensures c != 0 ==> forall k :: k in old(user) ==>
        && k in user && user[k].(writable := true) == old(user)[k].(writable := true)
        && (user[k].writable <==> old(user)[k].writable && !(k.dir == p && Key(c, k.vpn) in user))
      ensures c != 0 ==> forall x: nat :: Key(c, x) in user ==>
        user[Key(c, x)] == user[Key(p, x)] == old(user)[Key(p, x)].(writable := false)
      ensures c != 0 ==> forall x: nat :: Key(c, x) in user ==>
        View(State())[Key(c, x)] == View(old(State()))[Key(p, x)]
      ensures c != 0 ==> forall k :: k in old(user) ==> View(State())[k] == View(old(State()))[k]
      ensures c == 0 ==> dirs == old(dirs) && owner == old(owner) && user.Keys == old(user).Keys
      ensures c == 0 ==> forall k :: k in user ==> user[k] == old(user)[k] || user[k] == old(user)[k].(writable := false)
      ensures c == 0 ==>
        forall f :: f in km.managed ==> f in km.count && f in old(km.count) && km.count[f] == old(km.count)[f]
    {
      hide Owned, Flat, Accounted, Others, Agree, Forked, Unborn, OnlyProtected, HasTables, EagerFork, Kids, View, Inv,
        VisitedTabs, km.Valid;
      ghost var m, T, D, o := State(), table, dirs, owner;
      TabsMeans(T, D, o, m.user, p, sz, s);
      c := CopyPages(p, sz, s, data);
      if c == 0 {
        ProtectedMeans(m.user, user);
        AgreeMeans(km.managed, m.count, km.count);
      } else {
        NewUnborn(T, D, o, m.user, c);
        ForkedPages(m, p, c, sz, s, State());
      }
    }

    /** kalloc of a page for user data. */
    method TakePage(data: Page) returns (g: nat)
      requires TablesValid()
      modifies this`page, km
      ensures TablesValid() && km.managed == old(km.managed)
      ensures g == 0 <==> old(km.free) == []
      ensures g == 0 ==> page == old(page) && km.count == old(km.count)
      ensures g != 0 ==> Fresh(old(State()), g) && page == old(page)[g := data] && km.count == old(km.count)[g := 1]
      ensures |km.free| == if g == 0 then 0 else |old(km.free)| - 1
    {
      hide Owned, Flat, Accounted, Agree;
      g := km.Kalloc();
      if g != 0 {
        AccountPage(table.Keys, page.Keys, held, km.managed, old(km.count), g);
        page := page[g := data];
        assert page.Keys == old(page).Keys + {g};
      }
    }

    /** cast_page_fault on the last reference to a page: give W back. */
    method Unprotect(d: nat, v: nat, t: nat, e: Pte)
      requires Valid() && d in dirs && v < USERPAGES && table[d][v / NPT].p && table[d][v / NPT].frame == t
      requires e.p && e.u && !e.w && Key(d, v) in user && user[Key(d, v)] == Entry(e.frame, false, true)
      requires km.count[e.frame] == 1
      modifies this`table, this`user
      ensures Valid() && user == old(user)[Key(d, v) := Entry(e.frame, true, true)]
      ensures View(State()) == View(old(State()))
    {
      hide Owned, Flat, Accounted, Inv, SameButFor, View, km.Valid;
      ghost var m := State();
      MappedFrame(m, Key(d, v));
      SetPte(d, v, t, e.(w := true));
      StepDone(m, Step.Unprotect(d, v), State());
    }

    /** cast_page_fault on a shared page: a copy for this process, one share less. */
    method CopyShared(d: nat, v: nat, t: nat, f: nat) returns (g: nat)
      requires Valid() && d in dirs && v < USERPAGES && table[d][v / NPT].p && table[d][v / NPT].frame == t
      requires Key(d, v) in user && user[Key(d, v)] == Entry(f, false, true) && f in page && f in km.count
      requires km.count[f] > 1
      modifies this`table, this`user, this`page, km
      ensures Valid() && km.managed == old(km.managed) && View(State()) == View(old(State()))
      ensures g == 0 <==> old(km.free) == []
      ensures g == 0 ==> State() == old(State())
      ensures g != 0 ==> g !in old(page) && page == old(page)[g := old(page)[f]]
      ensures g != 0 ==>
        user == old(user)[Key(d, v) := Entry(g, true, true)] && km.count == old(km.count)[g := 1][f := old(km.count)[f] - 1]
    {
      hide Owned, Flat, Accounted, Inv, SameButFor, View, Agree, km.Valid;
      ghost var m := State();
      g := TakePage(page[f]);
      if g == 0 {
        return;
      }
      SetPte(d, v, t, Pte(g, true, true, true));
      AccountCount(table.Keys, page.Keys, held, km.managed, km.count, f, km.count[f] - 1);
      km.RedShare(f);
      StepDone(m, Step.CopyPage(d, v, g), State());
    }

    /** The end of cast_page_fault: what becomes of a process that faulted on page v. */
    method PageFault(d: nat, v: nat) returns (r: Fault)
      requires Valid() && d in dirs && v < ALLPAGES
      modifies this`table, this`user, this`page, km
      ensures Valid() && km.managed == old(km.managed) && View(State()) == View(old(State()))
      ensures r.Panic? <==>
        Key(d, v) in old(user) && old(user)[Key(d, v)].user && old(user)[Key(d, v)].writable
      ensures r.Resumed? <==>
        && Key(d, v) in old(user) && old(user)[Key(d, v)].user && !old(user)[Key(d, v)].writable
        && (old(km.count)[old(user)[Key(d, v)].frame] == 1 || old(km.free) != [])
      ensures !r.Resumed? ==> State() == old(State())
      ensures r.Resumed? ==>
        Key(d, v) in user && user == old(user)[Key(d, v) := Entry(user[Key(d, v)].frame, true, true)]
      ensures r.Resumed? ==> var f := old(user)[Key(d, v)].frame; var g := user[Key(d, v)].frame;
        if old(km.count)[f] == 1 then
          g == f && page == old(page) && km.count == old(km.count)
        else
          && g !in old(page) && page == old(page)[g := old(page)[f]]
          && km.count == old(km.count)[g := 1][f := old(km.count)[f] - 1]
    {
      hide Owned, Flat, Accounted, Inv, Walk, SameButFor, View, km.Valid;
      if v >= USERPAGES {
        KernelPageNotUser(table, dirs, owner, user, Key(d, v));
        return Killed;
      }
      MappedEntry(table, dirs, owner, user, d, v);
      var t := FindTable(d, v);
      if t == 0 {
        return Killed;
      }
      PresentEntry(table, dirs, owner, user, d, v);
      var e := table[t][v % NPT];
      if !e.p || !e.u {
        return Killed;
      }
      if e.w {
        return Panic;
      }
      MappedFrame(State(), Key(d, v));
      if km.count[e.frame] == 1 {
        Unprotect(d, v, t, e);
      } else {
        var g := CopyShared(d, v, t, e.frame);
        if g == 0 {
          return Killed;
        }
      }
      r := Resumed;
    }

    /** One turn of allocuvm's loop: a zeroed page at page v. */
    method GrowPage(d: nat, v: nat) returns (ok: bool)
      requires Valid() && d in dirs && v < USERPAGES && Key(d, v) !in user
      modifies this`table, this`owner, this`user, this`page, km
      ensures Valid() && km.managed == old(km.managed) && Others(owner, d) == Others(old(owner), d)
      ensures ok ==> View(State()) == View(old(State()))[Key(d, v) := ZeroPage()]
      ensures ok ==> Key(d, v) in user && user == old(user)[Key(d, v) := Entry(user[Key(d, v)].frame, true, true)]
      ensures !ok ==> State() == old(State()) && owner == old(owner)
      ensures ok <==> |old(km.free)| >= if v / NPT in Pdes(old(table), d) then 1 else 2
      ensures Pdes(table, d) == if ok then Pdes(old(table), d) + {v / NPT} else Pdes(old(table), d)
      ensures |km.free| + |Pdes(table, d)| == |old(km.free)| + |Pdes(old(table), d)| - (if ok then 1 else 0)
    {
      hide Owned, Flat, Accounted, Inv, Walk, MapsRange, View, Agree, Others, Pdes, km.Valid;
      ghost var m := State();
      var g := TakePage(ZeroPage());
      if g == 0 {
        return false;
      }
      MappedEntry(table, dirs, owner, user, d, v);
      OneTable(Pdes(table, d), v, |km.free|);
      ghost var counts := km.count;
      ghost var k;
      ok, k := MapPages(d, v, 1, g, true, true);
      if !ok {
        ReleaseFrame(g);
        assert page == m.page && km.count == m.count;
        return;
      }
      GrowDone(m, d, v, g, counts, State());
    }

    /** allocuvm's loop; n is the state when it ended and a the page it had reached. */
    method GrowPages(d: nat, oldsz: nat, newsz: nat) returns (ok: bool, ghost n: Mem, ghost a: nat)
      requires Valid() && d in dirs && oldsz <= newsz <= USERPAGES * PGSIZE
      requires forall v :: PageUp(oldsz) <= v < PageUp(newsz) ==> Key(d, v) !in user
      modifies this`table, this`owner, this`user, this`page, km
      ensures Valid() && km.managed == old(km.managed) && n == State() && PageUp(oldsz) <= a <= PageUp(newsz)
      ensures GrewBy(View(old(State())), View(n), d, PageUp(oldsz), a)
      ensures Minus(user, d, PageUp(oldsz), PageUp(newsz)) == old(user)
      ensures ok ==> a == PageUp(newsz)
      ensures ok <==>
        var lo, k := PageUp(oldsz), PageUp(newsz) - PageUp(oldsz);
        k + |Spanned(lo, k) - Pdes(old(table), d)| <= |old(km.free)|
    {
      hide Owned, Flat, Accounted, Counted, SameAddress, Sealed, Used, Minus, View, GrewBy, Others, Pdes, Spanned,
        Spent, km.Valid;
      ghost var m := State();
      var i := PageUp(oldsz);
      ghost var lo, hi := i, PageUp(newsz);
      GrewNone(View(State()), d, lo);
      MinusAbsent(user, d, lo, hi);
      ghost var p0, f0 := Pdes(table, d), |km.free|;
      SpentNothing(p0, f0, lo);
      while i * PGSIZE < newsz
        invariant lo <= i <= hi && Valid() && km.managed == old(km.managed)
        invariant forall v :: i <= v < hi ==> Key(d, v) !in user
        invariant Minus(user, d, lo, hi) == m.user
        invariant GrewBy(View(m), View(State()), d, lo, i)
        invariant Spent(p0, f0, Pdes(table, d), |km.free|, lo, i - lo, i - lo)
      {
        n, a := State(), i;
        ghost var p, f := Pdes(table, d), |km.free|;
        ok := GrowPage(d, i);
        if !ok {
          SpentUpGrowing(p0, f0, p, f, lo, i - lo, hi - lo);
          return;
        }
        SpentMore(p0, f0, p, f, lo, i - lo, i - lo, Pdes(table, d), |km.free|, i - lo + 1);
        GrewNext(View(m), View(n), View(State()), d, lo, i);
        MinusInserted(n.user, d, lo, hi, i, user);
        i := i + 1;
      }
      SpentAll(p0, f0, Pdes(table, d), |km.free|, lo, hi - lo, hi - lo);
      n, a, ok := State(), i, true;
    }

    /** allocuvm after its checks of the stack, for a directory whose queue of resident pages has
        room: all new pages, zeroed, or after the clean-up by deallocuvm none of them. */
    method AllocUvm(d: nat, oldsz: nat, newsz: nat) returns (r: nat)
      requires Valid() && d in dirs && forall v :: oldsz <= v * PGSIZE < newsz ==> Key(d, v) !in user
      modifies this`table, this`owner, this`user, this`page, km
      ensures Valid() && km.managed == old(km.managed)
      ensures newsz > USERPAGES * PGSIZE ==> r == 0
      ensures newsz <= USERPAGES * PGSIZE && newsz < oldsz ==> r == oldsz
      ensures newsz <= USERPAGES * PGSIZE && newsz >= oldsz ==> r == newsz || r == 0
      ensures newsz >= oldsz && r == newsz ==>
        forall k :: k in user <==> k in old(user) || (k.dir == d && oldsz <= k.vpn * PGSIZE < newsz)
      ensures newsz >= oldsz && r == newsz ==> forall k :: k in user ==>
        if k in old(user) then View(State())[k] == View(old(State()))[k]
        else View(State())[k] == seq(PGSIZE, _ => 0)
      ensures (r == 0 && newsz > 0) || newsz < oldsz ==> user == old(user) && View(State()) == View(old(State()))
      ensures oldsz <= newsz <= USERPAGES * PGSIZE && newsz > 0 ==>
        var lo, n := PageUp(oldsz), PageUp(newsz) - PageUp(oldsz);
        r == newsz <==> n + |Spanned(lo, n) - Pdes(old(table), d)| <= |old(km.free)|
    {
      hide Owned, Flat, Accounted, Counted, SameAddress, Sealed, Used, Minus, View, GrewBy, Others, SameContents,
        Pdes, Spanned, km.Valid;
      if newsz > USERPAGES * PGSIZE {
        return 0;
      }
      if newsz < oldsz {
        return oldsz;
      }
      ghost var m := State();
      var ok;
      ghost var n, a;
      ok, n, a := GrowPages(d, oldsz, newsz);
      if !ok {
        r := DeallocUvm(d, newsz, oldsz);
        GaveBack(m, n, State(), d, PageUp(oldsz), a);
        return 0;
      }
      GrewMeans(m, State(), d, oldsz, newsz);
      r := newsz;
    }
  }
}
