/** Copy-on-write sharing of user pages (xv6/vm.c, xv6/kalloc.c) as a machine whose steps
    are the page-sized actions of fork, page faults, stores, growth and teardown. */
module Cow {
  import opened Collections

  type Page = seq<int>

  /** A present user entry: frame number and the W and U bits. */
  datatype Entry = Entry(frame: nat, writable: bool, user: bool)

  /** A page of an address space, named by its page directory. */
  datatype Key = Key(dir: nat, vpn: nat)

  /** user: all present user entries; page: contents of user frames; count: pc_sh. */
  datatype Mem = Mem(user: map<Key, Entry>, page: map<nat, Page>, count: map<nat, nat>)

  datatype Step =
    | Share(parent: nat, child: nat, vpn: nat)         // copyuvm, one page
    | Unprotect(dir: nat, vpn: nat)                    // page fault on the last reference
    | CopyPage(dir: nat, vpn: nat, frame: nat)         // page fault on a shared page
    | Store(dir: nat, vpn: nat, data: Page)            // a store that does not fault
    | Drop(dir: nat, vpn: nat)                         // deallocuvm, one page
    | Grow(dir: nat, vpn: nat, frame: nat, data: Page) // allocuvm or a loaded page

  ghost function Refs(user: map<Key, Entry>, f: nat): set<Key> {
    set k | k in user && user[k].frame == f
  }

  /** A frame kalloc may hand out: no user page refers to it and its count is 0. */
  predicate Fresh(m: Mem, f: nat) {
    f in m.count && m.count[f] == 0 && f !in m.page
  }

  predicate Enabled(m: Mem, s: Step) {
    match s
    case Share(p, c, v) => Key(p, v) in m.user && Key(c, v) !in m.user && p != c
    case Unprotect(d, v) =>
      Key(d, v) in m.user && !m.user[Key(d, v)].writable && m.user[Key(d, v)].frame in m.count
      && m.count[m.user[Key(d, v)].frame] == 1
    case CopyPage(d, v, g) =>
      Key(d, v) in m.user && !m.user[Key(d, v)].writable && m.user[Key(d, v)].frame in m.count
      && m.count[m.user[Key(d, v)].frame] > 1 && Fresh(m, g)
    case Store(d, v, data) => Key(d, v) in m.user && m.user[Key(d, v)].writable
    case Drop(d, v) => Key(d, v) in m.user
    case Grow(d, v, g, data) => Key(d, v) !in m.user && Fresh(m, g)
  }

  function Apply(m: Mem, s: Step): Mem
    requires Enabled(m, s) && Tracked(m)
  {
    match s
    case Share(p, c, v) =>
      var e := m.user[Key(p, v)].(writable := false);
      m.(user := m.user[Key(p, v) := e][Key(c, v) := e], count := m.count[e.frame := m.count[e.frame] + 1])
    case Unprotect(d, v) =>
      m.(user := m.user[Key(d, v) := m.user[Key(d, v)].(writable := true)])
    case CopyPage(d, v, g) =>
      var f := m.user[Key(d, v)].frame;
      Mem(m.user[Key(d, v) := Entry(g, true, true)], m.page[g := m.page[f]], m.count[g := 1][f := m.count[f] - 1])
    case Store(d, v, data) =>
      m.(page := m.page[m.user[Key(d, v)].frame := data])
    case Drop(d, v) =>
      var f := m.user[Key(d, v)].frame;
      Mem(m.user - {Key(d, v)}, if m.count[f] == 1 then m.page - {f} else m.page, m.count[f := m.count[f] - 1])
    case Grow(d, v, g, data) =>
      Mem(m.user[Key(d, v) := Entry(g, true, true)], m.page[g := data], m.count[g := 1])
  }

  /** Every entry refers to a frame with contents and a positive count. */
  predicate Tracked(m: Mem) {
    forall k :: k in m.user ==> m.user[k].frame in m.page && m.user[k].frame in m.count && m.count[m.user[k].frame] > 0
  }

  ghost predicate Counted(m: Mem) {
    forall f :: f in m.page ==> f in m.count && m.count[f] == |Refs(m.user, f)|
  }

  predicate Used(m: Mem) {
    forall f :: f in m.page ==> f in m.count && m.count[f] > 0
  }

  ghost predicate SameAddress(m: Mem) {
    forall j, k :: j in m.user && k in m.user && m.user[j].frame == m.user[k].frame ==> j.vpn == k.vpn
  }

  /** The invariant of copy-on-write: counts are reference counts, a writable page is not
      shared, and pages share a frame only at the same address. */
  ghost predicate Inv(m: Mem) {
    Tracked(m) && Used(m) && Counted(m) && SameAddress(m) && Sealed(m)
  }

  ghost predicate Sealed(m: Mem)
    requires Tracked(m)
  {
    forall k :: k in m.user && m.user[k].writable ==> m.count[m.user[k].frame] == 1
  }

  // ----- the eager machine: every process has its own copy of every page -----

  type Eager = map<Key, Page>

  ghost function View(m: Mem): Eager
    requires Tracked(m)
  {
    map k | k in m.user :: m.page[m.user[k].frame]
  }

  /** What a process reads at an address is the contents of the frame its entry names. */
  lemma ViewAt(m: Mem, d: nat, v: nat)
    requires Tracked(m)
    ensures Key(d, v) in View(m) <==> Key(d, v) in m.user
    ensures Key(d, v) in m.user ==> View(m)[Key(d, v)] == m.page[m.user[Key(d, v)].frame]
  {
  }

  /** The same step when fork copies; faults are invisible. */
  ghost function EagerStep(e: Eager, s: Step): Eager {
    match s
    case Share(p, c, v) => if Key(p, v) in e then e[Key(c, v) := e[Key(p, v)]] else e
    case Unprotect(_, _) => e
    case CopyPage(_, _, _) => e
    case Store(d, v, data) => e[Key(d, v) := data]
    case Drop(d, v) => e - {Key(d, v)}
    case Grow(d, v, _, data) => e[Key(d, v) := data]
  }

  // ----- reference sets under updates -----

  lemma RefsSet(user: map<Key, Entry>, k: Key, e: Entry, f: nat)
    ensures Refs(user[k := e], f) == if e.frame == f then Refs(user, f) + {k} else Refs(user, f) - {k}
  {
  }

  lemma RefsDrop(user: map<Key, Entry>, k: Key, f: nat)
    ensures Refs(user - {k}, f) == Refs(user, f) - {k}
  {
  }

  /** With one reference left, no other key uses the frame. */
  lemma SoleRef(m: Mem, k: Key, j: Key)
    requires Inv(m) && k in m.user && j in m.user && m.count[m.user[k].frame] == 1
    ensures m.user[j].frame == m.user[k].frame ==> j == k
  {
    var f := m.user[k].frame;
    if m.user[j].frame == f && j != k {
      assert {j, k} <= Refs(m.user, f);
      SubsetSize({j, k}, Refs(m.user, f));
    }
  }

  // ----- each step keeps the invariant -----

  lemma CountedShare(m: Mem, p: nat, c: nat, v: nat, n: Mem)
    requires Tracked(m) && Counted(m) && Enabled(m, Share(p, c, v)) && n == Apply(m, Share(p, c, v))
    ensures Counted(n)
  {
    var e := m.user[Key(p, v)].(writable := false);
    var u := m.user[Key(p, v) := e];
    forall f | f in n.page ensures f in n.count && n.count[f] == |Refs(n.user, f)| {
      RefsSet(m.user, Key(p, v), e, f);
      RefsSet(u, Key(c, v), e, f);
    }
  }

  lemma InvShare(m: Mem, p: nat, c: nat, v: nat, n: Mem)
    requires Inv(m) && Enabled(m, Share(p, c, v)) && n == Apply(m, Share(p, c, v))
    ensures Inv(n)
  {
    hide Counted, Refs;
    CountedShare(m, p, c, v, n);
    forall k | k in n.user && n.user[k].writable ensures n.count[n.user[k].frame] == 1 {
      SoleRef(m, k, Key(p, v));
    }
  }

  lemma InvUnprotect(m: Mem, d: nat, v: nat, n: Mem)
    requires Inv(m) && Enabled(m, Unprotect(d, v)) && n == Apply(m, Unprotect(d, v))
    ensures Inv(n)
  {
    forall f | f in n.page ensures n.count[f] == |Refs(n.user, f)| {
      RefsSet(m.user, Key(d, v), n.user[Key(d, v)], f);
      assert Refs(n.user, f) == Refs(m.user, f);
    }
  }

  lemma RefsFresh(m: Mem, k: Key, g: nat)
    requires Tracked(m) && g !in m.page
    ensures Refs(m.user[k := Entry(g, true, true)], g) == {k}
  {
  }

  lemma CountedFresh(m: Mem, k: Key, g: nat, n: Mem)
    requires Tracked(m) && Counted(m) && Fresh(m, g) && g in n.count && n.count[g] == 1
    requires n.user == m.user[k := Entry(g, true, true)] && n.page.Keys == m.page.Keys + {g}
    requires forall f :: f in m.page ==>
      f in n.count && n.count[f] == m.count[f] - if k in m.user && m.user[k].frame == f then 1 else 0
    ensures Counted(n)
  {
    RefsFresh(m, k, g);
    forall f | f in n.page && f != g ensures f in n.count && n.count[f] == |Refs(n.user, f)| {
      RefsSet(m.user, k, Entry(g, true, true), f);
      assert k in Refs(m.user, f) <==> k in m.user && m.user[k].frame == f;
    }
  }

  lemma InvCopyPage(m: Mem, d: nat, v: nat, g: nat, n: Mem)
    requires Inv(m) && Enabled(m, CopyPage(d, v, g)) && n == Apply(m, CopyPage(d, v, g))
    ensures Inv(n)
  {
    hide Counted, Refs;
    CountedFresh(m, Key(d, v), g, n);
  }

  lemma CountedDrop(m: Mem, d: nat, v: nat, n: Mem)
    requires Tracked(m) && Counted(m) && Enabled(m, Drop(d, v)) && n == Apply(m, Drop(d, v))
    ensures Counted(n)
  {
    forall f | f in n.page ensures f in n.count && n.count[f] == |Refs(n.user, f)| {
      RefsDrop(m.user, Key(d, v), f);
    }
  }

  lemma InvDrop(m: Mem, d: nat, v: nat, n: Mem)
    requires Inv(m) && Enabled(m, Drop(d, v)) && n == Apply(m, Drop(d, v))
    ensures Inv(n)
  {
    hide Counted, Refs;
    CountedDrop(m, d, v, n);
    forall k | k in n.user ensures n.user[k].frame in n.page && n.count[n.user[k].frame] > 0
      && (n.user[k].writable ==> n.count[n.user[k].frame] == 1)
    {
      if m.count[m.user[Key(d, v)].frame] == 1 {
        SoleRef(m, Key(d, v), k);
      } else if n.user[k].writable {
        SoleRef(m, k, Key(d, v));
      }
    }
  }

  lemma InvGrow(m: Mem, d: nat, v: nat, g: nat, data: Page, n: Mem)
    requires Inv(m) && Enabled(m, Grow(d, v, g, data)) && n == Apply(m, Grow(d, v, g, data))
    ensures Inv(n)
  {
    hide Counted, Refs;
    CountedFresh(m, Key(d, v), g, n);
  }

  /** Every step keeps the invariant. */
  lemma InvStep(m: Mem, s: Step, n: Mem)
    requires Inv(m) && Enabled(m, s) && n == Apply(m, s)
    ensures Inv(n)
  {
    match s
    case Share(p, c, v) => InvShare(m, p, c, v, n);
    case Unprotect(d, v) => InvUnprotect(m, d, v, n);
    case CopyPage(d, v, g) => InvCopyPage(m, d, v, g, n);
    case Store(d, v, data) =>
    case Drop(d, v) => InvDrop(m, d, v, n);
    case Grow(d, v, g, data) => InvGrow(m, d, v, g, data, n);
  }

  lemma ViewStore(m: Mem, d: nat, v: nat, data: Page, n: Mem)
    requires Inv(m) && Enabled(m, Store(d, v, data)) && n == Apply(m, Store(d, v, data))
    ensures Tracked(n) && View(n) == View(m)[Key(d, v) := data]
  {
    forall k | k in m.user ensures View(n)[k] == View(m)[Key(d, v) := data][k] {
      SoleRef(m, Key(d, v), k);
    }
  }

  lemma ViewDrop(m: Mem, d: nat, v: nat, n: Mem)
    requires Inv(m) && Inv(n) && Enabled(m, Drop(d, v)) && n == Apply(m, Drop(d, v))
    ensures View(n) == View(m) - {Key(d, v)}
  {
    assert View(n).Keys == View(m).Keys - {Key(d, v)};
  }

  lemma ViewShare(m: Mem, p: nat, c: nat, v: nat, n: Mem)
    requires Inv(m) && Inv(n) && Enabled(m, Share(p, c, v)) && n == Apply(m, Share(p, c, v))
    ensures View(n) == View(m)[Key(c, v) := View(m)[Key(p, v)]]
  {
  }

  lemma ViewCopyPage(m: Mem, d: nat, v: nat, g: nat, n: Mem)
    requires Inv(m) && Inv(n) && Enabled(m, CopyPage(d, v, g)) && n == Apply(m, CopyPage(d, v, g))
    ensures View(n) == View(m)
  {
  }

  lemma ViewGrow(m: Mem, d: nat, v: nat, g: nat, data: Page, n: Mem)
    requires Inv(m) && Inv(n) && Enabled(m, Grow(d, v, g, data)) && n == Apply(m, Grow(d, v, g, data))
    ensures View(n) == View(m)[Key(d, v) := data]
  {
  }

  /** Each step does to the contents seen by every process what the eager machine does. */
  lemma StepRefines(m: Mem, s: Step, n: Mem)
    requires Inv(m) && Enabled(m, s) && n == Apply(m, s)
    ensures Inv(n) && View(n) == EagerStep(View(m), s)
  {
    InvStep(m, s, n);
    match s
    case Share(p, c, v) => ViewShare(m, p, c, v, n);
    case Unprotect(d, v) => assert View(n) == View(m);
    case CopyPage(d, v, g) => ViewCopyPage(m, d, v, g, n);
    case Store(d, v, data) => ViewStore(m, d, v, data, n);
    case Drop(d, v) => ViewDrop(m, d, v, n);
    case Grow(d, v, g, data) => ViewGrow(m, d, v, g, data, n);
  }

  // ----- whole runs -----

  ghost predicate IsRun(run: seq<Mem>, steps: seq<Step>) {
    && |run| == |steps| + 1
    && forall i :: 0 <= i < |steps| ==>
      Tracked(run[i]) && Enabled(run[i], steps[i]) && run[i + 1] == Apply(run[i], steps[i])
  }

  ghost function EagerRun(e: Eager, steps: seq<Step>): Eager
  {
    if |steps| == 0 then e else EagerStep(EagerRun(e, steps[..|steps| - 1]), steps[|steps| - 1])
  }

  /** Copy-on-write refines eager copying over every interleaving: after any run, each
      process reads exactly what it would have read had fork copied every page. */
  lemma {:induction false} CowRefinesEager(run: seq<Mem>, steps: seq<Step>)
    requires IsRun(run, steps) && Inv(run[0])
    ensures Inv(run[|steps|])
    ensures View(run[|steps|]) == EagerRun(View(run[0]), steps)
    decreases |steps|
  {
    if |steps| == 0 {
    } else {
      var n := |steps| - 1;
      CowRefinesEager(run[..n + 1], steps[..n]);
      StepRefines(run[n], steps[n], run[n + 1]);
    }
  }

  /** Share counts never exceed the number of address spaces, so the 16-bit counter of
      kalloc.c cannot wrap while fewer than 65536 exist. */
  lemma CountBound(m: Mem, f: nat, dirs: set<nat>)
    requires Inv(m) && f in m.page && forall k :: k in m.user ==> k.dir in dirs
    ensures m.count[f] <= |dirs|
  {
    DirsOfRefs(Refs(m.user, f));
    SubsetSize(set k | k in Refs(m.user, f) :: k.dir, dirs);
  }

  lemma {:induction false} DirsOfRefs(r: set<Key>)
    requires forall j, k :: j in r && k in r ==> j.vpn == k.vpn
    ensures |set k | k in r :: k.dir| == |r|
    decreases r
  {
    if r == {} {
    } else {
      var k :| k in r;
      DirsOfRefs(r - {k});
      assert (set j | j in r :: j.dir) == (set j | j in r - {k} :: j.dir) + {k.dir};
    }
  }

  /** The invariant looks at the counts of user frames only. */
  lemma CountElsewhere(m: Mem, c: map<nat, nat>)
    requires Inv(m) && forall f :: f in m.page ==> f in c && c[f] == m.count[f]
    ensures Inv(m.(count := c))
  {
  }

  // ----- a whole fork -----

  /** Pages 1 .. i-1 and s .. j-1: what copyuvm has visited of the low part and the stack. */
  predicate Visited(v: nat, i: nat, s: nat, j: nat) {
    1 <= v < i || s <= v < j
  }

  /** Parent p and child c after copyuvm has visited those pages. */
  ghost function Forked(user: map<Key, Entry>, p: nat, c: nat, i: nat, s: nat, j: nat): map<Key, Entry> {
    map k | k in user.Keys + Kids(user, p, c, i, s, j) ::
      if k.dir == c then (if Key(p, k.vpn) in user then user[Key(p, k.vpn)].(writable := false) else Entry(0, false, false))
      else if k.dir == p && Visited(k.vpn, i, s, j) then user[k].(writable := false)
      else user[k]
  }

  ghost function Kids(user: map<Key, Entry>, p: nat, c: nat, i: nat, s: nat, j: nat): set<Key> {
    set k | k in user && k.dir == p && Visited(k.vpn, i, s, j) :: Key(c, k.vpn)
  }

  ghost predicate Unborn(user: map<Key, Entry>, c: nat) {
    forall k :: k in user ==> k.dir != c
  }

  lemma ForkedNone(user: map<Key, Entry>, p: nat, c: nat, s: nat)
    requires Unborn(user, c)
    ensures Forked(user, p, c, 1, s, s) == user
  {
    assert Kids(user, p, c, 1, s, s) == {};
  }

  /** One more visited page is one more shared page, if the parent has it. */
  lemma ForkedNext(user: map<Key, Entry>, p: nat, c: nat, i: nat, s: nat, j: nat, v: nat, i': nat, j': nat)
    requires Unborn(user, c) && p != c && 1 <= i <= s <= j
    requires (i' == i + 1 && j' == j == s && v == i && i < s) || (i' == i && j' == j + 1 && v == j)
    ensures Key(p, v) in user ==> (
      && Key(p, v) in Forked(user, p, c, i, s, j) && Key(c, v) !in Forked(user, p, c, i, s, j)
      && Forked(user, p, c, i, s, j)[Key(p, v)].frame == user[Key(p, v)].frame)
    ensures Forked(user, p, c, i', s, j') ==
      if Key(p, v) in user then
        var e := Forked(user, p, c, i, s, j)[Key(p, v)].(writable := false);
        Forked(user, p, c, i, s, j)[Key(p, v) := e][Key(c, v) := e]
      else Forked(user, p, c, i, s, j)
  {
    var a, b := Kids(user, p, c, i, s, j), Kids(user, p, c, i', s, j');
    assert forall w: nat :: Visited(w, i', s, j') <==> Visited(w, i, s, j) || w == v;
    if Key(p, v) in user {
      assert b == a + {Key(c, v)};
    } else {
      assert b == a;
    }
  }

  /** Fork by copying: the child's pages are copies of the parent's. */
  ghost function EagerFork(e: Eager, p: nat, c: nat, kids: set<Key>): Eager {
    map k | k in e.Keys + kids :: if k in kids && Key(p, k.vpn) in e then e[Key(p, k.vpn)] else if k in e then e[k] else []
  }

  lemma ForkedFrame(user: map<Key, Entry>, p: nat, c: nat, i: nat, s: nat, j: nat, k: Key)
    requires Unborn(user, c) && p != c && k in Forked(user, p, c, i, s, j)
    ensures k in Kids(user, p, c, i, s, j) <==> k.dir == c
    ensures k.dir == c ==> Key(p, k.vpn) in user && Forked(user, p, c, i, s, j)[k].frame == user[Key(p, k.vpn)].frame
    ensures k.dir != c ==> k in user && Forked(user, p, c, i, s, j)[k].frame == user[k].frame
  {
  }

  lemma ForkedViewAt(m: Mem, p: nat, c: nat, i: nat, s: nat, j: nat, n: Mem, k: Key)
    requires Tracked(m) && Unborn(m.user, c) && p != c && Tracked(n) && n.page == m.page
    requires n.user == Forked(m.user, p, c, i, s, j) && k in n.user
    ensures k in EagerFork(View(m), p, c, Kids(m.user, p, c, i, s, j))
    ensures View(n)[k] == EagerFork(View(m), p, c, Kids(m.user, p, c, i, s, j))[k]
  {
    ForkedFrame(m.user, p, c, i, s, j, k);
  }

  /** After fork the child sees its own copy of every visited page, and no one else sees
      any difference. */
  lemma ForkedView(m: Mem, p: nat, c: nat, i: nat, s: nat, j: nat, n: Mem)
    requires Inv(m) && Unborn(m.user, c) && p != c && Inv(n) && n.page == m.page
    requires n.user == Forked(m.user, p, c, i, s, j)
    ensures View(n) == EagerFork(View(m), p, c, Kids(m.user, p, c, i, s, j))
  {
    hide Counted, SameAddress, Sealed, Used;
    var e := EagerFork(View(m), p, c, Kids(m.user, p, c, i, s, j));
    assert View(n).Keys == e.Keys;
    forall k | k in View(n) ensures k in e && View(n)[k] == e[k] {
      ForkedViewAt(m, p, c, i, s, j, n, k);
    }
  }

  lemma ChildHas(user: map<Key, Entry>, p: nat, c: nat, i: nat, s: nat, j: nat, v: nat)
    requires Unborn(user, c) && p != c
    ensures Key(c, v) in Forked(user, p, c, i, s, j) <==> Key(p, v) in user && Visited(v, i, s, j)
  {
    var kids := Kids(user, p, c, i, s, j);
    assert Key(c, v) in Forked(user, p, c, i, s, j) <==> Key(c, v) in kids;
    if Key(p, v) in user && Visited(v, i, s, j) {
      assert Key(c, Key(p, v).vpn) in kids;
    }
  }

  /** Directory c reads at every address what directory p reads there in e. */
  ghost predicate SameReads(e: Eager, p: nat, e': Eager, c: nat) {
    forall v :: Key(p, v) in e ==> Key(c, v) in e' && e'[Key(c, v)] == e[Key(p, v)]
  }

  /** The child of a fork reads everything its parent reads exactly when the parent has no page
      that copyuvm does not visit. */
  lemma ForkCoversAll(m: Mem, p: nat, c: nat, i: nat, s: nat, j: nat, n: Mem)
    requires Inv(m) && Unborn(m.user, c) && p != c && Inv(n) && n.page == m.page
    requires n.user == Forked(m.user, p, c, i, s, j)
    ensures SameReads(View(m), p, View(n), c) <==> forall v :: Key(p, v) in m.user ==> Visited(v, i, s, j)
  {
    hide Counted, SameAddress, Sealed, Used, Forked, Kids, Visited;
    forall v: nat ensures Key(c, v) in View(n) <==> Key(p, v) in m.user && Visited(v, i, s, j)
      ensures Key(c, v) in View(n) ==> View(n)[Key(c, v)] == View(m)[Key(p, v)]
    {
      ChildHas(m.user, p, c, i, s, j, v);
      if Key(c, v) in View(n) {
        ForkedFrame(m.user, p, c, i, s, j, Key(c, v));
      }
    }
  }

  /** A process that inituvm gave its page, which is page 0, is such a parent: its child lacks it. */
  lemma FirstPageIsNotInherited(m: Mem, p: nat, g: nat, data: Page, c: nat, i: nat, s: nat, j: nat, n: Mem)
    requires Inv(m) && Enabled(m, Grow(p, 0, g, data)) && Unborn(m.user, c) && p != c && s > 0
    requires var m' := Apply(m, Grow(p, 0, g, data));
      Inv(n) && n.page == m'.page && n.user == Forked(m'.user, p, c, i, s, j)
    ensures var m' := Apply(m, Grow(p, 0, g, data));
      Inv(m') && !SameReads(View(m'), p, View(n), c) && Key(c, 0) !in View(n)
  {
    hide Counted, SameAddress, Sealed, Used, Forked;
    var m' := Apply(m, Grow(p, 0, g, data));
    InvStep(m, Grow(p, 0, g, data), m');
    assert Key(p, 0) in m'.user && Unborn(m'.user, c);
    ChildHas(m'.user, p, c, i, s, j, 0);
    ForkCoversAll(m', p, c, i, s, j, n);
  }

  // ----- releasing a range of pages -----

  ghost function Minus(user: map<Key, Entry>, d: nat, lo: nat, hi: nat): map<Key, Entry> {
    map k | k in user && !(k.dir == d && lo <= k.vpn < hi) :: user[k]
  }

  /** n sees the same contents as m on every page it still has. */
  ghost predicate SameContents(m: Mem, n: Mem) {
    Tracked(m) && Tracked(n) && forall k :: k in n.user ==> k in m.user && n.page[n.user[k].frame] == m.page[m.user[k].frame]
  }

  lemma DropKeeps(m: Mem, d: nat, v: nat, n: Mem)
    requires Inv(m) && Enabled(m, Drop(d, v)) && n == Apply(m, Drop(d, v))
    ensures Inv(n) && SameContents(m, n)
  {
    InvDrop(m, d, v, n);
    ViewDrop(m, d, v, n);
    assert forall k :: k in n.user ==> View(n)[k] == View(m)[k];
  }

  lemma SameContentsSelf(m: Mem)
    requires Inv(m)
    ensures SameContents(m, m)
  {
  }

  lemma SameContentsTrans(l: Mem, m: Mem, n: Mem)
    requires SameContents(l, m) && SameContents(m, n)
    ensures SameContents(l, n)
  {
  }

  lemma MinusNext(user: map<Key, Entry>, d: nat, lo: nat, a: nat)
    requires lo <= a
    ensures Minus(user, d, lo, a + 1) == Minus(user, d, lo, a) - {Key(d, a)}
  {
    assert Minus(user, d, lo, a + 1).Keys == (Minus(user, d, lo, a) - {Key(d, a)}).Keys;
  }

  lemma MinusNone(user: map<Key, Entry>, d: nat, lo: nat, a: nat, b: nat)
    requires lo <= a <= b && forall v :: a <= v < b ==> Key(d, v) !in user
    ensures Minus(user, d, lo, b) == Minus(user, d, lo, a)
  {
    assert Minus(user, d, lo, b).Keys == Minus(user, d, lo, a).Keys by {
      forall k | k in Minus(user, d, lo, a) ensures k in Minus(user, d, lo, b) {
        assert k.dir == d ==> k == Key(d, k.vpn);
      }
    }
  }

  lemma MinusUnborn(user: map<Key, Entry>, d: nat, lo: nat, hi: nat)
    requires Unborn(user, d)
    ensures Minus(user, d, lo, hi) == user
  {
  }

  /** The pages and counts of user frames follow from the entries. */
  lemma Restored(m: Mem, n: Mem)
    requires Inv(m) && Inv(n) && SameContents(m, n) && n.user.Keys == m.user.Keys
    requires forall k :: k in m.user ==> n.user[k].frame == m.user[k].frame
    ensures n.page == m.page && forall f :: f in m.page ==> n.count[f] == m.count[f]
  {
    forall f: nat ensures Refs(m.user, f) == Refs(n.user, f) {
    }
    forall f: nat | f in m.page ensures f in n.page && n.page[f] == m.page[f] {
      SomeRef(m, f);
    }
    forall f | f in n.page ensures f in m.page {
      SomeRef(n, f);
    }
  }

  /** u has the pages of u0; the only difference is write protection. */
  ghost predicate OnlyProtected(u0: map<Key, Entry>, u: map<Key, Entry>) {
    u.Keys == u0.Keys && forall k :: k in u0 ==> u[k] == u0[k] || u[k] == u0[k].(writable := false)
  }

  /** A fork given up at page v: with the child's pages released again, write protection is
      the only trace. */
  lemma ForkFailed(u0: map<Key, Entry>, p: nat, c: nat, i: nat, s: nat, j: nat, v: nat, u: map<Key, Entry>, hi: nat)
    requires Unborn(u0, c) && p != c && Key(p, v) in u0 && Key(p, v) in Forked(u0, p, c, i, s, j)
    requires u == Forked(u0, p, c, i, s, j)[Key(p, v) := Forked(u0, p, c, i, s, j)[Key(p, v)].(writable := false)]
    requires forall k :: k in u0 ==> k.vpn < hi
    ensures OnlyProtected(u0, Minus(u, c, 0, hi))
    ensures forall k :: k in u0 ==> k in u && u[k].frame == u0[k].frame
  {
    assert Minus(u, c, 0, hi).Keys == u0.Keys;
  }

  lemma ProtectNone(u: map<Key, Entry>)
    ensures OnlyProtected(u, u)
  {
  }

  /** A parent's pages are the same before and during a fork. */
  lemma ForkedHas(u0: map<Key, Entry>, p: nat, c: nat, i: nat, s: nat, j: nat, v: nat)
    requires Unborn(u0, c) && p != c
    ensures Key(p, v) in Forked(u0, p, c, i, s, j) <==> Key(p, v) in u0
  {
  }

  /** Releasing what an abandoned operation added restores pages and counts. */
  lemma Undone(m: Mem, mid: Mem, n: Mem)
    requires Inv(m) && Inv(n) && mid.page == m.page && SameContents(mid, n) && OnlyProtected(m.user, n.user)
    requires forall k :: k in m.user ==> k in mid.user && mid.user[k].frame == m.user[k].frame
    ensures n.page == m.page && forall f :: f in m.page ==> n.count[f] == m.count[f]
  {
    Restored(m, n);
  }

  /** Write protection alone keeps the invariant. */
  lemma InvProtect(m: Mem, k: Key, n: Mem)
    requires Inv(m) && k in m.user && n == m.(user := m.user[k := m.user[k].(writable := false)])
    ensures Inv(n)
  {
    forall f | f in n.page ensures n.count[f] == |Refs(n.user, f)| {
      RefsSet(m.user, k, n.user[k], f);
      assert Refs(n.user, f) == Refs(m.user, f);
    }
  }

  lemma SomeRef(m: Mem, f: nat)
    requires Inv(m) && f in m.page
    ensures exists k :: k in m.user && m.user[k].frame == f
  {
    assert Refs(m.user, f) != {};
    var k :| k in Refs(m.user, f);
  }

  ghost predicate MapsFrame(user: map<Key, Entry>, d: nat, f: nat) {
    exists k :: k in user && k.dir == d && user[k].frame == f
  }

  lemma RefsMinus(m: Mem, d: nat, hi: nat, f: nat)
    requires SameAddress(m) && forall k :: k in m.user && k.dir == d ==> k.vpn < hi
    ensures |Refs(Minus(m.user, d, 0, hi), f)| == |Refs(m.user, f)| - if MapsFrame(m.user, d, f) then 1 else 0
  {
    var gone := set k | k in Refs(m.user, f) && k.dir == d;
    assert Refs(Minus(m.user, d, 0, hi), f) == Refs(m.user, f) - gone;
    if MapsFrame(m.user, d, f) {
      var k :| k in m.user && k.dir == d && m.user[k].frame == f;
      forall j | j in gone ensures j == k {
        assert j.vpn == k.vpn;
      }
      assert gone == {k};
    } else {
      assert gone == {};
    }
  }

  /** Teardown lowers the count of every frame the address space maps by exactly one and
      no other count; a frame that loses its page had count 1. */
  lemma TeardownCounts(m: Mem, d: nat, hi: nat, n: Mem, f: nat)
    requires Inv(m) && Inv(n) && (forall k :: k in m.user && k.dir == d ==> k.vpn < hi)
    requires n.user == Minus(m.user, d, 0, hi)
    requires f in m.page
    ensures (if f in n.page then n.count[f] else 0) == m.count[f] - if MapsFrame(m.user, d, f) then 1 else 0
  {
    hide Minus, SameAddress, MapsFrame;
    RefsMinus(m, d, hi, f);
    if f !in n.page {
      assert Refs(n.user, f) == {};
    }
  }

  /** Overwriting the frame of page k, as swap-in does with its victim, is invisible to every
      other page exactly when the frame is not shared (or the contents do not change). */
  lemma OverwriteIsPrivate(m: Mem, k: Key, data: Page, n: Mem)
    requires Inv(m) && k in m.user && n == m.(page := m.page[m.user[k].frame := data])
    requires data != m.page[m.user[k].frame]
    ensures (forall j :: j in m.user && j != k ==> n.page[n.user[j].frame] == m.page[m.user[j].frame])
      <==> m.count[m.user[k].frame] == 1
  {
    var f := m.user[k].frame;
    if m.count[f] == 1 {
      forall j | j in m.user && j != k ensures n.page[n.user[j].frame] == m.page[m.user[j].frame] {
        SoleRef(m, k, j);
      }
    } else {
      assert k in Refs(m.user, f) && |Refs(m.user, f) - {k}| > 0;
      var j :| j in Refs(m.user, f) - {k};
      assert j in m.user && j != k && n.page[n.user[j].frame] == data;
    }
  }
}
