/** The free list and the tiling of memory behind the user-level allocator (xv6/umalloc.c).
    Addresses count header-sized units. */
module HeapList {

  // ----- a circular list in address order -----

  ghost predicate Ascending(l: seq<nat>) {
    forall i, j :: 0 <= i < j < |l| ==> l[i] < l[j]
  }

  function Inc(i: nat, n: nat): nat {
    if i + 1 < n then i + 1 else 0
  }

  /** How many steps lead from position i to position k of a circle of n. */
  function Dist(i: nat, k: nat, n: nat): nat
    requires i < n && k < n
  {
    if i <= k then k - i else k + n - i
  }

  ghost predicate Circle(ptr: map<nat, nat>, l: seq<nat>) {
    && |l| > 0 && Ascending(l) && (forall i :: 0 <= i < |l| ==> l[i] in ptr)
    && Links(ptr, l)
  }

  ghost predicate Links(ptr: map<nat, nat>, l: seq<nat>)
    requires forall i :: 0 <= i < |l| ==> l[i] in ptr
  {
    forall i, j :: 0 <= i < |l| && 0 <= j < |l| && j == Inc(i, |l|) ==> ptr[l[i]] == l[j]
  }

  lemma Step(ptr: map<nat, nat>, l: seq<nat>, i: nat)
    requires Circle(ptr, l) && i < |l|
    ensures ptr[l[i]] == l[Inc(i, |l|)]
  {
    var j := Inc(i, |l|);
    assert l[j] == ptr[l[i]];
  }

  function With(l: seq<nat>, j: nat, b: nat): seq<nat>
    requires j < |l|
  {
    l[..j + 1] + [b] + l[j + 1..]
  }

  function Without(l: seq<nat>, j: nat): seq<nat>
    requires j + 1 < |l|
  {
    l[..j + 1] + l[j + 2..]
  }

  lemma AscendingWith(l: seq<nat>, j: nat, b: nat)
    requires Ascending(l) && j < |l| && l[j] < b && (j + 1 < |l| ==> b < l[j + 1])
    ensures Ascending(With(l, j, b))
  {
    var m := With(l, j, b);
    forall i, k | 0 <= i < k < |m| ensures m[i] < m[k] {
      if k == j + 1 {
        assert l[i] <= l[j];
      } else if i == j + 1 {
        assert l[j + 1] <= l[k - 1];
      }
    }
  }

  /** b goes into the circle after position j. */
  lemma CircleInsert(ptr: map<nat, nat>, l: seq<nat>, j: nat, b: nat)
    requires Circle(ptr, l) && j < |l| && l[j] < b && (j + 1 < |l| ==> b < l[j + 1])
    ensures Circle(ptr[b := ptr[l[j]]][l[j] := b], With(l, j, b))
  {
    var m, ptr' := With(l, j, b), ptr[b := ptr[l[j]]][l[j] := b];
    AscendingWith(l, j, b);
    forall i, k | 0 <= i < |m| && 0 <= k < |m| && k == Inc(i, |m|) ensures m[i] in ptr' && ptr'[m[i]] == m[k] {
      if i < j {
        Step(ptr, l, i);
      } else if i == j + 1 {
        Step(ptr, l, j);
      } else if i > j + 1 {
        Step(ptr, l, i - 1);
        assert m[i] > m[j + 1];
      }
    }
  }

  /** The element after position j leaves the circle. */
  lemma CircleRemove(ptr: map<nat, nat>, l: seq<nat>, j: nat)
    requires Circle(ptr, l) && j + 1 < |l|
    ensures ptr[l[j]] == l[j + 1] && Circle(ptr[l[j] := ptr[l[j + 1]]], Without(l, j))
  {
    Step(ptr, l, j);
    var m, ptr' := Without(l, j), ptr[l[j] := ptr[l[j + 1]]];
    forall i, k | 0 <= i < |m| && 0 <= k < |m| && k == Inc(i, |m|) ensures m[i] in ptr' && ptr'[m[i]] == m[k] {
      if i < j {
        Step(ptr, l, i);
      } else {
        Step(ptr, l, i + 1);
      }
    }
  }

  // ----- blocks tile the memory obtained -----

  ghost predicate Owns(all: map<nat, nat>, a: nat, u: nat) {
    a in all && a <= u < a + all[a]
  }

  /** Every unit obtained lies in exactly one block; at says in which. */
  ghost predicate Tiled(all: map<nat, nat>, at: map<nat, nat>) {
    && (forall u :: u in at ==> Owns(all, at[u], u))
    && (forall a, u :: Owns(all, a, u) ==> u in at && at[u] == a)
    && (forall a :: a in all ==> all[a] > 0)
  }

  /** Two blocks never overlap. */
  lemma Apart(all: map<nat, nat>, at: map<nat, nat>, a: nat, b: nat)
    requires Tiled(all, at) && a in all && b in all && a < b
    ensures a + all[a] <= b
  {
    assert Owns(all, b, b);
    if b < a + all[a] {
      assert Owns(all, a, b);
      assert false;
    }
  }

  ghost function Remap(at: map<nat, nat>, lo: nat, hi: nat, a: nat): map<nat, nat> {
    map u | u in at :: if lo <= u < hi then a else at[u]
  }

  /** Two neighbours become one block. */
  lemma TiledMerge(all: map<nat, nat>, at: map<nat, nat>, a: nat, b: nat, all': map<nat, nat>)
    requires Tiled(all, at) && a in all && b == a + all[a] && b in all && all' == (all - {b})[a := all[a] + all[b]]
    ensures Tiled(all', Remap(at, b, b + all[b], a))
  {
    var at' := Remap(at, b, b + all[b], a);
    forall u | u in at' ensures Owns(all', at'[u], u) {
      assert Owns(all, at[u], u);
      if b <= u < b + all[b] {
        assert Owns(all, b, u);
      }
    }
    forall x: nat, u: nat | Owns(all', x, u) ensures u in at' && at'[u] == x {
      if x != a || u < b {
        assert Owns(all, x, u);
      } else {
        assert Owns(all, b, u);
      }
      if b <= u < b + all[b] {
        assert Owns(all, b, u);
      }
    }
  }

  /** A block is cut in two; the upper part has n units. */
  lemma TiledSplit(all: map<nat, nat>, at: map<nat, nat>, a: nat, n: nat, b: nat, all': map<nat, nat>)
    requires Tiled(all, at) && a in all && 0 < n < all[a] && b == a + all[a] - n && all' == all[a := all[a] - n][b := n]
    ensures b !in all && Tiled(all', Remap(at, b, b + n, b))
  {
    assert Owns(all, a, b);
    assert b in all ==> Owns(all, b, b);
    var at' := Remap(at, b, b + n, b);
    forall u | u in at' ensures Owns(all', at'[u], u) {
      assert Owns(all, at[u], u);
    }
    forall x: nat, u: nat | Owns(all', x, u) ensures u in at' && at'[u] == x {
      if x == b {
        assert Owns(all, a, u);
      } else {
        assert Owns(all, x, u);
        if b <= u < b + n {
          assert Owns(all, a, u);
        }
      }
    }
  }

  /** The units from b up, n of them, in a new block. */
  ghost function Granted(at: map<nat, nat>, b: nat, n: nat): map<nat, nat> {
    map u | u in at.Keys + Units(b, n) :: if u in at then at[u] else b
  }

  ghost function Units(b: nat, n: nat): set<nat> {
    if n == 0 then {} else Units(b, n - 1) + {b + n - 1}
  }

  lemma {:induction false} UnitsRange(b: nat, n: nat)
    ensures forall u :: u in Units(b, n) <==> b <= u < b + n
    decreases n
  {
    if n == 0 {
    } else {
      UnitsRange(b, n - 1);
    }
  }

  lemma TiledGrant(all: map<nat, nat>, at: map<nat, nat>, b: nat, n: nat)
    requires Tiled(all, at) && n > 0 && forall u :: b <= u < b + n ==> u !in at
    ensures b !in all && Tiled(all[b := n], Granted(at, b, n))
  {
    UnitsRange(b, n);
    assert b in all ==> Owns(all, b, b);
    var all', at' := all[b := n], Granted(at, b, n);
    forall u | u in at' ensures Owns(all', at'[u], u) {
      if u in at {
        assert Owns(all, at[u], u);
      }
    }
    forall x: nat, u: nat | Owns(all', x, u) ensures u in at' && at'[u] == x {
      if x != b {
        assert Owns(all, x, u);
      }
    }
  }
}
