/** The physical page allocator (xv6/kalloc.c).  A page is named by its frame number;
    0 is the null pointer, which is never handed to the allocator. */
module Kalloc {
  import opened Collections

  const USHORT := 0x1_0000

  /** Following the links stored in the free pages from head visits `s` and stops. */
  ghost predicate Chain(head: nat, next: map<nat, nat>, s: seq<nat>) {
    && (if |s| == 0 then head == 0 else head == s[0])
    && (forall i :: 0 <= i < |s| ==> s[i] in next && s[i] != 0)
    && (forall i, j :: 0 <= i && j == i + 1 && j < |s| ==> next[s[i]] == s[j])
    && (|s| > 0 ==> next[s[|s| - 1]] == 0)
  }

  lemma ChainPush(head: nat, next: map<nat, nat>, s: seq<nat>, v: nat)
    requires Chain(head, next, s) && Distinct(s) && v !in s && v != 0
    ensures Chain(v, next[v := head], [v] + s) && Distinct([v] + s)
  {
    var t, n := [v] + s, next[v := head];
    assert forall i :: 0 <= i < |s| ==> s[i] in s;
    forall i, j | 0 <= i && j == i + 1 && j < |t| ensures n[t[i]] == t[j] {
      if i > 0 {
        assert t[i] == s[i - 1] && t[j] == s[j - 1];
      }
    }
  }

  lemma ChainPop(head: nat, next: map<nat, nat>, s: seq<nat>)
    requires Chain(head, next, s) && |s| > 0
    ensures Chain(next[head], next, s[1..])
  {
    if |s| > 1 {
      assert next[s[0]] == s[1];
    }
    forall i, j | 0 <= i && j == i + 1 && j < |s[1..]| ensures next[s[1..][i]] == s[1..][j] {
      assert next[s[i + 1]] == s[j + 1];
    }
  }

  /** Exactly the managed frames with count 0 are free. */
  ghost predicate FreeAre(free: seq<nat>, managed: set<nat>, count: map<nat, nat>) {
    Distinct(free) && forall f :: f in free <==> f in managed && f in count && count[f] == 0
  }

  /** The number of free pages follows from the counts. */
  lemma FreeSize(free: seq<nat>, count: map<nat, nat>, free': seq<nat>, count': map<nat, nat>, managed: set<nat>)
    requires FreeAre(free, managed, count) && FreeAre(free', managed, count')
    requires forall f :: f in managed ==> f in count && f in count' && count'[f] == count[f]
    ensures |free'| == |free|
  {
    forall f: nat ensures f in free <==> f in free' {
    }
    SameSize(free, free');
  }

  class KMem {
    var freelist: nat
    var next: map<nat, nat>   // the link word inside each free page
    var fpgn: int
    var count: map<nat, nat>  // pc_sh, unsigned 16-bit

    ghost var free: seq<nat>
    ghost var managed: set<nat>

    /** The free list is acyclic and duplicate-free, fpgn is its length, and it holds
        exactly the managed frames whose share count is 0. */
    ghost predicate Valid()
      reads this
    {
      && Chain(freelist, next, free) && Distinct(free)
      && fpgn == |free|
      && (forall f :: f in managed ==> f in count && f != 0)
      && (forall f :: f in count ==> count[f] < USHORT)
      && (forall f :: f in free ==> f in managed)
      && (forall f :: f in managed ==> (count[f] == 0 <==> f in free))
    }

    lemma Frees()
      requires Valid()
      ensures FreeAre(free, managed, count)
    {
    }

    constructor (frames: set<nat>)
      ensures Valid() && free == [] && managed == {}
      ensures count == map f | f in frames :: 0
    {
      freelist, next, fpgn := 0, map[], 0;
      count := map f | f in frames :: 0;
      free, managed := [], {};
    }

    /** kfree: drops one reference and frees the page when none is left.  A page given to
        the allocator for the first time has count 0 and is not managed yet; freeing a
        page that is free already is the caller's error. */
    method Kfree(v: nat)
      requires Valid() && v in count && v != 0
      requires v in managed ==> count[v] > 0
      modifies this
      ensures Valid() && managed == old(managed) + {v}
      ensures count == old(count)[v := if old(count[v]) > 0 then old(count[v]) - 1 else 0]
      ensures free == if count[v] == 0 then [v] + old(free) else old(free)
    {
      if count[v] > 0 {
        count := count[v := count[v] - 1];
      }
      if count[v] == 0 {
        ChainPush(freelist, next, free, v);
        fpgn := fpgn + 1;
        next := next[v := freelist];
        freelist := v;
        free := [v] + free;
      }
      managed := managed + {v};
    }

    /** kalloc: the most recently freed page, or 0 when there is none. */
    method Kalloc() returns (v: nat)
      requires Valid()
      modifies this
      ensures Valid() && managed == old(managed)
      ensures v == 0 <==> old(free) == []
      ensures v == 0 ==> free == old(free) && count == old(count)
      ensures v != 0 ==> v == old(free)[0] && free == old(free)[1..] && count == old(count)[v := 1]
      ensures v != 0 ==> v in managed && old(count)[v] == 0 && v !in free
    {
      v := freelist;
      if v != 0 {
        ChainPop(freelist, next, free);
        assert v in free;
        fpgn := fpgn - 1;
        freelist := next[v];
        count := count[v := 1];
        free := free[1..];
        assert forall f :: f in old(free) <==> f == v || f in free;
      }
    }

    /** add_page_share on a 16-bit counter.  The allocator stays sound exactly when the page is in
        use and the counter does not wrap. */
    method AddShare(f: nat)
      requires Valid() && f in managed
      modifies this`count
      ensures count == old(count)[f := if old(count)[f] == USHORT - 1 then 0 else old(count)[f] + 1]
      ensures Valid() <==> 0 < old(count)[f] < USHORT - 1
    {
      count := count[f := (count[f] + 1) % USHORT];
      assert f in free <==> old(count)[f] == 0;
    }

    /** red_page_share lowers the count and never frees.  The allocator stays sound exactly when a
        reference is left. */
    method RedShare(f: nat)
      requires Valid() && f in managed
      modifies this`count
      ensures count == old(count)[f := if old(count)[f] == 0 then USHORT - 1 else old(count)[f] - 1]
      ensures Valid() <==> old(count)[f] > 1
    {
      count := count[f := (count[f] + USHORT - 1) % USHORT];
      assert f in free <==> old(count)[f] == 0;
    }

    /** One turn of freerange: a page the allocator has not seen yet. */
    method HandOver(p: nat)
      requires Valid() && p in count && count[p] == 0 && p !in managed && p != 0
      modifies this
      ensures Valid() && count == old(count) && managed == old(managed) + {p} && free == [p] + old(free)
    {
      Kfree(p);
      count := count[p := 0];
      assert count == old(count);
    }

    /** freerange over frames lo .. hi-1, none of them handed over before. */
    method FreeRange(lo: nat, hi: nat)
      requires Valid() && 0 < lo <= hi
      requires forall f :: lo <= f < hi ==> f in count && count[f] == 0 && f !in managed
      modifies this
      ensures Valid() && count == old(count) && |free| == |old(free)| + hi - lo
      ensures forall f :: f in managed <==> f in old(managed) || lo <= f < hi
    {
      var p := lo;
      while p < hi
        invariant lo <= p <= hi && Valid() && count == old(count) && |free| == |old(free)| + p - lo
        invariant forall f :: f in managed <==> f in old(managed) || lo <= f < p
      {
        HandOver(p);
        p := p + 1;
      }
    }
  }
}
