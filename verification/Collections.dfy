/** Facts about finite sets and sequences that several components use. */
module Collections {

  ghost predicate Distinct(s: seq<nat>) {
    forall i, j :: 0 <= i < j < |s| ==> s[i] != s[j]
  }

  lemma SubsetSize<T>(a: set<T>, b: set<T>)
    requires a <= b
    ensures |a| <= |b| && (|a| == |b| ==> a == b)
  {
    assert b == a + (b - a);
  }

  /** The numbers below n. */
  ghost function Below(n: nat): (r: set<nat>)
    ensures |r| == n && forall i :: i in r <==> 0 <= i < n
  {
    if n == 0 then {} else Below(n - 1) + {n - 1}
  }

  /** The numbers from a up to b. */
  lemma IntervalSize(a: nat, b: nat)
    requires a <= b
    ensures |Below(b) - Below(a)| == b - a && forall i :: i in Below(b) - Below(a) <==> a <= i < b
  {
    assert Below(b) == Below(a) + (Below(b) - Below(a));
  }

  ghost function Elements(s: seq<nat>): (r: set<int>)
    ensures |r| <= |s| && forall x :: x in r <==> x in s
  {
    if |s| == 0 then {} else
      assert s == s[..|s| - 1] + [s[|s| - 1]];
      Elements(s[..|s| - 1]) + {s[|s| - 1] as int}
  }

  ghost function Members(s: seq<nat>): set<nat> {
    set x | x in s
  }

  lemma {:induction false} DistinctSize(s: seq<nat>)
    requires Distinct(s)
    ensures |Members(s)| == |s|
    decreases |s|
  {
    if |s| == 0 {
    } else {
      var r, y := s[..|s| - 1], s[|s| - 1];
      DistinctSize(r);
      assert y !in r;
      assert s == r + [y];
      assert Members(s) == Members(r) + {y};
    }
  }

  lemma SameSize(a: seq<nat>, b: seq<nat>)
    requires Distinct(a) && Distinct(b) && forall x :: x in a <==> x in b
    ensures |a| == |b|
  {
    DistinctSize(a);
    DistinctSize(b);
    assert Members(a) == Members(b);
  }
}
