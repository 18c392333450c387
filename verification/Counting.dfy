/** Counting arguments about sequences of distinct indices. */
module Counting {

  ghost function Below(n: nat): (s: set<nat>)
    ensures |s| == n && forall j: nat :: j in s <==> j < n
  {
    if n == 0 then {} else Below(n - 1) + {n - 1}
  }

  ghost function Elements<T(!new)>(s: seq<T>): (e: set<T>)
    ensures |e| <= |s| && forall j :: j in e <==> j in s
  {
    if s == [] then {} else {s[0]} + Elements(s[1..])
  }

  lemma SubsetSize<T>(a: set<T>, b: set<T>)
    requires a <= b
    ensures |a| <= |b|
  {
    if a != {} {
      var x :| x in a;
      SubsetSize(a - {x}, b - {x});
    }
  }

  ghost predicate Distinct<T>(s: seq<T>) {
    forall i, j :: 0 <= i < j < |s| ==> s[i] != s[j]
  }

  ghost predicate AllBelow(s: seq<nat>, n: nat) {
    forall i :: 0 <= i < |s| ==> s[i] < n
  }

  /** s lists 0, ..., n - 1 in some order. */
  ghost predicate Permutation(s: seq<nat>, n: nat) {
    |s| == n && Distinct(s) && AllBelow(s, n)
  }

  lemma SomeUnused(s: seq<nat>, n: nat)
    requires |s| < n
    ensures exists j: nat :: j < n && j !in s
  {
    if Below(n) <= Elements(s) {
      SubsetSize(Below(n), Elements(s));
    }
    var j :| j in Below(n) && j !in Elements(s);
  }

  lemma DistinctIn<T>(s: seq<T>, u: set<T>)
    requires Distinct(s) && forall i :: 0 <= i < |s| ==> s[i] in u
    ensures |s| <= |u|
  {
    if s != [] {
      var last := s[|s| - 1];
      DistinctIn(s[..|s| - 1], u - {last});
    }
  }

  lemma {:induction false} DistinctSize<T(!new)>(s: seq<T>)
    requires Distinct(s)
    ensures |Elements(s)| == |s|
  {
    if s != [] {
      assert s[0] !in s[1..];
      DistinctSize(s[1..]);
    }
  }

  /** A permutation leaves nothing out. */
  lemma NoneUnused(s: seq<nat>, n: nat, j: nat)
    requires Permutation(s, n) && j < n
    ensures j in s
  {
    if j !in s {
      DistinctIn(s + [j], Below(n));
    }
  }

  lemma Extended(s: seq<nat>, n: nat, more: nat)
    requires |s| == n && Distinct(s) && AllBelow(s, n)
    ensures Permutation(s + seq(more, (k: int) requires 0 <= k < more => n + k), n + more)
  {
  }

  lemma Inverse(s: seq<nat>, n: nat) returns (inv: seq<nat>)
    requires Permutation(s, n)
    ensures Permutation(inv, n) && forall j :: 0 <= j < n ==> inv[j] < n && s[inv[j]] == j
  {
    inv := [];
    while |inv| < n
      invariant |inv| <= n && forall j :: 0 <= j < |inv| ==> inv[j] < n && s[inv[j]] == j
    {
      NoneUnused(s, n, |inv|);
      var i :| 0 <= i < n && s[i] == |inv|;
      inv := inv + [i];
    }
  }

  /** The entries of a permutation taken in another order are a permutation. */
  lemma Rearranged(s: seq<nat>, s': seq<nat>, order: seq<nat>, n: nat)
    requires Permutation(s, n) && Permutation(order, n) && |s'| == n
    requires forall j :: 0 <= j < n ==> order[j] < n && s'[j] == s[order[j]]
    ensures Permutation(s', n)
  {
    forall i, j | 0 <= i < j < n
      ensures s'[i] != s'[j]
    {
      assert order[i] != order[j];
      assert order[i] < order[j] || order[j] < order[i];
    }
  }
}
