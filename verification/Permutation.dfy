/** Permutations of 0..n, as process orders. */
module Permutation {

  ghost predicate Distinct<T>(s: seq<T>) {
    forall i, j :: 0 <= i < j < |s| ==> s[i] != s[j]
  }

  ghost predicate IsPerm(order: seq<nat>, n: nat) {
    |order| == n && (forall j :: 0 <= j < n ==> order[j] < n) && Distinct(order)
  }

  lemma DistinctConcat<T>(a: seq<T>, b: seq<T>)
    requires Distinct(a) && Distinct(b) && forall x, y :: x in a && y in b ==> x != y
    ensures Distinct(a + b)
  {
    forall i, j | 0 <= i < j < |a + b| ensures (a + b)[i] != (a + b)[j] {
      if i < |a| <= j {
        assert a[i] in a && b[j - |a|] in b;
      }
    }
  }

  ghost function Listing(s: set<nat>): (l: seq<nat>)
    ensures Distinct(l) && forall x :: x in l <==> x in s
  {
    if s == {} then []
    else
      var x :| x in s;
      var rest := Listing(s - {x});
      assert forall i :: 0 <= i < |rest| ==> rest[i] in rest;
      assert forall y :: y in s <==> y == x || y in s - {x};
      [x] + rest
  }

  function Reorder<T>(s: seq<T>, order: seq<nat>): seq<T>
    requires forall j :: 0 <= j < |order| ==> order[j] < |s|
  {
    seq(|order|, j requires 0 <= j < |order| => s[order[j]])
  }

  ghost function Below(n: nat): (s: set<nat>)
    ensures |s| == n && forall j: nat :: j in s <==> j < n
  {
    if n == 0 then {} else Below(n - 1) + {n - 1}
  }

  lemma {:induction false} DistinctFitsIn(s: seq<nat>, within: set<nat>)
    requires Distinct(s) && forall j :: 0 <= j < |s| ==> s[j] in within
    ensures |s| <= |within|
  {
    if s != [] {
      var k := |s| - 1;
      DistinctFitsIn(s[..k], within - {s[k]});
    }
  }

  /** A permutation of 0..n hits every index. */
  lemma PermIndex(order: seq<nat>, n: nat, i: nat) returns (j: nat)
    requires IsPerm(order, n) && i < n
    ensures j < n && order[j] == i
  {
    if i !in order {
      DistinctFitsIn(order, Below(n) - {i});
    }
    j :| 0 <= j < |order| && order[j] == i;
  }
}
