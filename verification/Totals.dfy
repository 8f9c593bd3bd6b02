/** Sums over the threads of a pool, and how they change when one thread moves. */
module Totals {

  function Total<T>(s: seq<T>, weight: T -> nat): nat {
    if s == [] then 0 else Total(s[..|s| - 1], weight) + weight(s[|s| - 1])
  }

  lemma {:induction false} TotalUpdate<T>(s: seq<T>, i: nat, x: T, weight: T -> nat)
    requires i < |s|
    ensures Total(s[i := x], weight) + weight(s[i]) == Total(s, weight) + weight(x)
  {
    var k := |s| - 1;
    if i == k {
      assert s[i := x][..k] == s[..k];
    } else {
      assert s[i := x][..k] == s[..k][i := x];
      TotalUpdate(s[..k], i, x, weight);
    }
  }

  lemma {:induction false} TotalAppend<T>(s: seq<T>, x: T, weight: T -> nat)
    ensures Total(s + [x], weight) == Total(s, weight) + weight(x)
  {
    assert (s + [x])[..|s|] == s;
  }

  lemma {:induction false} TotalFirst<T>(s: seq<T>, weight: T -> nat)
    requires s != []
    ensures Total(s, weight) == weight(s[0]) + Total(s[1..], weight)
  {
    var k := |s| - 1;
    if k == 0 {
      assert s[..0] == [] && s[1..] == [];
    } else {
      TotalFirst(s[..k], weight);
      assert s[..k][1..] == s[1..][..k - 1];
    }
  }

  lemma {:induction false} TotalAtLeast<T>(s: seq<T>, i: nat, weight: T -> nat)
    requires i < |s|
    ensures Total(s, weight) >= weight(s[i])
  {
    var k := |s| - 1;
    if i < k {
      TotalAtLeast(s[..k], i, weight);
    }
  }

  /** When every element weighs at most one and the total is their number, each weighs one. */
  lemma {:induction false} AllWeigh<T>(s: seq<T>, i: nat, weight: T -> nat)
    requires i < |s| && forall k :: 0 <= k < |s| ==> weight(s[k]) <= 1
    requires Total(s, weight) >= |s|
    ensures weight(s[i]) == 1
  {
    var k := |s| - 1;
    TotalAtMost(s[..k], weight);
    if i < k {
      AllWeigh(s[..k], i, weight);
    }
  }

  lemma {:induction false} TotalAtMost<T>(s: seq<T>, weight: T -> nat)
    requires forall k :: 0 <= k < |s| ==> weight(s[k]) <= 1
    ensures Total(s, weight) <= |s|
  {
    if s == [] {
    } else {
      TotalAtMost(s[..|s| - 1], weight);
    }
  }

  lemma {:induction false} TotalZero<T>(s: seq<T>, weight: T -> nat)
    requires forall k :: 0 <= k < |s| ==> weight(s[k]) == 0
    ensures Total(s, weight) == 0
  {
    if s == [] {
    } else {
      TotalZero(s[..|s| - 1], weight);
    }
  }
}
