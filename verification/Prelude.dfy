/** What the other modules share. */
module Prelude {

  datatype Option<+T> = None | Some(value: T)

  lemma Assoc<T>(x: seq<T>, y: seq<T>, z: seq<T>)
    ensures x + (y + z) == x + y + z
  {
  }

  function Min(a: nat, b: nat): nat {
    if a < b then a else b
  }

  /** A list taken apart in one more step. */
  lemma MoveOne<T>(all: seq<T>, done: seq<T>, left: seq<T>)
    requires all == done + left && left != []
    ensures all == (done + [left[0]]) + left[1..]
  {
  }

  predicate Distinct<T(==)>(s: seq<T>) {
    forall i, j :: 0 <= i < j < |s| ==> s[i] != s[j]
  }

  function SetOf<T(==)>(s: seq<T>): set<T> {
    set x | x in s
  }

  lemma {:induction false} DistinctCount<T>(s: seq<T>)
    requires Distinct(s)
    ensures |SetOf(s)| == |s|
  {
    if s == [] {
    } else {
      var rest, last := s[..|s| - 1], s[|s| - 1];
      DistinctCount(rest);
      assert last !in rest;
      assert SetOf(s) == SetOf(rest) + {last};
    }
  }

  /** The first j of a list, as a set. */
  function First<T(==,!new)>(s: seq<T>, j: nat): (r: set<T>)
    requires j <= |s|
    ensures forall x :: x in r <==> exists i :: 0 <= i < j && s[i] == x
  {
    if j == 0 then {} else First(s, j - 1) + {s[j - 1]}
  }

  lemma {:induction false} BelowCount(s: set<nat>, n: nat)
    requires forall x :: x in s ==> x < n
    ensures |s| <= n
  {
    if n == 0 {
      assert s == {};
    } else {
      BelowCount(s - {n - 1}, n - 1);
    }
  }

  function Copies<T>(x: T, k: nat): (s: seq<T>)
    ensures |s| == k && forall i :: 0 <= i < k ==> s[i] == x
  {
    if k == 0 then [] else [x] + Copies(x, k - 1)
  }
}
