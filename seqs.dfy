/** Sequence vocabulary shared by the recommendation modules: Python's
    `min`/`max`, slicing with non-negative bounds, first index of a value,
    duplicate-freedom and the set of elements of a list. */
module Seqs {

  function Min(a: int, b: int): int { if a <= b then a else b }

  function Max(a: int, b: int): int { if a >= b then a else b }

  /** Python's `s[lo:hi]` for non-negative bounds: both bounds are clamped
      to the length of `s`, and the slice is empty when `lo` is not below
      the clamped `hi`. */
  function Slice<T>(s: seq<T>, lo: nat, hi: nat): (r: seq<T>)
    ensures |r| == if lo < Min(hi, |s|) then Min(hi, |s|) - lo else 0
    ensures forall j :: 0 <= j < |r| ==> r[j] == s[lo + j]
  {
    if lo < Min(hi, |s|) then s[lo..Min(hi, |s|)] else []
  }

  /** The position of the first occurrence of `x` in `s`. */
  function IndexOf<T(==)>(s: seq<T>, x: T): (i: nat)
    requires x in s
    ensures i < |s| && s[i] == x && x !in s[..i]
    ensures forall j :: 0 <= j < i ==> s[j] != x
  {
    if s[0] == x then 0 else 1 + IndexOf(s[1..], x)
  }

  /** No value occurs twice in `s`. */
  predicate Distinct<T(==)>(s: seq<T>) {
    forall i, j :: 0 <= i < j < |s| ==> s[i] != s[j]
  }

  /** The set of values occurring in `s`. */
  function Elements<T>(s: seq<T>): set<T> {
    set x | x in s
  }

  /** Any position holding `x` with no earlier `x` is the first index of `x`. */
  lemma IndexOfIs<T>(s: seq<T>, x: T, i: nat)
    requires i < |s| && s[i] == x
    requires forall j :: 0 <= j < i ==> s[j] != x
    ensures IndexOf(s, x) == i
  {
    var p := IndexOf(s, x);
    assert s[p] == x && x !in s[..p];
  }

  /** The first index of a value already present in a prefix is found in that prefix. */
  lemma IndexOfPrefix<T>(s: seq<T>, n: nat, x: T)
    requires n <= |s| && x in s[..n]
    ensures IndexOf(s, x) == IndexOf(s[..n], x)
  {
    var p := IndexOf(s[..n], x);
    assert s[..n][..p] == s[..p];
    IndexOfIs(s, x, p);
  }

  /** A duplicate-free list has exactly as many distinct values as entries. */
  lemma {:induction false} DistinctCard<T>(s: seq<T>)
    requires Distinct(s)
    ensures |Elements(s)| == |s|
  {
    if s != [] {
      var t := s[..|s| - 1];
      var last := s[|s| - 1];
      assert Distinct(t);
      DistinctCard(t);
      assert s == t + [last];
      assert last !in t by {
        forall i | 0 <= i < |t| ensures t[i] != last {
          assert s[i] == t[i];
        }
      }
      assert Elements(s) == Elements(t) + {last};
    }
  }
}
