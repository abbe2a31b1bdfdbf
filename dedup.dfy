/** `dedup_ids`: removes repeated item ids, keeping each id at its first
    occurrence. The function `Dedup` is the specification, defined by the same
    left-to-right scan the source performs; `DedupIds` is the scan itself, with
    its growing `seen` set. */
module Deduplication {
  import opened Seqs

  /** The ids of `s` in order, each kept only where it first occurs. */
  function Dedup(s: seq<int>): seq<int>
  {
    if s == [] then []
    else
      var d := Dedup(s[..|s| - 1]);
      if s[|s| - 1] in d then d else d + [s[|s| - 1]]
  }

  /** The source's list comprehension over `ids`: an id is kept when it is
      not yet in `seen`, and adding it to `seen` is the comprehension's side
      effect. */
  method DedupIds(ids: seq<int>) returns (r: seq<int>)
    ensures r == Dedup(ids)
    ensures Distinct(r)
    ensures forall x :: x in r <==> x in ids
  {
    var seen: set<int> := {};
    r := [];
    for i := 0 to |ids|
      invariant r == Dedup(ids[..i])
      invariant seen == Elements(r)
    {
      assert ids[..i + 1][..i] == ids[..i];
      if ids[i] !in seen {
        seen := seen + {ids[i]};
        r := r + [ids[i]];
      }
    }
    assert ids[..|ids|] == ids;
    DedupDistinct(ids);
    DedupElements(ids);
  }

  /** Exactly the ids of the input survive. */
  lemma {:induction false} DedupElements(s: seq<int>)
    ensures forall x :: x in Dedup(s) <==> x in s
  {
    if s != [] {
      var t := s[..|s| - 1];
      DedupElements(t);
      assert s == t + [s[|s| - 1]];
    }
  }

  /** No id is repeated in the result. */
  lemma {:induction false} DedupDistinct(s: seq<int>)
    ensures Distinct(Dedup(s))
  {
    if s != [] {
      var t := s[..|s| - 1];
      DedupDistinct(t);
    }
  }

  /** The result is never longer than the input. */
  lemma {:induction false} DedupLength(s: seq<int>)
    ensures |Dedup(s)| <= |s|
  {
    if s != [] {
      DedupLength(s[..|s| - 1]);
    }
  }

  /** On a list without repeated ids the result is the list itself. */
  lemma {:induction false} DedupOfDistinct(s: seq<int>)
    requires Distinct(s)
    ensures Dedup(s) == s
  {
    if s != [] {
      var t := s[..|s| - 1];
      assert Distinct(t);
      DedupOfDistinct(t);
      assert s[|s| - 1] !in t by {
        forall i | 0 <= i < |t| ensures t[i] != s[|s| - 1] {
          assert s[i] == t[i];
        }
      }
      assert s == t + [s[|s| - 1]];
    }
  }

  /** Deduplicating twice gives the same list as deduplicating once. */
  lemma DedupIdempotent(s: seq<int>)
    ensures Dedup(Dedup(s)) == Dedup(s)
  {
    DedupDistinct(s);
    DedupOfDistinct(Dedup(s));
  }

  /** `d` lists ids of `s` in the order of their first occurrences in `s`. */
  predicate FirstOccurrenceOrdered(s: seq<int>, d: seq<int>)
    requires forall x :: x in d ==> x in s
  {
    forall i, j :: 0 <= i < j < |d| ==> IndexOf(s, d[i]) < IndexOf(s, d[j])
  }

  /** The result keeps every id at its first occurrence: ids appear in the
      order in which they first occur in the input, so the result is the
      subsequence of `s` at the first-occurrence positions. */
  lemma {:induction false} DedupOrder(s: seq<int>)
    ensures forall x :: x in Dedup(s) ==> x in s
    ensures FirstOccurrenceOrdered(s, Dedup(s))
  {
    DedupElements(s);
    if s != [] {
      var n := |s| - 1;
      var t, last := s[..n], s[n];
      DedupOrder(t);
      DedupElements(t);
      var d := Dedup(t);
      forall x | x in d ensures IndexOf(s, x) == IndexOf(t, x) {
        IndexOfPrefix(s, n, x);
      }
      OrderedOnExtension(s, t, d);
      if last !in d {
        IndexOfIs(s, last, n);
        OrderedAppend(s, d, last);
      }
    }
  }

  /** First-occurrence order carries over from a prefix `t` of `s` to `s`. */
  lemma OrderedOnExtension(s: seq<int>, t: seq<int>, d: seq<int>)
    requires forall x :: x in d ==> x in t && x in s
    requires forall x :: x in d ==> IndexOf(s, x) == IndexOf(t, x)
    requires FirstOccurrenceOrdered(t, d)
    ensures FirstOccurrenceOrdered(s, d)
  {
    forall i, j | 0 <= i < j < |d| ensures IndexOf(s, d[i]) < IndexOf(s, d[j]) {
      assert d[i] in d && d[j] in d;
      assert IndexOf(t, d[i]) < IndexOf(t, d[j]);
    }
  }

  /** Appending an id that first occurs after every id of `d` keeps the order. */
  lemma OrderedAppend(s: seq<int>, d: seq<int>, y: int)
    requires forall x :: x in d ==> x in s
    requires y in s
    requires FirstOccurrenceOrdered(s, d)
    requires forall x :: x in d ==> IndexOf(s, x) < IndexOf(s, y)
    ensures FirstOccurrenceOrdered(s, d + [y])
  {
    var e := d + [y];
    forall i, j | 0 <= i < j < |e| ensures IndexOf(s, e[i]) < IndexOf(s, e[j]) {
      assert e[i] == d[i];
      assert d[i] in d;
      if j < |d| {
        assert e[j] == d[j];
      }
    }
  }

  /** Two lists of ids of `s`, both ordered by first occurrence in `s` and
      holding the same ids, are equal. */
  lemma {:induction false} OrderedUnique(s: seq<int>, d: seq<int>, e: seq<int>)
    requires forall x :: x in d ==> x in s
    requires forall x :: x in d <==> x in e
    requires FirstOccurrenceOrdered(s, d) && FirstOccurrenceOrdered(s, e)
    ensures d == e
    decreases |d|
  {
    if d == [] && e == [] {
    } else if d == [] {
      OrderedSameHead(s, e, d);
      assert false;
    } else {
      OrderedSameHead(s, d, e);
      OrderedTail(s, d);
      OrderedTail(s, e);
      OrderedSameTailElements(s, d, e);
      OrderedUnique(s, d[1..], e[1..]);
      assert d == [d[0]] + d[1..] && e == [e[0]] + e[1..];
    }
  }

  /** Both lists start with the id of `s` that occurs first. */
  lemma OrderedSameHead(s: seq<int>, d: seq<int>, e: seq<int>)
    requires d != []
    requires forall x :: x in d ==> x in s
    requires forall x :: x in d <==> x in e
    requires FirstOccurrenceOrdered(s, d) && FirstOccurrenceOrdered(s, e)
    ensures e != [] && d[0] == e[0]
  {
    var hd := d[0];
    assert hd in d;
    assert hd in e;
    var he := e[0];
    assert he in e;
    assert he in d;
    var a :| 0 <= a < |d| && d[a] == he;
    var b :| 0 <= b < |e| && e[b] == hd;
    assert IndexOf(s, d[0]) <= IndexOf(s, d[a]);
    assert IndexOf(s, e[0]) <= IndexOf(s, e[b]);
    assert s[IndexOf(s, d[0])] == d[0] && s[IndexOf(s, e[0])] == e[0];
  }

  /** Dropping the head keeps first-occurrence order. */
  lemma OrderedTail(s: seq<int>, d: seq<int>)
    requires d != []
    requires forall x :: x in d ==> x in s
    requires FirstOccurrenceOrdered(s, d)
    ensures forall x :: x in d[1..] ==> x in s
    ensures FirstOccurrenceOrdered(s, d[1..])
  {
    forall x | x in d[1..] ensures x in s {
      assert x in d;
    }
    forall i, j | 0 <= i < j < |d[1..]|
      ensures IndexOf(s, d[1..][i]) < IndexOf(s, d[1..][j])
    {
      assert d[1..][i] == d[i + 1] && d[1..][j] == d[j + 1];
      assert IndexOf(s, d[i + 1]) < IndexOf(s, d[j + 1]);
    }
  }

  /** Lists with the same head and the same ids, ordered by first
      occurrence, have the same ids after the head. */
  lemma OrderedSameTailElements(s: seq<int>, d: seq<int>, e: seq<int>)
    requires d != [] && e != [] && d[0] == e[0]
    requires forall x :: x in d ==> x in s
    requires forall x :: x in d <==> x in e
    requires FirstOccurrenceOrdered(s, d) && FirstOccurrenceOrdered(s, e)
    ensures forall x :: x in d[1..] <==> x in e[1..]
  {
    forall x ensures x in d[1..] ==> x in e[1..] {
      if x in d[1..] {
        var i :| 0 <= i < |d[1..]| && d[1..][i] == x;
        assert IndexOf(s, d[0]) < IndexOf(s, d[i + 1]);
        assert x in e;
        assert x != e[0];
      }
    }
    forall x ensures x in e[1..] ==> x in d[1..] {
      if x in e[1..] {
        var i :| 0 <= i < |e[1..]| && e[1..][i] == x;
        assert IndexOf(s, e[0]) < IndexOf(s, e[i + 1]);
        assert x in d;
        assert x != d[0];
      }
    }
  }

  /** Conversely, `Dedup` is the only list holding exactly the ids of `s`
      in first-occurrence order: the properties of `DedupElements` and
      `DedupOrder` characterise it completely. */
  lemma DedupUnique(s: seq<int>, d: seq<int>)
    requires forall x :: x in d <==> x in s
    requires FirstOccurrenceOrdered(s, d)
    ensures d == Dedup(s)
  {
    DedupOrder(s);
    DedupElements(s);
    OrderedUnique(s, d, Dedup(s));
  }

  /** The result has as many entries as the input has distinct ids. */
  lemma DedupCount(s: seq<int>)
    ensures |Dedup(s)| == |Elements(s)|
  {
    DedupDistinct(s);
    DistinctCard(Dedup(s));
    DedupElements(s);
    assert Elements(Dedup(s)) == Elements(s);
  }
}
