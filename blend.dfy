/** The blend of `recommendations`: over the first `min_length` positions
    the two lists are interleaved by position parity (even positions from the
    online list, odd ones from the offline list), the rest of the longer list
    is appended, and the result is deduplicated and cut to `k` entries. */
module Blending {
  import opened Seqs
  import opened Deduplication

  /** The first `n` interleaved positions: position `i` holds `online[i]`
      when `i` is even and `offline[i]` when `i` is odd. */
  function Alternate(offline: seq<int>, online: seq<int>, n: nat): seq<int>
    requires n <= |offline| && n <= |online|
  {
    if n == 0 then []
    else
      Alternate(offline, online, n - 1)
        + [if (n - 1) % 2 == 0 then online[n - 1] else offline[n - 1]]
  }

  /** What is appended after the interleaved positions: the remainder of
      the online list if it is the longer one, else that of the offline list. */
  function Rest(offline: seq<int>, online: seq<int>): seq<int> {
    var m := Min(|offline|, |online|);
    if |online| > m then online[m..]
    else if |offline| > m then offline[m..]
    else []
  }

  /** `recs_blended` before deduplication. */
  function Interleaved(offline: seq<int>, online: seq<int>): seq<int> {
    Alternate(offline, online, Min(|offline|, |online|)) + Rest(offline, online)
  }

  /** The blended recommendations. */
  function Blended(offline: seq<int>, online: seq<int>, k: nat): seq<int> {
    Slice(Dedup(Interleaved(offline, online)), 0, k)
  }

  /** The body of `recommendations` once both lists are known. */
  method Blend(offline: seq<int>, online: seq<int>, k: nat) returns (recs: seq<int>)
    ensures recs == Blended(offline, online, k)
    ensures |recs| <= k
    ensures Distinct(recs)
    ensures forall x :: x in recs ==> x in offline || x in online
  {
    var blended: seq<int> := [];
    var m := Min(|offline|, |online|);
    for i := 0 to m
      invariant blended == Alternate(offline, online, i)
    {
      if i % 2 == 0 {
        blended := blended + [online[i]];
      } else {
        blended := blended + [offline[i]];
      }
    }
    if |online| > m {
      blended := blended + online[m..];
    } else if |offline| > m {
      blended := blended + offline[m..];
    }
    assert blended == Interleaved(offline, online);
    blended := DedupIds(blended);
    recs := Slice(blended, 0, k);
    BlendedSources(offline, online, k);
  }

  lemma {:induction false} AlternateAt(offline: seq<int>, online: seq<int>, n: nat)
    requires n <= |offline| && n <= |online|
    ensures |Alternate(offline, online, n)| == n
    ensures forall i :: 0 <= i < n ==>
              Alternate(offline, online, n)[i] == if i % 2 == 0 then online[i] else offline[i]
  {
    if n > 0 {
      AlternateAt(offline, online, n - 1);
    }
  }

  /** Positional structure before deduplication: the length is that of the
      longer list; a position below the shorter length holds the online
      entry when even and the offline entry when odd; every later position
      holds the entry of the longer list at that position. */
  lemma InterleavedShape(offline: seq<int>, online: seq<int>)
    ensures |Interleaved(offline, online)| == Max(|offline|, |online|)
    ensures forall i :: 0 <= i < Min(|offline|, |online|) ==>
              Interleaved(offline, online)[i] == if i % 2 == 0 then online[i] else offline[i]
    ensures forall i :: Min(|offline|, |online|) <= i < Max(|offline|, |online|) ==>
              Interleaved(offline, online)[i] == if |online| > |offline| then online[i] else offline[i]
  {
    var m := Min(|offline|, |online|);
    AlternateAt(offline, online, m);
  }

  /** Every interleaved id comes from one of the two lists. */
  lemma InterleavedSources(offline: seq<int>, online: seq<int>)
    ensures forall x :: x in Interleaved(offline, online) ==> x in offline || x in online
  {
    InterleavedShape(offline, online);
    var s := Interleaved(offline, online);
    forall x | x in s ensures x in offline || x in online {
      var i :| 0 <= i < |s| && s[i] == x;
      if i < Min(|offline|, |online|) {
        assert s[i] == if i % 2 == 0 then online[i] else offline[i];
      } else {
        assert s[i] == if |online| > |offline| then online[i] else offline[i];
      }
    }
  }

  /** At most `k` ids, none repeated, each from one of the two lists. */
  lemma BlendedSources(offline: seq<int>, online: seq<int>, k: nat)
    ensures |Blended(offline, online, k)| <= k
    ensures Distinct(Blended(offline, online, k))
    ensures forall x :: x in Blended(offline, online, k) ==> x in offline || x in online
  {
    var s := Interleaved(offline, online);
    var d := Dedup(s);
    var r := Blended(offline, online, k);
    DedupDistinct(s);
    DedupElements(s);
    InterleavedSources(offline, online);
    forall x | x in r ensures x in offline || x in online {
      var i :| 0 <= i < |r| && r[i] == x;
      assert d[i] == x;
      assert x in d;
    }
  }

  /** The blend is the first `min(k, n)` distinct ids of the interleaved
      list, `n` being how many distinct ids it holds: they keep their
      first-occurrence order, each of them occurs before any interleaved id
      left out, and when `k` is at least `n` nothing is left out. */
  lemma BlendedPrefix(offline: seq<int>, online: seq<int>, k: nat)
    ensures |Blended(offline, online, k)| == Min(k, |Elements(Interleaved(offline, online))|)
    ensures forall x :: x in Blended(offline, online, k) ==> x in Interleaved(offline, online)
    ensures FirstOccurrenceOrdered(Interleaved(offline, online), Blended(offline, online, k))
    ensures forall x, y ::
              (x in Blended(offline, online, k) && y in Interleaved(offline, online) &&
               y !in Blended(offline, online, k)) ==>
              IndexOf(Interleaved(offline, online), x) < IndexOf(Interleaved(offline, online), y)
    ensures k >= |Elements(Interleaved(offline, online))| ==>
              forall x :: x in Interleaved(offline, online) ==> x in Blended(offline, online, k)
  {
    var s := Interleaved(offline, online);
    DedupCount(s);
    DedupElements(s);
    DedupOrder(s);
    TruncatedDedup(s, k);
  }

  /** The first `k` entries of `Dedup(s)`, for any list `s`. */
  lemma TruncatedDedup(s: seq<int>, k: nat)
    requires forall x :: x in Dedup(s) <==> x in s
    requires FirstOccurrenceOrdered(s, Dedup(s))
    ensures forall x :: x in Slice(Dedup(s), 0, k) ==> x in s
    ensures FirstOccurrenceOrdered(s, Slice(Dedup(s), 0, k))
    ensures forall x, y :: (x in Slice(Dedup(s), 0, k) && y in s && y !in Slice(Dedup(s), 0, k)) ==>
              IndexOf(s, x) < IndexOf(s, y)
    ensures k >= |Dedup(s)| ==> Slice(Dedup(s), 0, k) == Dedup(s)
  {
    var d := Dedup(s);
    var r := Slice(d, 0, k);
    assert r == d[..|r|];
    forall x | x in r ensures x in s {
      var i :| 0 <= i < |r| && r[i] == x;
      assert d[i] == x;
      assert x in d;
    }
    forall i, j | 0 <= i < j < |r| ensures IndexOf(s, r[i]) < IndexOf(s, r[j]) {
      assert r[i] == d[i] && r[j] == d[j];
    }
    forall x, y | x in r && y in s && y !in r ensures IndexOf(s, x) < IndexOf(s, y) {
      TruncatedBefore(s, d, r, x, y);
    }
  }

  lemma TruncatedBefore(s: seq<int>, d: seq<int>, r: seq<int>, x: int, y: int)
    requires forall x :: x in d <==> x in s
    requires FirstOccurrenceOrdered(s, d)
    requires |r| <= |d| && r == d[..|r|]
    requires x in r && y in s && y !in r
    ensures x in s && IndexOf(s, x) < IndexOf(s, y)
  {
    var i :| 0 <= i < |r| && r[i] == x;
    assert d[i] == x;
    assert y in d;
    var j :| 0 <= j < |d| && d[j] == y;
    forall l | 0 <= l < |r| ensures d[l] != y {
      assert r[l] == d[l];
      assert r[l] in r;
    }
    assert x in d;
    assert IndexOf(s, d[i]) < IndexOf(s, d[j]);
  }

  /** Nothing to blend, or `k = 0`, gives no recommendations. */
  lemma BlendedEmpty(offline: seq<int>, online: seq<int>, k: nat)
    requires (offline == [] && online == []) || k == 0
    ensures Blended(offline, online, k) == []
  {
    if k > 0 {
      assert Interleaved(offline, online) == [];
    }
  }

  /** With no online recommendations the blend is the deduplicated offline
      list cut to `k`, and symmetrically without offline ones. */
  lemma BlendedOneSided(offline: seq<int>, online: seq<int>, k: nat)
    ensures online == [] ==> Blended(offline, online, k) == Slice(Dedup(offline), 0, k)
    ensures offline == [] ==> Blended(offline, online, k) == Slice(Dedup(online), 0, k)
  {
    if online == [] {
      assert Interleaved(offline, online) == offline;
    }
    if offline == [] {
      assert Interleaved(offline, online) == online;
    }
  }

  /** Equal lengths: offline `[o0, o1, o2]` and online `[n0, n1, n2]` blend
      to `[n0, o1, n2]` when `k >= 3`; `o0`, `n1` and `o2` are never used. */
  lemma BlendedEqualLengths(o0: int, o1: int, o2: int, n0: int, n1: int, n2: int, k: nat)
    requires n0 != o1 && n0 != n2 && o1 != n2
    requires k >= 3
    ensures Blended([o0, o1, o2], [n0, n1, n2], k) == [n0, o1, n2]
  {
    var s := Interleaved([o0, o1, o2], [n0, n1, n2]);
    InterleavedShape([o0, o1, o2], [n0, n1, n2]);
    assert s == [n0, o1, n2];
    DedupOfDistinct(s);
  }

  /** A shorter offline list: offline `[o0]` and online `[n0, n1, n2]`
      blend to the online list cut to `k`; `o0` sits at an even position and
      is never used. */
  lemma BlendedShortOffline(o0: int, n0: int, n1: int, n2: int, k: nat)
    requires n0 != n1 && n0 != n2 && n1 != n2
    ensures Blended([o0], [n0, n1, n2], k) == Slice([n0, n1, n2], 0, k)
  {
    var s := Interleaved([o0], [n0, n1, n2]);
    InterleavedShape([o0], [n0, n1, n2]);
    assert s == [n0, n1, n2];
    DedupOfDistinct(s);
  }
}
