/** The online ranking of `recommendations_online`: for each recent event
    the similarity response is cut to positions 1 to k, the contributions are
    accumulated in event order, paired with their scores, sorted by
    descending score (stably), projected to item ids and deduplicated.
    The two HTTP calls become inputs: the user's recent events and, parallel
    to them, the similarity response obtained for each event. */
module Online {
  import opened Seqs
  import opened Deduplication
  import opened Ranking

  /** A similarity response: parallel lists of similar item ids
      (`item_id_2`) and their scores (`score`). The service lists the
      queried item itself first. */
  datatype SimilarItems = SimilarItems(itemIds: seq<int>, scores: seq<int>)

  /** What one response contributes: `s[1:k+1]`. The self-match at index 0
      is never taken, and at most `k` entries are. */
  function TopSimilar<T>(s: seq<T>, k: nat): (c: seq<T>)
    ensures |c| <= k
    ensures |c| == if s == [] then 0 else Min(k, |s| - 1)
    ensures forall j :: 0 <= j < |c| ==> c[j] == s[j + 1]
  {
    Slice(s, 1, k + 1)
  }

  /** `items` after the loop over the responses. */
  function AccumulatedIds(responses: seq<SimilarItems>, k: nat): seq<int> {
    if responses == [] then []
    else
      AccumulatedIds(responses[..|responses| - 1], k)
        + TopSimilar(responses[|responses| - 1].itemIds, k)
  }

  /** `scores` after the loop over the responses. */
  function AccumulatedScores(responses: seq<SimilarItems>, k: nat): seq<int> {
    if responses == [] then []
    else
      AccumulatedScores(responses[..|responses| - 1], k)
        + TopSimilar(responses[|responses| - 1].scores, k)
  }

  /** `list(zip(items, scores))`. */
  function Accumulated(responses: seq<SimilarItems>, k: nat): seq<ScoredItem> {
    Zip(AccumulatedIds(responses, k), AccumulatedScores(responses, k))
  }

  /** The online recommendations for the given responses. */
  function OnlineRecs(responses: seq<SimilarItems>, k: nat): seq<int> {
    Dedup(Ids(SortDesc(Accumulated(responses, k))))
  }

  /** `recommendations_online` once the recent events and their similarity
      responses are known: `responses[i]` is what the similarity service
      returned for `events[i]`. */
  method RecommendationsOnline(events: seq<int>, responses: seq<SimilarItems>, k: nat)
    returns (recs: seq<int>)
    requires |responses| == |events|
    ensures recs == OnlineRecs(responses, k)
    ensures Distinct(recs)
    ensures |recs| <= |events| * k
    ensures events == [] ==> recs == []
  {
    var items: seq<int> := [];
    var scores: seq<int> := [];
    for i := 0 to |events|
      invariant items == AccumulatedIds(responses[..i], k)
      invariant scores == AccumulatedScores(responses[..i], k)
    {
      assert responses[..i + 1][..i] == responses[..i];
      items := items + TopSimilar(responses[i].itemIds, k);
      scores := scores + TopSimilar(responses[i].scores, k);
    }
    assert responses[..|events|] == responses;
    var combined := SortDesc(Zip(items, scores));
    var ranked := Ids(combined);
    recs := DedupIds(ranked);
    OnlineLength(responses, k);
  }

  /** When the queried item occurs only at index 0 of its response, the
      response does not recommend it. */
  lemma SelfMatchDropped(s: seq<int>, k: nat)
    requires s != [] && s[0] !in s[1..]
    ensures s[0] !in TopSimilar(s, k)
  {
    var c := TopSimilar(s, k);
    forall j | 0 <= j < |c| ensures c[j] != s[0] {
      assert s[1..][j] == s[j + 1];
    }
  }

  /** Each event contributes at most `k` ids. */
  lemma {:induction false} AccumulatedIdsLength(responses: seq<SimilarItems>, k: nat)
    ensures |AccumulatedIds(responses, k)| <= |responses| * k
  {
    if responses != [] {
      var n := |responses| - 1;
      AccumulatedIdsLength(responses[..n], k);
      var c := TopSimilar(responses[n].itemIds, k);
      assert |AccumulatedIds(responses, k)| == |AccumulatedIds(responses[..n], k)| + |c|;
      assert |c| <= k;
      MulSucc(n, k);
    }
  }

  lemma MulSucc(n: nat, k: nat)
    ensures (n + 1) * k == n * k + k
  {
  }

  /** Accumulation follows event order: the contributions of a later batch
      of events come after those of an earlier one. */
  lemma AccumulatedAppend(a: seq<SimilarItems>, b: seq<SimilarItems>, k: nat)
    ensures AccumulatedIds(a + b, k) == AccumulatedIds(a, k) + AccumulatedIds(b, k)
    ensures AccumulatedScores(a + b, k) == AccumulatedScores(a, k) + AccumulatedScores(b, k)
  {
    AccumulatedIdsAppend(a, b, k);
    AccumulatedScoresAppend(a, b, k);
  }

  lemma {:induction false} AccumulatedIdsAppend(a: seq<SimilarItems>, b: seq<SimilarItems>, k: nat)
    ensures AccumulatedIds(a + b, k) == AccumulatedIds(a, k) + AccumulatedIds(b, k)
    decreases |b|
  {
    if b == [] {
      assert a + b == a;
    } else {
      var n := |b| - 1;
      var b', last := b[..n], b[n];
      AccumulatedIdsAppend(a, b', k);
      var ab := a + b;
      assert ab[..|ab| - 1] == a + b' && ab[|ab| - 1] == last;
      var c := TopSimilar(last.itemIds, k);
      assert AccumulatedIds(ab, k) == AccumulatedIds(a + b', k) + c;
      assert AccumulatedIds(b, k) == AccumulatedIds(b', k) + c;
    }
  }

  lemma {:induction false} AccumulatedScoresAppend(a: seq<SimilarItems>, b: seq<SimilarItems>, k: nat)
    ensures AccumulatedScores(a + b, k) == AccumulatedScores(a, k) + AccumulatedScores(b, k)
    decreases |b|
  {
    if b == [] {
      assert a + b == a;
    } else {
      var n := |b| - 1;
      var b', last := b[..n], b[n];
      AccumulatedScoresAppend(a, b', k);
      var ab := a + b;
      assert ab[..|ab| - 1] == a + b' && ab[|ab| - 1] == last;
      var c := TopSimilar(last.scores, k);
      assert AccumulatedScores(ab, k) == AccumulatedScores(a + b', k) + c;
      assert AccumulatedScores(b, k) == AccumulatedScores(b', k) + c;
    }
  }

  /** An id is accumulated exactly when some event's contribution has it. */
  lemma {:induction false} AccumulatedMembers(responses: seq<SimilarItems>, k: nat, x: int)
    ensures x in AccumulatedIds(responses, k) <==>
            exists i :: 0 <= i < |responses| && x in TopSimilar(responses[i].itemIds, k)
  {
    if responses != [] {
      var n := |responses| - 1;
      var t := responses[..n];
      AccumulatedMembers(t, k, x);
      if x in AccumulatedIds(responses, k) {
        if x in AccumulatedIds(t, k) {
          var i :| 0 <= i < |t| && x in TopSimilar(t[i].itemIds, k);
          assert responses[i] == t[i];
        } else {
          assert x in TopSimilar(responses[n].itemIds, k);
        }
      }
      if exists i :: 0 <= i < |responses| && x in TopSimilar(responses[i].itemIds, k) {
        var i :| 0 <= i < |responses| && x in TopSimilar(responses[i].itemIds, k);
        if i < n {
          assert t[i] == responses[i];
        }
      }
    }
  }

  /** Every response pairs each id with a score. */
  predicate WellFormed(responses: seq<SimilarItems>) {
    forall i :: 0 <= i < |responses| ==> |responses[i].itemIds| == |responses[i].scores|
  }

  /** For well-formed responses `zip` drops nothing: every accumulated id
      keeps the score it came with. */
  lemma {:induction false} AccumulatedAligned(responses: seq<SimilarItems>, k: nat)
    requires WellFormed(responses)
    ensures |AccumulatedIds(responses, k)| == |AccumulatedScores(responses, k)|
    ensures Ids(Accumulated(responses, k)) == AccumulatedIds(responses, k)
  {
    if responses != [] {
      var n := |responses| - 1;
      assert WellFormed(responses[..n]) by {
        forall i | 0 <= i < n ensures |responses[..n][i].itemIds| == |responses[..n][i].scores| {
          assert responses[..n][i] == responses[i];
        }
      }
      AccumulatedAligned(responses[..n], k);
      assert |responses[n].itemIds| == |responses[n].scores|;
    }
  }

  /** At most `k` recommendations per event. */
  lemma OnlineLength(responses: seq<SimilarItems>, k: nat)
    ensures |OnlineRecs(responses, k)| <= |responses| * k
  {
    var z := Accumulated(responses, k);
    SortDescPermutation(z);
    AccumulatedIdsLength(responses, k);
    DedupLength(Ids(SortDesc(z)));
  }

  /** No id is recommended twice. */
  lemma OnlineDistinct(responses: seq<SimilarItems>, k: nat)
    ensures Distinct(OnlineRecs(responses, k))
  {
    DedupDistinct(Ids(SortDesc(Accumulated(responses, k))));
  }

  /** The recommended ids are exactly the ids of the accumulated pairs. */
  lemma OnlineMembers(responses: seq<SimilarItems>, k: nat)
    ensures forall x :: x in OnlineRecs(responses, k) <==> x in Ids(Accumulated(responses, k))
  {
    var z := Accumulated(responses, k);
    var s := SortDesc(z);
    SortDescPermutation(z);
    DedupElements(Ids(s));
    forall x ensures x in Ids(s) <==> x in Ids(z) {
      if x in Ids(s) {
        BestScorePermutation(s, z, x);
      }
      if x in Ids(z) {
        BestScorePermutation(z, s, x);
      }
    }
  }

  /** For well-formed responses, an id is recommended exactly when it is
      among positions 1 to k of some event's response. */
  lemma OnlineFromEvents(responses: seq<SimilarItems>, k: nat, x: int)
    requires WellFormed(responses)
    ensures x in OnlineRecs(responses, k) <==>
            exists i :: 0 <= i < |responses| && x in TopSimilar(responses[i].itemIds, k)
  {
    OnlineMembers(responses, k);
    AccumulatedAligned(responses, k);
    AccumulatedMembers(responses, k, x);
  }

  /** `x` is ranked ahead of `y`: its best accumulated score is higher, or
      the best scores tie and the best-scoring pair of `x` was accumulated
      first. */
  predicate RankedBefore(z: seq<ScoredItem>, x: int, y: int)
    requires x in Ids(z) && y in Ids(z)
  {
    var sx, sy := BestScore(z, x), BestScore(z, y);
    sx > sy || (sx == sy && IndexOf(z, ScoredItem(x, sx)) < IndexOf(z, ScoredItem(y, sy)))
  }

  /** The order of the online recommendations: by best score, descending,
      and among equal best scores by accumulation order (event order, then
      position in the response). Each id therefore appears where its
      highest-scoring occurrence lands after the stable sort. */
  lemma OnlineRankOrder(responses: seq<SimilarItems>, k: nat)
    ensures forall x :: x in OnlineRecs(responses, k) ==> x in Ids(Accumulated(responses, k))
    ensures forall i, j :: 0 <= i < j < |OnlineRecs(responses, k)| ==>
              RankedBefore(Accumulated(responses, k), OnlineRecs(responses, k)[i], OnlineRecs(responses, k)[j])
  {
    OnlineMembers(responses, k);
    var z := Accumulated(responses, k);
    var r := OnlineRecs(responses, k);
    forall i, j | 0 <= i < j < |r| ensures RankedBefore(z, r[i], r[j]) {
      RankedPair(z, r, i, j);
    }
  }

  lemma RankedPair(z: seq<ScoredItem>, r: seq<int>, i: nat, j: nat)
    requires r == Dedup(Ids(SortDesc(z)))
    requires i < j < |r|
    requires forall x :: x in r ==> x in Ids(z)
    ensures RankedBefore(z, r[i], r[j])
  {
    var s := SortDesc(z);
    var p := Ids(s);
    SortDescOrdered(z);
    SortDescPermutation(z);
    DedupOrder(p);
    DedupDistinct(p);
    var x, y := r[i], r[j];
    assert x in r && y in r;
    assert x in p && y in p;
    var px, py := IndexOf(p, x), IndexOf(p, y);
    assert px < py;
    FirstIsBest(s, x);
    FirstIsBest(s, y);
    BestScorePermutation(s, z, x);
    BestScorePermutation(s, z, y);
    var sx, sy := BestScore(z, x), BestScore(z, y);
    assert s[px] == ScoredItem(x, sx) && s[py] == ScoredItem(y, sy);
    assert sx >= sy;
    if sx == sy {
      var a, b := s[px], s[py];
      assert x != y;
      assert a != b;
      forall m | 0 <= m < px ensures s[m] != a {
        assert p[m] != x;
      }
      forall m | 0 <= m < py ensures s[m] != b {
        assert p[m] != y;
      }
      IndexOfIs(s, a, px);
      IndexOfIs(s, b, py);
      WithScoreOrder(s, a, b);
      SortDescStable(z, sx);
      assert a in multiset(z) && b in multiset(z);
      WithScoreMembers(z, sx);
      WithScoreOrderBack(z, a, b);
    }
  }

  /** A response `[(5, 1.0), (7, 0.9), (5, 0.8)]` for item 5 with `k = 1`
      (scores scaled to integers): only `(7, 0.9)` is contributed. */
  lemma SelfExclusionExample()
    ensures TopSimilar([5, 7, 5], 1) == [7] && TopSimilar([10, 9, 8], 1) == [9]
    ensures OnlineRecs([SimilarItems([5, 7, 5], [10, 9, 8])], 1) == [7]
  {
    var r := [SimilarItems([5, 7, 5], [10, 9, 8])];
    assert r[..0] == [];
    assert Accumulated(r, 1) == [ScoredItem(7, 9)];
    assert SortDesc([ScoredItem(7, 9)]) == [ScoredItem(7, 9)] by {
      assert [ScoredItem(7, 9)][..0] == [];
    }
  }

  /** Ties are broken by event order: two events whose responses hold items
      20 and 30 with one equal score rank them as the earlier event does. */
  lemma TieExample()
    ensures OnlineRecs([SimilarItems([1, 20, 30], [9, 5, 5]), SimilarItems([2, 30, 20], [9, 5, 5])], 2) == [20, 30]
    ensures OnlineRecs([SimilarItems([2, 30, 20], [9, 5, 5]), SimilarItems([1, 20, 30], [9, 5, 5])], 2) == [30, 20]
  {
    TieCase(1, 20, 30, 2);
    TieCase(2, 30, 20, 1);
  }

  lemma TieCase(e1: int, a: int, b: int, e2: int)
    requires a != b
    ensures OnlineRecs([SimilarItems([e1, a, b], [9, 5, 5]), SimilarItems([e2, b, a], [9, 5, 5])], 2) == [a, b]
  {
    var rs := [SimilarItems([e1, a, b], [9, 5, 5]), SimilarItems([e2, b, a], [9, 5, 5])];
    TieAccumulated(e1, a, b, e2);
    var z := Accumulated(rs, 2);
    assert NonIncreasing(z);
    SortDescUnique(z, z);
    assert Ids(z) == [a, b, b, a];
    TieDedup(a, b);
  }

  lemma TieAccumulated(e1: int, a: int, b: int, e2: int)
    ensures Accumulated([SimilarItems([e1, a, b], [9, 5, 5]), SimilarItems([e2, b, a], [9, 5, 5])], 2)
            == [ScoredItem(a, 5), ScoredItem(b, 5), ScoredItem(b, 5), ScoredItem(a, 5)]
  {
    var r1, r2 := SimilarItems([e1, a, b], [9, 5, 5]), SimilarItems([e2, b, a], [9, 5, 5]);
    var rs := [r1, r2];
    assert rs[..1] == [r1] && [r1][..0] == [];
    assert TopSimilar(r1.itemIds, 2) == [a, b];
    assert TopSimilar(r2.itemIds, 2) == [b, a];
    assert TopSimilar(r1.scores, 2) == [5, 5];
    assert TopSimilar(r2.scores, 2) == [5, 5];
    assert AccumulatedIds([r1], 2) == [a, b];
    assert AccumulatedScores([r1], 2) == [5, 5];
    assert AccumulatedIds(rs, 2) == AccumulatedIds([r1], 2) + TopSimilar(r2.itemIds, 2);
    assert AccumulatedScores(rs, 2) == AccumulatedScores([r1], 2) + TopSimilar(r2.scores, 2);
    assert AccumulatedIds(rs, 2) == [a, b] + [b, a];
    assert AccumulatedScores(rs, 2) == [5, 5] + [5, 5];
  }

  lemma TieDedup(a: int, b: int)
    requires a != b
    ensures Dedup([a, b, b, a]) == [a, b]
  {
    var p := [a, b, b, a];
    assert p[..3] == [a, b, b] && p[..3][..2] == [a, b] && p[..3][..2][..1] == [a];
    assert [a][..0] == [];
    assert Dedup([a]) == [a];
    assert Dedup([a, b]) == [a, b];
    assert Dedup([a, b, b]) == [a, b];
  }

  /** Items and scores are accumulated separately and zipped only at the
      end, so a response with fewer scores than ids shifts the pairing of
      every later event: here item 2 receives event two's score 7, and item
      3 is dropped. */
  lemma MisalignedExample()
    ensures Accumulated([SimilarItems([0, 1, 2], [9, 5]), SimilarItems([0, 3], [9, 7])], 2)
            == [ScoredItem(1, 5), ScoredItem(2, 7)]
  {
    var r1, r2 := SimilarItems([0, 1, 2], [9, 5]), SimilarItems([0, 3], [9, 7]);
    var rs := [r1, r2];
    assert rs[..1] == [r1] && [r1][..0] == [];
    assert TopSimilar(r1.itemIds, 2) == [1, 2];
    assert TopSimilar(r2.itemIds, 2) == [3];
    assert TopSimilar(r1.scores, 2) == [5];
    assert TopSimilar(r2.scores, 2) == [7];
    assert AccumulatedIds([r1], 2) == [1, 2];
    assert AccumulatedScores([r1], 2) == [5];
    assert AccumulatedIds(rs, 2) == AccumulatedIds([r1], 2) + TopSimilar(r2.itemIds, 2);
    assert AccumulatedScores(rs, 2) == AccumulatedScores([r1], 2) + TopSimilar(r2.scores, 2);
    assert AccumulatedIds(rs, 2) == [1, 2, 3];
    assert AccumulatedScores(rs, 2) == [5, 7];
  }
}
