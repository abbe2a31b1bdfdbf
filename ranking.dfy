/** The pure middle of the online ranking: pairing ids with scores as
    Python's `zip` does, and `sorted(..., key=score, reverse=True)`, which is
    a stable sort by descending score. `SortDesc` is the specification,
    an insertion sort that takes the entries in input order; its lemmas
    prove it ordered, a permutation and stable, and that these three
    properties determine it. */
module Ranking {
  import opened Seqs

  /** One entry of a similarity response: an item id with its similarity
      score. Scores are only compared, never computed. */
  datatype ScoredItem = ScoredItem(id: int, score: int)

  /** Python's `zip`: pairs up positions until the shorter list ends. */
  function Zip(items: seq<int>, scores: seq<int>): (r: seq<ScoredItem>)
    ensures |r| == Min(|items|, |scores|)
    ensures forall j :: 0 <= j < |r| ==> r[j] == ScoredItem(items[j], scores[j])
  {
    if items == [] || scores == [] then []
    else [ScoredItem(items[0], scores[0])] + Zip(items[1..], scores[1..])
  }

  /** The item ids of `ps`, in order: `[item for item, _ in combined]`. */
  function Ids(ps: seq<ScoredItem>): seq<int> {
    seq(|ps|, j requires 0 <= j < |ps| => ps[j].id)
  }

  /** Scores never increase along `s`. */
  predicate NonIncreasing(s: seq<ScoredItem>) {
    forall i, j :: 0 <= i < j < |s| ==> s[i].score >= s[j].score
  }

  /** Places `x` after the leading entries that score at least as high. */
  function Insert(s: seq<ScoredItem>, x: ScoredItem): seq<ScoredItem> {
    if s == [] || s[0].score < x.score then [x] + s
    else [s[0]] + Insert(s[1..], x)
  }

  /** Stable sort by descending score: each entry, taken in input order,
      goes after every entry already placed with a score at least its own. */
  function SortDesc(ps: seq<ScoredItem>): seq<ScoredItem> {
    if ps == [] then []
    else Insert(SortDesc(ps[..|ps| - 1]), ps[|ps| - 1])
  }

  /** The entries of `s` whose score is `v`, in their order in `s`. */
  function WithScore(s: seq<ScoredItem>, v: int): seq<ScoredItem> {
    if s == [] then []
    else WithScore(s[..|s| - 1], v) + (if s[|s| - 1].score == v then [s[|s| - 1]] else [])
  }

  lemma {:induction false} InsertPermutation(s: seq<ScoredItem>, x: ScoredItem)
    ensures multiset(Insert(s, x)) == multiset(s) + multiset{x}
  {
    if s != [] && s[0].score >= x.score {
      InsertPermutation(s[1..], x);
      assert s == [s[0]] + s[1..];
    }
  }

  /** An upper bound on every score of `s` and on `x` bounds `Insert(s, x)`. */
  lemma {:induction false} InsertBounded(s: seq<ScoredItem>, x: ScoredItem, c: int)
    requires forall i :: 0 <= i < |s| ==> s[i].score <= c
    requires x.score <= c
    ensures forall i :: 0 <= i < |Insert(s, x)| ==> Insert(s, x)[i].score <= c
  {
    if s != [] && s[0].score >= x.score {
      InsertBounded(s[1..], x, c);
    }
  }

  lemma {:induction false} InsertOrdered(s: seq<ScoredItem>, x: ScoredItem)
    requires NonIncreasing(s)
    ensures NonIncreasing(Insert(s, x))
  {
    if s != [] && s[0].score >= x.score {
      var t := s[1..];
      assert NonIncreasing(t);
      InsertOrdered(t, x);
      InsertBounded(t, x, s[0].score);
      var r := Insert(t, x);
      var w := [s[0]] + r;
      assert Insert(s, x) == w;
      forall i, j | 0 <= i < j < |w| ensures w[i].score >= w[j].score {
        assert w[j] == r[j - 1];
        if i > 0 {
          assert w[i] == r[i - 1];
        }
      }
    }
  }

  /** The sorted list is a permutation of the input. */
  lemma {:induction false} SortDescPermutation(ps: seq<ScoredItem>)
    ensures multiset(SortDesc(ps)) == multiset(ps)
    ensures |SortDesc(ps)| == |ps|
  {
    if ps != [] {
      var t := ps[..|ps| - 1];
      SortDescPermutation(t);
      InsertPermutation(SortDesc(t), ps[|ps| - 1]);
      assert ps == t + [ps[|ps| - 1]];
      assert |multiset(SortDesc(ps))| == |multiset(ps)|;
    }
  }

  /** Scores in the sorted list never increase. */
  lemma {:induction false} SortDescOrdered(ps: seq<ScoredItem>)
    ensures NonIncreasing(SortDesc(ps))
  {
    if ps != [] {
      var t := ps[..|ps| - 1];
      SortDescOrdered(t);
      InsertOrdered(SortDesc(t), ps[|ps| - 1]);
    }
  }

  lemma {:induction false} WithScoreAppend(a: seq<ScoredItem>, b: seq<ScoredItem>, v: int)
    ensures WithScore(a + b, v) == WithScore(a, v) + WithScore(b, v)
    decreases |b|
  {
    if b != [] {
      var b' := b[..|b| - 1];
      WithScoreAppend(a, b', v);
      assert (a + b)[..|a + b| - 1] == a + b';
    } else {
      assert a + b == a;
    }
  }

  /** No entry of `s` scores `v`, so none is selected. */
  lemma {:induction false} WithScoreNone(s: seq<ScoredItem>, v: int)
    requires forall i :: 0 <= i < |s| ==> s[i].score != v
    ensures WithScore(s, v) == []
  {
    if s != [] {
      WithScoreNone(s[..|s| - 1], v);
    }
  }

  lemma WithScoreSingle(x: ScoredItem, v: int)
    ensures WithScore([x], v) == (if x.score == v then [x] else [])
  {
    assert [x][..0] == [];
  }

  /** Inserting into a sorted list puts `x` after every entry of equal score. */
  lemma {:induction false} InsertWithScore(s: seq<ScoredItem>, x: ScoredItem, v: int)
    requires NonIncreasing(s)
    ensures WithScore(Insert(s, x), v) == WithScore(s, v) + WithScore([x], v)
  {
    if s == [] || s[0].score < x.score {
      InsertFrontWithScore(s, x, v);
    } else {
      var t := s[1..];
      assert NonIncreasing(t);
      InsertWithScore(t, x, v);
      assert Insert(s, x) == [s[0]] + Insert(t, x);
      WithScoreAppend([s[0]], Insert(t, x), v);
      WithScoreAppend([s[0]], t, v);
      assert s == [s[0]] + t;
    }
  }

  /** When `x` outscores the head of a sorted list, no entry of the list
      shares its score. */
  lemma {:induction false} InsertFrontWithScore(s: seq<ScoredItem>, x: ScoredItem, v: int)
    requires NonIncreasing(s)
    requires s == [] || s[0].score < x.score
    ensures WithScore([x] + s, v) == WithScore(s, v) + WithScore([x], v)
  {
    WithScoreAppend([x], s, v);
    WithScoreSingle(x, v);
    if x.score == v {
      forall i | 0 <= i < |s| ensures s[i].score != v {
        assert s[0].score >= s[i].score;
      }
      WithScoreNone(s, v);
      assert WithScore(s, v) + WithScore([x], v) == [x];
      assert WithScore([x], v) + WithScore(s, v) == [x];
    } else {
      assert WithScore([x], v) == [];
      assert WithScore([x], v) + WithScore(s, v) == WithScore(s, v);
      assert WithScore(s, v) + WithScore([x], v) == WithScore(s, v);
    }
  }

  /** Stability: the entries of each score keep their input order. */
  lemma {:induction false} SortDescStable(ps: seq<ScoredItem>, v: int)
    ensures WithScore(SortDesc(ps), v) == WithScore(ps, v)
  {
    if ps != [] {
      var t, last := ps[..|ps| - 1], ps[|ps| - 1];
      SortDescStable(t, v);
      SortDescOrdered(t);
      InsertWithScore(SortDesc(t), last, v);
      WithScoreSingle(last, v);
    }
  }

  lemma {:induction false} WithScoreMembers(s: seq<ScoredItem>, v: int)
    ensures forall x :: x in WithScore(s, v) <==> x in s && x.score == v
  {
    if s != [] {
      var t := s[..|s| - 1];
      WithScoreMembers(t, v);
      assert s == t + [s[|s| - 1]];
    }
  }

  lemma {:induction false} WithScoreFront(s: seq<ScoredItem>, v: int)
    requires s != []
    ensures WithScore(s, v) == WithScore([s[0]], v) + WithScore(s[1..], v)
  {
    WithScoreAppend([s[0]], s[1..], v);
    assert s == [s[0]] + s[1..];
  }

  /** The head of a non-empty sorted list scores at least as high as any
      entry of the list. */
  lemma HeadIsMax(s: seq<ScoredItem>, y: ScoredItem)
    requires NonIncreasing(s) && y in s
    ensures s[0].score >= y.score
  {
    var j :| 0 <= j < |s| && s[j] == y;
    assert j == 0 || s[0].score >= s[j].score;
  }

  /** Two sorted lists that agree, score by score, on which entries they
      hold and in which order, are equal. */
  lemma {:induction false} StableOrderUnique(r: seq<ScoredItem>, q: seq<ScoredItem>)
    requires NonIncreasing(r) && NonIncreasing(q)
    requires forall v :: WithScore(r, v) == WithScore(q, v)
    ensures r == q
    decreases |r|
  {
    if r == [] && q == [] {
    } else if r == [] {
      NonEmptyHasScore(q);
      assert false;
    } else if q == [] {
      NonEmptyHasScore(r);
      assert false;
    } else {
      HeadsAgree(r, q);
      forall v ensures WithScore(r[1..], v) == WithScore(q[1..], v) {
        TailsAgree(r, q, v);
      }
      assert NonIncreasing(r[1..]) && NonIncreasing(q[1..]);
      StableOrderUnique(r[1..], q[1..]);
      assert r == [r[0]] + r[1..] && q == [q[0]] + q[1..];
    }
  }

  lemma NonEmptyHasScore(s: seq<ScoredItem>)
    requires s != []
    ensures WithScore(s, s[0].score) != []
  {
    var h := s[0];
    WithScoreMembers(s, h.score);
    assert h in s;
    assert h in WithScore(s, h.score);
  }

  /** Two sorted lists that agree score by score start with the same entry. */
  lemma HeadsAgree(r: seq<ScoredItem>, q: seq<ScoredItem>)
    requires r != [] && q != []
    requires NonIncreasing(r) && NonIncreasing(q)
    requires forall v :: WithScore(r, v) == WithScore(q, v)
    ensures r[0] == q[0]
  {
    var hr, hq := r[0], q[0];
    var m := hr.score;
    WithScoreMembers(r, m);
    WithScoreMembers(q, m);
    WithScoreMembers(r, hq.score);
    WithScoreMembers(q, hq.score);
    assert hr in r && hq in q;
    assert WithScore(r, m) == WithScore(q, m);
    assert WithScore(r, hq.score) == WithScore(q, hq.score);
    assert hr in WithScore(q, m);
    assert hq in WithScore(r, hq.score);
    HeadIsMax(q, hr);
    HeadIsMax(r, hq);
    assert hq.score == m;
    WithScoreFront(r, m);
    WithScoreFront(q, m);
    WithScoreSingle(hr, m);
    WithScoreSingle(hq, m);
    assert [hr] + WithScore(r[1..], m) == [hq] + WithScore(q[1..], m);
    assert hr == ([hr] + WithScore(r[1..], m))[0];
  }

  lemma {:induction false} TailsAgree(r: seq<ScoredItem>, q: seq<ScoredItem>, v: int)
    requires r != [] && q != [] && r[0] == q[0]
    requires WithScore(r, v) == WithScore(q, v)
    ensures WithScore(r[1..], v) == WithScore(q[1..], v)
  {
    var h := r[0];
    WithScoreFront(r, v);
    WithScoreFront(q, v);
    WithScoreSingle(h, v);
    var wr, wq := WithScore(r[1..], v), WithScore(q[1..], v);
    if h.score == v {
      assert [h] + wr == [h] + wq;
      assert ([h] + wr)[1..] == wr;
      assert ([h] + wq)[1..] == wq;
    } else {
      assert WithScore(r, v) == wr;
      assert WithScore(q, v) == wq;
    }
  }

  /** `SortDesc` is the only stable descending order: any list sorted by
      descending score whose entries of each score are those of `ps` in
      their input order is `SortDesc(ps)`. */
  lemma SortDescUnique(ps: seq<ScoredItem>, r: seq<ScoredItem>)
    requires NonIncreasing(r)
    requires forall v :: WithScore(r, v) == WithScore(ps, v)
    ensures r == SortDesc(ps)
  {
    SortDescOrdered(ps);
    forall v ensures WithScore(r, v) == WithScore(SortDesc(ps), v) {
      SortDescStable(ps, v);
    }
    StableOrderUnique(r, SortDesc(ps));
  }

  /** The highest score any entry for `x` carries in `ps`. */
  function BestScore(ps: seq<ScoredItem>, x: int): (b: int)
    requires x in Ids(ps)
    ensures ScoredItem(x, b) in ps
    ensures forall j :: 0 <= j < |ps| && ps[j].id == x ==> ps[j].score <= b
  {
    var rest := ps[1..];
    assert Ids(ps) == [ps[0].id] + Ids(rest);
    assert forall j :: 1 <= j < |ps| ==> ps[j] == rest[j - 1] && Ids(rest)[j - 1] == ps[j].id;
    if ps[0].id == x && (x !in Ids(ps[1..]) || BestScore(ps[1..], x) <= ps[0].score) then
      ps[0].score
    else
      BestScore(ps[1..], x)
  }

  /** In a sorted list, the first entry for an id carries its best score. */
  lemma FirstIsBest(s: seq<ScoredItem>, x: int)
    requires NonIncreasing(s) && x in Ids(s)
    ensures s[IndexOf(Ids(s), x)] == ScoredItem(x, BestScore(s, x))
  {
    var p := IndexOf(Ids(s), x);
    var b := BestScore(s, x);
    var j :| 0 <= j < |s| && s[j] == ScoredItem(x, b);
    assert Ids(s)[j] == x;
    assert p <= j;
    assert s[p].score >= s[j].score;
  }

  /** Reordering entries does not change any id's best score. */
  lemma BestScorePermutation(s: seq<ScoredItem>, z: seq<ScoredItem>, x: int)
    requires multiset(s) == multiset(z)
    requires x in Ids(s)
    ensures x in Ids(z) && BestScore(s, x) == BestScore(z, x)
  {
    var bs := ScoredItem(x, BestScore(s, x));
    assert bs in multiset(z);
    var j :| 0 <= j < |z| && z[j] == bs;
    assert Ids(z)[j] == x;
    var bz := ScoredItem(x, BestScore(z, x));
    assert bz in multiset(s);
    var i :| 0 <= i < |s| && s[i] == bz;
  }

  /** Selecting the entries of one score keeps their relative order. */
  lemma {:induction false} WithScoreOrder(s: seq<ScoredItem>, a: ScoredItem, b: ScoredItem)
    requires a in s && b in s && a.score == b.score
    requires IndexOf(s, a) < IndexOf(s, b)
    ensures a in WithScore(s, a.score) && b in WithScore(s, a.score)
    ensures IndexOf(WithScore(s, a.score), a) < IndexOf(WithScore(s, a.score), b)
  {
    var v := a.score;
    var n := |s| - 1;
    var t, y := s[..n], s[n];
    WithScoreMembers(s, v);
    WithScoreMembers(t, v);
    var ws, wt := WithScore(s, v), WithScore(t, v);
    assert ws == wt + (if y.score == v then [y] else []);
    assert wt == ws[..|wt|];
    var ia := IndexOf(s, a);
    assert ia < n;
    assert t[ia] == a;
    assert a in t && a in wt;
    IndexOfPrefix(ws, |wt|, a);
    if b in t {
      IndexOfPrefix(s, n, a);
      IndexOfPrefix(s, n, b);
      WithScoreOrder(t, a, b);
      IndexOfPrefix(ws, |wt|, b);
    } else {
      assert b == y;
      assert b !in wt;
      IndexOfIs(ws, b, |wt|);
    }
  }

  /** Conversely, order among the selected entries is their order in `s`. */
  lemma WithScoreOrderBack(s: seq<ScoredItem>, a: ScoredItem, b: ScoredItem)
    requires a in s && b in s && a.score == b.score && a != b
    requires a in WithScore(s, a.score) && b in WithScore(s, a.score)
    requires IndexOf(WithScore(s, a.score), a) < IndexOf(WithScore(s, a.score), b)
    ensures IndexOf(s, a) < IndexOf(s, b)
  {
    if IndexOf(s, b) < IndexOf(s, a) {
      WithScoreOrder(s, b, a);
      assert false;
    }
  }
}
