/** `recommendations`: the user's offline list, looked up elsewhere and
    given here as an input, blended with the online list computed from the
    user's recent events and their similarity responses, with the same `k`
    for both. */
module Service {
  import opened Seqs
  import opened Deduplication
  import opened Online
  import opened Blending

  method Recommendations(offline: seq<int>, events: seq<int>, responses: seq<SimilarItems>, k: nat)
    returns (recs: seq<int>)
    requires |responses| == |events|
    ensures recs == Blended(offline, OnlineRecs(responses, k), k)
    ensures |recs| <= k && Distinct(recs)
    ensures forall x :: x in recs ==> x in offline || x in OnlineRecs(responses, k)
    ensures events == [] ==> recs == Slice(Dedup(offline), 0, k)
  {
    var online := RecommendationsOnline(events, responses, k);
    recs := Blend(offline, online, k);
    BlendedOneSided(offline, online, k);
  }

  /** With an empty offline list the blend is the online ranking cut to
      `k`: the online list has no duplicates, so nothing else is lost. */
  lemma BlendWithoutOffline(responses: seq<SimilarItems>, k: nat)
    ensures Blended([], OnlineRecs(responses, k), k) == Slice(OnlineRecs(responses, k), 0, k)
  {
    var online := OnlineRecs(responses, k);
    OnlineDistinct(responses, k);
    DedupOfDistinct(online);
    BlendedOneSided([], online, k);
  }
}
