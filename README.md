# Recommendation aggregation, modelled in Dafny

This project models the aggregation core of a recommendation service. The
service blends two rankings for a user: a precomputed offline list, and an
online list built from the user's recent interaction events and an
item-similarity service. Three sequence algorithms make up the core:

- **`dedup_ids`** drops repeated item ids and keeps each id at its first
  occurrence (module `Deduplication`, file `dedup.dfy`).
- **The online ranking** works on each recent event's similarity response.
  It drops the self-match at index 0 and keeps positions 1 to k. It
  accumulates the ids and the scores over the events, zips them, sorts the
  pairs stably by descending score, projects them to ids and deduplicates
  (modules `Ranking` in `ranking.dfy` and `Online` in `online.dfy`).
- **The blend** interleaves the two lists over the shorter length: even
  positions come from the online list and odd positions from the offline
  list. It then appends the rest of the longer list, deduplicates, and
  truncates to k (module `Blending`, file `blend.dfy`). Module `Service`
  (`service.dfy`) composes the online ranking with the blend, as the
  `recommendations` endpoint does.

`seqs.dfy` (module `Seqs`) holds the shared vocabulary: Python's
`min`/`max`, slicing with non-negative bounds, the first index of a value,
duplicate-freedom, and the set of elements of a list.

The loops the source runs are Dafny methods with loop invariants, each
proved against a specification function:

- `DedupIds` (the comprehension with its growing `seen` set) against `Dedup`.
- `RecommendationsOnline` (the `+=` loop over the events) against `OnlineRecs`.
- `Blend` (the `append` loop, then `extend`) against `Blended`.

The zip, the stable sort, the projection and the slicing are pure
functions. The properties are proved as lemmas about those functions.

Item ids and scores are `int`. Scores are only ever compared. `k` is a
`nat`, so Python's negative-index slicing never arises. Two HTTP calls are
replaced by inputs: the list of recent events, and one similarity response
per event (`responses[i]` answers `events[i]`). The offline list is also an
input, because the offline store's lookup is not part of this model.

Parity of the interleave: the model follows the code's test `i % 2 == 0`,
which takes from the online list. The comments beside that test call these
positions "odd" and the other ones "even". That wording matches counting
positions from 1, not the index `i`.

The pairing of ids with scores: the source accumulates the ids and the
scores in two separate lists and zips them only at the end. The model does
the same. If one response has fewer scores than ids, every later pairing
shifts (`Online.MisalignedExample`). `Online.AccumulatedAligned` proves
that nothing shifts when every response pairs each of its ids with a score.

Only some entries of the two inputs reach the blend. Before position
`min(len(offline), len(online))`:

- an online entry at an odd position is never used;
- an offline entry at an even position is never used.

So the blend's length is `min(k, n)`, where `n` counts the distinct ids of
the interleaved list. That can be smaller than the number of distinct ids in
the two inputs together (`Blending.BlendedPrefix`, `Blending.BlendedShortOffline`).

## Model

| member | source | states |
|---|---|---|
| `Deduplication.DedupIds` | recommendation_service.py:52-59 | the scan with a growing `seen` set returns `Dedup(ids)`: no id twice, and exactly the ids of the input |
| `Deduplication.DedupElements` | recommendation_service.py:54-57 | an id is in the result if and only if it is in the input |
| `Deduplication.DedupDistinct` | recommendation_service.py:56-57 | no id occurs twice in the result |
| `Deduplication.DedupLength` | recommendation_service.py:52-59 | the result is never longer than the input |
| `Deduplication.DedupOfDistinct` | recommendation_service.py:52-59 | a list with no repeated id comes back unchanged |
| `Deduplication.DedupIdempotent` | recommendation_service.py:52-59 | deduplicating twice gives the same list as deduplicating once |
| `Deduplication.DedupOrder` | recommendation_service.py:54-57 | the result lists ids in the order of their first occurrences, so it is the subsequence of the input at the first-occurrence positions |
| `Deduplication.DedupUnique` | recommendation_service.py:54-57 | any list with exactly the input's ids, in first-occurrence order, is the result, so those two properties characterise `dedup_ids` |
| `Deduplication.DedupCount` | recommendation_service.py:52-59 | the result has as many entries as the input has distinct ids |
| `Seqs.Slice` | recommendation_service.py:84-85 | Python's `s[lo:hi]` for non-negative bounds: clamped to the length, empty when `lo` is not below the clamped `hi`, and entry `j` is `s[lo + j]` |
| `Ranking.Zip` | recommendation_service.py:88 | `zip` pairs positions up to the shorter list's length, and position `j` pairs `items[j]` with `scores[j]` |
| `Ranking.SortDescPermutation` | recommendation_service.py:89 | the sorted list is a permutation (same multiset) of the zipped pairs |
| `Ranking.SortDescOrdered` | recommendation_service.py:89 | scores never increase along the sorted list |
| `Ranking.SortDescStable` | recommendation_service.py:89 | for every score, the pairs with that score keep their input order |
| `Ranking.SortDescUnique` | recommendation_service.py:89 | any list that is non-increasing in score and keeps each score's pairs in input order equals the sort, so order plus stability characterise `sorted(..., reverse=True)` |
| `Ranking.BestScore` | recommendation_service.py:89-93 | the best score an id carries among the pairs: some pair has it, and no pair for that id scores higher |
| `Ranking.FirstIsBest` | recommendation_service.py:89-93 | in a sorted list, the first pair for an id carries that id's best score |
| `Online.TopSimilar` | recommendation_service.py:83-85 | a response contributes `[1:k+1]`: at most `k` entries, exactly `min(k, len - 1)` of them when the response is non-empty, and entry `j` is response entry `j + 1`, so the self-match at index 0 is never taken |
| `Online.SelfMatchDropped` | recommendation_service.py:83-85 | a queried item that occurs only at index 0 of its response is not contributed by it |
| `Online.AccumulatedIdsLength` | recommendation_service.py:76-85 | the events together contribute at most `len(events) * k` ids |
| `Online.AccumulatedAppend` | recommendation_service.py:74-85 | accumulation follows event order: a later batch of events' ids and scores come after an earlier batch's |
| `Online.AccumulatedMembers` | recommendation_service.py:76-85 | an id is accumulated exactly when it is among positions 1 to k of some event's response |
| `Online.AccumulatedAligned` | recommendation_service.py:84-88 | when every response has as many scores as ids, the ids and scores accumulate to equal lengths and `zip` keeps every accumulated id |
| `Online.MisalignedExample` | recommendation_service.py:84-88 | a response with fewer scores than ids shifts the pairing of the next event's ids and drops trailing ids |
| `Online.RecommendationsOnline` | recommendation_service.py:74-93 | the loop over the events followed by zip, sort, projection and dedup computes `OnlineRecs`: no id twice, at most `len(events) * k` ids, and `[]` for no events |
| `Online.OnlineLength` | recommendation_service.py:76-93 | the online list has at most `len(events) * k` ids |
| `Online.OnlineDistinct` | recommendation_service.py:93 | the online list has no repeated id |
| `Online.OnlineMembers` | recommendation_service.py:88-93 | an id is recommended if and only if it occurs in a zipped pair |
| `Online.OnlineFromEvents` | recommendation_service.py:76-93 | for responses that pair every id with a score, an id is recommended if and only if it is among positions 1 to k of some event's response |
| `Online.OnlineRankOrder` | recommendation_service.py:88-93 | the recommended ids are ordered by best score, descending. When best scores tie, the id whose best-scoring pair was accumulated first comes first (event order, then response order). So each id stands where its highest-scoring occurrence lands after the stable sort |
| `Online.SelfExclusionExample` | recommendation_service.py:83-85 | response `[(5, 1.0), (7, 0.9), (5, 0.8)]` with `k = 1` (scores scaled to integers) contributes only `(7, 0.9)` and yields `[7]` |
| `Online.TieExample` | recommendation_service.py:76-93 | items 20 and 30 with equal scores from two events come out in the order of the earlier event's response, and in the other order when the events are swapped |
| `Blending.Blend` | recommendation_service.py:109-128 | the interleave loop, the tail `extend`, dedup and `[:k]` compute `Blended`: at most `k` ids, none repeated, each from the offline or the online list |
| `Blending.InterleavedShape` | recommendation_service.py:111-122 | before dedup, the length is the longer list's length. Position `i` below the shorter length holds `online[i]` when `i` is even and `offline[i]` when it is odd. Every later position holds the longer list's entry at that position |
| `Blending.InterleavedSources` | recommendation_service.py:111-122 | every id of the interleaved list comes from the offline or the online list |
| `Blending.BlendedSources` | recommendation_service.py:125-128 | the blend has at most `k` ids, none repeated, each from one of the two lists |
| `Blending.BlendedPrefix` | recommendation_service.py:125-128 | the blend holds `min(k, n)` ids, `n` being the interleaved list's number of distinct ids. They are interleaved ids in first-occurrence order, each occurs before every interleaved id left out, and when `k >= n` no interleaved id is left out |
| `Blending.TruncatedDedup` | recommendation_service.py:125-128 | the first `k` ids of a deduplicated list keep first-occurrence order and come before every id cut off |
| `Blending.BlendedEmpty` | recommendation_service.py:109-128 | two empty lists, or `k = 0`, blend to `[]` |
| `Blending.BlendedOneSided` | recommendation_service.py:119-128 | with an empty online list the blend is the deduplicated offline list cut to `k`, and symmetrically |
| `Blending.BlendedEqualLengths` | recommendation_service.py:111-128 | offline `[o0, o1, o2]` and online `[n0, n1, n2]`, with `n0`, `o1`, `n2` distinct and `k >= 3`, blend to `[n0, o1, n2]` |
| `Blending.BlendedShortOffline` | recommendation_service.py:111-128 | offline `[o0]` and distinct online `[n0, n1, n2]` blend to `[n0, n1, n2][:k]`, so `o0` is never used |
| `Service.Recommendations` | recommendation_service.py:103-128 | the endpoint blends the offline list with the online list computed for the same `k`: at most `k` ids, none repeated, each from one of the two lists. With no events it gives the deduplicated offline list cut to `k` |
| `Service.BlendWithoutOffline` | recommendation_service.py:103-128 | with an empty offline list the endpoint returns the online ranking cut to `k` |

## Left out

- The FastAPI application, routing, `lifespan` and logging (recommendation_service.py:1-38) are server shell and I/O.
- The HTTP requests to the event and similarity services, JSON decoding and error propagation when a service fails (recommendation_service.py:65-71, 79-81) are network I/O. Their results are the inputs `events` and `responses`.
- The offline store `Recommendations` (`load`, `get`, `stats`) is not part of this model. Its lookup with a fallback to the default list is therefore not modelled, and the offline list is an input.
- The request for at most three recent events is made to the event service. The model takes any number of events, so the bound is `len(events) * k`, which is `3k` for three events.
- `async`/`await` (recommendation_service.py:103-104) has no concurrency to model here, so the two lookups are sequential calls.
- Scores are floats in the source. They are only compared, so the model uses integers. NaN ordering is not modelled.
- Negative `k`: `k` is a natural number, so Python's slicing from the end (lines 84-85 and 128) is not modelled.
- test_service.py is a manual client script that posts requests and prints responses. It has no logic of its own.
