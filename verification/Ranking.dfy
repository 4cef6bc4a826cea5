/** The ranking pipeline between the retrieval lanes and the caller: fuse, rerank, apply recency,
    truncate. Scores are exact reals; the exponential is a parameter. */
module Ranking {
  import opened Wrappers
  import opened Common
  import opened Sorting
  import opened Rrf

  datatype Hit = Hit(id: HunkId, ts: int, diffText: string, similarity: real)

  datatype Weights = Weights(rrfK: nat, rerankTopK: nat, recencyWeight: real, halfLifeDays: real)

  type Error = string
  type Reranker = seq<string> -> Result<seq<real>, Error>

  // ---------------------------------------------------------------------------------------------
  // Stages, as functions

  predicate ByScore(a: Hit, b: Hit) {
    a.similarity >= b.similarity
  }

  /** The hits of the ids the table has. */
  function Lookup(ids: seq<HunkId>, byId: map<HunkId, Hit>): seq<Hit> {
    if ids == [] then []
    else (if ids[0] in byId then [byId[ids[0]]] else []) + Lookup(ids[1..], byId)
  }

  /** Numerically stable logistic function. */
  function Sigmoid(x: real, exp: real -> real): real
    requires exp(-x) > 0.0 && exp(x) > 0.0
  {
    if x >= 0.0 then 1.0 / (1.0 + exp(-x)) else exp(x) / (1.0 + exp(x))
  }

  ghost predicate Positive(exp: real -> real) {
    forall x :: exp(x) > 0.0
  }

  /** Each hit with the normalised score at its place; hits beyond the scores are dropped. */
  function Normalised(hits: seq<Hit>, scores: seq<real>, exp: real -> real): seq<Hit>
    requires Positive(exp)
  {
    if hits == [] || scores == [] then []
    else [hits[0].(similarity := Sigmoid(scores[0], exp))] + Normalised(hits[1..], scores[1..], exp)
  }

  function DiffTexts(hits: seq<Hit>): (r: seq<string>)
    ensures |r| == |hits|
  {
    seq(|hits|, i requires 0 <= i < |hits| => hits[i].diffText)
  }

  function CrossEncoded(hits: seq<Hit>, reranker: Reranker, exp: real -> real): Result<seq<Hit>, Error>
    requires Positive(exp)
  {
    if hits == [] then Ok(hits)
    else
      var scores :- reranker(DiffTexts(hits));
      Ok(Sort(Normalised(hits, scores, exp), ByScore))
  }

  /** How much the recency of a hit counts, between 0 and 1. */
  function Recency(h: Hit, halfLifeDays: real, now: int, exp: real -> real): real
    requires halfLifeDays > 0.0
  {
    var ageSeconds := if now < h.ts then 0 else now - h.ts;
    exp(-(ageSeconds as real / 86400.0) / halfLifeDays)
  }

  function Boosted(h: Hit, w: Weights, now: int, exp: real -> real): Hit
    requires w.halfLifeDays > 0.0
  {
    h.(similarity := h.similarity * (1.0 + w.recencyWeight * Recency(h, w.halfLifeDays, now, exp)))
  }

  function BoostedAll(hits: seq<Hit>, w: Weights, now: int, exp: real -> real): (r: seq<Hit>)
    requires w.halfLifeDays > 0.0
    ensures |r| == |hits|
  {
    seq(|hits|, i requires 0 <= i < |hits| => Boosted(hits[i], w, now, exp))
  }

  function Recent(hits: seq<Hit>, w: Weights, now: int, exp: real -> real): seq<Hit>
    requires w.halfLifeDays > 0.0
  {
    Sort(BoostedAll(hits, w, now, exp), ByScore)
  }

  // ---------------------------------------------------------------------------------------------
  // Stages, as the source runs them

  method FuseToPool(rankings: seq<Lane>, byId: map<HunkId, Hit>, rrfK: nat, poolK: nat)
    returns (pool: seq<Hit>)
    ensures exists fused :: IsFused(fused, rankings, rrfK) && pool == Lookup(Take(fused, poolK), byId)
  {
    var ids := ReciprocalRankFusion(rankings, rrfK);
    hide *;
    pool := [];
    var rest := Take(ids, poolK);
    NothingFound([], byId, rest);
    while rest != []
      invariant pool + Lookup(rest, byId) == Lookup(Take(ids, poolK), byId)
      decreases |rest|
    {
      LookupStep(pool, rest, byId);
      if rest[0] in byId {
        pool := pool + [byId[rest[0]]];
      }
      rest := rest[1..];
    }
    NothingFound(pool, byId, []);
    assert IsFused(ids, rankings, rrfK) && pool == Lookup(Take(ids, poolK), byId);
  }

  lemma LookupStep(pool: seq<Hit>, rest: seq<HunkId>, byId: map<HunkId, Hit>)
    requires rest != []
    ensures pool + Lookup(rest, byId)
         == (if rest[0] in byId then pool + [byId[rest[0]]] else pool) + Lookup(rest[1..], byId)
  {
    var head: seq<Hit> := if rest[0] in byId then [byId[rest[0]]] else [];
    assert Lookup(rest, byId) == head + Lookup(rest[1..], byId);
    hide Lookup;
    Associates(pool, head, Lookup(rest[1..], byId));
    assert pool + [] == pool;
  }

  lemma Associates(a: seq<Hit>, b: seq<Hit>, c: seq<Hit>)
    ensures a + (b + c) == a + b + c
  {
  }

  lemma NothingFound(pool: seq<Hit>, byId: map<HunkId, Hit>, rest: seq<HunkId>)
    ensures pool + Lookup([], byId) == pool
    ensures [] + Lookup(rest, byId) == Lookup(rest, byId)
  {
  }

  method CrossEncode(reranker: Reranker, hits: seq<Hit>, exp: real -> real) returns (r: Result<seq<Hit>, Error>)
    requires Positive(exp)
    ensures r == CrossEncoded(hits, reranker, exp)
  {
    if hits == [] {
      return Ok(hits);
    }
    var scores := reranker(DiffTexts(hits));
    if scores.Err? {
      return Err(scores.error);
    }
    var scored: seq<Hit> := [];
    var i := 0;
    assert hits[0..] == hits && scores.value[0..] == scores.value;
    hide Normalised, Sort, Sigmoid;
    while i < |hits| && i < |scores.value|
      invariant 0 <= i <= |hits| && i <= |scores.value|
      invariant scored + Normalised(hits[i..], scores.value[i..], exp) == Normalised(hits, scores.value, exp)
    {
      NormalisedStep(hits, scores.value, exp, i, scored);
      scored := scored + [hits[i].(similarity := Sigmoid(scores.value[i], exp))];
      i := i + 1;
    }
    NormalisedEnd(hits, scores.value, exp, i, scored);
    r := Ok(Sort(scored, ByScore));
  }

  lemma NormalisedStep(hits: seq<Hit>, scores: seq<real>, exp: real -> real, i: nat, scored: seq<Hit>)
    requires Positive(exp) && i < |hits| && i < |scores|
    ensures scored + Normalised(hits[i..], scores[i..], exp)
         == scored + [hits[i].(similarity := Sigmoid(scores[i], exp))] + Normalised(hits[i + 1..], scores[i + 1..], exp)
  {
    var next := hits[i].(similarity := Sigmoid(scores[i], exp));
    assert hits[i..][1..] == hits[i + 1..] && scores[i..][1..] == scores[i + 1..];
    assert Normalised(hits[i..], scores[i..], exp) == [next] + Normalised(hits[i + 1..], scores[i + 1..], exp);
    hide Normalised, Sigmoid;
    Associates(scored, [next], Normalised(hits[i + 1..], scores[i + 1..], exp));
  }

  lemma NormalisedEnd(hits: seq<Hit>, scores: seq<real>, exp: real -> real, i: nat, scored: seq<Hit>)
    requires Positive(exp) && i <= |hits| && i <= |scores| && (i == |hits| || i == |scores|)
    ensures scored + Normalised(hits[i..], scores[i..], exp) == scored
  {
    assert Normalised(hits[i..], scores[i..], exp) == [];
  }

  method ApplyRecency(hits: seq<Hit>, w: Weights, now: int, exp: real -> real) returns (r: seq<Hit>)
    requires w.halfLifeDays > 0.0
    ensures r == Recent(hits, w, now, exp)
  {
    if hits == [] {
      return hits;
    }
    var scored: seq<Hit> := [];
    for i := 0 to |hits|
      invariant scored == BoostedAll(hits, w, now, exp)[..i]
    {
      scored := scored + [Boosted(hits[i], w, now, exp)];
    }
    assert BoostedAll(hits, w, now, exp)[..|hits|] == BoostedAll(hits, w, now, exp);
    r := Sort(scored, ByScore);
  }

  // ---------------------------------------------------------------------------------------------
  // The coordinator

  /** The first hit reported for each id, in lane order. */
  function AddHits(byId: map<HunkId, Hit>, hits: seq<Hit>): map<HunkId, Hit> {
    if hits == [] then byId
    else
      var n := |hits| - 1;
      var before := AddHits(byId, hits[..n]);
      if hits[n].id in before then before else before[hits[n].id := hits[n]]
  }

  function ById(lanes: seq<seq<Hit>>): map<HunkId, Hit> {
    if lanes == [] then map[] else AddHits(ById(lanes[..|lanes| - 1]), lanes[|lanes| - 1])
  }

  function Ids(hits: seq<Hit>): (r: seq<HunkId>)
    ensures |r| == |hits|
  {
    seq(|hits|, i requires 0 <= i < |hits| => hits[i].id)
  }

  function Rankings(lanes: seq<seq<Hit>>): (r: seq<Lane>)
    ensures |r| == |lanes|
  {
    seq(|lanes|, i requires 0 <= i < |lanes| => Ids(lanes[i]))
  }

  /** What the coordinator returns once the lanes have answered and been fused. */
  function Pipeline(fused: seq<HunkId>, byId: map<HunkId, Hit>, w: Weights, reranker: Option<Reranker>, finalK: nat,
                    now: int, exp: real -> real): Result<seq<Hit>, Error>
    requires w.halfLifeDays > 0.0 && Positive(exp)
  {
    var pool := Lookup(Take(fused, w.rerankTopK), byId);
    if pool == [] then Ok([])
    else
      var hits :- if reranker.Some? then CrossEncoded(pool, reranker.value, exp) else Ok(pool);
      Ok(Take(Recent(hits, w, now, exp), finalK))
  }

  function Values(results: seq<Result<seq<Hit>, Error>>): (r: seq<seq<Hit>>)
    requires forall i :: 0 <= i < |results| ==> results[i].Ok?
    ensures |r| == |results|
  {
    seq(|results|, i requires 0 <= i < |results| => results[i].value)
  }

  /** `run`, from the lanes' answers on. */
  method Run(results: seq<Result<seq<Hit>, Error>>, w: Weights, reranker: Option<Reranker>, finalK: nat, now: int,
             exp: real -> real)
    returns (r: Result<seq<Hit>, Error>)
    requires w.halfLifeDays > 0.0 && Positive(exp)
    ensures (exists i :: 0 <= i < |results| && results[i].Err?) ==>
              exists i :: 0 <= i < |results| && results[i].Err? && r == Err(results[i].error)
                          && forall j :: 0 <= j < i ==> results[j].Ok?
    ensures (forall i :: 0 <= i < |results| ==> results[i].Ok?) ==>
              var lanes := Values(results);
              exists fused :: IsFused(fused, Rankings(lanes), w.rrfK)
                              && r == Pipeline(fused, ById(lanes), w, reranker, finalK, now, exp)
  {
    var byId: map<HunkId, Hit> := map[];
    var rankings: seq<Lane> := [];
    ghost var lanes: seq<seq<Hit>> := [];
    for l := 0 to |results|
      invariant forall i :: 0 <= i < l ==> results[i].Ok?
      invariant lanes == Values(results[..l])
      invariant byId == ById(lanes) && rankings == Rankings(lanes)
    {
      if results[l].Err? {
        return Err(results[l].error);
      }
      var hits := results[l].value;
      var ranking: Lane := [];
      ghost var byId0 := byId;
      assert hits[..0] == [];
      for i := 0 to |hits|
        invariant byId == AddHits(byId0, hits[..i])
        invariant ranking == Ids(hits)[..i]
      {
        assert hits[..i + 1][..i] == hits[..i];
        if hits[i].id !in byId {
          byId := byId[hits[i].id := hits[i]];
        }
        ranking := ranking + [hits[i].id];
      }
      assert hits[..|hits|] == hits && ranking == Ids(hits);
      rankings := rankings + [ranking];
      assert (lanes + [hits])[..|lanes|] == lanes;
      lanes := lanes + [hits];
    }
    assert results[..|results|] == results;
    var pool := FuseToPool(rankings, byId, w.rrfK, w.rerankTopK);
    if pool == [] {
      return Ok([]);
    }
    var hits := pool;
    if reranker.Some? {
      var encoded := CrossEncode(reranker.value, hits, exp);
      if encoded.Err? {
        return Err(encoded.error);
      }
      hits := encoded.value;
    }
    hits := ApplyRecency(hits, w, now, exp);
    r := Ok(Take(hits, finalK));
  }
}
