/** Whose score each returned hit carries: that of its own text, times that of its own age. */
module RankingScores {
  import opened Wrappers
  import opened Common
  import opened Sorting
  import opened Rrf
  import opened Ranking
  import opened RankingLaws

  /** The reranker answers, for every list of texts, the score of each text at the text's place. */
  ghost predicate ScoresTexts(reranker: Reranker, score: string -> real) {
    forall texts: seq<string> ::
      && reranker(texts).Ok? && |reranker(texts).value| == |texts|
      && forall i :: 0 <= i < |texts| ==> reranker(texts).value[i] == score(texts[i])
  }

  /** The candidate with the score of its own text, mapped into (0, 1). */
  function OwnScore(h: Hit, score: string -> real, exp: real -> real): Hit
    requires Positive(exp)
  {
    h.(similarity := 1.0 / (1.0 + exp(-score(h.diffText))))
  }

  /** The hit with its score multiplied by one plus the weighted decay of its own age in days. */
  function OwnAge(h: Hit, w: Weights, now: int, exp: real -> real): Hit
    requires w.halfLifeDays > 0.0
  {
    var days := (if h.ts <= now then (now - h.ts) as real else 0.0) / 86400.0;
    h.(similarity := h.similarity * (1.0 + w.recencyWeight * exp(-days / w.halfLifeDays)))
  }

  function OwnScores(hits: seq<Hit>, score: string -> real, exp: real -> real): (r: seq<Hit>)
    requires Positive(exp)
    ensures |r| == |hits|
  {
    seq(|hits|, i requires 0 <= i < |hits| => OwnScore(hits[i], score, exp))
  }

  function OwnAges(hits: seq<Hit>, w: Weights, now: int, exp: real -> real): (r: seq<Hit>)
    requires w.halfLifeDays > 0.0
    ensures |r| == |hits|
  {
    seq(|hits|, i requires 0 <= i < |hits| => OwnAge(hits[i], w, now, exp))
  }

  predicate BestFirst(hits: seq<Hit>) {
    forall i, j :: 0 <= i < j < |hits| ==> hits[i].similarity >= hits[j].similarity
  }

  lemma SortedIsBestFirst(s: seq<Hit>)
    ensures multiset(Sort(s, ByScore)) == multiset(s) && BestFirst(Sort(s, ByScore))
  {
    hide Sort;
    ByScoreIsTotal();
    SortSorted(s, ByScore);
    SortElements(s, ByScore);
    var sorted := Sort(s, ByScore);
    assert forall i, j :: 0 <= i < j < |sorted| ==> ByScore(sorted[i], sorted[j]);
  }

  lemma ScoreOfText(h: Hit, x: real, score: string -> real, exp: real -> real)
    requires IsExp(exp) && x == score(h.diffText)
    ensures h.(similarity := Sigmoid(x, exp)) == OwnScore(h, score, exp)
  {
    SigmoidForm(x, exp);
  }

  lemma ScoresOfTexts(hits: seq<Hit>, reranker: Reranker, score: string -> real, exp: real -> real)
    requires IsExp(exp) && ScoresTexts(reranker, score)
    ensures reranker(DiffTexts(hits)).Ok?
    ensures Normalised(hits, reranker(DiffTexts(hits)).value, exp) == OwnScores(hits, score, exp)
  {
    var scores := reranker(DiffTexts(hits)).value;
    NormalisedIds(hits, scores, exp);
    forall i | 0 <= i < |hits|
      ensures Normalised(hits, scores, exp)[i] == OwnScores(hits, score, exp)[i]
    {
      hide Normalised, Sigmoid, OwnScore, ScoresTexts, IsExp;
      TextAt(hits, reranker, score, i);
      ScoreOfText(hits[i], scores[i], score, exp);
    }
  }

  lemma TextAt(hits: seq<Hit>, reranker: Reranker, score: string -> real, i: nat)
    requires ScoresTexts(reranker, score) && i < |hits|
    ensures var r := reranker(DiffTexts(hits));
            r.Ok? && |r.value| == |hits| && r.value[i] == score(hits[i].diffText)
  {
    var texts := DiffTexts(hits);
    assert texts[i] == hits[i].diffText;
    assert reranker(texts).value[i] == score(texts[i]);
  }

  /** Cross-encoding gives every candidate the score of its own text, loses and adds none, and puts the
      best first. */
  lemma EachIsScoredByItsOwnText(hits: seq<Hit>, reranker: Reranker, score: string -> real, exp: real -> real)
    requires IsExp(exp) && ScoresTexts(reranker, score)
    ensures var r := CrossEncoded(hits, reranker, exp);
            r.Ok? && multiset(r.value) == multiset(OwnScores(hits, score, exp)) && BestFirst(r.value)
  {
    if hits != [] {
      ScoresOfTexts(hits, reranker, score, exp);
      hide Sort, Normalised, DiffTexts, ByScore, OwnScores, ScoresTexts, BestFirst, IsExp;
      SortedIsBestFirst(OwnScores(hits, score, exp));
    }
  }

  lemma BoostOfAge(h: Hit, w: Weights, now: int, exp: real -> real)
    requires w.halfLifeDays > 0.0
    ensures Boosted(h, w, now, exp) == OwnAge(h, w, now, exp)
  {
    var days := (if h.ts <= now then (now - h.ts) as real else 0.0) / 86400.0;
    assert Recency(h, w.halfLifeDays, now, exp) == exp(-days / w.halfLifeDays);
  }

  /** The recency stage gives every hit the boost of its own age, loses and adds none, and puts the best
      first. */
  lemma EachIsAgedByItsOwnTime(hits: seq<Hit>, w: Weights, now: int, exp: real -> real)
    requires w.halfLifeDays > 0.0
    ensures var r := Recent(hits, w, now, exp);
            multiset(r) == multiset(OwnAges(hits, w, now, exp)) && BestFirst(r)
  {
    forall i | 0 <= i < |hits|
      ensures BoostedAll(hits, w, now, exp)[i] == OwnAges(hits, w, now, exp)[i]
    {
      BoostOfAge(hits[i], w, now, exp);
    }
    assert BoostedAll(hits, w, now, exp) == OwnAges(hits, w, now, exp) by {
      hide Boosted, OwnAge;
    }
    hide Sort, ByScore, OwnAges, BestFirst, BoostedAll;
    SortedIsBestFirst(OwnAges(hits, w, now, exp));
  }

  lemma ScoredFrom(hits: seq<Hit>, score: string -> real, exp: real -> real, out: Hit) returns (h: Hit)
    requires Positive(exp) && out in multiset(OwnScores(hits, score, exp))
    ensures h in hits && out == OwnScore(h, score, exp)
  {
    var scored := OwnScores(hits, score, exp);
    var i :| 0 <= i < |scored| && scored[i] == out;
    h := hits[i];
  }

  lemma AgedFrom(hits: seq<Hit>, w: Weights, now: int, exp: real -> real, out: Hit) returns (h: Hit)
    requires w.halfLifeDays > 0.0 && out in multiset(OwnAges(hits, w, now, exp))
    ensures h in hits && out == OwnAge(h, w, now, exp)
  {
    var aged := OwnAges(hits, w, now, exp);
    var i :| 0 <= i < |aged| && aged[i] == out;
    h := hits[i];
  }

  // ---------------------------------------------------------------------------------------------
  // The hit of an id

  /** No lane before reports the id of this hit, nor does its own lane before it. */
  ghost predicate IsFirst(lanes: seq<seq<Hit>>, l: nat, i: nat) {
    && l < |lanes| && i < |lanes[l]|
    && (forall m, j :: 0 <= m < l && 0 <= j < |lanes[m]| ==> lanes[m][j].id != lanes[l][i].id)
    && (forall j :: 0 <= j < i ==> lanes[l][j].id != lanes[l][i].id)
  }

  lemma {:induction false} AddedHit(byId: map<HunkId, Hit>, hits: seq<Hit>, id: HunkId) returns (i: nat)
    requires id in AddHits(byId, hits) && id !in byId
    ensures i < |hits| && hits[i].id == id && AddHits(byId, hits)[id] == hits[i]
    ensures forall j :: 0 <= j < i ==> hits[j].id != id
    decreases |hits|
  {
    var n := |hits| - 1;
    if id in AddHits(byId, hits[..n]) {
      i := AddedHit(byId, hits[..n], id);
    } else {
      i := n;
      NoneAdded(byId, hits[..n], id);
    }
  }

  lemma {:induction false} NoneAdded(byId: map<HunkId, Hit>, hits: seq<Hit>, id: HunkId)
    requires id !in AddHits(byId, hits)
    ensures id !in byId && forall j :: 0 <= j < |hits| ==> hits[j].id != id
    decreases |hits|
  {
    if hits != [] {
      NoneAdded(byId, hits[..|hits| - 1], id);
    }
  }

  lemma {:induction false} NoLaneHas(lanes: seq<seq<Hit>>, id: HunkId)
    requires id !in ById(lanes)
    ensures forall m, j :: 0 <= m < |lanes| && 0 <= j < |lanes[m]| ==> lanes[m][j].id != id
    decreases |lanes|
  {
    if lanes != [] {
      var n := |lanes| - 1;
      NoneAdded(ById(lanes[..n]), lanes[n], id);
      NoLaneHas(lanes[..n], id);
    }
  }

  /** The table holds for each id the first hit that any lane reports for it. */
  lemma {:induction false} TableHoldsFirstHits(lanes: seq<seq<Hit>>, id: HunkId) returns (l: nat, i: nat)
    requires id in ById(lanes)
    ensures IsFirst(lanes, l, i) && lanes[l][i].id == id && ById(lanes)[id] == lanes[l][i]
    decreases |lanes|
  {
    var n := |lanes| - 1;
    if id in ById(lanes[..n]) {
      ByIdIds(lanes[..n]);
      AddHitsIds(ById(lanes[..n]), lanes[n]);
      l, i := TableHoldsFirstHits(lanes[..n], id);
    } else {
      NoLaneHas(lanes[..n], id);
      l := n;
      i := AddedHit(ById(lanes[..n]), lanes[n], id);
    }
  }

  lemma {:induction false} LookedUp(ids: seq<HunkId>, byId: map<HunkId, Hit>, h: Hit) returns (id: HunkId)
    requires h in Lookup(ids, byId)
    ensures id in ids && id in byId && byId[id] == h
  {
    if ids[0] in byId && byId[ids[0]] == h {
      id := ids[0];
    } else {
      id := LookedUp(ids[1..], byId, h);
    }
  }

  // ---------------------------------------------------------------------------------------------
  // The answer

  /** Every returned hit is the first hit the lanes report for its id, scored by the reranker's score of its
      own text, or without a reranker by its lane, and boosted by its own age. */
  lemma ReturnedHitsCarryTheirOwnScores(fused: seq<HunkId>, lanes: seq<seq<Hit>>, w: Weights,
                                        reranker: Option<Reranker>, score: string -> real, finalK: nat, now: int,
                                        exp: real -> real, out: Hit)
    returns (l: nat, i: nat)
    requires w.halfLifeDays > 0.0 && IsExp(exp) && (reranker.Some? ==> ScoresTexts(reranker.value, score))
    requires Pipeline(fused, ById(lanes), w, reranker, finalK, now, exp).Ok?
    requires out in Pipeline(fused, ById(lanes), w, reranker, finalK, now, exp).value
    ensures IsFirst(lanes, l, i) && lanes[l][i].id in Take(fused, w.rerankTopK)
    ensures out == OwnAge(if reranker.Some? then OwnScore(lanes[l][i], score, exp) else lanes[l][i], w, now, exp)
  {
    assert Positive(exp);
    hide CrossEncoded, Recent, ById, Lookup, IsFirst, OwnAge, OwnAges, OwnScore, OwnScores, ScoresTexts, IsExp, Positive,
         BestFirst;
    var pool := Lookup(Take(fused, w.rerankTopK), ById(lanes));
    var hits := Reranked(pool, reranker, exp).value;
    EachIsAgedByItsOwnTime(hits, w, now, exp);
    assert out in multiset(Recent(hits, w, now, exp));
    var scored := AgedFrom(hits, w, now, exp, out);
    var h := scored;
    if reranker.Some? {
      EachIsScoredByItsOwnText(pool, reranker.value, score, exp);
      assert scored in multiset(hits);
      h := ScoredFrom(pool, score, exp, scored);
    }
    var id := LookedUp(Take(fused, w.rerankTopK), ById(lanes), h);
    l, i := TableHoldsFirstHits(lanes, id);
  }

  /** A candidate that is not returned scores no higher than any that is, and the answer is full. */
  lemma UnreturnedScoreNoHigher(hits: seq<Hit>, w: Weights, now: int, exp: real -> real, finalK: nat, h: Hit)
    requires w.halfLifeDays > 0.0 && h in hits
    ensures var out, own := Take(Recent(hits, w, now, exp), finalK), OwnAge(h, w, now, exp);
            own in out || (|out| == finalK && forall o :: o in out ==> o.similarity >= own.similarity)
  {
    hide Recent, OwnAge;
    EachIsAgedByItsOwnTime(hits, w, now, exp);
    var ranked, own := Recent(hits, w, now, exp), OwnAge(h, w, now, exp);
    var j :| 0 <= j < |hits| && hits[j] == h;
    assert OwnAges(hits, w, now, exp)[j] == own;
    assert own in multiset(ranked);
    hide OwnAges;
    var i :| 0 <= i < |ranked| && ranked[i] == own;
    var out := Take(ranked, finalK);
    if i < |out| {
      assert out[i] == own;
    } else {
      assert forall k :: 0 <= k < |out| ==> out[k] == ranked[k] && ranked[k].similarity >= own.similarity;
    }
  }
}
