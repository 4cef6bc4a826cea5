/** What the ranking pipeline guarantees about the hits it returns. */
module RankingLaws {
  import opened Wrappers
  import opened Common
  import opened Sorting
  import opened Rrf
  import opened RrfLaws
  import opened Ranking

  // ---------------------------------------------------------------------------------------------
  // The score of a reranked hit

  /** What the source's exponential is taken to be. */
  ghost predicate IsExp(exp: real -> real) {
    && Positive(exp)
    && exp(0.0) == 1.0
    && (forall x, y :: x < y ==> exp(x) < exp(y))
    && (forall x :: exp(x) * exp(-x) == 1.0)
  }

  lemma SigmoidForm(x: real, exp: real -> real)
    requires IsExp(exp)
    ensures Sigmoid(x, exp) == 1.0 / (1.0 + exp(-x))
  {
    if x < 0.0 {
      var a, b := exp(x), exp(-x);
      assert a * b == 1.0;
      OddsForm(a, b);
    }
  }

  lemma OddsForm(a: real, b: real)
    requires a > 0.0 && b > 0.0 && a * b == 1.0
    ensures a / (1.0 + a) == 1.0 / (1.0 + b)
  {
    assert a * (1.0 + b) == 1.0 + a;
    var p, q := a / (1.0 + a), 1.0 / (1.0 + b);
    assert p * (1.0 + a) == a && q * (1.0 + b) == 1.0;
    assert q * (a * (1.0 + b)) == a * (q * (1.0 + b));
    assert (p - q) * (1.0 + a) == 0.0;
  }

  /** The two branches agree: logits land strictly between 0 and 1, in their own order. */
  lemma SigmoidIsMonotone(x: real, y: real, exp: real -> real)
    requires IsExp(exp) && x < y
    ensures 0.0 < Sigmoid(x, exp) < Sigmoid(y, exp) < 1.0
  {
    SigmoidForm(x, exp);
    SigmoidForm(y, exp);
    ReciprocalFalls(1.0 + exp(-y), 1.0 + exp(-x));
    ReciprocalFalls(1.0, 1.0 + exp(-y));
    assert 1.0 / 1.0 == 1.0;
  }

  // ---------------------------------------------------------------------------------------------
  // Ids through the stages

  predicate DistinctIds(hits: seq<Hit>) {
    forall i, j :: 0 <= i < j < |hits| ==> hits[i].id != hits[j].id
  }

  lemma ByScoreIsTotal()
    ensures TotalPreorder(ByScore)
  {
  }

  /** Sorting keeps the hits, their ids distinct, and puts higher scores first. */
  lemma SortKeepsHits(hits: seq<Hit>)
    requires DistinctIds(hits)
    ensures DistinctIds(Sort(hits, ByScore))
    ensures forall h :: h in Sort(hits, ByScore) <==> h in hits
    ensures Sorted(Sort(hits, ByScore), ByScore)
  {
    hide Sort, ByScore;
    ByScoreIsTotal();
    SortSorted(hits, ByScore);
    SortSameElements(hits, ByScore);
    var sorted := Sort(hits, ByScore);
    forall i, j | 0 <= i < j < |sorted|
      ensures sorted[i].id != sorted[j].id
    {
      assert sorted[i] in hits && sorted[j] in hits && sorted[i] != sorted[j];
    }
  }

  lemma {:induction false} LookupAll(ids: seq<HunkId>, byId: map<HunkId, Hit>)
    requires forall i :: 0 <= i < |ids| ==> ids[i] in byId && byId[ids[i]].id == ids[i]
    ensures |Lookup(ids, byId)| == |ids|
    ensures forall i :: 0 <= i < |ids| ==> Lookup(ids, byId)[i] == byId[ids[i]]
  {
    if ids != [] {
      LookupAll(ids[1..], byId);
    }
  }

  lemma {:induction false} NormalisedIds(hits: seq<Hit>, scores: seq<real>, exp: real -> real)
    requires Positive(exp)
    ensures |Normalised(hits, scores, exp)| == if |hits| <= |scores| then |hits| else |scores|
    ensures forall i :: 0 <= i < |Normalised(hits, scores, exp)| ==>
              Normalised(hits, scores, exp)[i] == hits[i].(similarity := Sigmoid(scores[i], exp))
  {
    if hits != [] && scores != [] {
      NormalisedIds(hits[1..], scores[1..], exp);
    }
  }

  lemma {:induction false} AddHitsIds(byId: map<HunkId, Hit>, hits: seq<Hit>)
    requires forall id :: id in byId ==> byId[id].id == id
    ensures forall id :: id in AddHits(byId, hits) ==> AddHits(byId, hits)[id].id == id
    ensures forall id :: id in AddHits(byId, hits) <==> id in byId || id in Ids(hits)
    ensures forall id :: id in byId ==> AddHits(byId, hits)[id] == byId[id]
    decreases |hits|
  {
    if hits != [] {
      var n := |hits| - 1;
      AddHitsIds(byId, hits[..n]);
      assert Ids(hits) == Ids(hits[..n]) + [hits[n].id];
    }
  }

  /** The table holds every id of every lane, and for each the hit of the first lane that has it. */
  lemma {:induction false} ByIdIds(lanes: seq<seq<Hit>>)
    ensures forall id :: id in ById(lanes) ==> ById(lanes)[id].id == id
    ensures forall id :: id in ById(lanes) <==> exists l :: 0 <= l < |lanes| && id in Rankings(lanes)[l]
    decreases |lanes|
  {
    if lanes != [] {
      var n := |lanes| - 1;
      ByIdIds(lanes[..n]);
      AddHitsIds(ById(lanes[..n]), lanes[n]);
      forall id
        ensures id in ById(lanes) <==> exists l :: 0 <= l < |lanes| && id in Rankings(lanes)[l]
      {
        if id in ById(lanes[..n]) {
          var l :| 0 <= l < n && id in Rankings(lanes[..n])[l];
          assert id in Rankings(lanes)[l];
        }
        if id in Ids(lanes[n]) {
          assert id in Rankings(lanes)[n];
        }
        if l :| 0 <= l < |lanes| && id in Rankings(lanes)[l] {
          assert l < n ==> id in Rankings(lanes[..n])[l];
        }
      }
    }
  }

  /** First lane wins: later lanes never replace a hit already in the table. */
  lemma {:induction false} FirstLaneWins(lanes: seq<seq<Hit>>, l: nat, id: HunkId)
    requires l <= |lanes| && id in ById(lanes[..l])
    ensures id in ById(lanes) && ById(lanes)[id] == ById(lanes[..l])[id]
    decreases |lanes|
  {
    if l == |lanes| {
      assert lanes[..l] == lanes;
    } else {
      var n := |lanes| - 1;
      assert lanes[..n][..l] == lanes[..l];
      FirstLaneWins(lanes[..n], l, id);
      ByIdIds(lanes[..n]);
      AddHitsIds(ById(lanes[..n]), lanes[n]);
    }
  }

  // ---------------------------------------------------------------------------------------------
  // End to end

  /** The hits handed to the recency stage. */
  function Reranked(pool: seq<Hit>, reranker: Option<Reranker>, exp: real -> real): Result<seq<Hit>, Error>
    requires Positive(exp)
  {
    if reranker.Some? then CrossEncoded(pool, reranker.value, exp) else Ok(pool)
  }

  /** A reranker that returns one score per candidate. */
  ghost predicate OneScoreEach(reranker: Option<Reranker>) {
    reranker.Some? ==> forall texts :: reranker.value(texts).Ok? ==> |reranker.value(texts).value| == |texts|
  }

  lemma FusedAreKnown(fused: seq<HunkId>, lanes: seq<seq<Hit>>)
    requires forall id :: id in fused <==> exists l :: 0 <= l < |Rankings(lanes)| && id in Rankings(lanes)[l]
    ensures forall i :: 0 <= i < |fused| ==> fused[i] in ById(lanes) && ById(lanes)[fused[i]].id == fused[i]
  {
    hide ById, Rankings;
    ByIdIds(lanes);
    forall i | 0 <= i < |fused|
      ensures fused[i] in ById(lanes) && ById(lanes)[fused[i]].id == fused[i]
    {
      var id := fused[i];
      assert id in fused;
      var l :| 0 <= l < |Rankings(lanes)| && id in Rankings(lanes)[l];
    }
  }

  lemma PoolIsTheTop(fused: seq<HunkId>, lanes: seq<seq<Hit>>, w: Weights)
    requires IsFused(fused, Rankings(lanes), w.rrfK)
    ensures var pool := Lookup(Take(fused, w.rerankTopK), ById(lanes));
            && DistinctIds(pool)
            && |pool| == Min(w.rerankTopK, |fused|)
            && (forall i :: 0 <= i < |pool| ==> pool[i].id == fused[i])
  {
    hide IsFused, Appearance, ById, Rankings;
    FusedIsUnique(Rankings(lanes), w.rrfK, fused, fused);
    ByIdIds(lanes);
    FusedAreKnown(fused, lanes);
    LookupAll(Take(fused, w.rerankTopK), ById(lanes));
  }

  lemma RerankedKeepsIds(pool: seq<Hit>, reranker: Option<Reranker>, exp: real -> real)
    requires Positive(exp) && OneScoreEach(reranker) && DistinctIds(pool)
    ensures var r := Reranked(pool, reranker, exp);
            r.Ok? ==>
              && DistinctIds(r.value) && |r.value| == |pool|
              && (forall h :: h in r.value ==> exists i :: 0 <= i < |pool| && pool[i].id == h.id)
  {
    hide Sort, ByScore, Sigmoid;
    var r := Reranked(pool, reranker, exp);
    if r.Ok? {
      if reranker.Some? && pool != [] {
        var scores := reranker.value(DiffTexts(pool)).value;
        NormalisedIds(pool, scores, exp);
        SortKeepsHits(Normalised(pool, scores, exp));
      } else {
        forall h | h in r.value
          ensures exists i :: 0 <= i < |pool| && pool[i].id == h.id
        {
          var i :| 0 <= i < |pool| && pool[i] == h;
        }
      }
    }
  }

  lemma RecentKeepsIds(hits: seq<Hit>, w: Weights, now: int, exp: real -> real)
    requires w.halfLifeDays > 0.0 && DistinctIds(hits)
    ensures var r := Recent(hits, w, now, exp);
            && DistinctIds(r) && |r| == |hits| && Sorted(r, ByScore)
            && (forall h :: h in r ==> exists g :: g in hits && h == Boosted(g, w, now, exp))
  {
    hide Sort, ByScore, Recency;
    var boosted := BoostedAll(hits, w, now, exp);
    SortKeepsHits(boosted);
    forall h | h in boosted
      ensures exists g :: g in hits && h == Boosted(g, w, now, exp)
    {
      var i :| 0 <= i < |boosted| && boosted[i] == h;
      assert hits[i] in hits;
    }
  }

  /** From the pool on: distinct ids of the pool, as many as asked for or as there are, best score first. */
  lemma StagesKeepTop(pool: seq<Hit>, w: Weights, reranker: Option<Reranker>, finalK: nat, now: int, exp: real -> real)
    requires w.halfLifeDays > 0.0 && Positive(exp) && OneScoreEach(reranker) && DistinctIds(pool)
    requires Reranked(pool, reranker, exp).Ok?
    ensures var out := Take(Recent(Reranked(pool, reranker, exp).value, w, now, exp), finalK);
            && DistinctIds(out) && |out| == Min(finalK, |pool|) && Sorted(out, ByScore)
            && (forall h :: h in out ==> exists i :: 0 <= i < |pool| && pool[i].id == h.id)
  {
    hide Sort, ByScore, CrossEncoded, Recent, Reranked, OneScoreEach, Positive;
    RerankedKeepsIds(pool, reranker, exp);
    var hits := Reranked(pool, reranker, exp).value;
    RecentKeepsIds(hits, w, now, exp);
    var ranked := Recent(hits, w, now, exp);
    forall h | h in Take(ranked, finalK)
      ensures exists i :: 0 <= i < |pool| && pool[i].id == h.id
    {
      assert h in ranked;
      var g :| g in hits && h == Boosted(g, w, now, exp);
    }
  }

  /** The answer: distinct ids, all from the fused top `rerankTopK`, as many as asked for or as there
      are, best score first. */
  lemma AnswerIsTopRanked(fused: seq<HunkId>, lanes: seq<seq<Hit>>, w: Weights, reranker: Option<Reranker>,
                          finalK: nat, now: int, exp: real -> real)
    requires w.halfLifeDays > 0.0 && Positive(exp) && OneScoreEach(reranker)
    requires IsFused(fused, Rankings(lanes), w.rrfK)
    requires Pipeline(fused, ById(lanes), w, reranker, finalK, now, exp).Ok?
    ensures var out := Pipeline(fused, ById(lanes), w, reranker, finalK, now, exp).value;
            && DistinctIds(out)
            && |out| == Min(finalK, Min(w.rerankTopK, |Union(Rankings(lanes))|))
            && (forall h :: h in out ==> h.id in Take(fused, w.rerankTopK))
            && Sorted(out, ByScore)
  {
    hide Sort, ByScore, IsFused, ById, Rankings, CrossEncoded, Recent, Lookup;
    FusedCountsUnion(Rankings(lanes), w.rrfK, fused);
    PoolIsTheTop(fused, lanes, w);
    var pool := Lookup(Take(fused, w.rerankTopK), ById(lanes));
    if pool != [] {
      StagesKeepTop(pool, w, reranker, finalK, now, exp);
      var out := Take(Recent(Reranked(pool, reranker, exp).value, w, now, exp), finalK);
      forall h | h in out
        ensures h.id in Take(fused, w.rerankTopK)
      {
        var i :| 0 <= i < |pool| && pool[i].id == h.id;
        assert Take(fused, w.rerankTopK)[i] == h.id;
      }
    }
  }

  /** Ties keep the order of the stage before: among hits with the same final score, the sorted list
      has them in the order they came in. */
  lemma TiesKeepEarlierOrder(hits: seq<Hit>, w: Weights, now: int, exp: real -> real, h: Hit)
    requires w.halfLifeDays > 0.0
    ensures Ties(Recent(hits, w, now, exp), h, ByScore) == Ties(BoostedAll(hits, w, now, exp), h, ByScore)
  {
    ByScoreIsTotal();
    SortStable(BoostedAll(hits, w, now, exp), h, ByScore);
  }

  lemma RecencyIsBounded(h: Hit, halfLifeDays: real, now: int, exp: real -> real)
    requires IsExp(exp) && halfLifeDays > 0.0
    ensures 0.0 < Recency(h, halfLifeDays, now, exp) <= 1.0
  {
    var age := (if now < h.ts then 0 else now - h.ts) as real / 86400.0;
    assert age >= 0.0;
    QuotientSign(-age, halfLifeDays);
    var x := -age / halfLifeDays;
    assert x <= 0.0;
    assert exp(x) <= exp(0.0);
  }

  lemma QuotientSign(a: real, b: real)
    requires a <= 0.0 && b > 0.0
    ensures a / b <= 0.0
  {
    var q := a / b;
    assert q * b == a;
  }

  /** Recency is a nudge: with nonnegative scores and weight, it never lets a hit overtake one whose
      score is more than `1 + weight` times its own. */
  lemma RecencyNeverOverturnsBigLeads(hits: seq<Hit>, w: Weights, now: int, exp: real -> real, a: Hit, b: Hit,
                                      i: nat, j: nat)
    requires IsExp(exp) && w.halfLifeDays > 0.0 && w.recencyWeight >= 0.0
    requires DistinctIds(hits) && a in hits && b in hits
    requires b.similarity >= 0.0 && a.similarity > b.similarity * (1.0 + w.recencyWeight)
    requires i < |Recent(hits, w, now, exp)| && j < |Recent(hits, w, now, exp)|
    requires Recent(hits, w, now, exp)[i].id == a.id && Recent(hits, w, now, exp)[j].id == b.id
    ensures i < j
  {
    hide Sort, Recency;
    var ranked := Recent(hits, w, now, exp);
    RecentKeepsIds(hits, w, now, exp);
    var x, y := ranked[i], ranked[j];
    assert x in ranked && y in ranked;
    var g :| g in hits && x == Boosted(g, w, now, exp);
    var h :| h in hits && y == Boosted(h, w, now, exp);
    assert g == a && h == b;
    RecencyIsBounded(a, w.halfLifeDays, now, exp);
    RecencyIsBounded(b, w.halfLifeDays, now, exp);
    BoostBounds(a.similarity, b.similarity, w.recencyWeight, Recency(a, w.halfLifeDays, now, exp),
                Recency(b, w.halfLifeDays, now, exp));
    SortedPair(ranked, j, i);
  }

  lemma QuotientFalls(a: real, b: real, d: real)
    requires a < b && d > 0.0
    ensures a / d < b / d
  {
    var p, q := a / d, b / d;
    assert p * d == a && q * d == b;
    assert (q - p) * d > 0.0;
  }

  /** Of two hits that are not from the future, the newer one counts as more recent. */
  lemma NewerIsMoreRecent(a: Hit, b: Hit, halfLifeDays: real, now: int, exp: real -> real)
    requires IsExp(exp) && halfLifeDays > 0.0 && b.ts < a.ts <= now
    ensures Recency(a, halfLifeDays, now, exp) > Recency(b, halfLifeDays, now, exp)
  {
    var ageA, ageB := (now - a.ts) as real / 86400.0, (now - b.ts) as real / 86400.0;
    assert ageA < ageB;
    QuotientFalls(-ageB, -ageA, halfLifeDays);
  }

  /** At equal positive scores the newer hit is ranked first, if recency has any weight. */
  lemma NewerRanksFirst(hits: seq<Hit>, w: Weights, now: int, exp: real -> real, a: Hit, b: Hit, i: nat, j: nat)
    requires IsExp(exp) && w.halfLifeDays > 0.0 && w.recencyWeight > 0.0
    requires DistinctIds(hits) && a in hits && b in hits
    requires a.similarity == b.similarity > 0.0 && b.ts < a.ts <= now
    requires i < |Recent(hits, w, now, exp)| && j < |Recent(hits, w, now, exp)|
    requires Recent(hits, w, now, exp)[i].id == a.id && Recent(hits, w, now, exp)[j].id == b.id
    ensures i < j
  {
    hide Sort, Recency;
    var ranked := Recent(hits, w, now, exp);
    RecentKeepsIds(hits, w, now, exp);
    var x, y := ranked[i], ranked[j];
    assert x in ranked && y in ranked;
    var g :| g in hits && x == Boosted(g, w, now, exp);
    var h :| h in hits && y == Boosted(h, w, now, exp);
    assert g == a && h == b;
    NewerIsMoreRecent(a, b, w.halfLifeDays, now, exp);
    BoostGrows(a.similarity, w.recencyWeight, Recency(a, w.halfLifeDays, now, exp),
               Recency(b, w.halfLifeDays, now, exp));
    SortedPair(ranked, j, i);
  }

  lemma BoostGrows(s: real, w: real, r1: real, r2: real)
    requires s > 0.0 && w > 0.0 && r1 > r2
    ensures s * (1.0 + w * r1) > s * (1.0 + w * r2)
  {
    assert w * (r1 - r2) > 0.0;
    assert s * (w * (r1 - r2)) > 0.0;
  }

  lemma SortedPair(ranked: seq<Hit>, j: nat, i: nat)
    requires Sorted(ranked, ByScore) && i < |ranked| && j < |ranked|
    ensures j < i ==> ranked[j].similarity >= ranked[i].similarity
  {
    if j < i {
      assert ByScore(ranked[j], ranked[i]);
    }
  }

  lemma BoostedIsRanked(hits: seq<Hit>, w: Weights, now: int, exp: real -> real, a: Hit) returns (i: nat)
    requires w.halfLifeDays > 0.0 && a in hits
    ensures i < |Recent(hits, w, now, exp)| && Recent(hits, w, now, exp)[i].id == a.id
  {
    hide Sort, ByScore, Recency;
    var boosted := BoostedAll(hits, w, now, exp);
    SortSameElements(boosted, ByScore);
    var k :| 0 <= k < |hits| && hits[k] == a;
    assert boosted[k] in boosted;
    var ranked := Sort(boosted, ByScore);
    assert boosted[k] in ranked;
    i :| 0 <= i < |ranked| && ranked[i] == boosted[k];
  }

  /** So it is with the answer: where a hit is returned, every hit whose score before recency is more
      than `1 + weight` times its own is returned too, and earlier. */
  lemma BigLeadsAreReturnedFirst(fused: seq<HunkId>, lanes: seq<seq<Hit>>, w: Weights, reranker: Option<Reranker>,
                                 finalK: nat, now: int, exp: real -> real, a: Hit, b: Hit, j: nat)
    returns (i: nat)
    requires IsExp(exp) && w.halfLifeDays > 0.0 && w.recencyWeight >= 0.0 && OneScoreEach(reranker)
    requires IsFused(fused, Rankings(lanes), w.rrfK)
    requires var hits := Reranked(Lookup(Take(fused, w.rerankTopK), ById(lanes)), reranker, exp);
             hits.Ok? && a in hits.value && b in hits.value
    requires b.similarity >= 0.0 && a.similarity > b.similarity * (1.0 + w.recencyWeight)
    requires var r := Pipeline(fused, ById(lanes), w, reranker, finalK, now, exp);
             r.Ok? && j < |r.value| && r.value[j].id == b.id
    ensures i < j && Pipeline(fused, ById(lanes), w, reranker, finalK, now, exp).value[i].id == a.id
  {
    hide Sort, ByScore, IsFused, ById, Rankings, CrossEncoded, Recent, Lookup, OneScoreEach;
    PoolIsTheTop(fused, lanes, w);
    var pool := Lookup(Take(fused, w.rerankTopK), ById(lanes));
    RerankedKeepsIds(pool, reranker, exp);
    var hits := Reranked(pool, reranker, exp).value;
    i := BoostedIsRanked(hits, w, now, exp, a);
    RecencyNeverOverturnsBigLeads(hits, w, now, exp, a, b, i, j);
  }

  lemma BoostBounds(s1: real, s2: real, w: real, r1: real, r2: real)
    requires w >= 0.0 && 0.0 <= r1 && 0.0 <= r2 <= 1.0 && s2 >= 0.0 && s1 > s2 * (1.0 + w)
    ensures s1 * (1.0 + w * r1) > s2 * (1.0 + w * r2)
  {
    assert w * r2 <= w;
    assert s2 * (1.0 + w * r2) <= s2 * (1.0 + w);
    assert s2 * (1.0 + w) >= 0.0;
    assert w * r1 >= 0.0;
    assert s1 * (w * r1) >= 0.0;
    assert s1 * (1.0 + w * r1) == s1 + s1 * (w * r1);
  }

  // ---------------------------------------------------------------------------------------------
  // Without a reranker

  /** The first `k` hits come in falling order of score, and no later one scores higher. */
  ghost predicate LeadsInOrder(hits: seq<Hit>, k: nat) {
    forall i, j :: 0 <= i < k && i < j < |hits| ==> ByScore(hits[i], hits[j])
  }

  lemma {:induction false} SortKeepsLead(s: seq<Hit>, k: nat)
    requires LeadsInOrder(s, k)
    ensures Take(Sort(s, ByScore), k) == Take(s, k)
  {
    if s != [] && k > 0 {
      var rest := s[1..];
      LeadOfRest(s, k);
      SortKeepsLead(rest, k - 1);
      SortSameElements(rest, ByScore);
      var sorted := Sort(rest, ByScore);
      TopIsInsertedFirst(s, sorted);
      hide Sort, LeadsInOrder;
      TakeOne(s[0], sorted, k);
      TakeOne(s[0], rest, k);
      assert s == [s[0]] + rest;
    }
  }

  lemma LeadOfRest(s: seq<Hit>, k: nat)
    requires LeadsInOrder(s, k) && s != [] && k > 0
    ensures LeadsInOrder(s[1..], k - 1)
    ensures forall x :: x in s[1..] ==> ByScore(s[0], x)
  {
    hide ByScore;
    var rest := s[1..];
    assert forall j :: 0 <= j < |rest| ==> rest[j] == s[j + 1];
  }

  lemma TopIsInsertedFirst(s: seq<Hit>, sorted: seq<Hit>)
    requires s != [] && sorted == Sort(s[1..], ByScore)
    requires forall x :: x in sorted ==> ByScore(s[0], x)
    ensures Sort(s, ByScore) == [s[0]] + sorted
  {
    assert sorted != [] ==> sorted[0] in sorted;
  }

  lemma TakeOne(h: Hit, rest: seq<Hit>, k: nat)
    requires k > 0
    ensures Take([h] + rest, k) == [h] + Take(rest, k - 1)
  {
  }

  lemma LeadOfSort(s: seq<Hit>, k: nat)
    requires DistinctIds(s) && Take(Sort(s, ByScore), k) == Take(s, k)
    ensures LeadsInOrder(s, k)
  {
    hide Sort, ByScore;
    SortKeepsHits(s);
    var sorted := Sort(s, ByScore);
    forall i, j | 0 <= i < k && i < j < |s|
      ensures ByScore(s[i], s[j])
    {
      assert forall q :: 0 <= q <= i ==> Take(sorted, k)[q] == sorted[q] && Take(s, k)[q] == s[q];
      assert s[j] in sorted;
      var m :| 0 <= m < |sorted| && sorted[m] == s[j];
      assert m > i;
    }
  }

  lemma SameIdsSameHits(a: seq<Hit>, b: seq<Hit>, all: seq<Hit>)
    requires Ids(a) == Ids(b) && DistinctIds(all)
    requires (forall h :: h in a ==> h in all) && forall h :: h in b ==> h in all
    ensures a == b
  {
    assert |a| == |Ids(a)| == |b|;
    forall i | 0 <= i < |a|
      ensures a[i] == b[i]
    {
      assert a[i] in all && b[i] in all;
      assert Ids(a)[i] == a[i].id && Ids(b)[i] == b[i].id;
    }
  }

  /** The first `k` hits of the pool stay the first `k`, in order, exactly when their boosted scores fall
      in that order and no later hit is boosted above them. */
  lemma TopOrderSurvives(pool: seq<Hit>, w: Weights, now: int, exp: real -> real, k: nat)
    requires w.halfLifeDays > 0.0 && DistinctIds(pool)
    ensures Ids(Take(Recent(pool, w, now, exp), k)) == Ids(Take(pool, k))
       <==> LeadsInOrder(BoostedAll(pool, w, now, exp), k)
  {
    hide Sort, ByScore, Recency, LeadsInOrder;
    var boosted := BoostedAll(pool, w, now, exp);
    var ranked := Recent(pool, w, now, exp);
    assert Ids(Take(boosted, k)) == Ids(Take(pool, k));
    if LeadsInOrder(boosted, k) {
      SortKeepsLead(boosted, k);
    }
    if Ids(Take(ranked, k)) == Ids(Take(pool, k)) {
      SortKeepsHits(boosted);
      SameIdsSameHits(Take(ranked, k), Take(boosted, k), boosted);
      LeadOfSort(boosted, k);
    }
  }

  /** Without a reranker the answer is the top of the fused ranking, in fused order, exactly when the
      boosted lane scores of the pool fall in that order as far as the answer reaches. */
  lemma FusedOrderSurvives(fused: seq<HunkId>, lanes: seq<seq<Hit>>, w: Weights, finalK: nat, now: int,
                           exp: real -> real)
    requires w.halfLifeDays > 0.0 && Positive(exp) && IsFused(fused, Rankings(lanes), w.rrfK)
    ensures var pool := Lookup(Take(fused, w.rerankTopK), ById(lanes));
            var r := Pipeline(fused, ById(lanes), w, None, finalK, now, exp);
            r.Ok? && (Ids(r.value) == Take(Take(fused, w.rerankTopK), finalK)
                      <==> LeadsInOrder(BoostedAll(pool, w, now, exp), finalK))
  {
    hide IsFused, ById, Rankings, Lookup, Recent, BoostedAll, LeadsInOrder;
    PoolIsTheTop(fused, lanes, w);
    var top := Take(fused, w.rerankTopK);
    var pool := Lookup(top, ById(lanes));
    TopOrderSurvives(pool, w, now, exp, finalK);
    assert Ids(pool) == top;
    assert Ids(Take(pool, finalK)) == Take(top, finalK);
    EmptyPool(w, now, exp, finalK);
  }

  lemma EmptyPool(w: Weights, now: int, exp: real -> real, k: nat)
    requires w.halfLifeDays > 0.0
    ensures Recent([], w, now, exp) == []
  {
  }

  /** One lane whose second hit scores higher: the fused order is the lane's, the answer is not. */
  lemma FusedOrderNeedNotSurvive(now: int, exp: real -> real)
    requires Positive(exp)
    ensures var w := Weights(60, 50, 0.0, 90.0);
            var lane := [Hit(1, 0, "a", 0.1), Hit(2, 0, "b", 0.9)];
            forall fused :: IsFused(fused, Rankings([lane]), w.rrfK) ==>
              && fused == [1, 2]
              && Pipeline(fused, ById([lane]), w, None, 2, now, exp) == Ok([lane[1], lane[0]])
  {
    hide IsFused, Appearance, Recency, Sort, ById, Lookup;
    var w := Weights(60, 50, 0.0, 90.0);
    var lane := [Hit(1, 0, "a", 0.1), Hit(2, 0, "b", 0.9)];
    forall fused | IsFused(fused, Rankings([lane]), w.rrfK)
      ensures fused == [1, 2]
      ensures Pipeline(fused, ById([lane]), w, None, 2, now, exp) == Ok([lane[1], lane[0]])
    {
      assert Ids(lane) == [1, 2] && Rankings([lane]) == [[1, 2]];
      SingleLaneUnchanged([1, 2], w.rrfK, fused);
      TwoHitPool(lane);
      assert BoostedAll(lane, w, now, exp) == lane;
      TwoHitSort(lane);
    }
  }

  lemma TwoHitPool(lane: seq<Hit>)
    requires |lane| == 2 && lane[0].id == 1 && lane[1].id == 2
    ensures Lookup([1, 2], ById([lane])) == lane
  {
    assert [lane][..0] == [];
    var empty: map<HunkId, Hit> := map[];
    assert lane[..1][..0] == [];
    assert AddHits(empty, lane[..1]) == empty[1 := lane[0]];
    var table := AddHits(empty, lane);
    assert table == empty[1 := lane[0]][2 := lane[1]];
    assert ById([]) == empty;
    assert ById([lane]) == table;
    assert [1, 2][1..] == [2] && [2][1..] == [];
    assert Lookup([2], table) == [lane[1]];
  }

  lemma TwoHitSort(lane: seq<Hit>)
    requires |lane| == 2 && lane[0].similarity < lane[1].similarity
    ensures Sort(lane, ByScore) == [lane[1], lane[0]]
  {
    assert lane[1..] == [lane[1]] && [lane[1]][1..] == [];
    assert Sort([lane[1]], ByScore) == [lane[1]];
    assert Insert(lane[0], [lane[1]], ByScore) == [lane[1]] + Insert(lane[0], [], ByScore);
  }
}
