/** What Reciprocal Rank Fusion guarantees about its ranking. */
module RrfLaws {
  import opened Sorting
  import opened Rrf

  // ---------------------------------------------------------------------------------------------
  // One ranking, whatever the table's enumeration order

  lemma {:induction false} AddElements(seen: seq<HunkId>, lane: Lane)
    requires NoDuplicates(seen)
    ensures NoDuplicates(Add(seen, lane))
    ensures seen <= Add(seen, lane)
    ensures forall id :: id in Add(seen, lane) <==> id in seen || id in lane
    decreases |lane|
  {
    if lane != [] {
      var n := |lane| - 1;
      AddElements(seen, lane[..n]);
      assert lane == lane[..n] + [lane[n]];
    }
  }

  lemma {:induction false} AppearanceElements(lanes: seq<Lane>)
    ensures NoDuplicates(Appearance(lanes))
    ensures forall id :: id in Appearance(lanes) <==> exists l :: 0 <= l < |lanes| && id in lanes[l]
    decreases |lanes|
  {
    if lanes != [] {
      var n := |lanes| - 1;
      AppearanceElements(lanes[..n]);
      AddElements(Appearance(lanes[..n]), lanes[n]);
      forall id
        ensures id in Appearance(lanes) <==> exists l :: 0 <= l < |lanes| && id in lanes[l]
      {
        if id in Appearance(lanes[..n]) {
          var l :| 0 <= l < n && id in lanes[..n][l];
          assert id in lanes[l];
        }
        if l :| 0 <= l < |lanes| && id in lanes[l] {
          assert l < n ==> id in lanes[..n][l];
        }
      }
    }
  }

  lemma BeforeIsStrict(lanes: seq<Lane>, k: nat, a: HunkId, b: HunkId)
    requires Before(lanes, k, a, b)
    ensures !Before(lanes, k, b, a)
  {
    hide Score, Appearance;
  }

  /** The result is a permutation of the union of the lanes without repetition, in the order of score
      and then first appearance, and it is the only such sequence: it does not depend on the order in
      which the score table is enumerated. */
  lemma FusedIsUnique(lanes: seq<Lane>, k: nat, a: seq<HunkId>, b: seq<HunkId>)
    requires IsFused(a, lanes, k) && IsFused(b, lanes, k)
    ensures a == b
    ensures NoDuplicates(a)
    ensures forall id :: id in a <==> exists l :: 0 <= l < |lanes| && id in lanes[l]
  {
    hide Score, Appearance, Before;
    AppearanceElements(lanes);
    var less := (x, y) => Before(lanes, k, x, y);
    forall x, y | less(x, y)
      ensures !less(y, x)
    {
      BeforeIsStrict(lanes, k, x, y);
    }
    StrictOrderUnique(a, b, less);
    forall i, j | 0 <= i < j < |a|
      ensures a[i] != a[j]
    {
      assert less(a[i], a[j]);
    }
  }

  /** The ids some lane has. */
  function Union(lanes: seq<Lane>): (r: set<HunkId>)
    ensures forall id :: id in r <==> exists l :: 0 <= l < |lanes| && id in lanes[l]
  {
    set l, id | 0 <= l < |lanes| && id in lanes[l] :: id
  }

  lemma {:induction false} DistinctCount(s: seq<HunkId>, members: set<HunkId>)
    requires NoDuplicates(s) && forall id :: id in s <==> id in members
    ensures |s| == |members|
  {
    if s == [] {
      assert forall id :: id in members <==> id in s;
      assert forall id :: id !in members;
      assert members == {};
    } else {
      assert forall i, j :: 0 <= i < j < |s[1..]| ==> s[1..][i] == s[i + 1] && s[1..][j] == s[j + 1];
      assert s == [s[0]] + s[1..];
      DistinctCount(s[1..], members - {s[0]});
    }
  }

  /** The ranking is as long as the union of the lanes is large. */
  lemma FusedCountsUnion(lanes: seq<Lane>, k: nat, fused: seq<HunkId>)
    requires IsFused(fused, lanes, k)
    ensures |fused| == |Union(lanes)|
  {
    hide IsFused;
    FusedIsUnique(lanes, k, fused, fused);
    DistinctCount(fused, Union(lanes));
  }

  // ---------------------------------------------------------------------------------------------
  // Scores of duplicate-free lanes

  lemma {:induction false} LaneScoreAbsent(lane: Lane, k: nat, id: HunkId)
    requires id !in lane
    ensures LaneScore(lane, k, id) == 0.0
    decreases |lane|
  {
    if lane != [] {
      LaneScoreAbsent(lane[..|lane| - 1], k, id);
    }
  }

  lemma {:induction false} LaneScoreAt(lane: Lane, k: nat, i: nat)
    requires NoDuplicates(lane) && i < |lane|
    ensures LaneScore(lane, k, lane[i]) == Worth(k, i)
    decreases |lane|
  {
    var n := |lane| - 1;
    if i == n {
      LaneScoreAbsent(lane[..n], k, lane[n]);
    } else {
      LaneScoreAt(lane[..n], k, i);
    }
  }

  lemma WorthFalls(k: nat, i: nat, j: nat)
    requires i < j
    ensures Worth(k, i) > Worth(k, j)
  {
    var x, y := (k + i + 1) as real, (k + j + 1) as real;
    assert 0.0 < x < y;
    ReciprocalFalls(x, y);
  }

  lemma ReciprocalFalls(x: real, y: real)
    requires 0.0 < x < y
    ensures 1.0 / x > 1.0 / y
  {
    var p, q := 1.0 / x, 1.0 / y;
    assert p * x == 1.0 && q * y == 1.0;
    assert p * y > p * x;
    assert (p - q) * y > 0.0;
  }

  predicate AllDuplicateFree(lanes: seq<Lane>) {
    forall l :: 0 <= l < |lanes| ==> NoDuplicates(lanes[l])
  }

  /** `a` comes earlier than `b` in the lane, if the lane has `b` at all. */
  ghost predicate PrecedesIn(lane: Lane, a: HunkId, b: HunkId) {
    forall j :: 0 <= j < |lane| && lane[j] == b ==> exists i :: 0 <= i < j && lane[i] == a
  }

  lemma LaneDominance(lane: Lane, k: nat, a: HunkId, b: HunkId)
    requires NoDuplicates(lane) && PrecedesIn(lane, a, b)
    ensures LaneScore(lane, k, a) >= LaneScore(lane, k, b)
    ensures b in lane ==> LaneScore(lane, k, a) > LaneScore(lane, k, b)
  {
    if b in lane {
      var j :| 0 <= j < |lane| && lane[j] == b;
      var i :| 0 <= i < j && lane[i] == a;
      LaneScoreAt(lane, k, i);
      LaneScoreAt(lane, k, j);
      WorthFalls(k, i, j);
    } else {
      LaneScoreAbsent(lane, k, b);
    }
  }

  lemma {:induction false} ScoreDominance(lanes: seq<Lane>, k: nat, a: HunkId, b: HunkId)
    requires AllDuplicateFree(lanes) && forall l :: 0 <= l < |lanes| ==> PrecedesIn(lanes[l], a, b)
    ensures Score(lanes, k, a) >= Score(lanes, k, b)
    ensures (exists l :: 0 <= l < |lanes| && b in lanes[l]) ==> Score(lanes, k, a) > Score(lanes, k, b)
    decreases |lanes|
  {
    if lanes != [] {
      var n := |lanes| - 1;
      ScoreDominance(lanes[..n], k, a, b);
      LaneDominance(lanes[n], k, a, b);
      if l :| 0 <= l < |lanes| && b in lanes[l] {
        assert l < n ==> b in lanes[..n][l];
      }
    }
  }

  /** Dominance: an id that precedes another in every lane that has the other is fused before it. */
  lemma DominanceIsKept(lanes: seq<Lane>, k: nat, out: seq<HunkId>, a: HunkId, j: nat)
    requires AllDuplicateFree(lanes) && IsFused(out, lanes, k) && j < |out| && a != out[j]
    requires forall l :: 0 <= l < |lanes| ==> PrecedesIn(lanes[l], a, out[j])
    ensures exists i :: 0 <= i < j && out[i] == a
  {
    hide Score, Appearance;
    var b := out[j];
    AppearanceElements(lanes);
    assert b in out;
    var l :| 0 <= l < |lanes| && b in lanes[l];
    ScoreDominance(lanes, k, a, b);
    var p :| 0 <= p < |lanes[l]| && lanes[l][p] == b;
    assert PrecedesIn(lanes[l], a, b);
    assert a in lanes[l];
    assert a in out;
    var i :| 0 <= i < |out| && out[i] == a;
    assert j < i ==> Before(lanes, k, b, out[i]);
  }

  // ---------------------------------------------------------------------------------------------
  // Two lanes against one

  lemma {:induction false} ScoreOfOneLane(lanes: seq<Lane>, k: nat, id: HunkId, only: nat)
    requires only < |lanes| && forall l :: 0 <= l < |lanes| && l != only ==> id !in lanes[l]
    ensures Score(lanes, k, id) == LaneScore(lanes[only], k, id)
    decreases |lanes|
  {
    var n := |lanes| - 1;
    if only < n {
      ScoreOfOneLane(lanes[..n], k, id, only);
      LaneScoreAbsent(lanes[n], k, id);
    } else {
      ScoreAbsent(lanes[..n], k, id);
    }
  }

  lemma {:induction false} ScoreAbsent(lanes: seq<Lane>, k: nat, id: HunkId)
    requires forall l :: 0 <= l < |lanes| ==> id !in lanes[l]
    ensures Score(lanes, k, id) == 0.0
    decreases |lanes|
  {
    if lanes != [] {
      ScoreAbsent(lanes[..|lanes| - 1], k, id);
      LaneScoreAbsent(lanes[|lanes| - 1], k, id);
    }
  }

  lemma {:induction false} ScoreOfLanes(lanes: seq<Lane>, k: nat, id: HunkId, l: nat, m: nat)
    requires l < |lanes| && m <= |lanes| && l != m
    ensures Score(lanes, k, id) >= LaneScore(lanes[l], k, id) + if m < |lanes| then LaneScore(lanes[m], k, id) else 0.0
    decreases |lanes|
  {
    var n := |lanes| - 1;
    if l == n && m < n {
      ScoreOfLanes(lanes[..n], k, id, m, n);
    } else if l < n {
      ScoreOfLanes(lanes[..n], k, id, l, if m < n then m else n);
    }
  }

  /** An id ranked within k + 2 in two lanes scores at least as high as any id that only one lane has. */
  lemma TwoLanesBeatOne(lanes: seq<Lane>, k: nat, a: HunkId, b: HunkId, l: nat, m: nat, i: nat, j: nat, only: nat)
    requires AllDuplicateFree(lanes)
    requires l < |lanes| && m < |lanes| && l != m
    requires i < |lanes[l]| && j < |lanes[m]| && lanes[l][i] == a == lanes[m][j]
    requires i + 1 <= k + 2 && j + 1 <= k + 2
    requires only < |lanes| && forall x :: 0 <= x < |lanes| && x != only ==> b !in lanes[x]
    ensures Score(lanes, k, a) >= Score(lanes, k, b)
  {
    hide Score;
    ScoreOfLanes(lanes, k, a, l, m);
    LaneScoreAt(lanes[l], k, i);
    LaneScoreAt(lanes[m], k, j);
    HalfWorth(k, i);
    HalfWorth(k, j);
    ScoreOfOneLane(lanes, k, b, only);
    if b in lanes[only] {
      var p :| 0 <= p < |lanes[only]| && lanes[only][p] == b;
      LaneScoreAt(lanes[only], k, p);
      if p > 0 {
        WorthFalls(k, 0, p);
      }
    } else {
      LaneScoreAbsent(lanes[only], k, b);
    }
  }

  /** A rank within k + 2 is worth at least half of the best rank. */
  lemma HalfWorth(k: nat, i: nat)
    requires i + 1 <= k + 2
    ensures 2.0 * Worth(k, i) >= Worth(k, 0)
  {
    if i < k + 1 {
      WorthFalls(k, i, k + 1);
    }
    var x := (k + 1) as real;
    assert (k + (k + 1) + 1) as real == 2.0 * x;
    HalfReciprocal(x);
  }

  lemma HalfReciprocal(x: real)
    requires x > 0.0
    ensures 2.0 * (1.0 / (2.0 * x)) == 1.0 / x
  {
    var p, q := 1.0 / (2.0 * x), 1.0 / x;
    assert p * (2.0 * x) == 1.0 && q * x == 1.0;
    assert (2.0 * p - q) * x == 0.0;
  }

  // ---------------------------------------------------------------------------------------------
  // One lane

  lemma SingleLaneOrder(lane: Lane, k: nat, i: nat, j: nat)
    requires NoDuplicates(lane) && i < j < |lane|
    requires forall id :: id in lane ==> id in Appearance([lane])
    ensures Before([lane], k, lane[i], lane[j])
  {
    hide Score, Appearance;
    ScoreOfOneLane([lane], k, lane[i], 0);
    ScoreOfOneLane([lane], k, lane[j], 0);
    LaneScoreAt(lane, k, i);
    LaneScoreAt(lane, k, j);
    WorthFalls(k, i, j);
  }

  /** Fusing a single duplicate-free lane returns it unchanged. */
  lemma SingleLaneUnchanged(lane: Lane, k: nat, out: seq<HunkId>)
    requires NoDuplicates(lane) && IsFused(out, [lane], k)
    ensures out == lane
  {
    hide Score, Appearance, Before;
    AppearanceElements([lane]);
    forall id
      ensures id in lane <==> id in Appearance([lane])
    {
      assert [lane][0] == lane;
    }
    forall i, j | 0 <= i < j < |lane|
      ensures Before([lane], k, lane[i], lane[j])
    {
      SingleLaneOrder(lane, k, i, j);
    }
    FusedIsUnique([lane], k, out, lane);
  }
}
