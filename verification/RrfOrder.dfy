/** The fused order in terms of where the ids stand in the lanes. */
module RrfOrder {
  import opened Sorting
  import opened Rrf
  import opened RrfLaws

  /** What the sightings of an id from position `i` of a lane on add up to. */
  function Sightings(lane: Lane, k: nat, id: HunkId, i: nat): real
    decreases |lane| - i
  {
    if i >= |lane| then 0.0
    else (if lane[i] == id then 1.0 / ((k + i + 1) as real) else 0.0) + Sightings(lane, k, id, i + 1)
  }

  /** The sum over every sighting in every lane. */
  function Total(lanes: seq<Lane>, k: nat, id: HunkId): real {
    if lanes == [] then 0.0 else Sightings(lanes[0], k, id, 0) + Total(lanes[1..], k, id)
  }

  lemma {:induction false} LaneScoreIs(lane: Lane, k: nat, id: HunkId, i: nat)
    requires i <= |lane|
    ensures LaneScore(lane, k, id) == LaneScore(lane[..i], k, id) + Sightings(lane, k, id, i)
    decreases |lane| - i
  {
    if i == |lane| {
      assert lane[..i] == lane;
    } else {
      assert lane[..i + 1][..i] == lane[..i];
      LaneScoreIs(lane, k, id, i + 1);
    }
  }

  lemma {:induction false} TotalSnoc(lanes: seq<Lane>, k: nat, id: HunkId)
    requires lanes != []
    ensures Total(lanes, k, id) == Total(lanes[..|lanes| - 1], k, id) + Sightings(lanes[|lanes| - 1], k, id, 0)
  {
    hide Sightings;
    if |lanes| > 1 {
      TotalSnoc(lanes[1..], k, id);
      assert lanes[1..][..|lanes| - 2] == lanes[..|lanes| - 1][1..];
    } else {
      assert lanes[1..] == [] && lanes[..0] == [];
    }
  }

  /** The score of an id is the sum of `1 / (k + position + 1)` over all its sightings. */
  lemma {:induction false} ScoreIsTotal(lanes: seq<Lane>, k: nat, id: HunkId)
    ensures Score(lanes, k, id) == Total(lanes, k, id)
    decreases |lanes|
  {
    hide Sightings, LaneScore;
    if lanes != [] {
      var last := lanes[|lanes| - 1];
      TotalSnoc(lanes, k, id);
      ScoreIsTotal(lanes[..|lanes| - 1], k, id);
      LaneScoreIs(last, k, id, 0);
      assert LaneScore(last[..0], k, id) == 0.0 by {
        LaneScoreAbsent(last[..0], k, id);
      }
    }
  }

  // ---------------------------------------------------------------------------------------------
  // First places

  ghost predicate FirstIn(lane: Lane, id: HunkId, i: nat) {
    i < |lane| && lane[i] == id && forall j :: 0 <= j < i ==> lane[j] != id
  }

  /** The id stands at position `i` of lane `l`, in no lane before and nowhere before in its own. */
  ghost predicate FirstAt(lanes: seq<Lane>, id: HunkId, l: nat, i: nat) {
    l < |lanes| && FirstIn(lanes[l], id, i) && forall m :: 0 <= m < l ==> id !in lanes[m]
  }

  lemma IndexInPrefix(s: seq<HunkId>, t: seq<HunkId>, id: HunkId)
    requires s <= t && id in s
    ensures id in t && IndexOf(t, id) == IndexOf(s, id)
  {
    var i := IndexOf(s, id);
    assert t[i] == id;
    assert forall j :: 0 <= j < i ==> t[j] == s[j];
  }

  lemma IndexBeyond(s: seq<HunkId>, t: seq<HunkId>, id: HunkId)
    requires s <= t && id in t && id !in s
    ensures IndexOf(t, id) >= |s|
  {
    assert forall j :: 0 <= j < |s| ==> t[j] == s[j];
  }

  /** Ids new to a lane are added in the order of their first places in it. */
  lemma {:induction false} AddedInOrder(seen: seq<HunkId>, lane: Lane, a: HunkId, b: HunkId, i: nat, j: nat)
    requires NoDuplicates(seen) && a !in seen && b !in seen && FirstIn(lane, a, i) && FirstIn(lane, b, j) && i < j
    ensures a in Add(seen, lane) && b in Add(seen, lane)
    ensures IndexOf(Add(seen, lane), a) < IndexOf(Add(seen, lane), b)
    decreases |lane|
  {
    var n := |lane| - 1;
    var before := Add(seen, lane[..n]);
    AddElements(seen, lane[..n]);
    AddElements(seen, lane);
    assert lane[..n][i] == a;
    assert before <= Add(seen, lane);
    if j < n {
      assert lane[..n][j] == b;
      AddedInOrder(seen, lane[..n], a, b, i, j);
      hide Add;
      IndexInPrefix(before, Add(seen, lane), b);
    } else {
      hide Add;
      IndexBeyond(before, Add(seen, lane), b);
    }
    IndexInPrefix(before, Add(seen, lane), a);
  }

  lemma {:induction false} AppearInOrder(lanes: seq<Lane>, a: HunkId, b: HunkId, l: nat, i: nat, m: nat, j: nat)
    requires FirstAt(lanes, a, l, i) && FirstAt(lanes, b, m, j) && (l < m || (l == m && i < j))
    ensures a in Appearance(lanes) && b in Appearance(lanes)
    ensures IndexOf(Appearance(lanes), a) < IndexOf(Appearance(lanes), b)
    decreases |lanes|
  {
    var n := |lanes| - 1;
    var before, lane := lanes[..n], lanes[n];
    var seen := Appearance(before);
    assert Appearance(lanes) == Add(seen, lane);
    hide Appearance, Add;
    AppearanceElements(before);
    AppearanceElements(lanes);
    AddElements(seen, lane);
    assert a in lanes[l] && b in lanes[m];
    if m < n {
      assert FirstAt(before, a, l, i) && FirstAt(before, b, m, j);
      AppearInOrder(before, a, b, l, i, m, j);
      IndexInPrefix(seen, Appearance(lanes), a);
      IndexInPrefix(seen, Appearance(lanes), b);
    } else {
      assert forall q :: 0 <= q < n ==> before[q] == lanes[q];
      assert b !in seen;
      if l < n {
        assert a in before[l];
        IndexInPrefix(seen, Appearance(lanes), a);
        IndexBeyond(seen, Appearance(lanes), b);
      } else {
        assert a !in seen;
        AddedInOrder(seen, lane, a, b, i, j);
      }
    }
  }

  /** Of two ids of the ranking, the one with the larger sum of sightings comes first; at equal sums the
      one first seen in the earlier lane, or earlier in the same lane. */
  lemma RankedByTotalThenFirstPlace(out: seq<HunkId>, lanes: seq<Lane>, k: nat, p: nat, q: nat,
                                    l: nat, i: nat, m: nat, j: nat)
    requires IsFused(out, lanes, k) && p < |out| && q < |out| && p != q
    requires FirstAt(lanes, out[p], l, i) && FirstAt(lanes, out[q], m, j)
    ensures p < q <==> Total(lanes, k, out[p]) > Total(lanes, k, out[q])
                       || (Total(lanes, k, out[p]) == Total(lanes, k, out[q]) && (l < m || (l == m && i < j)))
  {
    hide Score, Appearance, Total;
    ScoreIsTotal(lanes, k, out[p]);
    ScoreIsTotal(lanes, k, out[q]);
    assert p < q ==> Before(lanes, k, out[p], out[q]);
    assert q < p ==> Before(lanes, k, out[q], out[p]);
    DifferentIds(out, lanes, k, p, q);
    if l < m || (l == m && i < j) {
      AppearInOrder(lanes, out[p], out[q], l, i, m, j);
    } else {
      AppearInOrder(lanes, out[q], out[p], m, j, l, i);
    }
  }

  lemma DifferentIds(out: seq<HunkId>, lanes: seq<Lane>, k: nat, p: nat, q: nat)
    requires IsFused(out, lanes, k) && p < |out| && q < |out| && p != q
    ensures out[p] != out[q]
  {
    hide IsFused;
    FusedIsUnique(lanes, k, out, out);
  }

  /** Every id of the ranking has a first place. */
  lemma {:induction false} HasFirstPlace(lanes: seq<Lane>, id: HunkId) returns (l: nat, i: nat)
    requires exists l :: 0 <= l < |lanes| && id in lanes[l]
    ensures FirstAt(lanes, id, l, i)
  {
    if id in lanes[0] {
      l := 0;
      i := IndexOf(lanes[0], id);
    } else {
      var m :| 0 <= m < |lanes| && id in lanes[m];
      assert lanes[1..][m - 1] == lanes[m];
      l, i := HasFirstPlace(lanes[1..], id);
      l := l + 1;
      assert forall n :: 0 < n < |lanes| ==> lanes[n] == lanes[1..][n - 1];
    }
  }
}
