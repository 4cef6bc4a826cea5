/** Reciprocal Rank Fusion, over exact reals. */
module Rrf {
  import opened Sorting

  type HunkId = int
  type Lane = seq<HunkId>

  /** What one sighting at 0-based position `i` is worth. */
  function Worth(k: nat, i: nat): (w: real)
    ensures w > 0.0
  {
    1.0 / ((k + i + 1) as real)
  }

  function LaneScore(lane: Lane, k: nat, id: HunkId): (s: real)
    ensures s >= 0.0
  {
    if lane == [] then 0.0
    else
      var n := |lane| - 1;
      LaneScore(lane[..n], k, id) + if lane[n] == id then Worth(k, n) else 0.0
  }

  function Score(lanes: seq<Lane>, k: nat, id: HunkId): (s: real)
    ensures s >= 0.0
  {
    if lanes == [] then 0.0
    else
      var n := |lanes| - 1;
      Score(lanes[..n], k, id) + LaneScore(lanes[n], k, id)
  }

  /** The ids of a lane added to those already seen, in order of first appearance. */
  function Add(seen: seq<HunkId>, lane: Lane): seq<HunkId> {
    if lane == [] then seen
    else
      var n := |lane| - 1;
      var before := Add(seen, lane[..n]);
      if lane[n] in before then before else before + [lane[n]]
  }

  /** Every id of every lane once, in order of first appearance. */
  function Appearance(lanes: seq<Lane>): seq<HunkId> {
    if lanes == [] then [] else Add(Appearance(lanes[..|lanes| - 1]), lanes[|lanes| - 1])
  }

  function IndexOf(s: seq<HunkId>, id: HunkId): (i: nat)
    requires id in s
    ensures i < |s| && s[i] == id && forall j :: 0 <= j < i ==> s[j] != id
  {
    if s[0] == id then 0 else 1 + IndexOf(s[1..], id)
  }

  /** `a` is ranked before `b`: a higher score, or the same and seen first. */
  predicate Before(lanes: seq<Lane>, k: nat, a: HunkId, b: HunkId) {
    && a in Appearance(lanes) && b in Appearance(lanes)
    && var x, y := Score(lanes, k, a), Score(lanes, k, b);
       x > y || (x == y && IndexOf(Appearance(lanes), a) < IndexOf(Appearance(lanes), b))
  }

  /** The fused ranking: every id once, in rank order. */
  ghost predicate IsFused(out: seq<HunkId>, lanes: seq<Lane>, k: nat) {
    && (forall id :: id in out <==> id in Appearance(lanes))
    && (forall i, j :: 0 <= i < j < |out| ==> Before(lanes, k, out[i], out[j]))
  }

  // ---------------------------------------------------------------------------------------------
  // The computation

  datatype Entry = Entry(id: HunkId, score: real, first: nat)

  predicate Ranks(a: Entry, b: Entry) {
    a.score > b.score || (a.score == b.score && a.first <= b.first)
  }

  /** `reciprocal_rank_fusion`. The table is enumerated in an arbitrary order before the sort. */
  method ReciprocalRankFusion(lanes: seq<Lane>, k: nat) returns (out: seq<HunkId>)
    ensures IsFused(out, lanes, k)
  {
    hide *;
    var scores: map<HunkId, real> := map[];
    var firstSeen: map<HunkId, nat> := map[];
    var counter := 0;
    ghost var seen: seq<HunkId> := [];
    TablesStart(lanes, k);
    for l := 0 to |lanes|
      invariant Tables(scores, firstSeen, counter, lanes[..l], [], k)
    {
      var lane := lanes[l];
      assert lane[..0] == [];
      for i := 0 to |lane|
        invariant Tables(scores, firstSeen, counter, lanes[..l], lane[..i], k)
      {
        var id := lane[i];
        TablesStep(scores, firstSeen, counter, lanes[..l], lane, i, k);
        var worth := 1.0 / ((k + i + 1) as real);
        scores := scores[id := (if id in scores then scores[id] else 0.0) + worth];
        if id !in firstSeen {
          firstSeen := firstSeen[id := counter];
          counter := counter + 1;
        }
      }
      assert lane[..|lane|] == lane;
      TablesLane(scores, firstSeen, counter, lanes, l, k);
    }
    assert lanes[..|lanes|] == lanes;
    var entries: seq<Entry> := [];
    var todo := scores.Keys;
    TablesDone(scores, firstSeen, counter, lanes, k);
    TablesKeys(scores, firstSeen, lanes, k);
    while todo != {}
      invariant todo <= scores.Keys
      invariant forall e :: e in entries ==> e.id in scores && e.id !in todo && e == Entry(e.id, scores[e.id], firstSeen[e.id])
      invariant forall id :: id in scores && id !in todo ==> Entry(id, scores[id], firstSeen[id]) in entries
      invariant forall i, j :: 0 <= i < j < |entries| ==> entries[i].id != entries[j].id
      decreases |todo|
    {
      SomeIn(todo);
      var id :| id in todo;
      entries := entries + [Entry(id, scores[id], firstSeen[id])];
      todo := todo - {id};
    }
    var sorted := Sort(entries, Ranks);
    out := [];
    for i := 0 to |sorted|
      invariant |out| == i
      invariant forall j :: 0 <= j < i ==> out[j] == sorted[j].id
    {
      out := out + [sorted[i].id];
    }
    SortedIsFused(scores, firstSeen, lanes, k, entries, out);
  }

  /** What the two tables hold after the lanes `done` and the part `part` of the next one. */
  ghost predicate Tables(scores: map<HunkId, real>, firstSeen: map<HunkId, nat>, counter: nat, done: seq<Lane>,
                         part: Lane, k: nat) {
    var seen := Add(Appearance(done), part);
    && counter == |seen|
    && (forall id :: id in scores <==> id in seen)
    && (forall id :: id in firstSeen <==> id in seen)
    && (forall id :: id in seen ==> scores[id] == Score(done, k, id) + LaneScore(part, k, id))
    && (forall id :: id in seen ==> firstSeen[id] == IndexOf(seen, id))
  }

  lemma TablesStart(lanes: seq<Lane>, k: nat)
    ensures Tables(map[], map[], 0, lanes[..0], [], k)
  {
  }

  lemma UnseenScoresNothing(done: seq<Lane>, part: Lane, k: nat, id: HunkId)
    requires id !in Add(Appearance(done), part)
    ensures Score(done, k, id) == 0.0 && LaneScore(part, k, id) == 0.0
    decreases |done|, |part|
  {
    if part != [] {
      UnseenScoresNothing(done, part[..|part| - 1], k, id);
    } else if done != [] {
      UnseenScoresNothing(done[..|done| - 1], done[|done| - 1], k, id);
    }
  }

  lemma TablesStep(scores: map<HunkId, real>, firstSeen: map<HunkId, nat>, counter: nat, done: seq<Lane>, lane: Lane,
                   i: nat, k: nat)
    requires i < |lane| && Tables(scores, firstSeen, counter, done, lane[..i], k)
    ensures var id := lane[i];
            && (id in scores <==> id in firstSeen)
            && Tables(scores[id := (if id in scores then scores[id] else 0.0) + 1.0 / ((k + i + 1) as real)],
                      if id in firstSeen then firstSeen else firstSeen[id := counter],
                      if id in firstSeen then counter else counter + 1,
                      done, lane[..i + 1], k)
  {
    hide Score, Appearance;
    var id := lane[i];
    var seen := Add(Appearance(done), lane[..i]);
    assert lane[..i + 1][..i] == lane[..i];
    assert Add(Appearance(done), lane[..i + 1]) == if id in seen then seen else seen + [id];
    assert LaneScore(lane[..i + 1], k, id) == LaneScore(lane[..i], k, id) + Worth(k, i);
    if id !in seen {
      UnseenScoresNothing(done, lane[..i], k, id);
      forall x | x in seen + [id]
        ensures IndexOf(seen + [id], x) == if x in seen then IndexOf(seen, x) else |seen|
      {
        IndexOfSnoc(seen, id, x);
      }
    }
  }

  lemma {:induction false} IndexOfSnoc(s: seq<HunkId>, id: HunkId, x: HunkId)
    requires id !in s && x in s + [id]
    ensures IndexOf(s + [id], x) == if x in s then IndexOf(s, x) else |s|
  {
    if s != [] && s[0] != x {
      assert (s + [id])[1..] == s[1..] + [id];
      IndexOfSnoc(s[1..], id, x);
    }
  }

  lemma TablesLane(scores: map<HunkId, real>, firstSeen: map<HunkId, nat>, counter: nat, lanes: seq<Lane>, l: nat, k: nat)
    requires l < |lanes| && Tables(scores, firstSeen, counter, lanes[..l], lanes[l], k)
    ensures Tables(scores, firstSeen, counter, lanes[..l + 1], [], k)
  {
    assert lanes[..l + 1][..l] == lanes[..l];
  }

  lemma TablesKeys(scores: map<HunkId, real>, firstSeen: map<HunkId, nat>, lanes: seq<Lane>, k: nat)
    requires FinalTables(scores, firstSeen, lanes, k)
    ensures scores.Keys == firstSeen.Keys
  {
    assert forall id :: id in scores.Keys <==> id in firstSeen.Keys;
  }

  lemma RanksIsTotal()
    ensures TotalPreorder(Ranks)
  {
  }

  lemma TablesDone(scores: map<HunkId, real>, firstSeen: map<HunkId, nat>, counter: nat, lanes: seq<Lane>, k: nat)
    requires Tables(scores, firstSeen, counter, lanes, [], k)
    ensures FinalTables(scores, firstSeen, lanes, k)
  {
    hide Score, Appearance;
  }

  ghost predicate FinalTables(scores: map<HunkId, real>, firstSeen: map<HunkId, nat>, lanes: seq<Lane>, k: nat) {
    && (forall id :: id in scores <==> id in Appearance(lanes))
    && (forall id :: id in firstSeen <==> id in Appearance(lanes))
    && (forall id :: id in scores ==> scores[id] == Score(lanes, k, id))
    && (forall id :: id in firstSeen ==> firstSeen[id] == IndexOf(Appearance(lanes), id))
  }

  lemma SortedIsFused(scores: map<HunkId, real>, firstSeen: map<HunkId, nat>, lanes: seq<Lane>, k: nat,
                      entries: seq<Entry>, out: seq<HunkId>)
    requires FinalTables(scores, firstSeen, lanes, k)
    requires forall e :: e in entries ==> e.id in scores && e.id in firstSeen && e == Entry(e.id, scores[e.id], firstSeen[e.id])
    requires forall id :: id in scores ==> id in firstSeen && Entry(id, scores[id], firstSeen[id]) in entries
    requires forall i, j :: 0 <= i < j < |entries| ==> entries[i].id != entries[j].id
    requires |out| == |entries|
    requires forall j :: 0 <= j < |out| ==> out[j] == Sort(entries, Ranks)[j].id
    ensures IsFused(out, lanes, k)
  {
    hide *;
    var sorted := Sort(entries, Ranks);
    RanksIsTotal();
    SortSorted(entries, Ranks);
    SortSameElements(entries, Ranks);
    SortedIds(scores, firstSeen, lanes, k, sorted, out);
    DistinctEntries(entries);
    SortedOrder(scores, firstSeen, lanes, k, sorted, out);
    FusedIs(out, lanes, k);
  }

  lemma FusedIs(out: seq<HunkId>, lanes: seq<Lane>, k: nat)
    requires forall id :: id in out <==> id in Appearance(lanes)
    requires forall i, j :: 0 <= i < j < |out| ==> Before(lanes, k, out[i], out[j])
    ensures IsFused(out, lanes, k)
  {
  }

  lemma DistinctEntries(entries: seq<Entry>)
    requires forall i, j :: 0 <= i < j < |entries| ==> entries[i].id != entries[j].id
    ensures NoDuplicates(entries)
  {
  }

  lemma SortedIds(scores: map<HunkId, real>, firstSeen: map<HunkId, nat>, lanes: seq<Lane>, k: nat,
                  sorted: seq<Entry>, out: seq<HunkId>)
    requires FinalTables(scores, firstSeen, lanes, k)
    requires forall e :: e in sorted ==> e.id in scores
    requires forall id :: id in scores ==> id in firstSeen && Entry(id, scores[id], firstSeen[id]) in sorted
    requires |out| == |sorted| && forall j :: 0 <= j < |out| ==> out[j] == sorted[j].id
    ensures forall id :: id in out <==> id in Appearance(lanes)
  {
    hide Score, Appearance, IndexOf;
    forall id
      ensures id in out <==> id in Appearance(lanes)
    {
      IdsOf(sorted, out, id);
      if id in Appearance(lanes) {
        assert Entry(id, scores[id], firstSeen[id]) in sorted;
      }
    }
  }

  lemma SortedOrder(scores: map<HunkId, real>, firstSeen: map<HunkId, nat>, lanes: seq<Lane>, k: nat,
                    sorted: seq<Entry>, out: seq<HunkId>)
    requires FinalTables(scores, firstSeen, lanes, k)
    requires forall e :: e in sorted ==> e.id in scores && e.id in firstSeen && e == Entry(e.id, scores[e.id], firstSeen[e.id])
    requires NoDuplicates(sorted) && Sorted(sorted, Ranks)
    requires |out| == |sorted| && forall j :: 0 <= j < |out| ==> out[j] == sorted[j].id
    ensures forall i, j :: 0 <= i < j < |out| ==> Before(lanes, k, out[i], out[j])
  {
    hide Score, Appearance, IndexOf, Before, FinalTables;
    forall i, j | 0 <= i < j < |out|
      ensures Before(lanes, k, out[i], out[j])
    {
      assert sorted[i] in sorted && sorted[j] in sorted;
      EntriesOrder(scores, firstSeen, lanes, k, sorted[i], sorted[j]);
    }
  }

  lemma IdsOf(sorted: seq<Entry>, out: seq<HunkId>, id: HunkId)
    requires |out| == |sorted| && forall j :: 0 <= j < |out| ==> out[j] == sorted[j].id
    ensures id in out <==> exists e :: e in sorted && e.id == id
  {
    if e :| e in sorted && e.id == id {
      var i :| 0 <= i < |sorted| && sorted[i] == e;
      assert out[i] == id;
    }
    if id in out {
      var i :| 0 <= i < |out| && out[i] == id;
      assert sorted[i] in sorted;
    }
  }

  lemma EntriesOrder(scores: map<HunkId, real>, firstSeen: map<HunkId, nat>, lanes: seq<Lane>, k: nat, a: Entry, b: Entry)
    requires FinalTables(scores, firstSeen, lanes, k)
    requires a.id in scores && a.id in firstSeen && a == Entry(a.id, scores[a.id], firstSeen[a.id])
    requires b.id in scores && b.id in firstSeen && b == Entry(b.id, scores[b.id], firstSeen[b.id])
    requires a != b && Ranks(a, b)
    ensures Before(lanes, k, a.id, b.id)
  {
    hide Score, Appearance;
  }

  lemma SomeIn(s: set<HunkId>)
    requires s != {}
    ensures exists id :: id in s
  {
    if forall id :: id !in s {
      assert false;
    }
  }
}
