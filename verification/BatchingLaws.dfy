/** What the coalescer's invariant means for its callers, on every run. */
module BatchingLaws {
  import opened Wrappers
  import opened BatchingSpec

  // ---------------------------------------------------------------------------------------------
  // Which call embedded a row

  function CallsBefore(calls: seq<Call>, c: nat): nat
    requires c <= |calls|
  {
    |Embedded(calls[..c])|
  }

  /** The `i`th row of call `c` sits at one place in the histories of rows and of outcomes. */
  lemma {:induction false} RowOfCall(calls: seq<Call>, c: nat, i: nat)
    requires c < |calls| && i < |calls[c].rows|
    ensures var g := CallsBefore(calls, c) + i;
            && g < |Embedded(calls)|
            && Embedded(calls)[g] == calls[c].rows[i]
            && Results(calls)[g] == Outcomes(calls[c])[i]
    decreases |calls|
  {
    var n := |calls| - 1;
    if c < n {
      RowOfCall(calls[..n], c, i);
      assert calls[..n][..c] == calls[..c];
    }
  }

  /** Every embedded row is some row of some call. */
  lemma {:induction false} CallOfRow(calls: seq<Call>, g: nat) returns (c: nat, i: nat)
    requires g < |Embedded(calls)|
    ensures c < |calls| && i < |calls[c].rows| && g == CallsBefore(calls, c) + i
    ensures Embedded(calls)[g] == calls[c].rows[i] && Results(calls)[g] == Outcomes(calls[c])[i]
    decreases |calls|
  {
    var n := |calls| - 1;
    if g < |Embedded(calls[..n])| {
      c, i := CallOfRow(calls[..n], g);
      assert calls[..n][..c] == calls[..c];
    } else {
      c, i := n, g - |Embedded(calls[..n])|;
    }
  }

  // ---------------------------------------------------------------------------------------------
  // Replies

  ghost predicate Answered(sent: seq<(nat, Reply)>, id: nat) {
    exists i :: 0 <= i < |sent| && sent[i].0 == id
  }

  /** Once the queue has drained, every accepted row was embedded exactly once, in order, no request
      is left in the table, and every request has exactly one reply. */
  lemma DrainedMeansAnswered(b: nat, accepted: seq<seq<string>>, calls: seq<Call>, pending: seq<Row>,
                             reqs: map<nat, ReqState>, sent: seq<(nat, Reply)>)
    requires Inv(b, accepted, calls, pending, reqs, sent) && pending == []
    ensures Embedded(calls) == AllRows(accepted)
    ensures reqs == map[]
    ensures forall id :: 0 <= id < |accepted| ==> Answered(sent, id)
    ensures forall i, j :: 0 <= i < j < |sent| ==> sent[i].0 != sent[j].0
    ensures forall i :: 0 <= i < |sent| ==> sent[i].0 < |accepted|
  {
    hide AllRows, Embedded, CallsAreFair, Batches, SeparateCalls;
    AllRowsLength(accepted);
    forall id | 0 <= id < |accepted|
      ensures id !in reqs && Answered(sent, id)
    {
      OffsetMonoWeak(accepted, id);
      assert TracksOne(accepted, Results(calls), reqs, sent, id);
      var reply := StatusIn(accepted, Results(calls), id).reply;
      var i :| 0 <= i < |sent| && sent[i] == (id, reply);
    }
    assert forall id :: id in reqs ==> false;
  }

  lemma OffsetMonoWeak(accepted: seq<seq<string>>, id: nat)
    requires id < |accepted|
    ensures Offset(accepted, id) + |accepted[id]| <= Offset(accepted, |accepted|)
  {
    OffsetMono(accepted, id, |accepted|);
  }

  function Map(f: string -> Vector, texts: seq<string>): (r: seq<Vector>)
    ensures |r| == |texts|
  {
    seq(|texts|, i requires 0 <= i < |texts| => f(texts[i]))
  }

  /** Every successful inner call embeds each text on its own. */
  ghost predicate RowWise(calls: seq<Call>, f: string -> Vector) {
    forall i :: 0 <= i < |calls| && calls[i].returned.Ok? && |calls[i].returned.value| == |calls[i].rows|
           ==> calls[i].returned.value == Map(f, Texts(calls[i].rows))
  }

  /** A caller gets its own rows back, in its own order, whatever else was in flight. */
  lemma OkReplyIsOwnRows(b: nat, accepted: seq<seq<string>>, calls: seq<Call>, pending: seq<Row>,
                         reqs: map<nat, ReqState>, sent: seq<(nat, Reply)>, f: string -> Vector,
                         id: nat, vectors: seq<Vector>)
    requires Inv(b, accepted, calls, pending, reqs, sent)
    requires RowWise(calls, f) && (id, Ok(vectors)) in sent
    ensures id < |accepted| && vectors == Map(f, accepted[id])
  {
    hide AllRows, Embedded, CallsAreFair, Batches, SeparateCalls, Offset, Outcomes, RowWise;
    var k :| 0 <= k < |sent| && sent[k] == (id, Ok(vectors));
    var off, texts := Offset(accepted, id), accepted[id];
    var mine := Mine(Results(calls), off, |texts|);
    assert StatusOf(mine, |texts|) == Settled(Ok(vectors));
    assert |mine| == |texts| && vectors == Vectors(mine);
    forall i | 0 <= i < |texts|
      ensures vectors[i] == f(texts[i])
    {
      assert mine[i] == Results(calls)[off + i];
      assert mine[i].Done?;
      OutcomeOfRow(accepted, calls, pending, f, id, i);
    }
  }

  lemma OutcomeOfRow(accepted: seq<seq<string>>, calls: seq<Call>, pending: seq<Row>, f: string -> Vector,
                     id: nat, i: nat)
    requires Embedded(calls) + pending == AllRows(accepted) && RowWise(calls, f)
    requires id < |accepted| && i < |accepted[id]|
    requires Offset(accepted, id) + i < |Results(calls)|
    requires Results(calls)[Offset(accepted, id) + i].Done?
    ensures Results(calls)[Offset(accepted, id) + i] == Done(f(accepted[id][i]))
  {
    var g := Offset(accepted, id) + i;
    RowOf(accepted, id, i);
    var c, j := CallOfRow(calls, g);
    assert calls[c].rows[j] == AllRows(accepted)[g];
  }

  /** A failed call that held a row of the request. */
  ghost predicate FailsIn(c: Call, id: nat) {
    !Succeeded(c) && exists j :: 0 <= j < |c.rows| && c.rows[j].id == id
  }

  /** A request fails if and only if one of its rows was in a call that failed or returned the wrong
      number of vectors. */
  lemma FailsIffACallFailed(b: nat, accepted: seq<seq<string>>, calls: seq<Call>, pending: seq<Row>,
                            reqs: map<nat, ReqState>, sent: seq<(nat, Reply)>, id: nat)
    requires Inv(b, accepted, calls, pending, reqs, sent) && id < |accepted|
    ensures (exists e :: (id, Err(e)) in sent) <==> (exists c :: 0 <= c < |calls| && FailsIn(calls[c], id))
  {
    if e :| (id, Err(e)) in sent {
      var c := FirstFailureIsReported(b, accepted, calls, pending, reqs, sent, id, e);
    }
    if c :| 0 <= c < |calls| && FailsIn(calls[c], id) {
      FailureIsReported(b, accepted, calls, pending, reqs, sent, id, c);
    }
  }

  /** The error sent is that of the first failed call that held one of the request's rows. */
  lemma FirstFailureIsReported(b: nat, accepted: seq<seq<string>>, calls: seq<Call>, pending: seq<Row>,
                               reqs: map<nat, ReqState>, sent: seq<(nat, Reply)>, id: nat, e: EmbedError)
    returns (c: nat)
    requires Inv(b, accepted, calls, pending, reqs, sent) && (id, Err(e)) in sent
    ensures c < |calls| && FailsIn(calls[c], id) && ErrorOf(calls[c]) == e
    ensures forall d :: 0 <= d < c ==> !FailsIn(calls[d], id)
  {
    hide AllRows, Embedded, CallsAreFair, Batches, SeparateCalls, Offset, Outcomes, FailsIn, Succeeded;
    var k :| 0 <= k < |sent| && sent[k] == (id, Err(e));
    var mine := Mine(Results(calls), Offset(accepted, id), |accepted[id]|);
    assert StatusOf(mine, |accepted[id]|) == Settled(Err(e));
    var i :| 0 <= i < |mine| && mine[i] == Lost(e) && forall j :: 0 <= j < i ==> mine[j].Done?;
    c := LostRow(accepted, calls, pending, id, i);
    forall d | 0 <= d < c
      ensures !FailsIn(calls[d], id)
    {
      EarlierCallSucceeded(accepted, calls, pending, id, i, c, d);
    }
  }

  /** A call before the one that holds the first lost row of a request did not fail with one of its rows. */
  lemma EarlierCallSucceeded(accepted: seq<seq<string>>, calls: seq<Call>, pending: seq<Row>, id: nat, i: nat, c: nat,
                             d: nat)
    requires Embedded(calls) + pending == AllRows(accepted) && id < |accepted| && d < c < |calls|
    requires forall j :: 0 <= j < i && j < |Mine(Results(calls), Offset(accepted, id), |accepted[id]|)| ==>
               Mine(Results(calls), Offset(accepted, id), |accepted[id]|)[j].Done?
    requires CallsBefore(calls, c) <= Offset(accepted, id) + i
    ensures !FailsIn(calls[d], id)
  {
    hide AllRows, Embedded, Offset, Outcomes, FailsIn, Succeeded, Mine, Results, CallsBefore;
    if FailsIn(calls[d], id) {
      var i' := LostPlace(accepted, calls, pending, d, id);
      CallsBeforeMono(calls, d, c);
      assert false;
    }
  }

  lemma FailureIsReported(b: nat, accepted: seq<seq<string>>, calls: seq<Call>, pending: seq<Row>,
                          reqs: map<nat, ReqState>, sent: seq<(nat, Reply)>, id: nat, c: nat)
    requires Inv(b, accepted, calls, pending, reqs, sent) && id < |accepted|
    requires c < |calls| && FailsIn(calls[c], id)
    ensures exists e :: (id, Err(e)) in sent
  {
    hide AllRows, Embedded, CallsAreFair, Batches, SeparateCalls, Offset, Outcomes, FailsIn, Succeeded;
    var mine := Mine(Results(calls), Offset(accepted, id), |accepted[id]|);
    assert TracksOne(accepted, Results(calls), reqs, sent, id);
    var i := LostPlace(accepted, calls, pending, c, id);
    var status := StatusOf(mine, |accepted[id]|);
    assert (id, status.reply) in sent;
  }

  lemma {:induction false} CallsBeforeMono(calls: seq<Call>, c: nat, d: nat)
    requires c < d <= |calls|
    ensures CallsBefore(calls, c) + |calls[c].rows| <= CallsBefore(calls, d)
    decreases d
  {
    assert calls[..d][..d - 1] == calls[..d - 1];
    if c < d - 1 {
      CallsBeforeMono(calls, c, d - 1);
    }
  }

  /** The call that lost a row of the request. */
  lemma LostRow(accepted: seq<seq<string>>, calls: seq<Call>, pending: seq<Row>, id: nat, i: nat) returns (c: nat)
    requires Embedded(calls) + pending == AllRows(accepted) && id < |accepted| && i < |accepted[id]|
    requires Offset(accepted, id) + i < |Results(calls)| && Results(calls)[Offset(accepted, id) + i].Lost?
    ensures c < |calls| && FailsIn(calls[c], id)
    ensures Results(calls)[Offset(accepted, id) + i] == Lost(ErrorOf(calls[c]))
    ensures CallsBefore(calls, c) <= Offset(accepted, id) + i
  {
    RowOf(accepted, id, i);
    var j;
    c, j := CallOfRow(calls, Offset(accepted, id) + i);
    assert calls[c].rows[j] == AllRows(accepted)[Offset(accepted, id) + i];
  }

  /** A row of the request that the failed call lost. */
  lemma LostPlace(accepted: seq<seq<string>>, calls: seq<Call>, pending: seq<Row>, c: nat, id: nat) returns (i: nat)
    requires Embedded(calls) + pending == AllRows(accepted)
    requires c < |calls| && FailsIn(calls[c], id)
    ensures id < |accepted|
    ensures var mine := Mine(Results(calls), Offset(accepted, id), |accepted[id]|);
            i < |mine| && mine[i].Lost?
    ensures Offset(accepted, id) + i < CallsBefore(calls, c) + |calls[c].rows|
  {
    var j :| 0 <= j < |calls[c].rows| && calls[c].rows[j].id == id;
    RowOfCall(calls, c, j);
    var g := CallsBefore(calls, c) + j;
    assert AllRows(accepted)[g] == calls[c].rows[j];
    RowAt(accepted, g);
    i := AllRows(accepted)[g].idx;
    assert Results(calls)[g] == Outcomes(calls[c])[j];
  }

  /** The empty slots of a live request are its queued rows, each once, and `remaining` counts them;
      there is at least one. */
  lemma LiveSlotsAreQueuedRows(b: nat, accepted: seq<seq<string>>, calls: seq<Call>, pending: seq<Row>,
                               reqs: map<nat, ReqState>, sent: seq<(nat, Reply)>, id: nat)
    requires Inv(b, accepted, calls, pending, reqs, sent) && id in reqs
    ensures id < |accepted| && |reqs[id].slots| == |accepted[id]|
    ensures 0 < reqs[id].remaining <= |accepted[id]|
    ensures forall i :: 0 <= i < |accepted[id]| ==>
              (reqs[id].slots[i].None? <==> i >= |accepted[id]| - reqs[id].remaining)
    ensures forall i :: 0 <= i < |accepted[id]| ==>
              (reqs[id].slots[i].None? <==> Row(id, i, accepted[id][i]) in pending)
    ensures forall j, k :: 0 <= j < k < |pending| ==> pending[j] != pending[k]
  {
    hide AllRows, Embedded, CallsAreFair, Batches, SeparateCalls, Offset, Results;
    var off, n := Offset(accepted, id), |accepted[id]|;
    assert TracksOne(accepted, Results(calls), reqs, sent, id);
    var mine := Mine(Results(calls), off, n);
    forall i | 0 <= i < n
      ensures reqs[id].slots[i].None? <==> Row(id, i, accepted[id][i]) in pending
    {
      PlaceInQueue(accepted, calls, pending, id, i);
    }
    forall j, k | 0 <= j < k < |pending|
      ensures pending[j] != pending[k]
    {
      assert AllRows(accepted)[|Embedded(calls)| + j] == pending[j];
      assert AllRows(accepted)[|Embedded(calls)| + k] == pending[k];
      RowAt(accepted, |Embedded(calls)| + j);
      RowAt(accepted, |Embedded(calls)| + k);
    }
  }

  lemma PlaceInQueue(accepted: seq<seq<string>>, calls: seq<Call>, pending: seq<Row>, id: nat, i: nat)
    requires Embedded(calls) + pending == AllRows(accepted) && id < |accepted| && i < |accepted[id]|
    ensures Row(id, i, accepted[id][i]) in pending <==> |Embedded(calls)| <= Offset(accepted, id) + i
  {
    hide AllRows, Embedded;
    var g, e := Offset(accepted, id) + i, |Embedded(calls)|;
    var row := Row(id, i, accepted[id][i]);
    RowOf(accepted, id, i);
    if e <= g {
      assert pending[g - e] == row;
    }
    if row in pending {
      var k :| 0 <= k < |pending| && pending[k] == row;
      assert AllRows(accepted)[e + k] == row;
      RowAt(accepted, e + k);
    }
  }

  // ---------------------------------------------------------------------------------------------
  // Cost and fairness

  /** Rows taken by consecutive calls. */
  function Taken(calls: seq<Call>): nat {
    if calls == [] then 0 else |calls[0].rows| + Taken(calls[1..])
  }

  /** The calls that follow take more than the first `p` rows of the queue. */
  lemma {:induction false} WindowTakes(calls: seq<Call>, queued: nat, b: nat, c: nat, p: nat)
    requires b > 0 && CallsAreFair(calls, queued, b)
    requires c < |calls| && p < calls[c].backlog && c + Batches(p + 1, b) <= |calls|
    ensures Taken(calls[c..c + Batches(p + 1, b)]) > p
    decreases p
  {
    var m := Batches(p + 1, b);
    var window := calls[c..c + m];
    assert window[0] == calls[c];
    if p >= b {
      assert Batches(p + 1, b) == 1 + Batches(p + 1 - b, b);
      assert calls[c + 1].backlog >= calls[c].backlog - |calls[c].rows|;
      WindowTakes(calls, queued, b, c + 1, p - b);
      assert window[1..] == calls[c + 1..c + m];
    }
  }

  lemma {:induction false} TakenIsBetween(calls: seq<Call>, c: nat, d: nat)
    requires c <= d <= |calls|
    ensures CallsBefore(calls, d) == CallsBefore(calls, c) + Taken(calls[c..d])
    decreases d - c
  {
    if c < d {
      TakenIsBetween(calls, c + 1, d);
      assert calls[c..d][1..] == calls[c + 1..d];
      assert calls[..c + 1][..c] == calls[..c];
    }
  }

  /** What a call found queued was there: rows embedded before it and its backlog are among all rows. */
  lemma {:induction false} BacklogIsQueued(calls: seq<Call>, queued: nat, b: nat, c: nat)
    requires b > 0 && CallsAreFair(calls, queued, b) && c < |calls|
    ensures CallsBefore(calls, c) + calls[c].backlog <= |Embedded(calls)| + queued
    decreases |calls| - c
  {
    assert calls[..c + 1][..c] == calls[..c];
    assert CallsBefore(calls, c + 1) == CallsBefore(calls, c) + |calls[c].rows|;
    if c + 1 < |calls| {
      BacklogIsQueued(calls, queued, b, c + 1);
    } else {
      assert calls[..c + 1] == calls;
    }
  }

  lemma MultiplesApart(m: nat, n: nat, b: nat)
    ensures m < n ==> m * b + b <= n * b
  {
    if m < n {
      var k := n - m - 1;
      assert n * b == m * b + b + k * b;
    }
  }

  lemma QuotientIs(p: nat, b: nat, q: nat, r: nat)
    requires b > 0 && p == q * b + r && r < b
    ensures p / b == q
  {
    var q', r' := p / b, p % b;
    assert p == q' * b + r';
    MultiplesApart(q, q', b);
    MultiplesApart(q', q, b);
  }

  lemma {:induction false} BatchesIsQuotient(p: nat, b: nat)
    requires b > 0
    ensures Batches(p + 1, b) == p / b + 1
    decreases p
  {
    if p < b {
      QuotientIs(p, b, 0, p);
    } else {
      BatchesIsQuotient(p - b, b);
      var q, r := (p - b) / b, (p - b) % b;
      assert p == (q + 1) * b + r;
      QuotientIs(p, b, q + 1, r);
    }
  }

  /** No starvation: the row queued at position `p` when call `c` is made is embedded by one of the
      next floor(p / b) + 1 calls, whatever arrives meanwhile. A run that makes fewer calls embeds it
      too, once its queue has drained. */
  lemma NoStarvation(b: nat, accepted: seq<seq<string>>, calls: seq<Call>, pending: seq<Row>,
                     reqs: map<nat, ReqState>, sent: seq<(nat, Reply)>, c: nat, p: nat)
    returns (d: nat, j: nat)
    requires Inv(b, accepted, calls, pending, reqs, sent)
    requires c < |calls| && p < calls[c].backlog
    requires pending == [] || c + p / b + 1 <= |calls|
    ensures CallsBefore(calls, c) + p < |AllRows(accepted)|
    ensures c <= d < |calls| && d < c + p / b + 1
    ensures j < |calls[d].rows| && calls[d].rows[j] == AllRows(accepted)[CallsBefore(calls, c) + p]
  {
    hide Tracks, AllRows, Embedded, Batches, SeparateCalls, Outcomes, CallsAreFair;
    var g := CallsBefore(calls, c) + p;
    BacklogIsQueued(calls, |pending|, b, c);
    BatchesIsQuotient(p, b);
    var m := p / b + 1;
    if c + m <= |calls| {
      WindowTakes(calls, |pending|, b, c, p);
      TakenIsBetween(calls, c, c + m);
      assert g < CallsBefore(calls, c + m);
      EmbeddedGrows(calls, c + m);
    }
    d, j := CallOfRow(calls, g);
    assert calls[d].rows[j] == AllRows(accepted)[g];
    hide CallsBefore;
    RowIsNotBefore(calls, c, d, j, g);
    if c + m <= |calls| {
      RowIsNotAfter(calls, c + m, d, g);
    }
  }

  lemma RowIsNotBefore(calls: seq<Call>, c: nat, d: nat, j: nat, g: nat)
    requires c <= |calls| && d < |calls| && j < |calls[d].rows|
    requires g == CallsBefore(calls, d) + j && CallsBefore(calls, c) <= g
    ensures c <= d
  {
    hide CallsBefore;
    if d < c {
      CallsBeforeMono(calls, d, c);
    }
  }

  lemma RowIsNotAfter(calls: seq<Call>, c: nat, d: nat, g: nat)
    requires c <= |calls| && d < |calls| && CallsBefore(calls, d) <= g < CallsBefore(calls, c)
    ensures d < c
  {
    hide CallsBefore;
    if c <= d {
      CallsBeforeWeakMono(calls, c, d);
    }
  }

  lemma EmbeddedGrows(calls: seq<Call>, c: nat)
    requires c <= |calls|
    ensures CallsBefore(calls, c) <= |Embedded(calls)|
  {
    hide Embedded;
    CallsBeforeWeakMono(calls, c, |calls|);
    assert calls[..|calls|] == calls;
  }

  lemma CallsBeforeWeakMono(calls: seq<Call>, c: nat, d: nat)
    requires c <= d <= |calls|
    ensures CallsBefore(calls, c) <= CallsBefore(calls, d)
  {
    hide CallsBefore;
    if c < d {
      CallsBeforeMono(calls, c, d);
    }
  }
}
