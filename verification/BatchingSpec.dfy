/** What the cross-request embedding coalescer owes its callers, as a function of two histories: the
    requests accepted so far and the inner calls made so far. */
module BatchingSpec {
  import opened Wrappers

  type Vector = seq<real>

  datatype EmbedError = Inner(msg: string) | WrongCount(returned: nat, asked: nat)

  type Reply = Result<seq<Vector>, EmbedError>

  /** One queued input row: the request that owns it and its place in that request. */
  datatype Row = Row(id: nat, idx: nat, text: string)

  datatype ReqState = ReqState(slots: seq<Option<Vector>>, remaining: nat)

  /** One inner call: the rows it embedded, how many were queued when it was made, what it returned. */
  datatype Call = Call(rows: seq<Row>, backlog: nat, returned: Result<seq<Vector>, string>)

  /** What became of one embedded row. */
  datatype Outcome = Done(vector: Vector) | Lost(error: EmbedError)

  // ---------------------------------------------------------------------------------------------
  // Rows in acceptance order

  function RowsOf(id: nat, texts: seq<string>): (r: seq<Row>)
    ensures |r| == |texts|
  {
    seq(|texts|, i requires 0 <= i < |texts| => Row(id, i, texts[i]))
  }

  /** Every row of every accepted request, in the order they were queued. */
  function AllRows(accepted: seq<seq<string>>): seq<Row> {
    if accepted == [] then []
    else
      var n := |accepted| - 1;
      AllRows(accepted[..n]) + RowsOf(n, accepted[n])
  }

  /** Where the rows of request `id` start among all rows. */
  function Offset(accepted: seq<seq<string>>, id: nat): nat
    requires id <= |accepted|
  {
    if id == 0 then 0 else Offset(accepted, id - 1) + |accepted[id - 1]|
  }

  lemma {:induction false} OffsetMono(accepted: seq<seq<string>>, i: nat, j: nat)
    requires i < j <= |accepted|
    ensures Offset(accepted, i) + |accepted[i]| <= Offset(accepted, j)
    decreases j
  {
    if i < j - 1 {
      OffsetMono(accepted, i, j - 1);
    }
  }

  lemma {:induction false} OffsetPrefix(accepted: seq<seq<string>>, n: nat, id: nat)
    requires id <= n <= |accepted|
    ensures Offset(accepted[..n], id) == Offset(accepted, id)
    decreases id
  {
    if id > 0 {
      OffsetPrefix(accepted, n, id - 1);
    }
  }

  lemma {:induction false} AllRowsLength(accepted: seq<seq<string>>)
    ensures |AllRows(accepted)| == Offset(accepted, |accepted|)
  {
    if accepted != [] {
      var n := |accepted| - 1;
      AllRowsLength(accepted[..n]);
      OffsetPrefix(accepted, n, n);
    }
  }

  /** The row at position `g` names the request and the place whose offset is `g`. */
  lemma {:induction false} RowAt(accepted: seq<seq<string>>, g: nat)
    requires g < |AllRows(accepted)|
    ensures var r := AllRows(accepted)[g];
            && r.id < |accepted| && r.idx < |accepted[r.id]|
            && r.text == accepted[r.id][r.idx]
            && Offset(accepted, r.id) + r.idx == g
  {
    var n := |accepted| - 1;
    AllRowsLength(accepted[..n]);
    OffsetPrefix(accepted, n, n);
    if g < |AllRows(accepted[..n])| {
      RowAt(accepted[..n], g);
      OffsetPrefix(accepted, n, AllRows(accepted)[g].id);
    }
  }

  /** Conversely, every place of every request has its row. */
  lemma {:induction false} RowOf(accepted: seq<seq<string>>, id: nat, i: nat)
    requires id < |accepted| && i < |accepted[id]|
    ensures Offset(accepted, id) + i < |AllRows(accepted)|
    ensures AllRows(accepted)[Offset(accepted, id) + i] == Row(id, i, accepted[id][i])
  {
    var n := |accepted| - 1;
    AllRowsLength(accepted[..n]);
    OffsetPrefix(accepted, n, n);
    if id < n {
      RowOf(accepted[..n], id, i);
      OffsetPrefix(accepted, n, id);
    }
  }

  // ---------------------------------------------------------------------------------------------
  // Inner calls

  predicate Succeeded(c: Call) {
    c.returned.Ok? && |c.returned.value| == |c.rows|
  }

  function ErrorOf(c: Call): EmbedError {
    match c.returned
    case Err(msg) => Inner(msg)
    case Ok(vectors) => WrongCount(|vectors|, |c.rows|)
  }

  function Outcomes(c: Call): (r: seq<Outcome>)
    ensures |r| == |c.rows|
  {
    if Succeeded(c)
    then seq(|c.rows|, i requires 0 <= i < |c.rows| => Done(c.returned.value[i]))
    else seq(|c.rows|, i => Lost(ErrorOf(c)))
  }

  /** Rows embedded by the calls, in order. */
  function Embedded(calls: seq<Call>): seq<Row> {
    if calls == [] then []
    else
      var n := |calls| - 1;
      Embedded(calls[..n]) + calls[n].rows
  }

  /** The outcome of each embedded row, in the same order. */
  function Results(calls: seq<Call>): (r: seq<Outcome>)
    ensures |r| == |Embedded(calls)|
  {
    if calls == [] then []
    else
      var n := |calls| - 1;
      Results(calls[..n]) + Outcomes(calls[n])
  }

  // ---------------------------------------------------------------------------------------------
  // What a request is owed

  datatype Status = Live(state: ReqState) | Settled(reply: Reply)

  /** The outcomes of the rows of a request that starts at `off` and has `n` rows. */
  function Mine(results: seq<Outcome>, off: nat, n: nat): (r: seq<Outcome>)
    ensures |r| <= n
  {
    if |results| <= off then []
    else if |results| <= off + n then results[off..]
    else results[off..off + n]
  }

  /** The first error among the outcomes. */
  function FirstLost(mine: seq<Outcome>): (r: Option<EmbedError>)
    ensures r.None? <==> forall i :: 0 <= i < |mine| ==> mine[i].Done?
    ensures r.Some? ==> exists i :: 0 <= i < |mine| && mine[i] == Lost(r.value)
                                    && forall j :: 0 <= j < i ==> mine[j].Done?
  {
    if mine == [] then None
    else if mine[0].Lost? then Some(mine[0].error)
    else
      var r := FirstLost(mine[1..]);
      assert forall i :: 0 <= i < |mine[1..]| ==> mine[1..][i] == mine[i + 1];
      r
  }

  /** The status of an `n`-row request whose first rows came to `mine`: an error as soon as one row
      is lost, the vectors once all are done, and otherwise a slot per row, filled from the front. */
  function StatusOf(mine: seq<Outcome>, n: nat): Status
    requires |mine| <= n
  {
    var lost := FirstLost(mine);
    if lost.Some? then Settled(Err(lost.value))
    else if |mine| == n then Settled(Ok(Vectors(mine)))
    else Live(ReqState(Slots(mine, n), n - |mine|))
  }

  function Vectors(mine: seq<Outcome>): (s: seq<Vector>)
    requires forall i :: 0 <= i < |mine| ==> mine[i].Done?
    ensures |s| == |mine|
  {
    seq(|mine|, i requires 0 <= i < |mine| => mine[i].vector)
  }

  function Slots(mine: seq<Outcome>, n: nat): (s: seq<Option<Vector>>)
    requires forall i :: 0 <= i < |mine| ==> mine[i].Done?
    ensures |s| == n
  {
    seq(n, i requires 0 <= i < n => if i < |mine| then Some(mine[i].vector) else None)
  }

  function StatusIn(accepted: seq<seq<string>>, results: seq<Outcome>, id: nat): Status
    requires id < |accepted|
  {
    StatusOf(Mine(results, Offset(accepted, id), |accepted[id]|), |accepted[id]|)
  }

  /** The bookkeeping agrees with the histories: every request is live with exactly its slots, or
      settled and answered exactly once with exactly its reply. */
  ghost predicate Tracks(accepted: seq<seq<string>>, results: seq<Outcome>, reqs: map<nat, ReqState>,
                         sent: seq<(nat, Reply)>) {
    && (forall id :: 0 <= id < |accepted| ==> TracksOne(accepted, results, reqs, sent, id))
    && (forall id :: id in reqs ==> id < |accepted|)
    && (forall i :: 0 <= i < |sent| ==>
          && sent[i].0 < |accepted|
          && StatusIn(accepted, results, sent[i].0) == Settled(sent[i].1))
    && (forall i, j :: 0 <= i < j < |sent| ==> sent[i].0 != sent[j].0)
  }

  ghost predicate TracksOne(accepted: seq<seq<string>>, results: seq<Outcome>, reqs: map<nat, ReqState>,
                            sent: seq<(nat, Reply)>, id: nat)
    requires id < |accepted|
  {
    match StatusIn(accepted, results, id)
    case Live(state) => id in reqs && reqs[id] == state
    case Settled(reply) => id !in reqs && (id, reply) in sent
  }

  // ---------------------------------------------------------------------------------------------
  // One row settled

  lemma MineStep(results: seq<Outcome>, o: Outcome, off: nat, n: nat)
    ensures Mine(results + [o], off, n)
         == if off <= |results| < off + n then Mine(results, off, n) + [o] else Mine(results, off, n)
  {
    var longer := results + [o];
    if off <= |results| < off + n {
      assert longer[off..] == results[off..] + [o];
    } else if off < |results| {
      assert longer[off..off + n] == results[off..off + n];
    }
  }

  /** One more outcome reaches the request that owns the row, and no other. */
  lemma MineSnoc(accepted: seq<seq<string>>, results: seq<Outcome>, o: Outcome, id: nat)
    requires id < |accepted| && |results| < |AllRows(accepted)|
    ensures var off, n := Offset(accepted, id), |accepted[id]|;
            && (AllRows(accepted)[|results|].id == id <==> off <= |results| < off + n)
            && Mine(results + [o], off, n)
               == if AllRows(accepted)[|results|].id == id then Mine(results, off, n) + [o] else Mine(results, off, n)
  {
    var row := AllRows(accepted)[|results|];
    RowAt(accepted, |results|);
    MineStep(results, o, Offset(accepted, id), |accepted[id]|);
    if row.id < id {
      OffsetMono(accepted, row.id, id);
    } else if id < row.id {
      OffsetMono(accepted, id, row.id);
    }
  }

  lemma FirstLostSnoc(mine: seq<Outcome>, o: Outcome)
    ensures FirstLost(mine + [o])
         == if FirstLost(mine).Some? then FirstLost(mine) else if o.Lost? then Some(o.error) else None
  {
    var a := mine + [o];
    assert forall i :: 0 <= i < |mine| ==> a[i] == mine[i];
    assert a[|mine|] == o;
  }

  /** A filled slot: what the scatter loop leaves for a live request it does not complete. */
  function Filled(state: ReqState, idx: nat, v: Vector): ReqState
    requires idx < |state.slots| && state.remaining > 0
  {
    ReqState(state.slots[idx := Some(v)], state.remaining - 1)
  }

  /** How a live request moves when the outcome of its next row arrives. */
  lemma StatusSnoc(mine: seq<Outcome>, n: nat, o: Outcome)
    requires |mine| < n
    ensures StatusOf(mine, n).Settled? ==> StatusOf(mine, n).reply.Err? && StatusOf(mine + [o], n) == StatusOf(mine, n)
    ensures StatusOf(mine, n).Live? ==>
              var state := StatusOf(mine, n).state;
              && |state.slots| == n && state.slots[|mine|] == None && state.remaining == n - |mine|
              && (forall i :: 0 <= i < n ==> (state.slots[i].None? <==> i >= |mine|))
              && match o
                 case Lost(e) => StatusOf(mine + [o], n) == Settled(Err(e))
                 case Done(v) =>
                   var next := Filled(state, |mine|, v);
                   if next.remaining > 0 then StatusOf(mine + [o], n) == Live(next)
                   else
                     && (forall i :: 0 <= i < n ==> next.slots[i].Some?)
                     && StatusOf(mine + [o], n) == Settled(Ok(Values(next.slots)))
  {
    FirstLostSnoc(mine, o);
    if StatusOf(mine, n).Live? && o.Done? {
      var next := Filled(StatusOf(mine, n).state, |mine|, o.vector);
      var a := mine + [o];
      assert forall i :: 0 <= i < |mine| ==> a[i] == mine[i];
      if next.remaining > 0 {
        assert next.slots == Slots(a, n);
      } else {
        assert forall i :: 0 <= i < n ==> next.slots[i] == Some(a[i].vector);
        assert Values(next.slots) == Vectors(a);
      }
    }
  }

  /** Request table and replies after one more row has its outcome. */
  ghost predicate Settles(reqs: map<nat, ReqState>, sent: seq<(nat, Reply)>, row: Row, o: Outcome,
                          reqs': map<nat, ReqState>, sent': seq<(nat, Reply)>) {
    if row.id !in reqs then reqs' == reqs && sent' == sent
    else
      var state := reqs[row.id];
      && row.idx < |state.slots| && state.remaining > 0
      && match o
         case Lost(e) => reqs' == reqs - {row.id} && sent' == sent + [(row.id, Err(e))]
         case Done(v) =>
           var next := Filled(state, row.idx, v);
           if next.remaining > 0 then reqs' == reqs[row.id := next] && sent' == sent
           else
             && (forall i :: 0 <= i < |next.slots| ==> next.slots[i].Some?)
             && reqs' == reqs - {row.id}
             && sent' == sent + [(row.id, Ok(Values(next.slots)))]
  }

  /** The vectors of a request whose every slot is filled. */
  function Values(slots: seq<Option<Vector>>): seq<Vector>
    requires forall i :: 0 <= i < |slots| ==> slots[i].Some?
  {
    seq(|slots|, i requires 0 <= i < |slots| => slots[i].value)
  }

  /** The next row of a live request meets an empty slot, and fills the last one exactly when one
      row was missing: the facts that keep the source's indexing and unwrapping from panicking. */
  lemma RowMeetsItsSlot(accepted: seq<seq<string>>, results: seq<Outcome>, reqs: map<nat, ReqState>,
                        sent: seq<(nat, Reply)>, row: Row)
    requires Tracks(accepted, results, reqs, sent)
    requires |results| < |AllRows(accepted)| && AllRows(accepted)[|results|] == row
    requires row.id in reqs
    ensures var state := reqs[row.id];
            && row.idx < |state.slots| && state.slots[row.idx].None? && state.remaining > 0
            && (state.remaining == 1 <==>
                  forall i :: 0 <= i < |state.slots| && i != row.idx ==> state.slots[i].Some?)
  {
    RowAt(accepted, |results|);
    var off, n := Offset(accepted, row.id), |accepted[row.id]|;
    var mine := Mine(results, off, n);
    assert TracksOne(accepted, results, reqs, sent, row.id);
    StatusSnoc(mine, n, Lost(Inner("")));
    if reqs[row.id].remaining > 1 {
      assert reqs[row.id].slots[row.idx + 1].None?;
    }
  }

  lemma SettlesTracks(accepted: seq<seq<string>>, results: seq<Outcome>, reqs: map<nat, ReqState>,
                      sent: seq<(nat, Reply)>, row: Row, o: Outcome, reqs': map<nat, ReqState>,
                      sent': seq<(nat, Reply)>)
    requires Tracks(accepted, results, reqs, sent)
    requires |results| < |AllRows(accepted)| && AllRows(accepted)[|results|] == row
    requires Settles(reqs, sent, row, o, reqs', sent')
    ensures Tracks(accepted, results + [o], reqs', sent')
  {
    hide StatusOf, Mine, Offset, AllRows;
    var results' := results + [o];
    RowAt(accepted, |results|);
    forall id | 0 <= id < |accepted| && id != row.id
      ensures StatusIn(accepted, results', id) == StatusIn(accepted, results, id)
      ensures TracksOne(accepted, results', reqs', sent', id)
    {
      MineSnoc(accepted, results, o, id);
      assert TracksOne(accepted, results, reqs, sent, id);
    }
    OwnerStep(accepted, results, reqs, sent, row, o, reqs', sent');
    assert forall id :: 0 <= id < |accepted| ==> TracksOne(accepted, results', reqs', sent', id);
  }

  lemma OwnerStep(accepted: seq<seq<string>>, results: seq<Outcome>, reqs: map<nat, ReqState>,
                  sent: seq<(nat, Reply)>, row: Row, o: Outcome, reqs': map<nat, ReqState>,
                  sent': seq<(nat, Reply)>)
    requires Tracks(accepted, results, reqs, sent)
    requires |results| < |AllRows(accepted)| && AllRows(accepted)[|results|] == row
    requires Settles(reqs, sent, row, o, reqs', sent')
    ensures row.id < |accepted| && TracksOne(accepted, results + [o], reqs', sent', row.id)
    ensures row.id !in reqs ==> StatusIn(accepted, results + [o], row.id) == StatusIn(accepted, results, row.id)
    ensures sent' != sent ==> sent' == sent + [(row.id, sent'[|sent|].1)]
                              && StatusIn(accepted, results + [o], row.id) == Settled(sent'[|sent|].1)
    ensures row.id in reqs ==> forall i :: 0 <= i < |sent| ==> sent[i].0 != row.id
  {
    RowAt(accepted, |results|);
    MineSnoc(accepted, results, o, row.id);
    var n := |accepted[row.id]|;
    var mine := Mine(results, Offset(accepted, row.id), n);
    assert TracksOne(accepted, results, reqs, sent, row.id);
    StatusSnoc(mine, n, o);
    if sent' != sent {
      assert sent'[|sent|] in sent';
    }
  }

  // ---------------------------------------------------------------------------------------------
  // Accepting a request

  function Fresh(n: nat): ReqState {
    ReqState(seq(n, _ => None), n)
  }

  /** A new request is live with empty slots and moves no other request. */
  lemma AcceptTracks(accepted: seq<seq<string>>, results: seq<Outcome>, reqs: map<nat, ReqState>,
                     sent: seq<(nat, Reply)>, texts: seq<string>)
    requires Tracks(accepted, results, reqs, sent)
    requires |results| <= |AllRows(accepted)| && texts != []
    ensures Tracks(accepted + [texts], results, reqs[|accepted| := Fresh(|texts|)], sent)
  {
    hide StatusIn, AllRows;
    var accepted', reqs' := accepted + [texts], reqs[|accepted| := Fresh(|texts|)];
    forall id | 0 <= id < |accepted|
      ensures StatusIn(accepted', results, id) == StatusIn(accepted, results, id)
      ensures TracksOne(accepted', results, reqs', sent, id)
    {
      StatusStays(accepted, results, texts, id);
      assert TracksOne(accepted, results, reqs, sent, id);
    }
    NewStatus(accepted, results, texts);
    assert forall id :: 0 <= id < |accepted'| ==> TracksOne(accepted', results, reqs', sent, id);
  }

  lemma StatusStays(accepted: seq<seq<string>>, results: seq<Outcome>, texts: seq<string>, id: nat)
    requires id < |accepted|
    ensures StatusIn(accepted + [texts], results, id) == StatusIn(accepted, results, id)
  {
    hide StatusOf, Mine;
    assert (accepted + [texts])[..|accepted|] == accepted;
    OffsetPrefix(accepted + [texts], |accepted|, id);
  }

  lemma NewStatus(accepted: seq<seq<string>>, results: seq<Outcome>, texts: seq<string>)
    requires |results| <= |AllRows(accepted)| && texts != []
    ensures StatusIn(accepted + [texts], results, |accepted|) == Live(Fresh(|texts|))
  {
    AllRowsLength(accepted);
    assert (accepted + [texts])[..|accepted|] == accepted;
    OffsetPrefix(accepted + [texts], |accepted|, |accepted|);
    assert Fresh(|texts|).slots == Slots([], |texts|);
  }

  lemma AllRowsSnoc(accepted: seq<seq<string>>, texts: seq<string>)
    ensures AllRows(accepted + [texts]) == AllRows(accepted) + RowsOf(|accepted|, texts)
  {
    assert (accepted + [texts])[..|accepted|] == accepted;
  }

  lemma CallsSnoc(calls: seq<Call>, c: Call)
    ensures Embedded(calls + [c]) == Embedded(calls) + c.rows
    ensures Results(calls + [c]) == Results(calls) + Outcomes(c)
  {
    assert (calls + [c])[..|calls|] == calls;
  }

  // ---------------------------------------------------------------------------------------------
  // Batches, fairness

  /** Number of inner calls `n` rows need when batched `b` at a time. */
  function Batches(n: nat, b: nat): nat
    requires b > 0
  {
    if n == 0 then 0 else if n <= b then 1 else 1 + Batches(n - b, b)
  }

  lemma {:induction false} BatchesMono(m: nat, n: nat, b: nat)
    requires b > 0 && m <= n
    ensures Batches(m, b) <= Batches(n, b)
    decreases n
  {
    if m > b {
      BatchesMono(m - b, n - b, b);
    }
  }

  /** Pooling rows never needs more calls than batching each pool on its own. */
  lemma {:induction false} BatchesSubadditive(m: nat, n: nat, b: nat)
    requires b > 0
    ensures Batches(m + n, b) <= Batches(m, b) + Batches(n, b)
    decreases m
  {
    if m > b {
      BatchesSubadditive(m - b, n, b);
    } else if m > 0 && n > 0 {
      BatchesMono(m + n, b + n, b);
    }
  }

  /** Inner calls made when every request is embedded on its own. */
  function SeparateCalls(accepted: seq<seq<string>>, b: nat): nat
    requires b > 0
  {
    if accepted == [] then 0
    else SeparateCalls(accepted[..|accepted| - 1], b) + Batches(|accepted[|accepted| - 1]|, b)
  }

  lemma SeparateCallsSnoc(accepted: seq<seq<string>>, texts: seq<string>, b: nat)
    requires b > 0
    ensures SeparateCalls(accepted + [texts], b) == SeparateCalls(accepted, b) + Batches(|texts|, b)
  {
    assert (accepted + [texts])[..|accepted|] == accepted;
  }

  /** Every call took a full batch, or everything that was queued; between two calls the queue only
      grows at its back. */
  ghost predicate CallsAreFair(calls: seq<Call>, queued: nat, b: nat) {
    && (forall i :: 0 <= i < |calls| ==>
          && 0 < |calls[i].rows| <= b
          && |calls[i].rows| == (if calls[i].backlog < b then calls[i].backlog else b))
    && (forall i :: 0 < i < |calls| ==> calls[i].backlog >= calls[i - 1].backlog - |calls[i - 1].rows|)
    && (calls != [] ==> queued >= calls[|calls| - 1].backlog - |calls[|calls| - 1].rows|)
  }

  lemma FairSnoc(calls: seq<Call>, queued: nat, b: nat, c: Call)
    requires CallsAreFair(calls, queued, b)
    requires 0 < |c.rows| <= b && c.backlog == queued && |c.rows| == if queued < b then queued else b
    ensures CallsAreFair(calls + [c], queued - |c.rows|, b)
  {
  }

  /** Calls that took less than a full batch. */
  function Partials(calls: seq<Call>, b: nat): nat {
    if calls == [] then 0
    else Partials(calls[..|calls| - 1], b) + if |calls[|calls| - 1].rows| < b then 1 else 0
  }

  // ---------------------------------------------------------------------------------------------
  // The invariant of the coalescer

  ghost predicate Inv(b: nat, accepted: seq<seq<string>>, calls: seq<Call>, pending: seq<Row>,
                      reqs: map<nat, ReqState>, sent: seq<(nat, Reply)>) {
    && b > 0
    && (forall i :: 0 <= i < |accepted| ==> accepted[i] != [])
    && Embedded(calls) + pending == AllRows(accepted)
    && Tracks(accepted, Results(calls), reqs, sent)
    && CallsAreFair(calls, |pending|, b)
    && |calls| + Batches(|pending|, b) <= SeparateCalls(accepted, b)
  }

  lemma InvInit(b: nat)
    requires b > 0
    ensures Inv(b, [], [], [], map[], [])
  {
  }

  lemma AcceptKeepsInv(b: nat, accepted: seq<seq<string>>, calls: seq<Call>, pending: seq<Row>,
                       reqs: map<nat, ReqState>, sent: seq<(nat, Reply)>, texts: seq<string>)
    requires Inv(b, accepted, calls, pending, reqs, sent) && texts != []
    ensures Inv(b, accepted + [texts], calls, pending + RowsOf(|accepted|, texts),
                reqs[|accepted| := Fresh(|texts|)], sent)
  {
    hide Tracks, StatusIn, Batches;
    AcceptTracks(accepted, Results(calls), reqs, sent, texts);
    AllRowsSnoc(accepted, texts);
    SeparateCallsSnoc(accepted, texts, b);
    BatchesSubadditive(|pending|, |texts|, b);
    var rows := RowsOf(|accepted|, texts);
    assert Embedded(calls) + (pending + rows) == Embedded(calls) + pending + rows;
  }

  /** Dispatching a full batch, or all of a shorter queue. */
  lemma DispatchKeepsInv(b: nat, accepted: seq<seq<string>>, calls: seq<Call>, pending: seq<Row>,
                         reqs: map<nat, ReqState>, sent: seq<(nat, Reply)>, c: Call,
                         reqs': map<nat, ReqState>, sent': seq<(nat, Reply)>)
    requires Inv(b, accepted, calls, pending, reqs, sent)
    requires c.rows != [] && c.rows <= pending && c.backlog == |pending|
    requires |c.rows| == if |pending| < b then |pending| else b
    requires Tracks(accepted, Results(calls) + Outcomes(c), reqs', sent')
    ensures Inv(b, accepted, calls + [c], pending[|c.rows|..], reqs', sent')
  {
    hide Tracks, CallsAreFair, AllRows, SeparateCalls, Outcomes;
    CallsSnoc(calls, c);
    FairSnoc(calls, |pending|, b, c);
    var rest := pending[|c.rows|..];
    assert c.rows + rest == pending;
    assert Embedded(calls) + c.rows + rest == Embedded(calls) + (c.rows + rest);
    assert Batches(|rest|, b) + 1 == Batches(|pending|, b);
  }

  function Texts(rows: seq<Row>): (r: seq<string>)
    ensures |r| == |rows|
  {
    seq(|rows|, i requires 0 <= i < |rows| => rows[i].text)
  }

  function AllLost(n: nat, e: EmbedError): seq<Outcome> {
    seq(n, _ => Lost(e))
  }

  /** The queue is the part of all rows not yet embedded. */
  lemma FrontRows(b: nat, accepted: seq<seq<string>>, calls: seq<Call>, pending: seq<Row>,
                  reqs: map<nat, ReqState>, sent: seq<(nat, Reply)>, k: nat)
    requires Inv(b, accepted, calls, pending, reqs, sent) && k <= |pending|
    ensures Tracks(accepted, Results(calls), reqs, sent)
    ensures |Results(calls)| + k <= |AllRows(accepted)|
    ensures forall i :: 0 <= i < k ==> AllRows(accepted)[|Results(calls)| + i] == pending[i]
  {
    hide Tracks, CallsAreFair, AllRows, Embedded, Results, Batches, SeparateCalls;
  }

  /** One step of either scatter loop, on outcomes `os` of which the first `i` are settled. */
  lemma SettlesNext(accepted: seq<seq<string>>, base: seq<Outcome>, os: seq<Outcome>, i: nat,
                    reqs: map<nat, ReqState>, sent: seq<(nat, Reply)>, row: Row,
                    reqs': map<nat, ReqState>, sent': seq<(nat, Reply)>)
    requires i < |os| && Tracks(accepted, base + os[..i], reqs, sent)
    requires |base| + i < |AllRows(accepted)| && AllRows(accepted)[|base| + i] == row
    requires Settles(reqs, sent, row, os[i], reqs', sent')
    ensures Tracks(accepted, base + os[..i + 1], reqs', sent')
  {
    assert base + os[..i] + [os[i]] == base + os[..i + 1];
    SettlesTracks(accepted, base + os[..i], reqs, sent, row, os[i], reqs', sent');
  }
}
