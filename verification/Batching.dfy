/** The coalescer task: a queue of rows and a table of requests in flight, driven by what the request
    channel yields. */
module Batching {
  import opened Wrappers
  import opened BatchingSpec

  /** What the channel yields when polled. The end of the script is the last sender dropping. */
  datatype Poll = Arrive(texts: seq<string>) | Idle

  function Arrivals(script: seq<Poll>): seq<seq<string>> {
    if script == [] then []
    else
      var last := script[|script| - 1];
      Arrivals(script[..|script| - 1]) + if last.Arrive? then [last.texts] else []
  }

  function Idles(script: seq<Poll>): nat {
    if script == [] then 0
    else Idles(script[..|script| - 1]) + if script[|script| - 1].Idle? then 1 else 0
  }

  class Coalescer {
    const batchRows: nat
    var pending: seq<Row>
    var reqs: map<nat, ReqState>
    var nextId: nat
    // Replies sent, in order, on the one-shot channel of the request named.
    var sent: seq<(nat, Reply)>
    ghost var accepted: seq<seq<string>>
    ghost var calls: seq<Call>

    ghost predicate Valid()
      reads this
    {
      nextId == |accepted| && Inv(batchRows, accepted, calls, pending, reqs, sent)
    }

    lemma ValidIsInv()
      ensures Valid() <==> nextId == |accepted| && Inv(batchRows, accepted, calls, pending, reqs, sent)
    {
    }

    /** `BatchingEmbedder::new`: a batch size of zero is promoted to one. */
    constructor (rows: nat)
      ensures Valid()
      ensures batchRows == if rows == 0 then 1 else rows
      ensures accepted == [] && calls == [] && sent == [] && pending == []
    {
      batchRows := if rows == 0 then 1 else rows;
      pending, reqs, nextId, sent := [], map[], 0, [];
      accepted, calls := [], [];
      new;
      hide Inv;
      InvInit(batchRows);
    }

    method Enqueue(texts: seq<string>)
      requires Valid() && texts != []
      modifies this
      ensures Valid()
      ensures accepted == old(accepted) + [texts]
      ensures pending == old(pending) + RowsOf(old(nextId), texts)
      ensures calls == old(calls) && sent == old(sent)
    {
      AcceptKeepsInv(batchRows, accepted, calls, pending, reqs, sent, texts);
      hide Inv;
      var id, n := nextId, |texts|;
      nextId := nextId + 1;
      for idx := 0 to n
        invariant unchanged(`reqs) && unchanged(`sent) && unchanged(`accepted) && unchanged(`calls)
        invariant nextId == old(nextId) + 1
        invariant pending == old(pending) + RowsOf(id, texts)[..idx]
      {
        assert RowsOf(id, texts)[..idx] + [Row(id, idx, texts[idx])] == RowsOf(id, texts)[..idx + 1];
        pending := pending + [Row(id, idx, texts[idx])];
      }
      assert RowsOf(id, texts)[..n] == RowsOf(id, texts);
      reqs := reqs[id := ReqState(seq(n, _ => None), n)];
      accepted := accepted + [texts];
    }

    /** Embed the front rows in one inner call and scatter the results to their owners. The inner
        embedder may answer anything. */
    method Dispatch(inner: seq<string> -> Result<seq<Vector>, string>, want: nat)
      requires Valid()
      requires want == if |pending| < batchRows then |pending| else batchRows
      modifies this
      ensures Valid()
      ensures accepted == old(accepted) && old(sent) <= sent
      ensures pending == old(pending[want..])
      ensures if want == 0 then calls == old(calls) else
                var rows := old(pending[..want]);
                calls == old(calls) + [Call(rows, old(|pending|), inner(Texts(rows)))]
    {
      hide *;
      var k := if want < |pending| then want else |pending|;
      if k == 0 {
        return;
      }
      ValidIsInv();
      ghost var rows, base, backlog := pending[..k], Results(calls), |pending|;
      FrontRows(batchRows, accepted, calls, pending, reqs, sent, k);
      ghost var pending0, reqs0, sent0 := pending, reqs, sent;
      var owners: seq<(nat, nat)> := [];
      var texts: seq<string> := [];
      for i := 0 to k
        invariant pending == pending0[i..]
        invariant unchanged(`reqs) && unchanged(`sent) && unchanged(`accepted) && unchanged(`calls) && unchanged(`nextId)
        invariant |owners| == |texts| == i
        invariant forall j :: 0 <= j < i ==> owners[j] == (rows[j].id, rows[j].idx)
        invariant forall j :: 0 <= j < i ==> texts[j] == rows[j].text
      {
        var row := pending[0];
        pending := pending[1..];
        owners := owners + [(row.id, row.idx)];
        texts := texts + [row.text];
      }
      var returned := inner(texts);
      ghost var c := Call(rows, backlog, returned);
      CallIs(c, texts);
      RowsAreNext(accepted, |base|, owners, rows);
      match returned {
        case Err(msg) =>
          FailOwners(owners, Inner(msg), base, rows);
        case Ok(vectors) =>
          if |vectors| != k {
            FailOwners(owners, WrongCount(|vectors|, k), base, rows);
          } else {
            Scatter(owners, vectors, base, rows);
          }
      }
      calls := calls + [c];
      DispatchKeepsInv(batchRows, accepted, old(calls), pending0, reqs0, sent0, c, reqs, sent);
      ValidIsInv();
    }

    /** The coalescer task, run until every sender has dropped. A blocking receive sits through idle
        polls; `inner(i, texts)` is whatever the `i`th inner call answers. `at[i]` is the number of
        polls consumed when call `i` was made, `made[p]` the number of calls made by the end of poll `p`. */
    method Run(script: seq<Poll>, inner: (nat, seq<string>) -> Result<seq<Vector>, string>)
      returns (ghost at: seq<nat>, ghost made: seq<nat>)
      requires Valid() && accepted == [] && calls == []
      requires forall i :: 0 <= i < |script| && script[i].Arrive? ==> script[i].texts != []
      modifies this
      ensures Valid() && pending == []
      ensures accepted == Arrivals(script)
      ensures forall i :: 0 <= i < |calls| ==> calls[i].returned == inner(i, Texts(calls[i].rows))
      ensures Timed(script, |script|, calls, at, batchRows)
      ensures Prompt(script, |script|, calls, at, made, batchRows)
      ensures Partials(calls, batchRows) <= Idles(script) + 1
    {
      hide *;
      ValidIsInv();
      BatchIsPositive(batchRows, accepted, calls, pending, reqs, sent);
      var pos, count := 0, 0;
      at, made := [], [];
      NothingYet(script, batchRows, accepted, calls, pending, reqs, sent);
      while true
        invariant Valid() && batchRows > 0
        invariant 0 <= pos <= |script|
        invariant count == |calls|
        invariant forall i :: 0 <= i < |calls| ==> calls[i].returned == inner(i, Texts(calls[i].rows))
        invariant History(script, pos, accepted, calls, at, made, batchRows)
        invariant |pending| >= batchRows ==> pos > 0 && script[pos - 1].Arrive?
        decreases |script| - pos
      {
        // Dispatch every full batch before touching the channel.
        while |pending| >= batchRows
          invariant Valid() && batchRows > 0
          invariant count == |calls|
          invariant forall i :: 0 <= i < |calls| ==> calls[i].returned == inner(i, Texts(calls[i].rows))
          invariant History(script, pos, accepted, calls, at, made, batchRows)
          invariant |pending| >= batchRows ==> pos > 0 && script[pos - 1].Arrive?
          decreases |pending|
        {
          ValidIsInv();
          DispatchesFull(script, pos, accepted, calls, at, made, batchRows, pending, reqs, sent);
          Dispatch(texts => inner(count, texts), batchRows);
          count := count + 1;
          at := at + [pos];
        }
        ValidIsInv();
        if pending == [] {
          // Nothing buffered: block for the next request, or stop.
          while pos < |script| && script[pos].Idle?
            invariant 0 <= pos <= |script|
            invariant History(script, pos, accepted, calls, at, made, batchRows)
            modifies {}
          {
            SitsThroughIdle(script, pos, accepted, calls, at, made, batchRows, pending, reqs, sent);
            made := made + [|calls|];
            pos := pos + 1;
          }
          if pos == |script| {
            HistoryEnds(script, accepted, calls, at, made, batchRows);
            break;
          }
          Arrives(script, pos, accepted, calls, at, made, batchRows, pending, reqs, sent);
          Enqueue(script[pos].texts);
          made := made + [|calls|];
          pos := pos + 1;
          continue;
        }
        // A partial batch is buffered: pull more, or flush it.
        if pos == |script| {
          FlushesAtEnd(script, accepted, calls, at, made, batchRows, pending, reqs, sent);
          Dispatch(texts => inner(count, texts), |pending|);
          at := at + [pos];
          break;
        }
        match script[pos] {
          case Arrive(texts) =>
            Arrives(script, pos, accepted, calls, at, made, batchRows, pending, reqs, sent);
            Enqueue(texts);
          case Idle =>
            FlushesOnIdle(script, pos, accepted, calls, at, made, batchRows, pending, reqs, sent);
            Dispatch(texts => inner(count, texts), |pending|);
            count := count + 1;
            at := at + [pos];
        }
        made := made + [|calls|];
        pos := pos + 1;
      }
      ShortCallsNeedIdles(script, |script|, calls, at, batchRows);
      assert script[..|script|] == script;
    }

    /** The scatter loop of `dispatch`: rows of a request that already failed are dropped. */
    method Scatter(owners: seq<(nat, nat)>, vectors: seq<Vector>, ghost base: seq<Outcome>, ghost rows: seq<Row>)
      requires |owners| == |vectors|
      requires Tracks(accepted, base, reqs, sent) && NextRows(accepted, |base|, owners, rows)
      modifies `reqs, `sent
      ensures Tracks(accepted, base + AllDone(vectors), reqs, sent)
      ensures old(sent) <= sent
    {
      ghost var os := AllDone(vectors);
      hide Tracks, NextRows, AllRows;
      assert base + os[..0] == base;
      for i := 0 to |owners|
        invariant Tracks(accepted, base + os[..i], reqs, sent)
        invariant old(sent) <= sent
      {
        var (id, idx) := owners[i];
        ghost var reqs0, sent0 := reqs, sent;
        OwnerMeetsSlot(accepted, base, os, i, reqs, sent, owners, rows);
        if id in reqs {
          if reqs[id].slots[idx].None? {
            reqs := reqs[id := ReqState(reqs[id].slots[idx := Some(vectors[i])], reqs[id].remaining - 1)];
          }
          if reqs[id].remaining == 0 {
            Complete(id);
          }
        }
        SettlesNext(accepted, base, os, i, reqs0, sent0, rows[i], reqs, sent);
      }
      assert os[..|owners|] == os;
    }

    /** Assemble a completed request in input order and reply. */
    method Complete(id: nat)
      requires id in reqs ==> forall i :: 0 <= i < |reqs[id].slots| ==> reqs[id].slots[i].Some?
      modifies `reqs, `sent
      ensures reqs == old(reqs) - {id}
      ensures sent == if id in old(reqs) then old(sent) + [(id, Ok(Values(old(reqs)[id].slots)))] else old(sent)
    {
      if id !in reqs {
        return;
      }
      var slots := reqs[id].slots;
      reqs := reqs - {id};
      sent := sent + [(id, Ok(Values(slots)))];
    }

    /** Send one error to every request that still waits for a row of a failed batch. */
    method FailOwners(owners: seq<(nat, nat)>, e: EmbedError, ghost base: seq<Outcome>, ghost rows: seq<Row>)
      requires Tracks(accepted, base, reqs, sent) && NextRows(accepted, |base|, owners, rows)
      modifies `reqs, `sent
      ensures Tracks(accepted, base + AllLost(|owners|, e), reqs, sent)
      ensures old(sent) <= sent
    {
      ghost var os := AllLost(|owners|, e);
      hide Tracks, NextRows, AllRows;
      assert base + os[..0] == base;
      var seen: set<nat> := {};
      for i := 0 to |owners|
        invariant Tracks(accepted, base + os[..i], reqs, sent)
        invariant old(sent) <= sent
        invariant seen !! reqs.Keys
      {
        var id := owners[i].0;
        ghost var reqs0, sent0 := reqs, sent;
        OwnerMeetsSlot(accepted, base, os, i, reqs, sent, owners, rows);
        if id !in seen {
          seen := seen + {id};
          if id in reqs {
            reqs := reqs - {id};
            sent := sent + [(id, Err(e))];
          }
        }
        SettlesNext(accepted, base, os, i, reqs0, sent0, rows[i], reqs, sent);
      }
      assert os[..|owners|] == os;
    }
  }

  lemma BatchIsPositive(b: nat, accepted: seq<seq<string>>, calls: seq<Call>, pending: seq<Row>,
                        reqs: map<nat, ReqState>, sent: seq<(nat, Reply)>)
    requires Inv(b, accepted, calls, pending, reqs, sent)
    ensures b > 0
  {
  }

  // ---------------------------------------------------------------------------------------------
  // When calls are made

  /** After `pos` polls, the calls made and the number of polls before each. A call takes from the rows
      that had arrived by then and were not yet embedded. A full batch is dispatched right after the
      arrival that completes it; a short one when the channel is polled empty, at most once a poll, or
      found closed. */
  ghost predicate Timed(script: seq<Poll>, pos: nat, calls: seq<Call>, at: seq<nat>, b: nat) {
    && |at| == |calls| && pos <= |script|
    && (forall i :: 0 <= i < |at| ==> at[i] <= pos)
    && (forall i, j :: 0 <= i < j < |at| ==> at[i] <= at[j])
    && (forall i :: 0 <= i < |at| ==> CallIsDue(script, at[i], calls[i], |Embedded(calls[..i])|, b))
    && (forall i, j :: 0 <= i < j < |at| && |calls[i].rows| < b && |calls[j].rows| < b ==> at[i] < at[j])
  }

  ghost predicate CallIsDue(script: seq<Poll>, pos: nat, c: Call, done: nat, b: nat) {
    && pos <= |script|
    && c.backlog == |AllRows(Arrivals(script[..pos]))| - done
    && (|c.rows| < b ==> pos == |script| || script[pos].Idle?)
    && (|c.rows| >= b ==> pos > 0 && script[pos - 1].Arrive?)
  }

  /** And no short call was made at this poll yet. */
  ghost predicate TimedBefore(script: seq<Poll>, pos: nat, calls: seq<Call>, at: seq<nat>, b: nat) {
    Timed(script, pos, calls, at, b)
    && forall i :: 0 <= i < |at| && |calls[i].rows| < b ==> at[i] < pos
  }

  lemma Backlog(b: nat, accepted: seq<seq<string>>, calls: seq<Call>, pending: seq<Row>, reqs: map<nat, ReqState>,
                sent: seq<(nat, Reply)>)
    requires Inv(b, accepted, calls, pending, reqs, sent)
    ensures |pending| == |AllRows(accepted)| - |Embedded(calls)|
  {
    hide Tracks, AllRows, Embedded, CallsAreFair;
  }

  lemma TimedSnoc(script: seq<Poll>, pos: nat, calls: seq<Call>, at: seq<nat>, b: nat, c: Call)
    requires Timed(script, pos, calls, at, b)
    requires CallIsDue(script, pos, c, |Embedded(calls)|, b)
    requires |c.rows| < b ==> TimedBefore(script, pos, calls, at, b)
    ensures Timed(script, pos, calls + [c], at + [pos], b)
  {
    hide CallIsDue, Embedded;
    var calls', at' := calls + [c], at + [pos];
    forall i | 0 <= i < |at'|
      ensures CallIsDue(script, at'[i], calls'[i], |Embedded(calls'[..i])|, b)
    {
      assert calls'[..i] == if i < |calls| then calls[..i] else calls;
    }
  }

  lemma TimedFull(script: seq<Poll>, pos: nat, calls: seq<Call>, at: seq<nat>, b: nat, c: Call)
    requires TimedBefore(script, pos, calls, at, b) && |c.rows| == b && pos > 0 && script[pos - 1].Arrive?
    requires c.backlog == |AllRows(Arrivals(script[..pos]))| - |Embedded(calls)|
    ensures TimedBefore(script, pos, calls + [c], at + [pos], b)
  {
    hide Embedded, AllRows, Arrivals;
    TimedSnoc(script, pos, calls, at, b, c);
  }

  lemma TimedShort(script: seq<Poll>, pos: nat, calls: seq<Call>, at: seq<nat>, b: nat, c: Call)
    requires TimedBefore(script, pos, calls, at, b) && |c.rows| < b && (pos == |script| || script[pos].Idle?)
    requires c.backlog == |AllRows(Arrivals(script[..pos]))| - |Embedded(calls)|
    ensures Timed(script, pos, calls + [c], at + [pos], b)
  {
    hide Embedded, AllRows, Arrivals;
    TimedSnoc(script, pos, calls, at, b, c);
  }

  lemma TimedLater(script: seq<Poll>, pos: nat, calls: seq<Call>, at: seq<nat>, b: nat)
    requires Timed(script, pos, calls, at, b) && pos < |script|
    ensures TimedBefore(script, pos + 1, calls, at, b)
  {
    hide CallIsDue;
  }

  /** By the end of poll `p`, whose first `n` calls are then made, less than a batch of the rows that
      arrived before it waits, and nothing waits if the poll found the channel empty. */
  ghost predicate PollFinds(script: seq<Poll>, p: nat, calls: seq<Call>, at: seq<nat>, n: nat, b: nat) {
    && p < |script| && n <= |calls| == |at|
    && (forall i :: 0 <= i < |at| ==> (i < n <==> at[i] <= p))
    && var waiting := |AllRows(Arrivals(script[..p]))| - |Embedded(calls[..n])|;
    && 0 <= waiting < b
    && (script[p].Idle? ==> waiting == 0)
  }

  ghost predicate Prompt(script: seq<Poll>, pos: nat, calls: seq<Call>, at: seq<nat>, made: seq<nat>, b: nat) {
    |made| == pos && forall p :: 0 <= p < pos ==> PollFinds(script, p, calls, at, made[p], b)
  }

  lemma PromptSnoc(script: seq<Poll>, pos: nat, calls: seq<Call>, at: seq<nat>, made: seq<nat>, b: nat, c: Call)
    requires Prompt(script, pos, calls, at, made, b)
    ensures Prompt(script, pos, calls + [c], at + [pos], made, b)
  {
    hide Embedded, AllRows, Arrivals;
    forall p | 0 <= p < pos
      ensures PollFinds(script, p, calls + [c], at + [pos], made[p], b)
    {
      assert PollFinds(script, p, calls, at, made[p], b);
      assert (calls + [c])[..made[p]] == calls[..made[p]];
    }
  }

  lemma PromptLater(script: seq<Poll>, pos: nat, calls: seq<Call>, at: seq<nat>, made: seq<nat>, b: nat)
    requires Prompt(script, pos, calls, at, made, b) && Timed(script, pos, calls, at, b) && pos < |script|
    requires var waiting := |AllRows(Arrivals(script[..pos]))| - |Embedded(calls)|;
             0 <= waiting < b && (script[pos].Idle? ==> waiting == 0)
    ensures Prompt(script, pos + 1, calls, at, made + [|calls|], b)
  {
    hide Embedded, AllRows, Arrivals, CallIsDue;
    assert calls[..|calls|] == calls;
    assert PollFinds(script, pos, calls, at, |calls|, b);
    forall p | 0 <= p < pos
      ensures PollFinds(script, p, calls, at, (made + [|calls|])[p], b)
    {
      assert PollFinds(script, p, calls, at, made[p], b);
    }
  }

  /** The state of the loop between polls. */
  ghost predicate History(script: seq<Poll>, pos: nat, accepted: seq<seq<string>>, calls: seq<Call>, at: seq<nat>,
                          made: seq<nat>, b: nat) {
    && pos <= |script| && accepted == Arrivals(script[..pos])
    && TimedBefore(script, pos, calls, at, b) && Prompt(script, pos, calls, at, made, b)
  }

  lemma NothingYet(script: seq<Poll>, b: nat, accepted: seq<seq<string>>, calls: seq<Call>, pending: seq<Row>,
                   reqs: map<nat, ReqState>, sent: seq<(nat, Reply)>)
    requires Inv(b, accepted, calls, pending, reqs, sent) && accepted == [] && calls == []
    ensures pending == [] && History(script, 0, accepted, calls, [], [], b)
  {
    Backlog(b, accepted, calls, pending, reqs, sent);
  }

  lemma HistoryEnds(script: seq<Poll>, accepted: seq<seq<string>>, calls: seq<Call>, at: seq<nat>, made: seq<nat>, b: nat)
    requires History(script, |script|, accepted, calls, at, made, b)
    ensures accepted == Arrivals(script)
    ensures Timed(script, |script|, calls, at, b) && Prompt(script, |script|, calls, at, made, b)
  {
    assert script[..|script|] == script;
  }

  /** A full batch is dispatched between polls. */
  lemma DispatchesFull(script: seq<Poll>, pos: nat, accepted: seq<seq<string>>, calls: seq<Call>, at: seq<nat>,
                       made: seq<nat>, b: nat, pending: seq<Row>, reqs: map<nat, ReqState>, sent: seq<(nat, Reply)>)
    requires History(script, pos, accepted, calls, at, made, b) && Inv(b, accepted, calls, pending, reqs, sent)
    requires |pending| >= b && pos > 0 && script[pos - 1].Arrive?
    ensures forall c: Call :: |c.rows| == b && c.backlog == |pending| ==>
              History(script, pos, accepted, calls + [c], at + [pos], made, b)
  {
    hide Timed, Prompt, Inv, Embedded, AllRows, Arrivals;
    Backlog(b, accepted, calls, pending, reqs, sent);
    forall c: Call | |c.rows| == b && c.backlog == |pending|
      ensures History(script, pos, accepted, calls + [c], at + [pos], made, b)
    {
      TimedFull(script, pos, calls, at, b, c);
      PromptSnoc(script, pos, calls, at, made, b, c);
    }
  }

  lemma Arrives(script: seq<Poll>, pos: nat, accepted: seq<seq<string>>, calls: seq<Call>, at: seq<nat>,
                made: seq<nat>, b: nat, pending: seq<Row>, reqs: map<nat, ReqState>, sent: seq<(nat, Reply)>)
    requires History(script, pos, accepted, calls, at, made, b) && Inv(b, accepted, calls, pending, reqs, sent)
    requires |pending| < b && pos < |script| && script[pos].Arrive?
    ensures History(script, pos + 1, accepted + [script[pos].texts], calls, at, made + [|calls|], b)
  {
    hide Timed, Prompt, Inv, Embedded, AllRows, Arrivals;
    Backlog(b, accepted, calls, pending, reqs, sent);
    PollSnoc(script, pos);
    TimedLater(script, pos, calls, at, b);
    PromptLater(script, pos, calls, at, made, b);
  }

  lemma SitsThroughIdle(script: seq<Poll>, pos: nat, accepted: seq<seq<string>>, calls: seq<Call>, at: seq<nat>,
                        made: seq<nat>, b: nat, pending: seq<Row>, reqs: map<nat, ReqState>, sent: seq<(nat, Reply)>)
    requires History(script, pos, accepted, calls, at, made, b) && Inv(b, accepted, calls, pending, reqs, sent)
    requires pending == [] && pos < |script| && script[pos].Idle?
    ensures History(script, pos + 1, accepted, calls, at, made + [|calls|], b)
  {
    hide Timed, Prompt, Inv, Embedded, AllRows, Arrivals;
    BatchIsPositive(b, accepted, calls, pending, reqs, sent);
    Backlog(b, accepted, calls, pending, reqs, sent);
    PollSnoc(script, pos);
    TimedLater(script, pos, calls, at, b);
    PromptLater(script, pos, calls, at, made, b);
  }

  /** A short batch is dispatched when the channel is polled empty. */
  lemma FlushesOnIdle(script: seq<Poll>, pos: nat, accepted: seq<seq<string>>, calls: seq<Call>, at: seq<nat>,
                      made: seq<nat>, b: nat, pending: seq<Row>, reqs: map<nat, ReqState>, sent: seq<(nat, Reply)>)
    requires History(script, pos, accepted, calls, at, made, b) && Inv(b, accepted, calls, pending, reqs, sent)
    requires |pending| < b && pos < |script| && script[pos].Idle?
    ensures forall c: Call :: c.rows == pending && c.backlog == |pending| ==>
              History(script, pos + 1, accepted, calls + [c], at + [pos], made + [|calls| + 1], b)
  {
    hide Timed, Prompt, Inv, AllRows, Arrivals, Embedded;
    Backlog(b, accepted, calls, pending, reqs, sent);
    PollSnoc(script, pos);
    forall c: Call | c.rows == pending && c.backlog == |pending|
      ensures History(script, pos + 1, accepted, calls + [c], at + [pos], made + [|calls| + 1], b)
    {
      TimedShort(script, pos, calls, at, b, c);
      TimedLater(script, pos, calls + [c], at + [pos], b);
      PromptSnoc(script, pos, calls, at, made, b, c);
      CallsSnoc(calls, c);
      PromptLater(script, pos, calls + [c], at + [pos], made, b);
    }
  }

  /** Or found closed. */
  lemma FlushesAtEnd(script: seq<Poll>, accepted: seq<seq<string>>, calls: seq<Call>, at: seq<nat>, made: seq<nat>,
                     b: nat, pending: seq<Row>, reqs: map<nat, ReqState>, sent: seq<(nat, Reply)>)
    requires History(script, |script|, accepted, calls, at, made, b) && Inv(b, accepted, calls, pending, reqs, sent)
    requires |pending| < b
    ensures accepted == Arrivals(script)
    ensures forall c: Call :: |c.rows| == c.backlog == |pending| ==>
              && Timed(script, |script|, calls + [c], at + [|script|], b)
              && Prompt(script, |script|, calls + [c], at + [|script|], made, b)
  {
    hide Timed, Prompt, Inv, Embedded, AllRows, Arrivals;
    assert script[..|script|] == script;
    Backlog(b, accepted, calls, pending, reqs, sent);
    forall c: Call | |c.rows| == c.backlog == |pending|
      ensures Timed(script, |script|, calls + [c], at + [|script|], b)
      ensures Prompt(script, |script|, calls + [c], at + [|script|], made, b)
    {
      TimedShort(script, |script|, calls, at, b, c);
      PromptSnoc(script, |script|, calls, at, made, b, c);
    }
  }

  lemma StillTimed(script: seq<Poll>, pos: nat, calls: seq<Call>, at: seq<nat>, b: nat)
    requires TimedBefore(script, pos, calls, at, b)
    ensures Timed(script, pos, calls, at, b)
  {
  }

  lemma TimedPrefix(script: seq<Poll>, pos: nat, calls: seq<Call>, at: seq<nat>, b: nat)
    requires Timed(script, pos, calls, at, b) && calls != []
    ensures var n := |calls| - 1;
            && Timed(script, pos, calls[..n], at[..n], b)
            && (TimedBefore(script, pos, calls, at, b) ==> TimedBefore(script, pos, calls[..n], at[..n], b))
            && (|calls[n].rows| < b ==> TimedBefore(script, at[n], calls[..n], at[..n], b))
  {
    hide CallIsDue, Embedded;
    var n := |calls| - 1;
    forall i | 0 <= i < n
      ensures CallIsDue(script, at[i], calls[i], |Embedded(calls[..n][..i])|, b)
    {
      assert calls[..n][..i] == calls[..i];
    }
  }

  /** Each idle poll accounts for at most one short call, and closing the channel for one more. */
  lemma {:induction false} ShortCallsNeedIdles(script: seq<Poll>, pos: nat, calls: seq<Call>, at: seq<nat>, b: nat)
    requires Timed(script, pos, calls, at, b)
    ensures Partials(calls, b) <= Idles(script[..pos]) + 1
    ensures TimedBefore(script, pos, calls, at, b) ==> Partials(calls, b) <= Idles(script[..pos])
    decreases |calls|
  {
    hide Idles, Timed, TimedBefore, CallIsDue, Embedded;
    if calls != [] {
      var n := |calls| - 1;
      TimedPrefix(script, pos, calls, at, b);
      if |calls[n].rows| < b {
        LastIsDue(script, pos, calls, at, b);
        StillTimed(script, at[n], calls[..n], at[..n], b);
        ShortCallsNeedIdles(script, at[n], calls[..n], at[..n], b);
        IdlesMono(script, at[n], pos);
        if TimedBefore(script, pos, calls, at, b) {
          PollSnoc(script, at[n]);
          IdlesMono(script, at[n] + 1, pos);
        }
      } else {
        StillSized(script, pos, calls, at, b);
        ShortCallsNeedIdles(script, pos, calls[..n], at[..n], b);
      }
    }
  }

  lemma StillSized(script: seq<Poll>, pos: nat, calls: seq<Call>, at: seq<nat>, b: nat)
    requires Timed(script, pos, calls, at, b)
    ensures |at| == |calls| && pos <= |script|
  {
  }

  lemma LastIsDue(script: seq<Poll>, pos: nat, calls: seq<Call>, at: seq<nat>, b: nat)
    requires Timed(script, pos, calls, at, b) && calls != [] && |calls[|calls| - 1].rows| < b
    ensures |at| == |calls| && at[|calls| - 1] <= pos <= |script|
    ensures TimedBefore(script, pos, calls, at, b) ==> at[|calls| - 1] < pos && script[at[|calls| - 1]].Idle?
  {
    hide Embedded, AllRows, Arrivals;
  }

  lemma {:induction false} IdlesMono(script: seq<Poll>, m: nat, n: nat)
    requires m <= n <= |script|
    ensures Idles(script[..m]) <= Idles(script[..n])
    decreases n
  {
    if m < n {
      IdlesMono(script, m, n - 1);
      PollSnoc(script, n - 1);
    }
  }

  lemma PollSnoc(script: seq<Poll>, pos: nat)
    requires pos < |script|
    ensures Arrivals(script[..pos + 1])
         == Arrivals(script[..pos]) + if script[pos].Arrive? then [script[pos].texts] else []
    ensures Idles(script[..pos + 1]) == Idles(script[..pos]) + if script[pos].Idle? then 1 else 0
  {
    assert script[..pos + 1][..pos] == script[..pos];
  }

  /** `owners` are the owners of the rows that come after the first `done` of all rows. */
  ghost predicate NextRows(accepted: seq<seq<string>>, done: nat, owners: seq<(nat, nat)>, rows: seq<Row>) {
    && |rows| == |owners|
    && done + |rows| <= |AllRows(accepted)|
    && (forall i :: 0 <= i < |rows| ==> AllRows(accepted)[done + i] == rows[i])
    && (forall i :: 0 <= i < |rows| ==> owners[i] == (rows[i].id, rows[i].idx))
  }

  lemma RowsAreNext(accepted: seq<seq<string>>, done: nat, owners: seq<(nat, nat)>, rows: seq<Row>)
    requires |rows| == |owners| && done + |rows| <= |AllRows(accepted)|
    requires forall i :: 0 <= i < |rows| ==> AllRows(accepted)[done + i] == rows[i]
    requires forall i :: 0 <= i < |rows| ==> owners[i] == (rows[i].id, rows[i].idx)
    ensures NextRows(accepted, done, owners, rows)
  {
  }

  /** The next owner is that of the next row, and if its request is live the row's slot is empty. */
  lemma OwnerMeetsSlot(accepted: seq<seq<string>>, base: seq<Outcome>, os: seq<Outcome>, i: nat,
                       reqs: map<nat, ReqState>, sent: seq<(nat, Reply)>, owners: seq<(nat, nat)>, rows: seq<Row>)
    requires i < |owners| && i <= |os| && Tracks(accepted, base + os[..i], reqs, sent)
    requires NextRows(accepted, |base|, owners, rows)
    ensures i < |rows| && owners[i] == (rows[i].id, rows[i].idx)
    ensures |base| + i < |AllRows(accepted)| && AllRows(accepted)[|base| + i] == rows[i]
    ensures rows[i].id in reqs ==>
              var state := reqs[rows[i].id];
              && rows[i].idx < |state.slots| && state.slots[rows[i].idx].None? && state.remaining > 0
              && (state.remaining == 1 <==>
                    forall j :: 0 <= j < |state.slots| && j != rows[i].idx ==> state.slots[j].Some?)
  {
    hide Tracks, AllRows;
    if rows[i].id in reqs {
      RowMeetsItsSlot(accepted, base + os[..i], reqs, sent, rows[i]);
    }
  }

  /** The texts sent in a call, and what its outcomes are. */
  lemma CallIs(c: Call, texts: seq<string>)
    requires |texts| == |c.rows| && forall i :: 0 <= i < |texts| ==> texts[i] == c.rows[i].text
    ensures texts == Texts(c.rows)
    ensures match c.returned
            case Err(msg) => Outcomes(c) == AllLost(|c.rows|, Inner(msg))
            case Ok(vectors) =>
              Outcomes(c) == if |vectors| == |c.rows| then AllDone(vectors)
                             else AllLost(|c.rows|, WrongCount(|vectors|, |c.rows|))
  {
    if Succeeded(c) {
      assert Outcomes(c) == AllDone(c.returned.value);
    } else {
      assert Outcomes(c) == AllLost(|c.rows|, ErrorOf(c));
    }
  }

  function AllDone(vectors: seq<Vector>): (r: seq<Outcome>)
    ensures |r| == |vectors|
  {
    seq(|vectors|, i requires 0 <= i < |vectors| => Done(vectors[i]))
  }
}
