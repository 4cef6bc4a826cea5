/** The fixed-shape provider below the coalescer: every model call carries exactly 32 rows. */
module CoremlFixed {
  import opened Wrappers
  import opened Common
  import opened BatchingSpec
  import opened BatchingLaws

  const FIXED_BATCH: nat := 32

  /** `Vec::resize` to `width`: pad with empty strings, or cut. */
  function PadRows(chunk: seq<string>, width: nat): (rows: seq<string>)
    ensures |rows| == width
    ensures |chunk| <= width ==> chunk <= rows && forall i :: |chunk| <= i < width ==> rows[i] == ""
  {
    if |chunk| <= width then chunk + seq(width - |chunk|, _ => "") else chunk[..width]
  }

  function Chunk(texts: seq<string>): (c: seq<string>)
    ensures |c| == if |texts| < FIXED_BATCH then |texts| else FIXED_BATCH
    ensures c <= texts
  {
    if |texts| <= FIXED_BATCH then texts else texts[..FIXED_BATCH]
  }

  /** The rows kept from the chunks of `texts`, the first of which is model call number `made`. */
  function ChunkedFrom(texts: seq<string>, made: nat, model: (nat, seq<string>) -> Result<seq<Vector>, string>):
      Result<seq<Vector>, string>
    decreases |texts|
  {
    if texts == [] then Ok([])
    else
      var chunk := Chunk(texts);
      var vectors :- model(made, PadRows(chunk, FIXED_BATCH));
      var rest :- ChunkedFrom(texts[|chunk|..], made + 1, model);
      Ok(Take(vectors, |chunk|) + rest)
  }

  /** `embed_batch`: chunk, pad, embed, truncate. `model(i, rows)` is whatever the `i`th model call
      answers; `made` counts the calls. */
  method EmbedBatch(texts: seq<string>, model: (nat, seq<string>) -> Result<seq<Vector>, string>)
    returns (r: Result<seq<Vector>, string>, made: nat)
    ensures r == ChunkedFrom(texts, 0, model)
    ensures r.Ok? ==> made == Batches(|texts|, FIXED_BATCH)
    ensures made <= Batches(|texts|, FIXED_BATCH)
  {
    var out: seq<Vector> := [];
    var rest := texts;
    made := 0;
    AfterNothing(ChunkedFrom(texts, 0, model));
    while rest != []
      invariant ChunkedFrom(texts, 0, model) == After(out, ChunkedFrom(rest, made, model))
      invariant made + Batches(|rest|, FIXED_BATCH) == Batches(|texts|, FIXED_BATCH)
      decreases |rest|
    {
      var chunk := Chunk(rest);
      var padded := PadRows(chunk, FIXED_BATCH);
      var vectors := model(made, padded);
      made := made + 1;
      if vectors.Err? {
        return Err(vectors.error), made;
      }
      AfterStep(out, Take(vectors.value, |chunk|), ChunkedFrom(rest[|chunk|..], made, model));
      out := out + Take(vectors.value, |chunk|);
      rest := rest[|chunk|..];
    }
    assert out + [] == out;
    r := Ok(out);
  }

  function After(out: seq<Vector>, r: Result<seq<Vector>, string>): Result<seq<Vector>, string> {
    var vectors :- r;
    Ok(out + vectors)
  }

  lemma AfterNothing(r: Result<seq<Vector>, string>)
    ensures After([], r) == r
  {
    if r.Ok? {
      assert [] + r.value == r.value;
    }
  }

  lemma AfterStep(out: seq<Vector>, kept: seq<Vector>, r: Result<seq<Vector>, string>)
    ensures After(out, After(kept, r)) == After(out + kept, r)
  {
    if r.Ok? {
      assert out + (kept + r.value) == out + kept + r.value;
    }
  }

  /** Whenever the model answers a full batch, it embeds each row on its own. */
  ghost predicate RowWiseModel(model: (nat, seq<string>) -> Result<seq<Vector>, string>, f: string -> Vector) {
    forall i: nat, rows: seq<string> :: |rows| == FIXED_BATCH && model(i, rows).Ok? ==>
      model(i, rows).value == Map(f, rows)
  }

  ghost predicate NeverFails(model: (nat, seq<string>) -> Result<seq<Vector>, string>) {
    forall i: nat, rows: seq<string> :: |rows| == FIXED_BATCH ==> model(i, rows).Ok?
  }

  /** Padding is invisible: over a row-wise model the caller gets each of its texts embedded, in order,
      or the error of a failed model call. */
  lemma {:induction false} PaddingIsInvisible(texts: seq<string>, made: nat,
                                              model: (nat, seq<string>) -> Result<seq<Vector>, string>,
                                              f: string -> Vector)
    requires RowWiseModel(model, f)
    ensures ChunkedFrom(texts, made, model).Ok? ==> ChunkedFrom(texts, made, model).value == Map(f, texts)
    ensures NeverFails(model) ==> ChunkedFrom(texts, made, model).Ok?
    decreases |texts|
  {
    if texts != [] {
      var chunk := Chunk(texts);
      var rows := PadRows(chunk, FIXED_BATCH);
      PaddingIsInvisible(texts[|chunk|..], made + 1, model, f);
      hide PadRows, Chunk;
      assert model(made, rows).Ok? ==> model(made, rows).value == Map(f, rows);
      assert Take(Map(f, rows), |chunk|) == Map(f, chunk);
      assert Map(f, chunk) + Map(f, texts[|chunk|..]) == Map(f, texts);
    }
  }

  /** Rows pushed through the model to embed `n` rows in one call of the provider. */
  function Padded(n: nat): nat {
    FIXED_BATCH * Batches(n, FIXED_BATCH)
  }

  function PaddedSeparately(accepted: seq<seq<string>>): nat {
    if accepted == [] then 0
    else PaddedSeparately(accepted[..|accepted| - 1]) + Padded(|accepted[|accepted| - 1]|)
  }

  function PaddedCoalesced(calls: seq<Call>): nat {
    if calls == [] then 0
    else PaddedCoalesced(calls[..|calls| - 1]) + Padded(|calls[|calls| - 1].rows|)
  }

  lemma {:induction false} PaddedSeparatelyIs(accepted: seq<seq<string>>)
    ensures PaddedSeparately(accepted) == FIXED_BATCH * SeparateCalls(accepted, FIXED_BATCH)
  {
    if accepted != [] {
      PaddedSeparatelyIs(accepted[..|accepted| - 1]);
    }
  }

  lemma {:induction false} PaddedCoalescedIs(calls: seq<Call>)
    requires forall i :: 0 <= i < |calls| ==> 0 < |calls[i].rows| <= FIXED_BATCH
    ensures PaddedCoalesced(calls) == FIXED_BATCH * |calls|
  {
    if calls != [] {
      PaddedCoalescedIs(calls[..|calls| - 1]);
    }
  }

  /** With batches of 32, coalescing never pads more than embedding each request on its own, at any
      point of any run. */
  lemma CoalescingPadsNoMore(accepted: seq<seq<string>>, calls: seq<Call>, pending: seq<Row>,
                             reqs: map<nat, ReqState>, sent: seq<(nat, Reply)>)
    requires Inv(FIXED_BATCH, accepted, calls, pending, reqs, sent)
    ensures PaddedCoalesced(calls) <= PaddedSeparately(accepted)
  {
    hide Tracks, AllRows, Embedded, Results;
    PaddedSeparatelyIs(accepted);
    PaddedCoalescedIs(calls);
  }

  // ---------------------------------------------------------------------------------------------
  // The coalescer over the fixed-shape provider

  /** Every inner call of the coalescer went through the provider; `made[i]` model calls came before
      call `i`. */
  ghost predicate ThroughProvider(calls: seq<Call>, made: seq<nat>,
                                  model: (nat, seq<string>) -> Result<seq<Vector>, string>) {
    |made| == |calls|
    && forall i :: 0 <= i < |calls| ==> calls[i].returned == ChunkedFrom(Texts(calls[i].rows), made[i], model)
  }

  lemma ProviderIsRowWise(calls: seq<Call>, made: seq<nat>, model: (nat, seq<string>) -> Result<seq<Vector>, string>,
                          f: string -> Vector)
    requires RowWiseModel(model, f) && ThroughProvider(calls, made, model)
    ensures RowWise(calls, f)
    ensures NeverFails(model) ==> forall i :: 0 <= i < |calls| ==> Succeeded(calls[i])
  {
    hide ChunkedFrom, RowWiseModel, NeverFails;
    forall i | 0 <= i < |calls|
      ensures calls[i].returned.Ok? ==> calls[i].returned.value == Map(f, Texts(calls[i].rows))
      ensures NeverFails(model) ==> calls[i].returned.Ok?
    {
      PaddingIsInvisible(Texts(calls[i].rows), made[i], model, f);
    }
  }

  /** Coalescing, chunking and padding together are invisible: over a row-wise model, at any point of any
      run, whatever a caller has been sent is its own texts embedded, in its own order, or an error; once
      the queue has drained, every caller has been sent just that, if no model call fails. */
  lemma CallersGetTheirOwnRows(b: nat, accepted: seq<seq<string>>, calls: seq<Call>, pending: seq<Row>,
                               reqs: map<nat, ReqState>, sent: seq<(nat, Reply)>, made: seq<nat>,
                               model: (nat, seq<string>) -> Result<seq<Vector>, string>, f: string -> Vector, id: nat)
    requires Inv(b, accepted, calls, pending, reqs, sent) && id < |accepted|
    requires RowWiseModel(model, f) && ThroughProvider(calls, made, model)
    ensures forall vectors :: (id, Ok(vectors)) in sent ==> vectors == Map(f, accepted[id])
    ensures NeverFails(model) ==> forall reply :: (id, reply) in sent ==> reply == Ok(Map(f, accepted[id]))
    ensures pending == [] ==> exists reply :: (id, reply) in sent
    ensures pending == [] && NeverFails(model) ==> (id, Ok(Map(f, accepted[id]))) in sent
  {
    hide Inv, RowWise, Succeeded, ThroughProvider, RowWiseModel, NeverFails;
    ProviderIsRowWise(calls, made, model, f);
    FailsIffACallFailed(b, accepted, calls, pending, reqs, sent, id);
    forall vectors | (id, Ok(vectors)) in sent
      ensures vectors == Map(f, accepted[id])
    {
      OkReplyIsOwnRows(b, accepted, calls, pending, reqs, sent, f, id, vectors);
    }
    if NeverFails(model) {
      forall reply | (id, reply) in sent
        ensures reply == Ok(Map(f, accepted[id]))
      {
        match reply
        case Ok(_) =>
        case Err(_) => assert false;
      }
    }
    if pending == [] {
      DrainedMeansAnswered(b, accepted, calls, pending, reqs, sent);
      assert Answered(sent, id);
      var i :| 0 <= i < |sent| && sent[i].0 == id;
      assert sent[i] == (id, sent[i].1);
    }
  }
}
