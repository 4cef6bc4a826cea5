/** What the fixed-shape provider sends to the model, call by call, and what it makes of the answers. */
module CoremlCalls {
  import opened Wrappers
  import opened Common
  import opened BatchingSpec
  import opened CoremlFixed

  type Model = (nat, seq<string>) -> Result<seq<Vector>, string>

  /** The rows of model call `i`: the next 32 texts, and empty strings behind the last one. */
  function CallRows(texts: seq<string>, i: nat): seq<string> {
    seq(32, j requires 0 <= j < 32 => if 32 * i + j < |texts| then texts[32 * i + j] else "")
  }

  /** The number of model calls: a 32nd of the texts, rounded up. */
  function Calls(texts: seq<string>): nat {
    (|texts| + 31) / 32
  }

  lemma FirstCall(texts: seq<string>)
    requires texts != []
    ensures PadRows(Chunk(texts), FIXED_BATCH) == CallRows(texts, 0)
    ensures |Chunk(texts)| == Min(32, |texts|)
    ensures Calls(texts) == 1 + Calls(texts[|Chunk(texts)|..])
  {
  }

  lemma LaterCall(texts: seq<string>, i: nat)
    requires texts != [] && i < Calls(texts[|Chunk(texts)|..])
    ensures CallRows(texts[|Chunk(texts)|..], i) == CallRows(texts, i + 1)
  {
  }

  /** Call number `made + i` answers this to the `i`th rows. */
  function AnswerTo(texts: seq<string>, made: nat, model: Model, i: nat): Result<seq<Vector>, string> {
    model(made + i, CallRows(texts, i))
  }

  lemma FirstAnswer(texts: seq<string>, made: nat, model: Model)
    requires texts != []
    ensures AnswerTo(texts, made, model, 0) == model(made, PadRows(Chunk(texts), FIXED_BATCH))
  {
    hide PadRows, Chunk, CallRows;
    FirstCall(texts);
  }

  lemma LaterAnswers(texts: seq<string>, made: nat, model: Model)
    requires texts != []
    ensures var rest, next := texts[|Chunk(texts)|..], made + 1;
            forall j: nat :: j < Calls(rest) ==> AnswerTo(rest, next, model, j) == AnswerTo(texts, made, model, j + 1)
  {
    hide PadRows, Chunk, CallRows, Calls;
    var rest, next := texts[|Chunk(texts)|..], made + 1;
    forall j: nat | j < Calls(rest)
      ensures AnswerTo(rest, next, model, j) == AnswerTo(texts, made, model, j + 1)
    {
      LaterCall(texts, j);
    }
  }

  /** The provider's error is that of the first model call that fails. */
  lemma {:induction false} FailsWithFirstError(texts: seq<string>, made: nat, model: Model, i: nat)
    requires i < Calls(texts) && AnswerTo(texts, made, model, i).Err?
    requires forall j :: 0 <= j < i ==> AnswerTo(texts, made, model, j).Ok?
    ensures ChunkedFrom(texts, made, model) == Err(AnswerTo(texts, made, model, i).error)
    decreases |texts|
  {
    FirstCall(texts);
    FirstAnswer(texts, made, model);
    LaterAnswers(texts, made, model);
    var rest, next := texts[|Chunk(texts)|..], made + 1;
    hide PadRows, Chunk, CallRows, Calls;
    if i > 0 {
      assert AnswerTo(rest, next, model, i - 1) == AnswerTo(texts, made, model, i);
      FailsWithFirstError(rest, next, model, i - 1);
    }
  }

  /** All answers are full batches. */
  ghost predicate AllAnswer(texts: seq<string>, made: nat, model: Model) {
    forall j: nat :: j < Calls(texts) ==>
      AnswerTo(texts, made, model, j).Ok? && |AnswerTo(texts, made, model, j).value| == 32
  }

  /** The vector at place `p` is number `p % 32` of the answer to call `p / 32`. */
  ghost predicate IsInPlace(vectors: seq<Vector>, texts: seq<string>, made: nat, model: Model, p: nat)
    requires AllAnswer(texts, made, model) && p < |vectors| == |texts|
  {
    vectors[p] == AnswerTo(texts, made, model, p / 32).value[p % 32]
  }

  lemma LaterAllAnswer(texts: seq<string>, made: nat, model: Model)
    requires texts != [] && AllAnswer(texts, made, model)
    ensures AllAnswer(texts[|Chunk(texts)|..], made + 1, model)
  {
    FirstCall(texts);
    LaterAnswers(texts, made, model);
    hide Chunk, Calls, AnswerTo;
  }

  lemma PlaceStep(texts: seq<string>, made: nat, model: Model, tail: seq<Vector>, p: nat)
    requires texts != [] && AllAnswer(texts, made, model) && p < |texts|
    requires var rest := texts[|Chunk(texts)|..];
             && AllAnswer(rest, made + 1, model) && |tail| == |rest|
             && (p >= 32 ==> p - 32 < |rest| && IsInPlace(tail, rest, made + 1, model, p - 32))
    ensures var vectors := Take(AnswerTo(texts, made, model, 0).value, |Chunk(texts)|) + tail;
            |vectors| == |texts| && IsInPlace(vectors, texts, made, model, p)
  {
    FirstCall(texts);
    Placed(AnswerTo(texts, made, model, 0).value, tail, |Chunk(texts)|, p);
    if p >= 32 {
      LaterAnswers(texts, made, model);
      Back32(p);
    }
  }

  /** If no call fails, the vectors of the `i`th answer stand, in order, from place `32 * i` on, as many of
      them as there were texts in the call. */
  lemma {:induction false} AnswersInOrder(texts: seq<string>, made: nat, model: Model)
    requires AllAnswer(texts, made, model)
    ensures var r := ChunkedFrom(texts, made, model);
            r.Ok? && |r.value| == |texts| && forall p: nat :: p < |texts| ==> IsInPlace(r.value, texts, made, model, p)
    decreases |texts|
  {
    if texts != [] {
      FirstCall(texts);
      FirstAnswer(texts, made, model);
      LaterAllAnswer(texts, made, model);
      var n := |Chunk(texts)|;
      var rest, next := texts[n..], made + 1;
      hide PadRows, Chunk, CallRows;
      AnswersInOrder(rest, next, model);
      var tail := ChunkedFrom(rest, next, model).value;
      assert ChunkedFrom(texts, made, model) == Ok(Take(AnswerTo(texts, made, model, 0).value, n) + tail);
      hide ChunkedFrom, AnswerTo, IsInPlace, AllAnswer;
      forall p: nat | p < |texts|
        ensures |ChunkedFrom(texts, made, model).value| == |texts|
        ensures IsInPlace(ChunkedFrom(texts, made, model).value, texts, made, model, p)
      {
        PlaceStep(texts, made, model, tail, p);
      }
    }
  }

  lemma Placed(first: seq<Vector>, rest: seq<Vector>, n: nat, p: nat)
    requires |first| == 32 && n <= 32 && (n < 32 ==> rest == []) && p < n + |rest|
    ensures (Take(first, n) + rest)[p] == if p < 32 then first[p] else rest[p - 32]
  {
  }

  lemma Back32(p: nat)
    requires p >= 32
    ensures (p - 32) / 32 == p / 32 - 1 && (p - 32) % 32 == p % 32
  {
  }
}
