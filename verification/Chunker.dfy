/** The AST-aware sibling-merge chunker: consecutive atoms are merged greedily under a token budget. */
module Chunker {
  import opened Symbols
  import opened Wrappers

  const CHARS_PER_TOKEN: nat := 4

  /** Bytes 0b10xxxxxx continue a character. */
  predicate IsContinuation(b: bv8) {
    b & 0xc0 == 0x80
  }

  function CharCount(text: Utf8): nat {
    if text == [] then 0 else (if IsContinuation(text[0]) then 0 else 1) + CharCount(text[1..])
  }

  function EstimateTokens(text: Utf8): nat {
    CharCount(text) / CHARS_PER_TOKEN
  }

  function Tokens(atoms: seq<Symbol>): nat {
    if atoms == [] then 0 else Tokens(atoms[..|atoms| - 1]) + EstimateTokens(atoms[|atoms| - 1].sourceText)
  }

  predicate IsBoundary(source: Utf8, i: nat) {
    i == 0 || i == |source| || (i < |source| && !IsContinuation(source[i]))
  }

  /** `source.get(start..end)`. */
  function Slice(source: Utf8, start: nat, end: nat): Option<Utf8> {
    if start <= end <= |source| && IsBoundary(source, start) && IsBoundary(source, end)
    then Some(source[start..end]) else None
  }

  function Names(atoms: seq<Symbol>): (r: seq<string>)
    ensures |r| == |atoms|
  {
    seq(|atoms|, i requires 0 <= i < |atoms| => atoms[i].name)
  }

  /** The chunk emitted for a run of atoms. */
  function Emitted(run: seq<Symbol>, source: Utf8): Symbol
    requires run != []
  {
    var primary, end := run[0], run[|run| - 1].spanEnd;
    var text := Slice(source, primary.spanStart, end);
    primary.(siblingNames := Names(run[1..]),
             spanEnd := end,
             sourceText := if text.Some? then text.value else primary.sourceText)
  }

  function EmittedAll(runs: seq<seq<Symbol>>, source: Utf8): (r: seq<Symbol>)
    requires forall i :: 0 <= i < |runs| ==> runs[i] != []
    ensures |r| == |runs|
  {
    seq(|runs|, i requires 0 <= i < |runs| => Emitted(runs[i], source))
  }

  // ---------------------------------------------------------------------------------------------
  // The greedy partition

  /** Runs formed from `rest` when `open` is the run being built. */
  function RunsFrom(open: seq<Symbol>, rest: seq<Symbol>, maxTokens: nat): (runs: seq<seq<Symbol>>)
    requires open != []
    ensures forall i :: 0 <= i < |runs| ==> runs[i] != []
    decreases |rest|
  {
    if rest == [] then [open]
    else if Tokens(open) + EstimateTokens(rest[0].sourceText) <= maxTokens
    then RunsFrom(open + [rest[0]], rest[1..], maxTokens)
    else [open] + RunsFrom([rest[0]], rest[1..], maxTokens)
  }

  function Runs(atoms: seq<Symbol>, maxTokens: nat): (runs: seq<seq<Symbol>>)
    ensures forall i :: 0 <= i < |runs| ==> runs[i] != []
  {
    if atoms == [] then [] else RunsFrom([atoms[0]], atoms[1..], maxTokens)
  }

  // ---------------------------------------------------------------------------------------------
  // The walk

  /** Accumulator for the chunk in progress; `run` is the atoms merged so far. */
  class ChunkBuilder {
    const primary: Symbol
    var siblingNames: seq<string>
    var spanEnd: nat
    var runningTokens: nat
    ghost var run: seq<Symbol>

    ghost predicate Valid()
      reads this
    {
      && run != [] && primary == run[0]
      && siblingNames == Names(run[1..])
      && spanEnd == run[|run| - 1].spanEnd
      && runningTokens == Tokens(run)
    }

    constructor Start(atom: Symbol, tokens: nat)
      requires tokens == EstimateTokens(atom.sourceText)
      ensures Valid() && run == [atom]
    {
      primary := atom;
      siblingNames, spanEnd, runningTokens := [], atom.spanEnd, tokens;
      run := [atom];
      new;
      assert Tokens([atom]) == Tokens([]) + tokens;
    }

    method Append(sibling: Symbol, tokens: nat)
      requires Valid() && tokens == EstimateTokens(sibling.sourceText)
      modifies this
      ensures Valid() && run == old(run) + [sibling]
    {
      siblingNames := siblingNames + [sibling.name];
      spanEnd := sibling.spanEnd;
      runningTokens := runningTokens + tokens;
      run := run + [sibling];
      assert run[..|run| - 1] == old(run);
      assert run[1..] == old(run)[1..] + [sibling];
    }

    method Finish(source: Utf8) returns (chunk: Symbol)
      requires Valid()
      ensures chunk == Emitted(run, source)
    {
      var text := Slice(source, primary.spanStart, spanEnd);
      var sourceText := if text.Some? then text.value else primary.sourceText;
      chunk := primary.(siblingNames := siblingNames, spanEnd := spanEnd, sourceText := sourceText);
    }
  }

  method ChunkSymbols(atoms: seq<Symbol>, maxTokens: nat, source: Utf8) returns (out: seq<Symbol>)
    ensures out == EmittedAll(Runs(atoms, maxTokens), source)
  {
    out := [];
    ghost var closed: seq<seq<Symbol>> := [];
    var current: ChunkBuilder? := null;
    for i := 0 to |atoms|
      invariant current == null <==> i == 0
      invariant i == 0 ==> closed == []
      invariant forall k :: 0 <= k < |closed| ==> closed[k] != []
      invariant out == EmittedAll(closed, source)
      invariant current != null ==> current.Valid() && fresh(current)
      invariant current != null ==> Runs(atoms, maxTokens) == closed + RunsFrom(current.run, atoms[i..], maxTokens)
    {
      var atom := atoms[i];
      var atomTokens := EstimateTokens(atom.sourceText);
      if current == null {
        current := new ChunkBuilder.Start(atom, atomTokens);
      } else if current.runningTokens + atomTokens <= maxTokens {
        current.Append(atom, atomTokens);
      } else {
        var chunk := current.Finish(source);
        out := out + [chunk];
        closed := closed + [current.run];
        current := new ChunkBuilder.Start(atom, atomTokens);
      }
    }
    if current != null {
      var chunk := current.Finish(source);
      out := out + [chunk];
      closed := closed + [current.run];
    }
    assert closed == Runs(atoms, maxTokens);
  }

  // ---------------------------------------------------------------------------------------------
  // Main results

  function Flatten(runs: seq<seq<Symbol>>): seq<Symbol> {
    if runs == [] then [] else runs[0] + Flatten(runs[1..])
  }

  /** A run the budget allows: one atom of any size, or several whose total is within it. */
  predicate Allowed(run: seq<Symbol>, maxTokens: nat) {
    run != [] && (|run| == 1 || Tokens(run) <= maxTokens)
  }

  predicate AllAllowed(runs: seq<seq<Symbol>>, maxTokens: nat) {
    forall i :: 0 <= i < |runs| ==> Allowed(runs[i], maxTokens)
  }

  lemma TokensSnoc(run: seq<Symbol>, atom: Symbol)
    ensures Tokens(run + [atom]) == Tokens(run) + EstimateTokens(atom.sourceText)
  {
    assert (run + [atom])[..|run|] == run;
  }

  lemma {:induction false} TokensSplit(a: seq<Symbol>, b: seq<Symbol>)
    ensures Tokens(a + b) == Tokens(a) + Tokens(b)
    decreases |b|
  {
    if b == [] {
      assert a + b == a;
    } else {
      assert (a + b)[..|a + b| - 1] == a + b[..|b| - 1];
      TokensSplit(a, b[..|b| - 1]);
    }
  }

  /** The runs are the atoms, in order, none lost; each is within the budget. */
  lemma {:induction false} RunsFromPartition(open: seq<Symbol>, rest: seq<Symbol>, maxTokens: nat)
    requires Allowed(open, maxTokens)
    ensures Flatten(RunsFrom(open, rest, maxTokens)) == open + rest
    ensures AllAllowed(RunsFrom(open, rest, maxTokens), maxTokens)
    decreases |rest|
  {
    if rest == [] {
      assert Flatten([open]) == open + Flatten([]);
    } else {
      TokensSnoc(open, rest[0]);
      assert rest == [rest[0]] + rest[1..];
      if Tokens(open) + EstimateTokens(rest[0].sourceText) <= maxTokens {
        RunsFromPartition(open + [rest[0]], rest[1..], maxTokens);
        hide Tokens, EstimateTokens, Flatten;
        assert open + [rest[0]] + rest[1..] == open + rest;
      } else {
        RunsFromPartition([rest[0]], rest[1..], maxTokens);
        var runs := RunsFrom([rest[0]], rest[1..], maxTokens);
        assert RunsFrom(open, rest, maxTokens) == [open] + runs;
        hide RunsFrom, Tokens, EstimateTokens;
        FlattenCons(open, runs);
        assert AllAllowed([open] + runs, maxTokens);
      }
    }
  }

  lemma FlattenCons(run: seq<Symbol>, runs: seq<seq<Symbol>>)
    ensures Flatten([run] + runs) == run + Flatten(runs)
  {
    assert ([run] + runs)[1..] == runs;
  }

  /** No partition into allowed runs, even of a longer sequence that ends the same way, has fewer
      runs than the greedy one. */
  lemma {:induction false} GreedyIsOptimal(before: seq<Symbol>, open: seq<Symbol>, rest: seq<Symbol>, maxTokens: nat,
                                           other: seq<seq<Symbol>>)
    requires Allowed(open, maxTokens)
    requires AllAllowed(other, maxTokens) && Flatten(other) == before + open + rest
    ensures |RunsFrom(open, rest, maxTokens)| <= |other|
    decreases |rest|
  {
    if rest != [] {
      TokensSnoc(open, rest[0]);
      if Tokens(open) + EstimateTokens(rest[0].sourceText) <= maxTokens {
        assert before + (open + [rest[0]]) + rest[1..] == before + open + rest;
        GreedyIsOptimal(before, open + [rest[0]], rest[1..], maxTokens, other);
      } else {
        var first, all := other[0], before + open + rest;
        assert first == all[..|first|];
        if |first| <= |before + open| {
          var before' := (before + open)[|first|..];
          assert Flatten(other[1..]) == all[|first|..];
          assert all[|first|..] == before' + [rest[0]] + rest[1..];
          GreedyIsOptimal(before', [rest[0]], rest[1..], maxTokens, other[1..]);
        } else {
          // `first` swallows `open` and the atom after it, which is over the budget.
          var tail := rest[1..|first| - |before| - |open|];
          assert first == before + (open + [rest[0]]) + tail;
          TokensSplit(before + (open + [rest[0]]), tail);
          TokensSplit(before, open + [rest[0]]);
          assert false;
        }
      }
    }
  }

  /** The chunker emits one chunk per run of a partition of the atoms that keeps their order, merges
      only within the budget, and has as few runs as any such partition. */
  lemma ChunksAreOptimal(atoms: seq<Symbol>, maxTokens: nat, other: seq<seq<Symbol>>)
    requires AllAllowed(other, maxTokens) && Flatten(other) == atoms
    ensures Flatten(Runs(atoms, maxTokens)) == atoms
    ensures AllAllowed(Runs(atoms, maxTokens), maxTokens)
    ensures |Runs(atoms, maxTokens)| <= |other|
  {
    if atoms != [] {
      assert [] + [atoms[0]] + atoms[1..] == atoms;
      RunsFromPartition([atoms[0]], atoms[1..], maxTokens);
      GreedyIsOptimal([], [atoms[0]], atoms[1..], maxTokens, other);
    }
  }

  // ---------------------------------------------------------------------------------------------
  // The text of a chunk

  /** The atom's text is what the source has at its span. */
  predicate IsLaidOut(atom: Symbol, source: Utf8) {
    Slice(source, atom.spanStart, atom.spanEnd) == Some(atom.sourceText)
  }

  /** The atom's text stands in the chunk's text, at the atom's own offset from the chunk's start. */
  predicate StandsIn(atom: Symbol, chunk: Symbol) {
    && chunk.spanStart <= atom.spanStart
    && var off := atom.spanStart - chunk.spanStart;
    && off + |atom.sourceText| <= |chunk.sourceText|
    && chunk.sourceText[off..off + |atom.sourceText|] == atom.sourceText
  }

  lemma ChunkText(run: seq<Symbol>, source: Utf8)
    requires run != [] && forall i :: 0 <= i < |run| ==> IsLaidOut(run[i], source)
    requires run[0].spanStart <= run[|run| - 1].spanStart
    ensures run[0].spanStart <= run[|run| - 1].spanEnd <= |source|
    ensures Emitted(run, source).sourceText == source[run[0].spanStart..run[|run| - 1].spanEnd]
  {
    assert IsLaidOut(run[0], source) && IsLaidOut(run[|run| - 1], source);
  }

  /** Which atoms a chunk's text holds: for atoms in order of their starts, exactly those that do not end
      after the last one. */
  lemma ChunkHoldsAtom(run: seq<Symbol>, source: Utf8, i: nat)
    requires i < |run| && forall j :: 0 <= j < |run| ==> IsLaidOut(run[j], source)
    requires forall j :: 0 <= j < |run| ==> run[0].spanStart <= run[j].spanStart
    ensures StandsIn(run[i], Emitted(run, source)) <==> run[i].spanEnd <= run[|run| - 1].spanEnd
  {
    ChunkText(run, source);
    AtomText(run[i], source);
    EmittedSpan(run, source);
    hide IsLaidOut, Emitted;
    var atom, first, end := run[i], run[0].spanStart, run[|run| - 1].spanEnd;
    if atom.spanEnd <= end {
      SliceOfSlice(source, first, end, atom.spanStart, atom.spanEnd);
    }
  }

  lemma AtomText(atom: Symbol, source: Utf8)
    requires IsLaidOut(atom, source)
    ensures atom.spanStart <= atom.spanEnd <= |source| && atom.sourceText == source[atom.spanStart..atom.spanEnd]
  {
  }

  lemma EmittedSpan(run: seq<Symbol>, source: Utf8)
    requires run != []
    ensures Emitted(run, source).spanStart == run[0].spanStart
  {
  }

  lemma SliceOfSlice(source: Utf8, first: nat, end: nat, a: nat, b: nat)
    requires first <= a <= b <= end <= |source|
    ensures source[first..end][a - first..b - first] == source[a..b]
  {
    var whole, part := source[first..end], source[a..b];
    forall i | 0 <= i < b - a
      ensures whole[a - first..b - first][i] == part[i]
    {
      assert whole[a - first + i] == source[a + i];
    }
  }

  /** So with nondecreasing starts and ends a chunk holds all its atoms. */
  lemma ChunkHoldsAtoms(run: seq<Symbol>, source: Utf8, i: nat)
    requires i < |run| && forall j :: 0 <= j < |run| ==> IsLaidOut(run[j], source)
    requires forall j, k :: 0 <= j < k < |run| ==> run[j].spanStart <= run[k].spanStart && run[j].spanEnd <= run[k].spanEnd
    ensures StandsIn(run[i], Emitted(run, source))
  {
    hide IsLaidOut, StandsIn, Emitted;
    ChunkHoldsAtom(run, source, i);
  }

  /** A class followed by a method inside it is not held: the chunk ends where the method does. */
  lemma NestedAtomCutsChunk(outer: Symbol, inner: Symbol, source: Utf8)
    requires IsLaidOut(outer, source) && IsLaidOut(inner, source)
    requires outer.spanStart <= inner.spanStart && inner.spanEnd < outer.spanEnd
    ensures !StandsIn(outer, Emitted([outer, inner], source))
    ensures StandsIn(inner, Emitted([outer, inner], source))
  {
    hide IsLaidOut, StandsIn, Emitted;
    ChunkHoldsAtom([outer, inner], source, 0);
    ChunkHoldsAtom([outer, inner], source, 1);
  }
}
