/** The budget in characters: what an atom weighs, and which partition the chunker makes. */
module ChunkerBudget {
  import opened Symbols
  import opened Wrappers
  import opened Chunker

  /** The places where a character starts. */
  function Starts(text: Utf8): set<nat> {
    set i: nat | i < |text| && text[i] & 0xc0 != 0x80
  }

  lemma StartsCons(text: Utf8)
    requires text != []
    ensures |Starts(text)| == (if text[0] & 0xc0 != 0x80 then 1 else 0) + |Starts(text[1..])|
  {
    var first: set<nat> := if text[0] & 0xc0 != 0x80 then {0} else {};
    var later := set i | i in Starts(text[1..]) :: i + 1;
    Shifted(Starts(text[1..]), later);
    forall i: nat
      ensures i in Starts(text) <==> i in first + later
    {
      if i > 0 && i in Starts(text) {
        assert i - 1 in Starts(text[1..]);
      }
    }
    assert Starts(text) == first + later;
    assert first !! later;
  }

  lemma {:induction false} Shifted(s: set<nat>, t: set<nat>)
    requires t == set i | i in s :: i + 1
    ensures |t| == |s|
    decreases |s|
  {
    if s != {} {
      var x :| x in s;
      var less := set i | i in s - {x} :: i + 1;
      Shifted(s - {x}, less);
      forall y
        ensures y in t <==> y in less + {x + 1}
      {
        assert y in t <==> y - 1 in s;
        assert y in less <==> y - 1 in s - {x};
      }
      assert t == less + {x + 1};
    }
  }

  lemma {:induction false} CountsStarts(text: Utf8)
    ensures CharCount(text) == |Starts(text)|
  {
    if text != [] {
      StartsCons(text);
      CountsStarts(text[1..]);
    }
  }

  /** An atom weighs a quarter of its characters, rounded down. Bytes below 0x80 are one character each. */
  lemma AQuarterOfTheCharacters(text: Utf8)
    ensures EstimateTokens(text) == |set i: nat | i < |text| && (text[i] & 0xc0) != 0x80| / 4
    ensures (forall i :: 0 <= i < |text| ==> text[i] < 0x80) ==> EstimateTokens(text) == |text| / 4
  {
    CountsStarts(text);
    assert Starts(text) == set i: nat | i < |text| && text[i] & 0xc0 != 0x80;
    if forall i :: 0 <= i < |text| ==> text[i] < 0x80 {
      AsciiStarts(text);
    }
  }

  lemma LowBytesStart(b: bv8)
    ensures b < 0x80 ==> b & 0xc0 != 0x80
  {
  }

  lemma {:induction false} AsciiStarts(text: Utf8)
    requires forall i :: 0 <= i < |text| ==> text[i] < 0x80
    ensures |Starts(text)| == |text|
  {
    if text != [] {
      StartsCons(text);
      LowBytesStart(text[0]);
      AsciiStarts(text[1..]);
    }
  }

  // ---------------------------------------------------------------------------------------------
  // The partition

  /** What a run weighs: for each atom a quarter of its characters. */
  function Weight(run: seq<Symbol>): nat {
    if run == [] then 0 else |Starts(run[0].sourceText)| / 4 + Weight(run[1..])
  }

  lemma {:induction false} TokensAreWeight(run: seq<Symbol>)
    ensures Tokens(run) == Weight(run)
  {
    if run != [] {
      CountsStarts(run[0].sourceText);
      assert run == [run[0]] + run[1..];
      TokensSplit([run[0]], run[1..]);
      assert Tokens([run[0]]) == Tokens([]) + EstimateTokens(run[0].sourceText);
      TokensAreWeight(run[1..]);
    }
  }

  /** The runs are greedy: no run could have taken in the first atom of the next one. */
  predicate Tight(runs: seq<seq<Symbol>>, maxTokens: nat)
    requires forall k :: 0 <= k < |runs| ==> runs[k] != []
  {
    forall k :: 0 <= k < |runs| - 1 ==> Weight(runs[k]) + |Starts(runs[k + 1][0].sourceText)| / 4 > maxTokens
  }

  predicate Within(runs: seq<seq<Symbol>>, maxTokens: nat) {
    forall k :: 0 <= k < |runs| ==> runs[k] != [] && (|runs[k]| >= 2 ==> Weight(runs[k]) <= maxTokens)
  }

  lemma {:induction false} RunsFromTight(open: seq<Symbol>, rest: seq<Symbol>, maxTokens: nat)
    requires open != []
    ensures var runs := RunsFrom(open, rest, maxTokens);
            runs != [] && runs[0][0] == open[0] && Tight(runs, maxTokens)
    decreases |rest|
  {
    if rest != [] {
      hide Weight, Tokens, EstimateTokens;
      if Tokens(open) + EstimateTokens(rest[0].sourceText) <= maxTokens {
        RunsFromTight(open + [rest[0]], rest[1..], maxTokens);
      } else {
        RunsFromTight([rest[0]], rest[1..], maxTokens);
        var runs := RunsFrom([rest[0]], rest[1..], maxTokens);
        assert RunsFrom(open, rest, maxTokens) == [open] + runs;
        hide RunsFrom;
        TokensAreWeight(open);
        AQuarterOfTheCharacters(rest[0].sourceText);
        TightCons(open, runs, maxTokens);
      }
    }
  }

  lemma TightCons(open: seq<Symbol>, runs: seq<seq<Symbol>>, maxTokens: nat)
    requires open != [] && runs != [] && forall k :: 0 <= k < |runs| ==> runs[k] != []
    requires Tight(runs, maxTokens) && Weight(open) + |Starts(runs[0][0].sourceText)| / 4 > maxTokens
    ensures Tight([open] + runs, maxTokens)
  {
    hide Weight, Starts;
    var all := [open] + runs;
    forall k | 0 <= k < |all| - 1
      ensures Weight(all[k]) + |Starts(all[k + 1][0].sourceText)| / 4 > maxTokens
    {
      assert k > 0 ==> all[k] == runs[k - 1] && all[k + 1] == runs[k];
    }
  }

  lemma AllowedIsWithin(runs: seq<seq<Symbol>>, maxTokens: nat)
    ensures AllAllowed(runs, maxTokens) <==> Within(runs, maxTokens)
  {
    hide Tokens, Weight;
    forall k | 0 <= k < |runs|
      ensures Tokens(runs[k]) == Weight(runs[k])
    {
      TokensAreWeight(runs[k]);
    }
    assert AllAllowed(runs, maxTokens) ==> forall k :: 0 <= k < |runs| ==> Allowed(runs[k], maxTokens);
  }

  /** The runs of the chunker are the atoms in order; a run of two or more weighs at most the budget,
      and a run with the next one's first atom more than it. */
  lemma RunsAreGreedy(atoms: seq<Symbol>, maxTokens: nat)
    ensures var runs := Runs(atoms, maxTokens);
            Flatten(runs) == atoms && Within(runs, maxTokens) && Tight(runs, maxTokens)
  {
    if atoms != [] {
      assert atoms == [atoms[0]] + atoms[1..];
      RunsFromPartition([atoms[0]], atoms[1..], maxTokens);
      RunsFromTight([atoms[0]], atoms[1..], maxTokens);
      AllowedIsWithin(Runs(atoms, maxTokens), maxTokens);
    }
  }

  lemma {:induction false} WeightSplit(a: seq<Symbol>, b: seq<Symbol>)
    ensures Weight(a + b) == Weight(a) + Weight(b)
  {
    hide Starts;
    if a == [] {
      assert a + b == b;
    } else {
      assert (a + b)[1..] == a[1..] + b;
      WeightSplit(a[1..], b);
    }
  }

  lemma FlattenLead(runs: seq<seq<Symbol>>)
    requires runs != []
    ensures Flatten(runs) == runs[0] + Flatten(runs[1..])
    ensures |runs| > 1 && runs[1] != [] ==> Flatten(runs[1..]) != [] && Flatten(runs[1..])[0] == runs[1][0]
  {
    if |runs| > 1 {
      assert Flatten(runs[1..]) == runs[1] + Flatten(runs[1..][1..]);
    }
  }

  lemma TightTail(runs: seq<seq<Symbol>>, maxTokens: nat)
    requires runs != [] && Within(runs, maxTokens) && Tight(runs, maxTokens)
    ensures Within(runs[1..], maxTokens) && Tight(runs[1..], maxTokens)
  {
    hide Weight, Starts;
    assert forall k :: 0 <= k < |runs[1..]| ==> runs[1..][k] == runs[k + 1];
  }

  lemma AtomStep(open: seq<Symbol>, next: Symbol)
    ensures Tokens(open) + EstimateTokens(next.sourceText) == Weight(open) + |Starts(next.sourceText)| / 4
    ensures Weight(open + [next]) == Weight(open) + |Starts(next.sourceText)| / 4
  {
    TokensAreWeight(open);
    AQuarterOfTheCharacters(next.sourceText);
    WeightSplit(open, [next]);
    assert Weight([next]) == |Starts(next.sourceText)| / 4 + Weight([]);
  }

  lemma {:induction false} OnlyGreedy(open: seq<Symbol>, rest: seq<Symbol>, maxTokens: nat, other: seq<seq<Symbol>>)
    requires open != [] && other != [] && open <= other[0]
    requires Flatten(other) == open + rest && Within(other, maxTokens) && Tight(other, maxTokens)
    ensures other == RunsFrom(open, rest, maxTokens)
    decreases |rest|
  {
    hide Tokens, EstimateTokens, Weight, Starts, Flatten;
    FlattenLead(other);
    TightTail(other, maxTokens);
    var first, others := other[0], other[1..];
    if |first| > |open| {
      var next := rest[0];
      assert first[|open|] == (open + rest)[|open|] == next;
      assert first == open + [next] + first[|open| + 1..];
      WeightSplit(open + [next], first[|open| + 1..]);
      AtomStep(open, next);
      assert open + [next] + rest[1..] == open + rest;
      OnlyGreedy(open + [next], rest[1..], maxTokens, other);
    } else {
      assert first == open;
      assert (first + Flatten(others))[|first|..] == Flatten(others);
      assert (open + rest)[|open|..] == rest;
      if others == [] {
        assert rest == [] by { NothingFlat(); }
        assert other == [open];
      } else {
        assert others[0] == other[1] && others[0] != [];
        AtomStep(open, rest[0]);
        assert [rest[0]] + rest[1..] == rest;
        OnlyGreedy([rest[0]], rest[1..], maxTokens, others);
        assert other == [open] + others;
      }
    }
  }

  lemma NothingFlat()
    ensures Flatten([]) == []
  {
  }

  /** And they are the only such partition of the atoms. */
  lemma OnlyGreedyPartition(atoms: seq<Symbol>, maxTokens: nat, other: seq<seq<Symbol>>)
    requires Flatten(other) == atoms && Within(other, maxTokens) && Tight(other, maxTokens)
    ensures other == Runs(atoms, maxTokens)
  {
    hide Weight, Starts, Tokens, EstimateTokens;
    if other != [] {
      FlattenLead(other);
      assert atoms == [atoms[0]] + atoms[1..];
      OnlyGreedy([atoms[0]], atoms[1..], maxTokens, other);
    }
  }

  // ---------------------------------------------------------------------------------------------
  // The text of a chunk

  /** A chunk's text is the source from its first atom's start to its last atom's end; where those bounds
      are out of order, out of range or inside a character it is the first atom's own text. */
  lemma ChunkTextOrFallback(run: seq<Symbol>, source: Utf8)
    requires run != []
    ensures var a, b := run[0].spanStart, run[|run| - 1].spanEnd;
            var cuts := (i: nat) => 0 < i < |source| && source[i] & 0xc0 == 0x80;
            Emitted(run, source).sourceText
            == if a <= b <= |source| && !cuts(a) && !cuts(b) then source[a..b] else run[0].sourceText
  {
  }
}
