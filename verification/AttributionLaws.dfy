/** Attribution is exact. */
module AttributionLaws {
  import opened Wrappers
  import opened Common
  import opened Sorting
  import opened Symbols
  import opened DiffHeaders
  import opened Attribution
  import DiffHeaderLaws

  // ---------------------------------------------------------------------------------------------
  // Lines and bytes

  /** The 1-based line a byte is on. */
  function LineOf(source: Utf8, i: nat): nat
    requires i < |source|
  {
    Newlines(source, i) + 1
  }

  lemma {:induction false} LinesGrow(source: Utf8, i: nat, j: nat)
    requires i <= j <= |source|
    ensures Newlines(source, i) <= Newlines(source, j)
    decreases j
  {
    if i < j {
      LinesGrow(source, i, j - 1);
    }
  }

  /** Lines grow by at most one per byte, so no line between the first and the last is skipped. */
  lemma {:induction false} ByteOnLine(source: Utf8, start: nat, end: nat, line: nat) returns (i: nat)
    requires start < end <= |source| && LineOf(source, start) <= line <= LineOf(source, end - 1)
    ensures start <= i < end && LineOf(source, i) == line
    decreases end
  {
    if LineOf(source, end - 1) == line {
      i := end - 1;
    } else {
      i := ByteOnLine(source, start, end - 1, line);
    }
  }

  /** A line's number is one more than the newlines, bytes of value 10, before it. */
  lemma {:induction false} NewlinesBefore(source: Utf8, pos: nat)
    requires pos <= |source|
    ensures Newlines(source, pos) == |set i: nat | i < pos && source[i] == 10|
  {
    if pos > 0 {
      NewlinesBefore(source, pos - 1);
      var before := set i: nat | i < pos - 1 && source[i] == 10;
      var here: set<nat> := if source[pos - 1] == 10 then {pos - 1} else {};
      assert (set i: nat | i < pos && source[i] == 10) == before + here;
    }
  }

  ghost predicate InBounds(s: Symbol, source: Utf8) {
    s.spanStart < s.spanEnd <= |source| && s.spanEnd <= U32_MAX
  }

  /** A nonempty span in bounds runs from the line of its first byte to the line of its last. */
  lemma SpanLines(s: Symbol, source: Utf8)
    requires InBounds(s, source)
    ensures ByteSpanToLineSpan(s.spanStart, s.spanEnd, source)
         == (LineOf(source, s.spanStart), LineOf(source, s.spanEnd - 1))
  {
    LinesGrow(source, s.spanStart, s.spanEnd - 1);
  }

  ghost predicate Covers(r: Range, line: nat) {
    r.start <= line < r.start + r.count
  }

  /** Some byte of the symbol is on a line of one of the ranges. */
  ghost predicate HasByteIn(s: Symbol, source: Utf8, ranges: seq<Range>) {
    exists i, k :: s.spanStart <= i < s.spanEnd && i < |source| && 0 <= k < |ranges| && Covers(ranges[k], LineOf(source, i))
  }

  /** Ranges that end within `u32`, or a source too short for that to matter. */
  ghost predicate NoOverflow(source: Utf8, ranges: seq<Range>) {
    |source| < U32_MAX || forall k :: 0 <= k < |ranges| ==> ranges[k].start + ranges[k].count <= U32_MAX
  }

  lemma RangeMeetsSpan(s: Symbol, source: Utf8, r: Range)
    requires InBounds(s, source) && r.count > 0 && (|source| < U32_MAX || r.start + r.count <= U32_MAX)
    ensures Intersects(ByteSpanToLineSpan(s.spanStart, s.spanEnd, source), r)
       <==> LineOf(source, s.spanStart) < r.start + r.count && r.start <= LineOf(source, s.spanEnd - 1)
  {
    SpanLines(s, source);
    hide ByteSpanToLineSpan, Newlines;
    assert LineOf(source, s.spanStart) <= |source|;
  }

  /** The comparison of line spans finds exactly the symbols with a byte on a covered line. */
  lemma TouchedIffByteIn(s: Symbol, source: Utf8, ranges: seq<Range>)
    requires InBounds(s, source) && NoOverflow(source, ranges)
    requires forall k :: 0 <= k < |ranges| ==> ranges[k].count > 0
    ensures Touched(s, source, ranges) <==> HasByteIn(s, source, ranges)
  {
    hide ByteSpanToLineSpan, Newlines, Intersects;
    var first, last := LineOf(source, s.spanStart), LineOf(source, s.spanEnd - 1);
    forall k | 0 <= k < |ranges|
      ensures Intersects(ByteSpanToLineSpan(s.spanStart, s.spanEnd, source), ranges[k])
         <==> first < ranges[k].start + ranges[k].count && ranges[k].start <= last
    {
      RangeMeetsSpan(s, source, ranges[k]);
    }
    LinesGrow(source, s.spanStart, s.spanEnd - 1);
    if Touched(s, source, ranges) {
      var k :| 0 <= k < |ranges| && Intersects(ByteSpanToLineSpan(s.spanStart, s.spanEnd, source), ranges[k]);
      var line := Max(first, ranges[k].start);
      var i := ByteOnLine(source, s.spanStart, s.spanEnd, line);
      assert Covers(ranges[k], LineOf(source, i));
    }
    if HasByteIn(s, source, ranges) {
      var i, k :| s.spanStart <= i < s.spanEnd && i < |source| && 0 <= k < |ranges|
                  && Covers(ranges[k], LineOf(source, i));
      LinesGrow(source, s.spanStart, i);
      LinesGrow(source, i, s.spanEnd - 1);
      assert Intersects(ByteSpanToLineSpan(s.spanStart, s.spanEnd, source), ranges[k]);
    }
  }

  // ---------------------------------------------------------------------------------------------
  // Tables

  lemma {:induction false} ExactKeys(symbols: seq<Symbol>, source: Utf8, ranges: seq<Range>, key: SymbolKey)
    ensures key in ExactTable(symbols, source, ranges)
       <==> exists i :: 0 <= i < |symbols| && KeyOf(symbols[i]) == key && Touched(symbols[i], source, ranges)
    ensures key in ExactTable(symbols, source, ranges) ==>
              ExactTable(symbols, source, ranges)[key].attribution == ExactSpan
    decreases |symbols|
  {
    hide Touched, KeyOf;
    if symbols != [] {
      var n := |symbols| - 1;
      ExactKeys(symbols[..n], source, ranges, key);
      if i :| 0 <= i < n && KeyOf(symbols[..n][i]) == key && Touched(symbols[..n][i], source, ranges) {
        assert KeyOf(symbols[i]) == key && Touched(symbols[i], source, ranges);
      }
      if i :| 0 <= i < |symbols| && KeyOf(symbols[i]) == key && Touched(symbols[i], source, ranges) {
        assert i < n ==> symbols[..n][i] == symbols[i];
      }
    }
  }

  /** Of several touched symbols with one key, the last one's record is kept. */
  lemma {:induction false} LastTouchedWins(symbols: seq<Symbol>, source: Utf8, ranges: seq<Range>, i: nat)
    requires i < |symbols| && Touched(symbols[i], source, ranges)
    requires forall j :: i < j < |symbols| && Touched(symbols[j], source, ranges) ==>
               symbols[j].kind != symbols[i].kind || symbols[j].name != symbols[i].name
    ensures var key := SymbolKey(symbols[i].kind, symbols[i].name);
            && key in ExactTable(symbols, source, ranges)
            && ExactTable(symbols, source, ranges)[key] == HunkSymbol(key, symbols[i].qualifiedName, ExactSpan)
    decreases |symbols|
  {
    hide Touched;
    var n := |symbols| - 1;
    if i < n {
      LastTouchedWins(symbols[..n], source, ranges, i);
    }
  }

  predicate Names(suffix: string, key: SymbolKey) {
    SymbolOfSuffix(suffix, KEYWORDS) == Some((key.kind, key.name))
  }

  lemma {:induction false} HeaderKeys(table: Table, suffixes: seq<string>, key: SymbolKey)
    ensures key in WithHeaders(table, suffixes)
       <==> key in table || exists i :: 0 <= i < |suffixes| && Names(suffixes[i], key)
    ensures key in table ==> WithHeaders(table, suffixes)[key] == table[key]
    ensures key in WithHeaders(table, suffixes) && key !in table ==>
              WithHeaders(table, suffixes)[key] == HunkSymbol(key, None, HunkHeader)
    decreases |suffixes|
  {
    hide SymbolOfSuffix, KEYWORDS;
    if suffixes != [] {
      var n := |suffixes| - 1;
      HeaderKeys(table, suffixes[..n], key);
      if i :| 0 <= i < n && Names(suffixes[..n][i], key) {
        assert Names(suffixes[i], key);
      }
      if i :| 0 <= i < |suffixes| && Names(suffixes[i], key) {
        assert i < n ==> Names(suffixes[..n][i], key);
      }
      assert Names(suffixes[n], key) <==> SymbolOfSuffix(suffixes[n], KEYWORDS) == Some((key.kind, key.name));
    }
  }

  // ---------------------------------------------------------------------------------------------
  // Main results

  lemma RangesAreNonempty(lines: seq<string>)
    ensures forall k :: 0 <= k < |RangesOfLines(lines)| ==> RangesOfLines(lines)[k].count > 0
    decreases |lines|
  {
    hide Tokens;
    if lines != [] {
      RangesAreNonempty(lines[..|lines| - 1]);
      RangeIsNonempty(lines[|lines| - 1]);
    }
  }

  lemma RangeIsNonempty(line: string)
    ensures RangeOfLine(line).Some? ==> RangeOfLine(line).value.count > 0
  {
  }

  /** A key is attributed by exact span iff some symbol with that key has a byte on a line of a parsed
      post-image range. */
  lemma ExactSpanIffByteOnRange(inputs: Inputs, out: seq<HunkSymbol>, key: SymbolKey)
    requires IsListing(out, TableOf(inputs)) && inputs.symbols.Some? && inputs.source.Some?
    requires forall s :: s in inputs.symbols.value ==> InBounds(s, inputs.source.value)
    requires NoOverflow(inputs.source.value, RangesOfLines(Lines(inputs.diffText)))
    ensures (exists h :: h in out && h.key == key && h.attribution == ExactSpan)
       <==> exists s :: s in inputs.symbols.value && s.kind == key.kind && s.name == key.name
                        && HasByteIn(s, inputs.source.value, RangesOfLines(Lines(inputs.diffText)))
  {
    assert forall s: Symbol :: KeyOf(s) == key <==> s.kind == key.kind && s.name == key.name;
    hide Lines, RangesOfLines, SuffixesOfLines, ExactTable, WithHeaders, Touched, HasByteIn, InBounds, KeyLeq, KeyOf;
    var symbols, source := inputs.symbols.value, inputs.source.value;
    var lines := Lines(inputs.diffText);
    var ranges := RangesOfLines(lines);
    RangesAreNonempty(lines);
    forall s | s in symbols
      ensures Touched(s, source, ranges) <==> HasByteIn(s, source, ranges)
    {
      TouchedIffByteIn(s, source, ranges);
    }
    var exact := ExactTable(symbols, source, ranges);
    ExactKeys(symbols, source, ranges, key);
    HeaderKeys(exact, SuffixesOfLines(lines), key);
    TablesAreKeyed(inputs);
    assert TableOf(inputs) == WithHeaders(exact, SuffixesOfLines(lines));
    ListedIff(out, TableOf(inputs), key, ExactSpan);
    TouchedSymbol(symbols, source, ranges, key);
  }

  lemma TouchedSymbol(symbols: seq<Symbol>, source: Utf8, ranges: seq<Range>, key: SymbolKey)
    ensures (exists i :: 0 <= i < |symbols| && KeyOf(symbols[i]) == key && Touched(symbols[i], source, ranges))
       <==> exists s :: s in symbols && KeyOf(s) == key && Touched(s, source, ranges)
  {
    hide KeyOf, Touched;
    if s :| s in symbols && KeyOf(s) == key && Touched(s, source, ranges) {
      var i :| 0 <= i < |symbols| && symbols[i] == s;
    }
  }

  lemma ListedIff(out: seq<HunkSymbol>, table: Table, key: SymbolKey, kind: AttributionKind)
    requires IsListing(out, table) && KeyedByKey(table)
    ensures (exists h :: h in out && h.key == key && h.attribution == kind)
       <==> key in table && table[key].attribution == kind
  {
    hide KeyLeq;
    if key in table {
      assert table[key] in out;
    }
  }

  /** The record of a key: by exact span, or else by header, or none. */
  lemma RecordOfKey(inputs: Inputs, key: SymbolKey)
    ensures (exists i :: 0 <= i < |SuffixesOfLines(Lines(inputs.diffText))|
                         && Names(SuffixesOfLines(Lines(inputs.diffText))[i], key)) ==> key in TableOf(inputs)
    ensures key in TableOf(inputs) && TableOf(inputs)[key].attribution == HunkHeader ==>
              exists i :: 0 <= i < |SuffixesOfLines(Lines(inputs.diffText))|
                          && Names(SuffixesOfLines(Lines(inputs.diffText))[i], key)
  {
    hide Lines, RangesOfLines, SuffixesOfLines, ExactTable, WithHeaders, Names;
    var lines := Lines(inputs.diffText);
    var exact: Table := map[];
    if inputs.symbols.Some? && inputs.source.Some? {
      exact := ExactTable(inputs.symbols.value, inputs.source.value, RangesOfLines(lines));
      ExactKeys(inputs.symbols.value, inputs.source.value, RangesOfLines(lines), key);
    }
    assert key in exact ==> exact[key].attribution == ExactSpan;
    HeaderKeys(exact, SuffixesOfLines(lines), key);
    assert TableOf(inputs) == WithHeaders(exact, SuffixesOfLines(lines));
  }

  /** Header names count only for keys without an exact span, and for all of those. */
  lemma HeadersAreTheFallback(inputs: Inputs, out: seq<HunkSymbol>, key: SymbolKey)
    requires IsListing(out, TableOf(inputs))
    ensures (exists h :: h in out && h.key == key && h.attribution == HunkHeader)
       <==> && (exists i :: 0 <= i < |SuffixesOfLines(Lines(inputs.diffText))|
                            && Names(SuffixesOfLines(Lines(inputs.diffText))[i], key))
            && !exists h :: h in out && h.key == key && h.attribution == ExactSpan
  {
    hide TableOf, Lines, SuffixesOfLines, IsListing, KeyedByKey, Names;
    RecordOfKey(inputs, key);
    TablesAreKeyed(inputs);
    ListedIff(out, TableOf(inputs), key, ExactSpan);
    ListedIff(out, TableOf(inputs), key, HunkHeader);
  }

  /** On a printed diff: a key is attributed by header exactly when the trimmed context of some header
      names it and no exact span has it. */
  lemma PrintedContextsAreTheFallback(inputs: Inputs, out: seq<HunkSymbol>, lines: seq<DiffLine>, key: SymbolKey)
    requires IsListing(out, TableOf(inputs)) && inputs.diffText == PrintedAll(lines)
    requires forall i :: 0 <= i < |lines| ==> IsDiffLine(lines[i])
    ensures (exists h :: h in out && h.key == key && h.attribution == HunkHeader)
       <==> && (exists i :: 0 <= i < |Contexts(lines)| && Names(Contexts(lines)[i], key))
            && !exists h :: h in out && h.key == key && h.attribution == ExactSpan
  {
    hide Lines, TableOf, Names, Contexts, PrintedAll, SuffixesOfLines, IsListing, IsDiffLine;
    DiffHeaderLaws.PrintedContextsAreRecovered(lines);
    HeadersAreTheFallback(inputs, out, key);
  }

  /** One record per key, and one possible order. */
  lemma KeysAreUnique(inputs: Inputs, a: seq<HunkSymbol>, b: seq<HunkSymbol>)
    requires IsListing(a, TableOf(inputs)) && IsListing(b, TableOf(inputs))
    ensures forall i, j :: 0 <= i < j < |a| ==> a[i].key != a[j].key
    ensures a == b
  {
    hide TableOf, KeyLeq;
    forall i, j | 0 <= i < j < |a|
      ensures a[i].key != a[j].key
    {
      assert a[i] in a && a[j] in a;
    }
    var less := (x, y) => KeyLeq(x, y) && x != y;
    forall x, y | x in a && y in a && less(x, y)
      ensures !less(y, x)
    {
      KeyOrderConnected(x, y);
    }
    StrictOrderUnique(a, b, less);
  }

  lemma KeyOrderConnected(a: HunkSymbol, b: HunkSymbol)
    ensures KeyLeq(a, b) && KeyLeq(b, a) ==> a.key == b.key
  {
    LexConnected(a.key.name, b.key.name);
  }

  /** The order: functions, then methods, then classes, then constants, each kind by name in dictionary
      order. */
  lemma RecordsComeByKindThenName(inputs: Inputs, out: seq<HunkSymbol>, i: nat, j: nat)
    requires IsListing(out, TableOf(inputs)) && i < j < |out|
    ensures var a, b := out[i].key, out[j].key;
            || (a.kind == b.kind && (a.name <= b.name
                  || exists n :: 0 <= n < |a.name| && n < |b.name| && a.name[..n] == b.name[..n] && a.name[n] < b.name[n]))
            || (a.kind == Function && b.kind != Function)
            || (a.kind == Method && b.kind in {Class, Const})
            || (a.kind == Class && b.kind == Const)
  {
    hide TableOf, LexLeq;
    assert KeyLeq(out[i], out[j]);
    LexIsDictionaryOrder(out[i].key.name, out[j].key.name);
  }
}
