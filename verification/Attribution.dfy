/** Which symbols a diff hunk touched. */
module Attribution {
  import opened Wrappers
  import opened Common
  import opened Sorting
  import opened Symbols
  import opened DiffHeaders

  datatype AttributionKind = ExactSpan | HunkHeader

  datatype SymbolKey = SymbolKey(kind: Kind, name: string)

  datatype HunkSymbol = HunkSymbol(key: SymbolKey, qualifiedName: Option<string>, attribution: AttributionKind)

  type Table = map<SymbolKey, HunkSymbol>

  datatype Inputs = Inputs(diffText: string, symbols: Option<seq<Symbol>>, source: Option<Utf8>)

  // ---------------------------------------------------------------------------------------------
  // Lines of a span

  const NEWLINE: bv8 := 10

  function Newlines(bytes: Utf8, pos: nat): (n: nat)
    requires pos <= |bytes|
    ensures n <= pos
  {
    if pos == 0 then 0 else Newlines(bytes, pos - 1) + if bytes[pos - 1] == NEWLINE then 1 else 0
  }

  /** 1-based line number, capped at the largest `u32`. */
  function LineAt(bytes: Utf8, pos: nat): nat
    requires pos <= |bytes|
  {
    Min(Newlines(bytes, pos) + 1, U32_MAX)
  }

  /** First and last line of a byte span, which is clamped to the source. */
  function ByteSpanToLineSpan(spanStart: nat, spanEnd: nat, source: Utf8): (nat, nat) {
    var start, end := Min(spanStart, |source|), Min(spanEnd, |source|);
    var lineStart := LineAt(source, start);
    var lineEnd := if end == 0 then lineStart else LineAt(source, end - 1);
    (lineStart, Max(lineEnd, lineStart))
  }

  // ---------------------------------------------------------------------------------------------
  // The two passes

  /** Last line of a range, with saturating `u32` arithmetic. */
  function RangeEnd(r: Range): nat {
    var sum := Min(r.start + r.count, U32_MAX);
    if sum == 0 then 0 else sum - 1
  }

  predicate Intersects(lines: (nat, nat), r: Range) {
    lines.0 <= RangeEnd(r) && r.start <= lines.1
  }

  predicate Touched(s: Symbol, source: Utf8, ranges: seq<Range>) {
    exists i :: 0 <= i < |ranges| && Intersects(ByteSpanToLineSpan(s.spanStart, s.spanEnd, source), ranges[i])
  }

  function KeyOf(s: Symbol): SymbolKey {
    SymbolKey(s.kind, s.name)
  }

  /** Every touched symbol, later ones replacing earlier ones of the same key. */
  function ExactTable(symbols: seq<Symbol>, source: Utf8, ranges: seq<Range>): Table {
    if symbols == [] then map[]
    else
      var n := |symbols| - 1;
      var before := ExactTable(symbols[..n], source, ranges);
      if Touched(symbols[n], source, ranges)
      then before[KeyOf(symbols[n]) := HunkSymbol(KeyOf(symbols[n]), symbols[n].qualifiedName, ExactSpan)]
      else before
  }

  /** The symbols named by header suffixes, where no entry has their key yet. */
  function WithHeaders(table: Table, suffixes: seq<string>): Table {
    if suffixes == [] then table
    else
      var n := |suffixes| - 1;
      var before := WithHeaders(table, suffixes[..n]);
      match SymbolOfSuffix(suffixes[n], KEYWORDS)
      case None => before
      case Some(named) =>
        var key := SymbolKey(named.0, named.1);
        if key in before then before else before[key := HunkSymbol(key, None, HunkHeader)]
  }

  function TableOf(inputs: Inputs): Table {
    var lines := Lines(inputs.diffText);
    var exact := if inputs.symbols.Some? && inputs.source.Some?
                 then ExactTable(inputs.symbols.value, inputs.source.value, RangesOfLines(lines)) else map[];
    WithHeaders(exact, SuffixesOfLines(lines))
  }

  function Rank(kind: Kind): nat {
    match kind case Function => 0 case Method => 1 case Class => 2 case Const => 3
  }

  predicate KeyLeq(a: HunkSymbol, b: HunkSymbol) {
    Rank(a.key.kind) < Rank(b.key.kind)
    || (Rank(a.key.kind) == Rank(b.key.kind) && LexLeq(a.key.name, b.key.name))
  }

  /** The table's values in key order. */
  ghost predicate IsListing(out: seq<HunkSymbol>, table: Table) {
    && (forall h :: h in out <==> h.key in table && table[h.key] == h)
    && NoDuplicates(out) && Sorted(out, KeyLeq)
  }

  ghost predicate KeyedByKey(table: Table) {
    forall key :: key in table ==> table[key].key == key
  }

  method AttributeHunk(inputs: Inputs) returns (out: seq<HunkSymbol>)
    ensures IsListing(out, TableOf(inputs))
  {
    var table: Table := map[];
    var ranges := ParsePostImageRanges(inputs.diffText);
    if inputs.symbols.Some? && inputs.source.Some? {
      table := ExactPass(inputs.symbols.value, inputs.source.value, ranges);
    }
    ghost var exact := table;
    var suffixes := ParseHunkHeaderSuffixes(inputs.diffText);
    TablesAreKeyed(inputs);
    hide *;
    HeadersStart(exact, suffixes);
    for i := 0 to |suffixes|
      invariant table == WithHeaders(exact, suffixes[..i])
    {
      var named := SymbolOfSuffix(suffixes[i], KEYWORDS);
      HeadersStep(exact, suffixes, i);
      if named.Some? {
        var key := SymbolKey(named.value.0, named.value.1);
        if key !in table {
          table := table[key := HunkSymbol(key, None, HunkHeader)];
        }
      }
    }
    assert suffixes[..|suffixes|] == suffixes;
    assert table == WithHeaders(exact, suffixes);
    assert table == TableOf(inputs) by {
      TableIs(inputs, exact);
    }
    out := IntoValues(table);
  }

  /** The first pass: every symbol against every range. */
  method ExactPass(symbols: seq<Symbol>, source: Utf8, ranges: seq<Range>) returns (table: Table)
    ensures table == ExactTable(symbols, source, ranges)
  {
    table := map[];
    for i := 0 to |symbols|
      invariant table == ExactTable(symbols[..i], source, ranges)
    {
      var s := symbols[i];
      var span := ByteSpanToLineSpan(s.spanStart, s.spanEnd, source);
      hide ByteSpanToLineSpan, RangeEnd;
      assert symbols[..i + 1][..i] == symbols[..i];
      ghost var before := table;
      for j := 0 to |ranges|
        invariant table == before && forall k :: 0 <= k < j ==> !Intersects(span, ranges[k])
      {
        if Intersects(span, ranges[j]) {
          table := table[KeyOf(s) := HunkSymbol(KeyOf(s), s.qualifiedName, ExactSpan)];
          break;
        }
      }
    }
    assert symbols[..|symbols|] == symbols;
  }

  method IntoValues(table: Table) returns (out: seq<HunkSymbol>)
    requires KeyedByKey(table)
    ensures IsListing(out, table)
  {
    out := [];
    var left := table.Keys;
    while left != {}
      invariant left <= table.Keys
      invariant forall h :: h in out <==> h.key in table && h.key !in left && table[h.key] == h
      invariant NoDuplicates(out)
      decreases |left|
    {
      var key :| key in left;
      left := left - {key};
      out := out + [table[key]];
    }
    KeyOrderIsTotal();
    SortSorted(out, KeyLeq);
    SortSameElements(out, KeyLeq);
    hide Sort;
    out := Sort(out, KeyLeq);
  }

  lemma KeyOrderIsTotal()
    ensures TotalPreorder(KeyLeq)
  {
    hide LexLeq, Rank;
    LexIsTotal();
  }

  lemma HeadersStart(table: Table, suffixes: seq<string>)
    ensures WithHeaders(table, suffixes[..0]) == table
  {
  }

  lemma HeadersStep(table: Table, suffixes: seq<string>, i: nat)
    requires i < |suffixes|
    ensures var before := WithHeaders(table, suffixes[..i]);
            var named := SymbolOfSuffix(suffixes[i], KEYWORDS);
            WithHeaders(table, suffixes[..i + 1])
            == (if named.None? then before
                else
                  var key := SymbolKey(named.value.0, named.value.1);
                  if key in before then before else before[key := HunkSymbol(key, None, HunkHeader)])
  {
    hide SymbolOfSuffix, KEYWORDS;
    assert suffixes[..i + 1][..i] == suffixes[..i];
  }

  lemma TableIs(inputs: Inputs, exact: Table)
    requires exact == if inputs.symbols.Some? && inputs.source.Some?
                      then ExactTable(inputs.symbols.value, inputs.source.value, RangesOfLines(Lines(inputs.diffText)))
                      else map[]
    ensures TableOf(inputs) == WithHeaders(exact, SuffixesOfLines(Lines(inputs.diffText)))
  {
    hide ExactTable, WithHeaders;
  }

  lemma {:induction false} ExactIsKeyed(symbols: seq<Symbol>, source: Utf8, ranges: seq<Range>)
    ensures KeyedByKey(ExactTable(symbols, source, ranges))
    decreases |symbols|
  {
    hide Touched;
    if symbols != [] {
      ExactIsKeyed(symbols[..|symbols| - 1], source, ranges);
    }
  }

  lemma {:induction false} HeadersAreKeyed(table: Table, suffixes: seq<string>)
    requires KeyedByKey(table)
    ensures KeyedByKey(WithHeaders(table, suffixes))
    decreases |suffixes|
  {
    hide SymbolOfSuffix, KEYWORDS;
    if suffixes != [] {
      HeadersAreKeyed(table, suffixes[..|suffixes| - 1]);
    }
  }

  lemma TablesAreKeyed(inputs: Inputs)
    ensures KeyedByKey(TableOf(inputs))
  {
    hide ExactTable, WithHeaders, Lines, RangesOfLines, SuffixesOfLines;
    var lines := Lines(inputs.diffText);
    if inputs.symbols.Some? && inputs.source.Some? {
      var exact := ExactTable(inputs.symbols.value, inputs.source.value, RangesOfLines(lines));
      ExactIsKeyed(inputs.symbols.value, inputs.source.value, RangesOfLines(lines));
      HeadersAreKeyed(exact, SuffixesOfLines(lines));
    } else {
      HeadersAreKeyed(map[], SuffixesOfLines(lines));
    }
  }
}
