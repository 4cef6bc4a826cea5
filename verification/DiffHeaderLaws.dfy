/** Parsing the `@@` headers of a printed diff recovers its post-image ranges. */
module DiffHeaderLaws {
  import opened Wrappers
  import opened Text
  import opened DiffHeaders
  import Symbols

  // ---------------------------------------------------------------------------------------------
  // Decimals

  lemma {:induction false} DecimalValue(n: nat)
    ensures Decimal(n) != "" && AllDigits(Decimal(n)) && Value(Decimal(n)) == n
  {
    if n < 10 {
      var s := Decimal(n);
      assert s[..|s| - 1] == "";
      assert Value(s) == 10 * Value("") + n;
    } else {
      DecimalValue(n / 10);
      var before := Decimal(n / 10);
      var s := Decimal(n);
      assert s[..|s| - 1] == before;
      assert s == before + [DigitOf(n % 10)];
      assert Value(s) == 10 * Value(before) + n % 10;
    }
  }

  lemma ParseDecimal(n: nat)
    requires n <= U32_MAX
    ensures ParseU32(Decimal(n)) == Some(n)
  {
    hide Decimal, Value;
    DecimalValue(n);
    assert IsDigit(Decimal(n)[0]);
  }

  // ---------------------------------------------------------------------------------------------
  // Range tokens

  /** A nonempty string without whitespace. */
  ghost predicate IsWord(s: string) {
    s != "" && forall i :: 0 <= i < |s| ==> !IsWhitespace(s[i])
  }

  lemma RangeTextIsWord(start: nat, count: nat, short: bool)
    ensures IsWord(RangeText(start, count, short))
  {
    hide Decimal, Value;
    DecimalValue(start);
    DecimalValue(count);
    DigitsArePlain(Decimal(start));
    DigitsArePlain(Decimal(count));
    assert !IsWhitespace(',');
  }

  lemma DigitsArePlain(s: string)
    requires AllDigits(s)
    ensures forall i :: 0 <= i < |s| ==> !IsWhitespace(s[i]) && s[i] != ','
  {
  }

  lemma NoComma(s: string)
    requires forall i :: 0 <= i < |s| ==> s[i] != ','
    ensures Find(s, ",") == None
  {
    forall j
      ensures !OccursAt(s, ",", j)
    {
      assert 0 <= j && j + 1 <= |s| ==> s[j..j + 1][0] == s[j];
    }
    FindNothing(s, ",");
  }

  lemma CommaAt(a: string, b: string)
    requires forall i :: 0 <= i < |a| ==> a[i] != ','
    ensures Find(a + "," + b, ",") == Some(|a|)
  {
    var s := a + "," + b;
    assert s[|a|..|a| + 1] == ",";
    forall j | 0 <= j < |a|
      ensures !OccursAt(s, ",", j)
    {
      assert s[j..j + 1][0] == a[j];
    }
    FindIs(s, ",", |a|);
  }

  /** A printed range reads back, unless it is one the source skips. */
  lemma RangeTokenReads(start: nat, count: nat, short: bool)
    requires start <= U32_MAX && count <= U32_MAX
    ensures RangeOfToken("+" + RangeText(start, count, short))
         == if start == 0 || count == 0 then None else Some(Range(start, count))
  {
    hide Decimal, Value, Find, ParseU32;
    DecimalValue(start);
    DigitsArePlain(Decimal(start));
    ParseDecimal(start);
    ParseDecimal(count);
    var text := RangeText(start, count, short);
    assert ("+" + text)[1..] == text;
    if short && count == 1 {
      NoComma(text);
    } else {
      CommaAt(Decimal(start), Decimal(count));
      assert text[..|Decimal(start)|] == Decimal(start);
      assert text[|Decimal(start)| + 1..] == Decimal(count);
    }
  }

  // ---------------------------------------------------------------------------------------------
  // Header lines

  lemma {:induction false} WordLengthIs(w: string, rest: string)
    requires (forall i :: 0 <= i < |w| ==> !IsWhitespace(w[i])) && rest != "" && IsWhitespace(rest[0])
    ensures WordLength(w + rest) == |w|
  {
    if w == "" {
      assert w + rest == rest;
    } else {
      WordLengthIs(w[1..], rest);
      assert (w + rest)[1..] == w[1..] + rest;
    }
  }

  lemma TokensWord(w: string, rest: string)
    requires IsWord(w)
    ensures Tokens(w + " " + rest) == [w] + Tokens(rest)
  {
    var s := w + " " + rest;
    hide IsWhitespace;
    SpaceIsWhitespace();
    assert s == w + (" " + rest);
    WordLengthIs(w, " " + rest);
    assert SkipSpace(s) == s;
    assert s[..|w|] == w && s[|w|..] == " " + rest;
    assert (" " + rest)[1..] == rest;
    assert SkipSpace(" " + rest) == SkipSpace(rest);
  }

  lemma SpaceIsWhitespace()
    ensures IsWhitespace(' ')
  {
  }

  /** The core of a header line, up to and including its second `@@`. */
  function Core(pre: string, post: string): string {
    "@@ -" + pre + " +" + post + " @@"
  }

  lemma HeaderTokens(pre: string, post: string, rest: string)
    requires IsWord(pre) && IsWord(post)
    ensures |Tokens(Core(pre, post) + rest)| >= 3 && Tokens(Core(pre, post) + rest)[2] == "+" + post
    ensures "@@" <= Core(pre, post) + rest
  {
    hide Tokens, IsWhitespace;
    MarksAreWords(pre, post);
    var third := "@@" + rest;
    var second := "+" + post + " " + third;
    var first := "-" + pre + " " + second;
    assert Core(pre, post) + rest == "@@" + " " + first;
    TokensWord("@@", first);
    TokensWord("-" + pre, second);
    TokensWord("+" + post, third);
  }

  lemma MarksAreWords(pre: string, post: string)
    requires IsWord(pre) && IsWord(post)
    ensures IsWord("@@") && IsWord("-" + pre) && IsWord("+" + post)
  {
    assert !IsWhitespace('@') && !IsWhitespace('-') && !IsWhitespace('+');
  }

  /** Whatever context follows a printed header, its line gives the printed range. */
  lemma HeaderReads(line: DiffLine, context: string)
    requires line.Header? && IsDiffLine(line)
    ensures RangeOfLine(Printed(line.(context := context)))
         == if line.post.start == 0 || line.post.count == 0 then None else Some(line.post)
  {
    hide Tokens, RangeOfToken, IsWord, RangeText;
    var pre := RangeText(line.pre.start, line.pre.count, line.shortPre);
    var post := RangeText(line.post.start, line.post.count, line.shortPost);
    RangeTextIsWord(line.pre.start, line.pre.count, line.shortPre);
    RangeTextIsWord(line.post.start, line.post.count, line.shortPost);
    HeaderTokens(pre, post, context);
    RangeTokenReads(line.post.start, line.post.count, line.shortPost);
  }

  // ---------------------------------------------------------------------------------------------
  // Whole diffs

  lemma LinesStep(line: string, rest: string)
    requires '\n' !in line
    ensures Lines(line + "\n" + rest) == [StripCr(line)] + Lines(rest)
  {
    var s := line + "\n" + rest;
    assert s[|line|..|line| + 1] == "\n";
    forall j | 0 <= j < |line|
      ensures !OccursAt(s, "\n", j)
    {
      assert s[j..j + 1][0] == line[j];
    }
    FindIs(s, "\n", |line|);
    assert s[..|line|] == line && s[|line| + 1..] == rest;
  }

  lemma WordsHaveNoNewline(s: string)
    requires IsWord(s)
    ensures '\n' !in s
  {
    assert IsWhitespace('\n');
  }

  lemma PrintedIsOneLine(line: DiffLine)
    requires IsDiffLine(line)
    ensures '\n' !in Printed(line)
  {
    hide IsWord, RangeText;
    if line.Header? {
      RangeTextIsWord(line.pre.start, line.pre.count, line.shortPre);
      RangeTextIsWord(line.post.start, line.post.count, line.shortPost);
      WordsHaveNoNewline(RangeText(line.pre.start, line.pre.count, line.shortPre));
      WordsHaveNoNewline(RangeText(line.post.start, line.post.count, line.shortPost));
    }
  }

  /** Stripping a carriage return changes at most the context. */
  lemma StripPrinted(line: DiffLine)
    requires line.Header?
    ensures StripCr(Printed(line)) == Printed(line.(context := StripCr(line.context)))
  {
    hide RangeText;
    var core := Core(RangeText(line.pre.start, line.pre.count, line.shortPre),
                     RangeText(line.post.start, line.post.count, line.shortPost));
    assert Printed(line) == core + line.context;
    assert Printed(line.(context := StripCr(line.context))) == core + StripCr(line.context);
    assert core[|core| - 1] == '@';
    hide Core;
    StripAfter(core, line.context);
  }

  lemma StripAfter(core: string, context: string)
    requires core != "" && core[|core| - 1] != '\r'
    ensures StripCr(core + context) == core + StripCr(context)
  {
    var n := |context|;
    if n > 0 {
      assert (core + context)[..|core| + n - 1] == core + context[..n - 1];
    } else {
      assert core + context == core;
    }
  }

  lemma LineReads(line: DiffLine)
    requires IsDiffLine(line)
    ensures RangeOfLine(StripCr(Printed(line)))
         == if line.Header? && line.post.start > 0 && line.post.count > 0 then Some(line.post) else None
  {
    hide Tokens, RangeOfToken, RangeText;
    if line.Header? {
      StripPrinted(line);
      HeaderReads(line, StripCr(line.context));
    }
  }

  lemma {:induction false} RangesOfCons(line: string, rest: seq<string>)
    ensures RangesOfLines([line] + rest)
         == (match RangeOfLine(line) case Some(r) => [r] case None => []) + RangesOfLines(rest)
    decreases |rest|
  {
    hide RangeOfLine;
    var all := [line] + rest;
    if rest == [] {
      assert all[..0] == [];
    } else {
      var n := |rest| - 1;
      RangesOfCons(line, rest[..n]);
      assert all[..n + 1] == [line] + rest[..n];
    }
  }

  /** For every diff whose headers are printed as unified diffs print them and whose other lines do not
      look like headers, parsing recovers the nonempty post-image ranges in order. */
  lemma {:induction false} PrintedRangesAreRecovered(lines: seq<DiffLine>)
    requires forall i :: 0 <= i < |lines| ==> IsDiffLine(lines[i])
    ensures RangesOfLines(Lines(PrintedAll(lines))) == Ranges(lines)
  {
    hide RangeOfLine, StripCr, Printed, IsDiffLine;
    if lines == [] {
      assert Lines("") == [];
    } else {
      PrintedRangesAreRecovered(lines[1..]);
      PrintedIsOneLine(lines[0]);
      LinesStep(Printed(lines[0]), PrintedAll(lines[1..]));
      LineReads(lines[0]);
      RangesOfCons(StripCr(Printed(lines[0])), Lines(PrintedAll(lines[1..])));
    }
  }

  // ---------------------------------------------------------------------------------------------
  // Contexts

  lemma {:induction false} SkipSpaceSnoc(s: string, c: char)
    requires IsWhitespace(c)
    ensures SkipSpace(s + [c]) == if SkipSpace(s) == "" then "" else SkipSpace(s) + [c]
  {
    hide IsWhitespace;
    if s == "" {
      assert s + [c] == [c] && [c][1..] == "";
    } else {
      assert (s + [c])[1..] == s[1..] + [c];
      SkipSpaceSnoc(s[1..], c);
    }
  }

  lemma TrimStripsCr(s: string)
    ensures Trim(StripCr(s)) == Trim(s)
  {
    if StripCr(s) != s {
      var t := StripCr(s);
      assert s == t + ['\r'];
      SkipSpaceSnoc(t, '\r');
      var u := SkipSpace(t);
      assert (u + ['\r'])[..|u|] == u;
    }
  }

  lemma RangeTextLacksAt(start: nat, count: nat, short: bool)
    ensures Lacks(RangeText(start, count, short), '@')
  {
    hide Decimal, Value;
    DecimalValue(start);
    DecimalValue(count);
    assert AllDigits(Decimal(start)) && AllDigits(Decimal(count));
  }

  /** The text between the two marks of a header. */
  function Between(pre: string, post: string): string {
    " -" + pre + " +" + post + " "
  }

  lemma SecondMarkAt(pre: string, post: string, context: string)
    requires Lacks(pre, '@') && Lacks(post, '@')
    ensures "@@" <= Core(pre, post) + context
    ensures Find((Core(pre, post) + context)[2..], "@@") == Some(|Between(pre, post)|)
    ensures (Core(pre, post) + context)[|Between(pre, post)| + 4..] == context
  {
    var inner := Between(pre, post);
    var line := Core(pre, post) + context;
    assert line == "@@" + inner + "@@" + context;
    var s := inner + "@@" + context;
    assert line[2..] == s;
    assert Lacks(inner, '@');
    hide OccursAt, Between, Core;
    assert s[|inner|..|inner| + 2] == "@@";
    OccursHere(s, "@@", |inner|);
    forall j | 0 <= j < |inner|
      ensures !OccursAt(s, "@@", j)
    {
      assert s[j] == inner[j];
      Mismatch(s, "@@", j, 0);
    }
    FindIs(s, "@@", |inner|);
  }

  lemma ContextReads(line: DiffLine)
    requires IsDiffLine(line)
    ensures SuffixOfLine(StripCr(Printed(line)))
         == if line.Header? && Trim(line.context) != "" then Some(Trim(line.context)) else None
  {
    hide RangeText, Trim, Find;
    if line.Header? {
      var pre := RangeText(line.pre.start, line.pre.count, line.shortPre);
      var post := RangeText(line.post.start, line.post.count, line.shortPost);
      RangeTextLacksAt(line.pre.start, line.pre.count, line.shortPre);
      RangeTextLacksAt(line.post.start, line.post.count, line.shortPost);
      StripPrinted(line);
      var context := StripCr(line.context);
      assert Printed(line.(context := context)) == Core(pre, post) + context;
      SecondMarkAt(pre, post, context);
      TrimStripsCr(line.context);
    }
  }

  lemma {:induction false} SuffixesOfCons(line: string, rest: seq<string>)
    ensures SuffixesOfLines([line] + rest)
         == (match SuffixOfLine(line) case Some(s) => [s] case None => []) + SuffixesOfLines(rest)
    decreases |rest|
  {
    hide SuffixOfLine;
    var all := [line] + rest;
    if rest == [] {
      assert all[..0] == [];
    } else {
      var n := |rest| - 1;
      SuffixesOfCons(line, rest[..n]);
      assert all[..n + 1] == [line] + rest[..n];
    }
  }

  /** And it recovers the nonempty trimmed contexts of the headers, in order. */
  lemma {:induction false} PrintedContextsAreRecovered(lines: seq<DiffLine>)
    requires forall i :: 0 <= i < |lines| ==> IsDiffLine(lines[i])
    ensures SuffixesOfLines(Lines(PrintedAll(lines))) == Contexts(lines)
  {
    hide SuffixOfLine, StripCr, Printed, IsDiffLine, Trim;
    if lines == [] {
      assert Lines("") == [];
    } else {
      PrintedContextsAreRecovered(lines[1..]);
      PrintedIsOneLine(lines[0]);
      LinesStep(Printed(lines[0]), PrintedAll(lines[1..]));
      ContextReads(lines[0]);
      SuffixesOfCons(StripCr(Printed(lines[0])), Lines(PrintedAll(lines[1..])));
    }
  }

  // ---------------------------------------------------------------------------------------------
  // Names in a context

  /** The pattern occurs, and does not continue an identifier. */
  predicate StandsAt(suffix: string, needle: string, at: int) {
    OccursAt(suffix, needle, at) && (at == 0 || !IsIdentifierChar(suffix[at - 1]))
  }

  ghost predicate FirstStandsAt(suffix: string, needle: string, at: int) {
    StandsAt(suffix, needle, at) && forall j :: 0 <= j < at ==> !StandsAt(suffix, needle, j)
  }

  /** The identifier a text begins with. */
  ghost predicate IsNameOf(s: string, name: string) {
    && name != "" && name <= s && (forall i :: 0 <= i < |name| ==> IsIdentifierChar(name[i]))
    && (|name| < |s| ==> !IsIdentifierChar(s[|name|]))
  }

  /** The first place where the keyword stands as a word is followed by the name. */
  ghost predicate NamedBy(suffix: string, keyword: string, name: string) {
    exists at: nat :: NameAt(suffix, keyword, name, at)
  }

  ghost predicate NameAt(suffix: string, keyword: string, name: string, at: nat) {
    && FirstStandsAt(suffix, keyword + " ", at)
    && at + |keyword| + 1 <= |suffix|
    && IsNameOf(suffix[at + |keyword| + 1..], name)
  }

  lemma {:induction false} AfterKeywordIs(suffix: string, needle: string, i: nat)
    requires i <= |suffix| && forall j :: 0 <= j < i ==> !StandsAt(suffix, needle, j)
    ensures match AfterKeyword(suffix, needle, i)
            case Some(end) => end >= |needle| && FirstStandsAt(suffix, needle, end - |needle|)
            case None => forall j :: 0 <= j ==> !StandsAt(suffix, needle, j)
    decreases |suffix| - i
  {
    hide OccursAt, IsIdentifierChar;
    if !StandsAt(suffix, needle, i) {
      if i == |suffix| {
        BeyondTheEnd(suffix, needle);
      } else {
        AfterKeywordIs(suffix, needle, i + 1);
      }
    }
  }

  lemma BeyondTheEnd(suffix: string, needle: string)
    ensures forall j :: j > |suffix| ==> !OccursAt(suffix, needle, j)
  {
  }

  lemma {:induction false} IdentifierLengthIs(s: string)
    ensures var n := IdentifierLength(s);
            && (forall i :: 0 <= i < n ==> IsIdentifierChar(s[i]))
            && (n < |s| ==> !IsIdentifierChar(s[n]))
  {
    hide IsIdentifierChar;
    if s != "" && IsIdentifierChar(s[0]) {
      IdentifierLengthIs(s[1..]);
      assert forall i :: 0 < i < |s| ==> s[i] == s[1..][i - 1];
    }
  }

  lemma NameOfIs(s: string, name: string)
    ensures IsNameOf(s, name) <==> IdentifierLength(s) > 0 && name == s[..IdentifierLength(s)]
  {
    hide IdentifierLength, IsIdentifierChar;
    IdentifierLengthIs(s);
    var n := IdentifierLength(s);
    if IsNameOf(s, name) {
      assert forall i :: 0 <= i < |name| ==> IsIdentifierChar(s[i]) by {
        assert forall i :: 0 <= i < |name| ==> name[i] == s[i];
      }
      assert |name| == n;
      assert name == s[..|name|];
    }
  }

  /** What one keyword of the list contributes. */
  lemma NamedByIs(suffix: string, keyword: string, name: string)
    ensures var at := AfterKeyword(suffix, keyword + " ", 0);
            NamedBy(suffix, keyword, name) <==>
            at.Some? && IdentifierLength(suffix[at.value..]) > 0
            && name == suffix[at.value..][..IdentifierLength(suffix[at.value..])]
  {
    hide AfterKeyword, IdentifierLength, IsNameOf, StandsAt;
    var needle := keyword + " ";
    AfterKeywordIs(suffix, needle, 0);
    var after := AfterKeyword(suffix, needle, 0);
    if after.Some? {
      var at: nat := after.value - |needle|;
      NameOfIs(suffix[after.value..], name);
      if NamedBy(suffix, keyword, name) {
        var other: nat :| NameAt(suffix, keyword, name, other);
        assert other == at;
      }
      if IsNameOf(suffix[after.value..], name) {
        assert NameAt(suffix, keyword, name, at);
      }
    }
  }

  /** The `m`th keyword is the first one of the list that names anything. */
  ghost predicate FirstNaming(suffix: string, keywords: seq<(string, Symbols.Kind)>, m: int, kind: Symbols.Kind,
                              name: string) {
    && 0 <= m < |keywords| && keywords[m].1 == kind && NamedBy(suffix, keywords[m].0, name)
    && forall l, other :: 0 <= l < m ==> !NamedBy(suffix, keywords[l].0, other)
  }

  lemma FirstNamingCons(suffix: string, keywords: seq<(string, Symbols.Kind)>, m: int, kind: Symbols.Kind, name: string)
    requires keywords != [] && forall other :: !NamedBy(suffix, keywords[0].0, other)
    ensures FirstNaming(suffix, keywords, m, kind, name) <==> FirstNaming(suffix, keywords[1..], m - 1, kind, name)
  {
    hide NamedBy;
    assert forall l :: 0 < l < |keywords| ==> keywords[l] == keywords[1..][l - 1];
    if FirstNaming(suffix, keywords[1..], m - 1, kind, name) {
      forall l, other | 0 <= l < m
        ensures !NamedBy(suffix, keywords[l].0, other)
      {
        assert l > 0 ==> keywords[l] == keywords[1..][l - 1];
      }
    }
    if FirstNaming(suffix, keywords, m, kind, name) {
      forall l, other | 0 <= l < m - 1
        ensures !NamedBy(suffix, keywords[1..][l].0, other)
      {
        assert !NamedBy(suffix, keywords[l + 1].0, other);
      }
    }
  }

  /** A context names a symbol exactly by the first keyword of the list whose first occurrence as a word
      is followed by an identifier, and the name is that whole identifier. */
  lemma {:induction false} SymbolIsFirstNamed(suffix: string, keywords: seq<(string, Symbols.Kind)>, kind: Symbols.Kind,
                                              name: string)
    ensures SymbolOfSuffix(suffix, keywords) == Some((kind, name))
       <==> exists m :: FirstNaming(suffix, keywords, m, kind, name)
  {
    hide AfterKeyword, IdentifierLength, NamedBy, FirstNaming;
    if keywords == [] {
      NothingNamed(suffix, kind, name);
    } else {
      HeadNames(suffix, keywords, kind, name);
      if forall other :: !NamedBy(suffix, keywords[0].0, other) {
        SymbolIsFirstNamed(suffix, keywords[1..], kind, name);
        if m :| FirstNaming(suffix, keywords, m, kind, name) {
          FirstNamingCons(suffix, keywords, m, kind, name);
        }
        if m :| FirstNaming(suffix, keywords[1..], m, kind, name) {
          FirstNamingCons(suffix, keywords, m + 1, kind, name);
        }
      }
    }
  }

  lemma NothingNamed(suffix: string, kind: Symbols.Kind, name: string)
    ensures forall m :: !FirstNaming(suffix, [], m, kind, name)
  {
  }

  /** If the first keyword names anything, that is the symbol; otherwise the rest of the list decides. */
  lemma HeadNames(suffix: string, keywords: seq<(string, Symbols.Kind)>, kind: Symbols.Kind, name: string)
    requires keywords != []
    ensures (forall other :: !NamedBy(suffix, keywords[0].0, other)) ==>
              SymbolOfSuffix(suffix, keywords) == SymbolOfSuffix(suffix, keywords[1..])
    ensures (exists other :: NamedBy(suffix, keywords[0].0, other)) ==>
              (SymbolOfSuffix(suffix, keywords) == Some((kind, name))
               <==> exists m :: FirstNaming(suffix, keywords, m, kind, name))
  {
    hide AfterKeyword, IdentifierLength, NamedBy;
    var (keyword, k) := keywords[0];
    NamedByIs(suffix, keyword, name);
    var at := AfterKeyword(suffix, keyword + " ", 0);
    if at.Some? && IdentifierLength(suffix[at.value..]) > 0 {
      NamedByIs(suffix, keyword, suffix[at.value..][..IdentifierLength(suffix[at.value..])]);
    }
    if other :| NamedBy(suffix, keyword, other) {
      NamedByIs(suffix, keyword, other);
      assert FirstNaming(suffix, keywords, 0, k, other);
      assert forall m :: FirstNaming(suffix, keywords, m, kind, name) ==> m == 0;
    }
  }

  lemma KeywordsStartWithFn()
    ensures KEYWORDS != [] && KEYWORDS[0] == ("fn", Symbols.Function)
  {
  }

  /** So a context whose first `fn` as a word is followed by an identifier names that function, whatever
      other keywords it holds. */
  lemma SignatureNamesFunction(suffix: string, name: string)
    requires NamedBy(suffix, "fn", name)
    ensures SymbolOfSuffix(suffix, KEYWORDS) == Some((Symbols.Function, name))
  {
    hide SymbolOfSuffix, NamedBy, KEYWORDS;
    KeywordsStartWithFn();
    assert FirstNaming(suffix, KEYWORDS, 0, Symbols.Function, name);
    SymbolIsFirstNamed(suffix, KEYWORDS, Symbols.Function, name);
  }
}
