/** What hunk attribution reads off the `@@` lines of a diff. */
module DiffHeaders {
  import opened Wrappers
  import opened Text
  import opened Symbols

  const U32_MAX: nat := 0xFFFF_FFFF

  // ---------------------------------------------------------------------------------------------
  // Lines and tokens

  function StripCr(s: string): string {
    if s != "" && s[|s| - 1] == '\r' then s[..|s| - 1] else s
  }

  /** `str::lines`. */
  function Lines(s: string): seq<string>
    decreases |s|
  {
    if s == "" then []
    else
      match Find(s, "\n")
      case None => [s]
      case Some(i) => [StripCr(s[..i])] + Lines(s[i + 1..])
  }

  function SkipSpace(s: string): (r: string)
    ensures |r| <= |s| && (r != "" ==> !IsWhitespace(r[0]))
  {
    if s == "" || !IsWhitespace(s[0]) then s else SkipSpace(s[1..])
  }

  function WordLength(s: string): (n: nat)
    ensures n <= |s| && (s != "" && !IsWhitespace(s[0]) ==> n > 0)
  {
    if s == "" || IsWhitespace(s[0]) then 0 else 1 + WordLength(s[1..])
  }

  /** `str::split_whitespace`. */
  function Tokens(s: string): seq<string>
    decreases |s|
  {
    var t := SkipSpace(s);
    if t == "" then [] else [t[..WordLength(t)]] + Tokens(t[WordLength(t)..])
  }

  // ---------------------------------------------------------------------------------------------
  // Numbers

  predicate IsDigit(c: char) {
    '0' <= c <= '9'
  }

  predicate AllDigits(s: string) {
    forall i :: 0 <= i < |s| ==> IsDigit(s[i])
  }

  function Value(s: string): nat
    requires AllDigits(s)
  {
    if s == "" then 0 else 10 * Value(s[..|s| - 1]) + (s[|s| - 1] as int - '0' as int)
  }

  /** `s.parse::<u32>()`: digits, perhaps after one plus sign, of a value that fits. */
  function ParseU32(s: string): Option<nat> {
    var digits := if s != "" && s[0] == '+' then s[1..] else s;
    if digits != "" && AllDigits(digits) && Value(digits) <= U32_MAX then Some(Value(digits)) else None
  }

  function OrZero(n: Option<nat>): nat {
    if n.Some? then n.value else 0
  }

  // ---------------------------------------------------------------------------------------------
  // Post-image ranges

  datatype Range = Range(start: nat, count: nat)

  /** The range in a `+C,D` token. */
  function RangeOfToken(token: string): Option<Range> {
    if token == "" || token[0] != '+' then None
    else
      var plus := token[1..];
      var range := match Find(plus, ",")
        case Some(i) => Range(OrZero(ParseU32(plus[..i])), OrZero(ParseU32(plus[i + 1..])))
        case None => Range(OrZero(ParseU32(plus)), 1);
      if range.start == 0 || range.count == 0 then None else Some(range)
  }

  function RangeOfLine(line: string): Option<Range> {
    var tokens := Tokens(line);
    if "@@" <= line && |tokens| >= 3 then RangeOfToken(tokens[2]) else None
  }

  function RangesOfLines(lines: seq<string>): seq<Range> {
    if lines == [] then []
    else
      var n := |lines| - 1;
      RangesOfLines(lines[..n]) + match RangeOfLine(lines[n]) case Some(r) => [r] case None => []
  }

  method ParsePostImageRanges(diffText: string) returns (out: seq<Range>)
    ensures out == RangesOfLines(Lines(diffText))
  {
    hide Tokens, Find, ParseU32, Lines;
    out := [];
    var lines := Lines(diffText);
    for i := 0 to |lines|
      invariant out == RangesOfLines(lines[..i])
    {
      var line := lines[i];
      assert lines[..i + 1][..i] == lines[..i];
      if !("@@" <= line) {
        continue;
      }
      var tokens := Tokens(line);
      if |tokens| < 3 || tokens[2] == "" || tokens[2][0] != '+' {
        continue;
      }
      var plus := tokens[2][1..];
      var start, count;
      var comma := Find(plus, ",");
      if comma.Some? {
        start, count := OrZero(ParseU32(plus[..comma.value])), OrZero(ParseU32(plus[comma.value + 1..]));
      } else {
        start, count := OrZero(ParseU32(plus)), 1;
      }
      if start == 0 || count == 0 {
        continue;
      }
      out := out + [Range(start, count)];
    }
    assert lines[..|lines|] == lines;
  }

  // ---------------------------------------------------------------------------------------------
  // The enclosing symbol named after the second `@@`

  function SkipSpaceEnd(s: string): string {
    if s == "" || !IsWhitespace(s[|s| - 1]) then s else SkipSpaceEnd(s[..|s| - 1])
  }

  /** `str::trim`. */
  function Trim(s: string): string {
    SkipSpaceEnd(SkipSpace(s))
  }

  function SuffixOfLine(line: string): Option<string> {
    if !("@@" <= line) then None
    else
      match Find(line[2..], "@@")
      case None => None
      case Some(i) =>
        var s := Trim(line[i + 4..]);
        if s == "" then None else Some(s)
  }

  const KEYWORDS: seq<(string, Kind)> := [
    ("fn", Function), ("def", Function), ("function", Function), ("class", Class), ("struct", Class),
    ("enum", Class), ("interface", Class), ("trait", Class), ("object", Class), ("const", Const)
  ]

  predicate IsIdentifierChar(c: char) {
    IsDigit(c) || 'a' <= c <= 'z' || 'A' <= c <= 'Z' || c == '_'
  }

  /** Behind the first occurrence from `i` on that does not continue an identifier. */
  function AfterKeyword(suffix: string, needle: string, i: nat): (r: Option<nat>)
    requires i <= |suffix|
    ensures r.Some? ==> r.value <= |suffix|
    decreases |suffix| - i
  {
    if OccursAt(suffix, needle, i) && (i == 0 || !IsIdentifierChar(suffix[i - 1])) then Some(i + |needle|)
    else if i == |suffix| then None
    else AfterKeyword(suffix, needle, i + 1)
  }

  function IdentifierLength(s: string): (n: nat)
    ensures n <= |s|
  {
    if s == "" || !IsIdentifierChar(s[0]) then 0 else 1 + IdentifierLength(s[1..])
  }

  function SymbolOfSuffix(suffix: string, keywords: seq<(string, Kind)>): Option<(Kind, string)> {
    if keywords == [] then None
    else
      var (keyword, kind) := keywords[0];
      match AfterKeyword(suffix, keyword + " ", 0)
      case None => SymbolOfSuffix(suffix, keywords[1..])
      case Some(at) =>
        var end := IdentifierLength(suffix[at..]);
        if end > 0 then Some((kind, suffix[at..][..end])) else SymbolOfSuffix(suffix, keywords[1..])
  }

  function SuffixesOfLines(lines: seq<string>): seq<string> {
    if lines == [] then []
    else
      var n := |lines| - 1;
      SuffixesOfLines(lines[..n]) + match SuffixOfLine(lines[n]) case Some(s) => [s] case None => []
  }

  method ParseHunkHeaderSuffixes(diffText: string) returns (out: seq<string>)
    ensures out == SuffixesOfLines(Lines(diffText))
  {
    hide Trim, Find, Lines;
    out := [];
    var lines := Lines(diffText);
    for i := 0 to |lines|
      invariant out == SuffixesOfLines(lines[..i])
    {
      var line := lines[i];
      assert lines[..i + 1][..i] == lines[..i];
      if !("@@" <= line) {
        continue;
      }
      var second := Find(line[2..], "@@");
      if second.Some? {
        var s := Trim(line[second.value + 4..]);
        if s != "" {
          out := out + [s];
        }
      }
    }
    assert lines[..|lines|] == lines;
  }

  // ---------------------------------------------------------------------------------------------
  // Printed headers

  function DigitOf(n: nat): char
    requires n < 10
  {
    ('0' as int + n) as char
  }

  function Decimal(n: nat): string {
    if n < 10 then [DigitOf(n)] else Decimal(n / 10) + [DigitOf(n % 10)]
  }

  /** A range as unified diffs print it; the count may be left out when it is 1. */
  function RangeText(start: nat, count: nat, short: bool): string {
    if short && count == 1 then Decimal(start) else Decimal(start) + "," + Decimal(count)
  }

  datatype DiffLine =
    | Header(pre: Range, post: Range, shortPre: bool, shortPost: bool, context: string)
    | Other(text: string)

  function Printed(line: DiffLine): string {
    match line
    case Header(pre, post, shortPre, shortPost, context) =>
      "@@ -" + RangeText(pre.start, pre.count, shortPre) + " +" + RangeText(post.start, post.count, shortPost)
      + " @@" + context
    case Other(text) => text
  }

  function PrintedAll(lines: seq<DiffLine>): string {
    if lines == [] then "" else Printed(lines[0]) + "\n" + PrintedAll(lines[1..])
  }

  /** One line, and a header only if it says so. */
  ghost predicate IsDiffLine(line: DiffLine) {
    match line
    case Header(_, post, _, _, context) => post.start <= U32_MAX && post.count <= U32_MAX && '\n' !in context
    case Other(text) => '\n' !in text && !("@@" <= text)
  }

  /** The nonempty post-image ranges of the headers, in order. */
  function Ranges(lines: seq<DiffLine>): seq<Range> {
    if lines == [] then []
    else
      (if lines[0].Header? && lines[0].post.start > 0 && lines[0].post.count > 0 then [lines[0].post] else [])
      + Ranges(lines[1..])
  }

  /** The nonempty trimmed contexts of the headers, in order. */
  function Contexts(lines: seq<DiffLine>): seq<string> {
    if lines == [] then []
    else
      (if lines[0].Header? && Trim(lines[0].context) != "" then [Trim(lines[0].context)] else []) + Contexts(lines[1..])
  }
}
