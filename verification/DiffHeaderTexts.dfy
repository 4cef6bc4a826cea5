/** The pieces of a header line in plain terms: trimming, numbers, keywords and identifiers. */
module DiffHeaderTexts {
  import opened Wrappers
  import opened Text
  import opened DiffHeaders
  import opened DiffHeaderLaws
  import opened Symbols

  // ---------------------------------------------------------------------------------------------
  // Characters

  /** The characters with the Unicode property White_Space. */
  lemma WhitespaceCodes(c: char)
    ensures var n := c as int;
            IsWhitespace(c) <==> 9 <= n <= 13 || 8192 <= n <= 8202
                                 || n in {32, 133, 160, 5760, 8232, 8233, 8239, 8287, 12288}
  {
  }

  /** ASCII digits, letters and the underscore. */
  lemma IdentifierCodes(c: char)
    ensures var n := c as int;
            IsIdentifierChar(c) <==> 48 <= n <= 57 || 65 <= n <= 90 || 97 <= n <= 122 || n == 95
  {
  }

  // ---------------------------------------------------------------------------------------------
  // Trimming

  predicate AllSpace(s: string) {
    forall i :: 0 <= i < |s| ==> IsWhitespace(s[i])
  }

  /** Neither end is whitespace. */
  predicate IsTrimmed(s: string) {
    s != "" ==> !IsWhitespace(s[0]) && !IsWhitespace(s[|s| - 1])
  }

  lemma {:induction false} SkipSpaceIs(a: string, s: string)
    requires AllSpace(a) && (s == "" || !IsWhitespace(s[0]))
    ensures SkipSpace(a + s) == s
  {
    hide IsWhitespace;
    if a == "" {
      assert a + s == s;
    } else {
      assert (a + s)[1..] == a[1..] + s;
      SkipSpaceIs(a[1..], s);
    }
  }

  lemma {:induction false} SkipSpaceEndIs(s: string, b: string)
    requires AllSpace(b) && (s == "" || !IsWhitespace(s[|s| - 1]))
    ensures SkipSpaceEnd(s + b) == s
    decreases |b|
  {
    hide IsWhitespace;
    if b == "" {
      assert s + b == s;
    } else {
      assert (s + b)[..|s + b| - 1] == s + b[..|b| - 1];
      SkipSpaceEndIs(s, b[..|b| - 1]);
    }
  }

  lemma SkipSpaceStep(s: string)
    ensures SkipSpace(s) == if s == "" || !IsWhitespace(s[0]) then s else SkipSpace(s[1..])
  {
  }

  lemma {:induction false} SpaceBefore(s: string) returns (a: string)
    ensures s == a + SkipSpace(s) && AllSpace(a)
  {
    hide IsWhitespace, SkipSpace;
    SkipSpaceStep(s);
    if s == "" || !IsWhitespace(s[0]) {
      a := "";
    } else {
      var inner := SpaceBefore(s[1..]);
      a := [s[0]] + inner;
      assert a + SkipSpace(s) == [s[0]] + (inner + SkipSpace(s[1..])) == s;
    }
  }

  lemma {:induction false} SpaceBehind(s: string) returns (b: string)
    ensures s == SkipSpaceEnd(s) + b && AllSpace(b)
    ensures SkipSpaceEnd(s) != "" ==> !IsWhitespace(SkipSpaceEnd(s)[|SkipSpaceEnd(s)| - 1])
    decreases |s|
  {
    hide IsWhitespace;
    b := "";
    if s != "" && IsWhitespace(s[|s| - 1]) {
      b := SpaceBehind(s[..|s| - 1]);
      b := b + [s[|s| - 1]];
    }
  }

  lemma TrimOf(s: string, a: string, t: string, b: string)
    requires s == a + t + b && AllSpace(a) && AllSpace(b) && IsTrimmed(t)
    ensures Trim(s) == t
  {
    hide IsWhitespace;
    if t == "" {
      assert s == (a + b) + "";
      SkipSpaceIs(a + b, "");
      SkipSpaceEndIs("", "");
      assert "" + "" == "";
    } else {
      assert s == a + (t + b);
      SkipSpaceIs(a, t + b);
      SkipSpaceEndIs(t, b);
    }
  }

  /** Trimming takes exactly the whitespace off both ends. */
  lemma TrimIff(s: string, t: string)
    ensures Trim(s) == t <==> exists a, b :: s == a + t + b && AllSpace(a) && AllSpace(b) && IsTrimmed(t)
  {
    hide IsWhitespace, SkipSpace, SkipSpaceEnd, AllSpace, IsTrimmed;
    if Trim(s) == t {
      var a := SpaceBefore(s);
      var b := SpaceBehind(SkipSpace(s));
      FrontStays(SkipSpace(s), t, b);
      assert s == a + t + b;
    }
    if a, b :| s == a + t + b && AllSpace(a) && AllSpace(b) && IsTrimmed(t) {
      TrimOf(s, a, t, b);
    }
  }

  lemma FrontStays(s: string, t: string, b: string)
    requires s == t + b && (s != "" ==> !IsWhitespace(s[0])) && (t != "" ==> !IsWhitespace(t[|t| - 1]))
    ensures IsTrimmed(t)
  {
    hide IsWhitespace;
    assert t != "" ==> t[0] == s[0];
  }

  // ---------------------------------------------------------------------------------------------
  // Numbers

  function Zeros(k: nat): (z: string)
    ensures |z| == k
  {
    if k == 0 then "" else Zeros(k - 1) + "0"
  }

  lemma LastDigit(d: string) returns (c: nat)
    requires d != "" && AllDigits(d)
    ensures c < 10 && d == d[..|d| - 1] + [DigitOf(c)] && Value(d) == 10 * Value(d[..|d| - 1]) + c
  {
    assert IsDigit(d[|d| - 1]);
    c := d[|d| - 1] as int - '0' as int;
  }

  lemma DecimalSnoc(v: nat, c: nat)
    requires c < 10
    ensures Decimal(10 * v + c) == (if v == 0 then "" else Decimal(v)) + [DigitOf(c)]
  {
    assert (10 * v + c) / 10 == v && (10 * v + c) % 10 == c;
  }

  lemma ZeroAfter(k: nat)
    ensures Zeros(k) + Decimal(0) == Zeros(k + 1)
  {
  }

  /** Digits are their value in decimal, behind some zeros. */
  lemma {:induction false} DigitsAreDecimal(d: string) returns (k: nat)
    requires d != "" && AllDigits(d)
    ensures d == Zeros(k) + Decimal(Value(d))
    decreases |d|
  {
    var before := d[..|d| - 1];
    var c := LastDigit(d);
    DecimalSnoc(Value(before), c);
    if before == "" {
      k := 0;
      assert Value(before) == 0;
    } else {
      k := DigitsAreDecimal(before);
      hide Decimal, Value, Zeros;
      if Value(before) == 0 {
        ZeroAfter(k);
        k := k + 1;
      }
    }
  }

  lemma {:induction false} ZerosInFront(k: nat, b: string)
    requires AllDigits(b)
    ensures AllDigits(Zeros(k) + b) && Value(Zeros(k) + b) == Value(b)
    decreases |b|, k
  {
    var s := Zeros(k) + b;
    if b != "" {
      assert s[..|s| - 1] == Zeros(k) + b[..|b| - 1];
      ZerosInFront(k, b[..|b| - 1]);
    } else if k > 0 {
      assert s == Zeros(k);
      assert s[..|s| - 1] == Zeros(k - 1) + "";
      ZerosInFront(k - 1, "");
    }
  }

  lemma DecimalIsDigits(k: nat, n: nat)
    ensures var d := Zeros(k) + Decimal(n);
            d != "" && AllDigits(d) && Value(d) == n && d[0] != '+'
  {
    DecimalValue(n);
    ZerosInFront(k, Decimal(n));
    var d := Zeros(k) + Decimal(n);
    assert IsDigit(d[0]);
  }

  /** A count reads as `n` exactly if it is `n` in decimal, perhaps with leading zeros and behind one plus
      sign, and fits 32 bits. */
  lemma ParseU32Iff(s: string, n: nat)
    ensures ParseU32(s) == Some(n) <==>
            n <= 4294967295 && exists k: nat :: s == Zeros(k) + Decimal(n) || s == "+" + (Zeros(k) + Decimal(n))
  {
    hide Zeros, Decimal, Value;
    if ParseU32(s) == Some(n) {
      var digits := if s != "" && s[0] == '+' then s[1..] else s;
      var k := DigitsAreDecimal(digits);
      assert s == digits || s == "+" + digits;
    }
    if k: nat :| s == Zeros(k) + Decimal(n) || s == "+" + (Zeros(k) + Decimal(n)) {
      DecimalIsDigits(k, n);
    }
  }

  /** A token is a range exactly if it is a plus sign, a start and perhaps a comma and a count, which is 1
      if left out, both numbers as above and neither of them 0. */
  lemma RangeOfTokenIff(token: string, start: nat, count: nat)
    ensures RangeOfToken(token) == Some(Range(start, count)) <==>
            start > 0 && count > 0
            && ((exists a :: token == "+" + a && ',' !in a && ParseU32(a) == Some(start) && count == 1)
                || exists a, b :: token == "+" + (a + "," + b) && ',' !in a
                                  && ParseU32(a) == Some(start) && ParseU32(b) == Some(count))
  {
    hide ParseU32, RangeOfToken;
    if RangeOfToken(token) == Some(Range(start, count)) {
      var a, b := RangeIsSplit(token, start, count);
    }
    if a :| token == "+" + a && ',' !in a && ParseU32(a) == Some(start) && count == 1 && start > 0 {
      ShortRange(a, start);
    }
    if a, b :| token == "+" + (a + "," + b) && ',' !in a && ParseU32(a) == Some(start) && ParseU32(b) == Some(count)
               && start > 0 && count > 0 {
      LongRange(a, b, start, count);
    }
  }

  lemma ShortRange(a: string, start: nat)
    requires ',' !in a && ParseU32(a) == Some(start) && start > 0
    ensures RangeOfToken("+" + a) == Some(Range(start, 1))
  {
    hide ParseU32, Find;
    assert ("+" + a)[1..] == a;
    NoComma(a);
  }

  lemma LongRange(a: string, b: string, start: nat, count: nat)
    requires ',' !in a && ParseU32(a) == Some(start) && ParseU32(b) == Some(count) && start > 0 && count > 0
    ensures RangeOfToken("+" + (a + "," + b)) == Some(Range(start, count))
  {
    hide ParseU32, Find;
    var text := a + "," + b;
    assert ("+" + text)[1..] == text;
    CommaAt(a, b);
    assert text[..|a|] == a && text[|a| + 1..] == b;
  }

  lemma RangeIsSplit(token: string, start: nat, count: nat) returns (a: string, b: string)
    requires RangeOfToken(token) == Some(Range(start, count))
    ensures start > 0 && count > 0 && ',' !in a && ParseU32(a) == Some(start)
    ensures (token == "+" + a && count == 1) || (token == "+" + (a + "," + b) && ParseU32(b) == Some(count))
  {
    hide ParseU32, Find;
    var plus := token[1..];
    assert token == "+" + plus;
    CommaSplits(plus);
    match Find(plus, ",") {
      case None => a, b := plus, "";
      case Some(i) => a, b := plus[..i], plus[i + 1..];
    }
  }

  lemma CommaSplits(s: string)
    ensures match Find(s, ",")
            case None => ',' !in s
            case Some(i) => s == s[..i] + "," + s[i + 1..] && ',' !in s[..i]
  {
    match Find(s, ",")
    case None =>
      forall i | 0 <= i < |s|
        ensures s[i] != ','
      {
        assert !OccursAt(s, ",", i);
      }
    case Some(n) =>
      assert s[n..n + 1] == ",";
      forall i | 0 <= i < n
        ensures s[..n][i] != ','
      {
        assert !OccursAt(s, ",", i);
      }
  }

  // ---------------------------------------------------------------------------------------------
  // Lines

  /** Each newline ends a line, which loses one carriage return before it; what follows the last newline
      is a line as it stands, unless it is empty. */
  lemma LinesAre(line: string, rest: string)
    requires '\n' !in line
    ensures Lines(line + "\n" + rest)
         == [if line != "" && line[|line| - 1] == '\r' then line[..|line| - 1] else line] + Lines(rest)
    ensures Lines(line) == if line == "" then [] else [line]
  {
    LinesStep(line, rest);
    forall j
      ensures !OccursAt(line, "\n", j)
    {
      assert 0 <= j && j + 1 <= |line| ==> line[j..j + 1][0] == line[j];
    }
    FindNothing(line, "\n");
  }

  // ---------------------------------------------------------------------------------------------
  // Tokens

  /** Tokens are the words between whitespace of any kind and length. */
  lemma TokensAre(space: string, word: string, rest: string)
    requires AllSpace(space) && IsWord(word) && (rest == "" || IsWhitespace(rest[0]))
    ensures Tokens(space) == []
    ensures Tokens(space + word + rest) == [word] + Tokens(rest)
  {
    hide IsWhitespace;
    assert space + "" == space;
    SkipSpaceIs(space, "");
    assert (word + rest)[0] == word[0];
    SkipSpaceIs(space, word + rest);
    assert space + word + rest == space + (word + rest);
    WordEnds(word, rest);
    assert (word + rest)[..|word|] == word && (word + rest)[|word|..] == rest;
  }

  lemma {:induction false} WordEnds(word: string, rest: string)
    requires (forall i :: 0 <= i < |word| ==> !IsWhitespace(word[i])) && (rest == "" || IsWhitespace(rest[0]))
    ensures WordLength(word + rest) == |word|
  {
    hide IsWhitespace;
    if word == "" {
      assert word + rest == rest;
    } else {
      assert (word + rest)[1..] == word[1..] + rest;
      WordEnds(word[1..], rest);
    }
  }

  // ---------------------------------------------------------------------------------------------
  // Keywords

  /** The list of keywords, in full: the first of them that names anything decides. */
  lemma KeywordsDecide(suffix: string, kind: Kind, name: string)
    ensures var keywords := [
              ("fn", Function), ("def", Function), ("function", Function), ("class", Class), ("struct", Class),
              ("enum", Class), ("interface", Class), ("trait", Class), ("object", Class), ("const", Const)];
            SymbolOfSuffix(suffix, KEYWORDS) == Some((kind, name))
            <==> exists m :: FirstNaming(suffix, keywords, m, kind, name)
  {
    SymbolIsFirstNamed(suffix, KEYWORDS, kind, name);
  }
}
