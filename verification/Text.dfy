/** Substring search on strings: what `str::find` and `str::contains` return. */
module Text {
  import opened Wrappers

  predicate OccursAt(s: string, pat: string, i: int) {
    0 <= i && i + |pat| <= |s| && s[i..i + |pat|] == pat
  }

  /** The leftmost occurrence. */
  ghost predicate FirstAt(s: string, pat: string, i: int) {
    OccursAt(s, pat, i) && forall j :: 0 <= j < i ==> !OccursAt(s, pat, j)
  }

  function Find(s: string, pat: string): (r: Option<nat>)
    ensures r.Some? ==> r.value + |pat| <= |s| && FirstAt(s, pat, r.value)
    ensures r.None? ==> forall j :: !OccursAt(s, pat, j)
  {
    FindFrom(s, pat, 0)
  }

  function FindFrom(s: string, pat: string, i: nat): (r: Option<nat>)
    requires i <= |s| && forall j :: 0 <= j < i ==> !OccursAt(s, pat, j)
    ensures r.Some? ==> r.value + |pat| <= |s| && FirstAt(s, pat, r.value)
    ensures r.None? ==> forall j :: !OccursAt(s, pat, j)
    decreases |s| - i
  {
    if OccursAt(s, pat, i) then Some(i) else if i == |s| then None else FindFrom(s, pat, i + 1)
  }

  lemma FindIs(s: string, pat: string, i: nat)
    requires FirstAt(s, pat, i)
    ensures Find(s, pat) == Some(i)
  {
    hide OccursAt;
    assert Find(s, pat).Some?;
    OnlyOneFirst(s, pat, i, Find(s, pat).value);
  }

  lemma OnlyOneFirst(s: string, pat: string, i: nat, j: nat)
    requires FirstAt(s, pat, i) && FirstAt(s, pat, j)
    ensures i == j
  {
    hide OccursAt;
  }

  lemma FindNothing(s: string, pat: string)
    requires forall j :: !OccursAt(s, pat, j)
    ensures Find(s, pat) == None
  {
    hide OccursAt;
  }

  // ---------------------------------------------------------------------------------------------
  // Occurrences in texts put together from parts

  /** An occurrence is decided by the characters up to its end. */
  lemma OccursInPrefix(s: string, t: string, n: nat, pat: string, j: int)
    requires n <= |s| && n <= |t| && s[..n] == t[..n] && j + |pat| <= n
    ensures OccursAt(s, pat, j) == OccursAt(t, pat, j)
  {
    if 0 <= j {
      assert s[j..j + |pat|] == s[..n][j..j + |pat|];
      assert t[j..j + |pat|] == t[..n][j..j + |pat|];
    }
  }

  /** Whatever replaces the text from the first occurrence on, if it opens with the same pattern, that
      is again its first occurrence: no earlier one can straddle the seam. */
  lemma FirstIsKept(s: string, pat: string, b: nat, rest: string)
    requires FirstAt(s, pat, b) && pat <= rest
    ensures FirstAt(s[..b] + rest, pat, b)
  {
    var t := s[..b] + rest;
    var n := b + |pat|;
    assert t[b..n] == rest[..|pat|] == pat;
    assert s[..n] == s[..b] + s[b..n];
    assert t[..n] == s[..b] + t[b..n];
    hide OccursAt;
    OccursHere(t, pat, b);
    forall j | 0 <= j < b
      ensures !OccursAt(t, pat, j)
    {
      OccursInPrefix(s, t, n, pat, j);
    }
  }

  lemma OccursHere(t: string, pat: string, b: nat)
    requires b + |pat| <= |t| && t[b..b + |pat|] == pat
    ensures OccursAt(t, pat, b)
  {
  }

  /** Text added at the end leaves the first occurrence where it was. */
  lemma FirstStays(s: string, pat: string, i: int, rest: string)
    requires FirstAt(s, pat, i)
    ensures FirstAt(s + rest, pat, i)
  {
    hide OccursAt;
    InBounds(s, pat, i);
    assert (s + rest)[..|s|] == s == s[..|s|];
    forall j | 0 <= j <= i
      ensures OccursAt(s + rest, pat, j) == OccursAt(s, pat, j)
    {
      OccursInPrefix(s, s + rest, |s|, pat, j);
    }
  }

  lemma InBounds(s: string, pat: string, i: int)
    requires OccursAt(s, pat, i)
    ensures 0 <= i && i + |pat| <= |s|
  {
  }

  /** A pattern without newlines lies within the lines before or the lines after a newline. */
  lemma OccursInLines(x: string, y: string, pat: string, j: int)
    requires '\n' !in pat && pat != ""
    ensures OccursAt(x + "\n" + y, pat, j) <==> OccursAt(x, pat, j) || (j > |x| && OccursAt(y, pat, j - |x| - 1))
  {
    var t := x + "\n" + y;
    if j + |pat| <= |x| {
      assert t[..|x|] == x == x[..|x|];
      OccursInPrefix(x, t, |x|, pat, j);
    } else if j > |x| {
      if j + |pat| <= |t| {
        assert t[j..j + |pat|] == y[j - |x| - 1..j - |x| - 1 + |pat|];
      }
    } else if 0 <= j && j + |pat| <= |t| {
      assert t[j..j + |pat|][|x| - j] == t[|x|] == '\n';
    }
  }

  /** The first occurrence after lines that have none. */
  lemma FirstAfterLines(x: string, y: string, pat: string, i: int)
    requires '\n' !in pat && pat != ""
    requires (forall j :: !OccursAt(x, pat, j)) && FirstAt(y, pat, i)
    ensures FirstAt(x + "\n" + y, pat, |x| + 1 + i)
  {
    hide OccursAt;
    InBounds(y, pat, i);
    var t := x + "\n" + y;
    forall j | 0 <= j <= |x| + 1 + i
      ensures OccursAt(t, pat, j) <==> j == |x| + 1 + i
    {
      OccursInLines(x, y, pat, j);
      if j > |x| && j < |x| + 1 + i {
        assert !OccursAt(y, pat, j - |x| - 1);
      }
    }
  }

  // ---------------------------------------------------------------------------------------------
  // Single characters

  /** Unicode White_Space, which `str::trim` removes and `str::split_whitespace` splits at. */
  predicate IsWhitespace(c: char) {
    || '\t' <= c <= '\r' || c == ' ' || c == '\U{85}' || c == '\U{A0}' || c == '\U{1680}'
    || '\U{2000}' <= c <= '\U{200A}' || c == '\U{2028}' || c == '\U{2029}' || c == '\U{202F}'
    || c == '\U{205F}' || c == '\U{3000}'
  }

  predicate Lacks(s: string, c: char) {
    forall i :: 0 <= i < |s| ==> s[i] != c
  }

  lemma LacksBoth(s: string, t: string, c: char)
    requires Lacks(s, c) && Lacks(t, c)
    ensures Lacks(s + t, c)
  {
  }

  /** A pattern does not occur where one of its characters is different. */
  lemma Mismatch(s: string, pat: string, j: nat, k: nat)
    requires k < |pat| && j + k < |s| && s[j + k] != pat[k]
    ensures !OccursAt(s, pat, j)
  {
    if j + |pat| <= |s| {
      assert s[j..j + |pat|][k] == s[j + k];
    }
  }
}
