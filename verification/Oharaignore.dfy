/** The auto-generated section that `ohara plan --write` keeps in `.oharaignore`. */
module Oharaignore {
  import opened Wrappers
  import opened Text

  type Error = string

  const MARKER_BEGIN_PREFIX := "# === ohara plan v"
  const MARKER_END := "# === end auto-generated ==="
  const AUTO_GENERATED := " — auto-generated "
  const USER_HINT := "# user-added lines below this marker are preserved across `ohara plan` re-runs (use --replace to overwrite the entire file)\n"

  const NO_MARKERS: Error :=
    "existing .oharaignore has content but no auto-generated markers; pass --replace to overwrite or delete the file and re-run"
  const NO_END_MARKER: Error := "existing .oharaignore has begin marker but no end marker; refusing to merge"

  /** What a section ends with after its end marker: the rest of that line, a blank one and the hint. */
  const TRAILER := "\n" + USER_HINT

  function Lines(patterns: seq<string>): string {
    if patterns == [] then "" else patterns[0] + "\n" + Lines(patterns[1..])
  }

  function Opening(version: string, timestamp: string): string {
    MARKER_BEGIN_PREFIX + version + AUTO_GENERATED + timestamp + " ==="
  }

  /** The part of a rendered section above its end marker. */
  function Head(patterns: seq<string>, version: string, timestamp: string): string {
    Opening(version, timestamp) + "\n" + Lines(patterns)
  }

  method RenderOharaignoreBody(patterns: seq<string>, version: string, timestamp: string) returns (out: string)
    ensures out == Head(patterns, version, timestamp) + MARKER_END + "\n" + TRAILER
  {
    out := "";
    out := out + (MARKER_BEGIN_PREFIX + version + AUTO_GENERATED + timestamp + " ===\n");
    hide MARKER_BEGIN_PREFIX, MARKER_END, AUTO_GENERATED, USER_HINT;
    OpeningLine(version, timestamp);
    var i := 0;
    assert patterns[0..] == patterns;
    while i < |patterns|
      invariant 0 <= i <= |patterns|
      invariant out + Lines(patterns[i..]) == Head(patterns, version, timestamp)
    {
      LinesStep(out, patterns, i);
      out := out + patterns[i];
      out := out + "\n";
      i := i + 1;
    }
    assert out == Head(patterns, version, timestamp);
    out := out + MARKER_END;
    out := out + "\n";
    out := out + "\n";
    out := out + USER_HINT;
  }

  lemma OpeningLine(version: string, timestamp: string)
    ensures "" + (MARKER_BEGIN_PREFIX + version + AUTO_GENERATED + timestamp + " ===\n")
         == Opening(version, timestamp) + "\n"
  {
    hide MARKER_BEGIN_PREFIX, AUTO_GENERATED;
  }

  lemma LinesStep(out: string, patterns: seq<string>, i: nat)
    requires i < |patterns|
    ensures out + Lines(patterns[i..]) == out + patterns[i] + "\n" + Lines(patterns[i + 1..])
  {
    assert patterns[i..][1..] == patterns[i + 1..];
  }

  // ---------------------------------------------------------------------------------------------
  // Merging

  predicate Blank(s: string) {
    forall i :: 0 <= i < |s| ==> IsWhitespace(s[i])
  }

  /** The user's text around the section: before its begin marker, and after the line of its end marker. */
  datatype Surroundings = Surroundings(prefix: string, suffix: string)

  function Around(existing: string): (r: Result<Surroundings, Error>) {
    match Find(existing, MARKER_BEGIN_PREFIX)
    case None => Err(NO_MARKERS)
    case Some(begin) =>
      match Find(existing[begin..], MARKER_END)
      case None => Err(NO_END_MARKER)
      case Some(endRelative) =>
        var end := begin + endRelative + |MARKER_END|;
        var afterEnd := match Find(existing[end..], "\n") case Some(i) => end + i + 1 case None => end;
        Ok(Surroundings(existing[..begin], existing[afterEnd..]))
  }

  function Merged(existing: string, section: string): Result<string, Error> {
    if Blank(existing) then Ok(section)
    else
      var around :- Around(existing);
      Ok(around.prefix + section + around.suffix)
  }

  /** `ohara plan --write [--replace]` on the file. */
  class IgnoreFile {
    var contents: Option<string>

    constructor (initial: Option<string>)
      ensures contents == initial
    {
      contents := initial;
    }

    method Write(patterns: seq<string>, version: string, timestamp: string, replace: bool)
      returns (r: Result<(), Error>)
      modifies this
      ensures var section := Head(patterns, version, timestamp) + MARKER_END + "\n" + TRAILER;
              var after := if replace || old(contents).None? then Ok(section) else Merged(old(contents).value, section);
              && (after.Ok? ==> r == Ok(()) && contents == Some(after.value))
              && (after.Err? ==> r == Err(after.error) && contents == old(contents))
    {
      hide Around, Blank, MARKER_BEGIN_PREFIX, MARKER_END, AUTO_GENERATED, USER_HINT;
      var section := RenderOharaignoreBody(patterns, version, timestamp);
      if replace || contents.None? {
        contents := Some(section);
      } else {
        var merged := Merged(contents.value, section);
        if merged.Err? {
          return Err(merged.error);
        }
        contents := Some(merged.value);
      }
      r := Ok(());
    }
  }

  // ---------------------------------------------------------------------------------------------
  // Sections

  /** A text that opens with the begin marker and ends with its only end marker's line and the hint. */
  ghost predicate IsSection(section: string, head: string) {
    && section == head + MARKER_END + "\n" + TRAILER
    && MARKER_BEGIN_PREFIX <= head
    && FirstAt(head + MARKER_END, MARKER_END, |head|)
  }

  lemma MarkerIsOneLine()
    ensures Lacks(MARKER_END, '\n') && MARKER_END != "" && MARKER_END[0] == '#'
  {
  }

  lemma MarkersDiffer()
    ensures 6 < |MARKER_BEGIN_PREFIX| && MARKER_BEGIN_PREFIX[6] == 'o' && MARKER_BEGIN_PREFIX[0] == '#'
    ensures 6 < |MARKER_END| && MARKER_END[6] == 'e' && MARKER_END[0] == '#'
    ensures Lacks(MARKER_BEGIN_PREFIX[1..], '#')
  {
  }

  lemma RestOfOpening()
    ensures Lacks(AUTO_GENERATED, '#') && Lacks(" ===", '#')
  {
  }

  /** Versions and timestamps have no '#', so the opening line does not contain the end marker. */
  lemma OpeningHasNoEnd(version: string, timestamp: string)
    requires Lacks(version, '#') && Lacks(timestamp, '#')
    ensures forall j :: !OccursAt(Opening(version, timestamp), MARKER_END, j)
  {
    hide OccursAt, MARKER_BEGIN_PREFIX, MARKER_END, AUTO_GENERATED;
    MarkersDiffer();
    RestOfOpening();
    var rest := MARKER_BEGIN_PREFIX[1..] + version + AUTO_GENERATED + timestamp + " ===";
    var s := Opening(version, timestamp);
    assert s[1..] == rest;
    LacksBoth(MARKER_BEGIN_PREFIX[1..], version, '#');
    LacksBoth(MARKER_BEGIN_PREFIX[1..] + version, AUTO_GENERATED, '#');
    LacksBoth(MARKER_BEGIN_PREFIX[1..] + version + AUTO_GENERATED, timestamp, '#');
    LacksBoth(MARKER_BEGIN_PREFIX[1..] + version + AUTO_GENERATED + timestamp, " ===", '#');
    forall j
      ensures !OccursAt(s, MARKER_END, j)
    {
      if j < 0 || j + |MARKER_END| > |s| {
        OutOfBounds(s, MARKER_END, j);
      } else if j == 0 {
        Mismatch(s, MARKER_END, 0, 6);
      } else {
        assert s[j] == rest[j - 1];
        Mismatch(s, MARKER_END, j, 0);
      }
    }
  }

  lemma OutOfBounds(s: string, pat: string, j: int)
    requires j < 0 || j + |pat| > |s|
    ensures !OccursAt(s, pat, j)
  {
  }

  ghost predicate NoneContains(patterns: seq<string>, pat: string) {
    forall p, j :: p in patterns ==> !OccursAt(p, pat, j)
  }

  lemma {:induction false} LinesThenMarker(patterns: seq<string>)
    requires NoneContains(patterns, MARKER_END)
    ensures FirstAt(Lines(patterns) + MARKER_END, MARKER_END, |Lines(patterns)|)
  {
    hide OccursAt, MARKER_END;
    if patterns == [] {
      assert Lines(patterns) + MARKER_END == MARKER_END;
      OccursHere(MARKER_END, MARKER_END, 0);
    } else {
      MarkerIsOneLine();
      var rest := Lines(patterns[1..]) + MARKER_END;
      LinesThenMarker(patterns[1..]);
      FirstAfterLines(patterns[0], rest, MARKER_END, |Lines(patterns[1..])|);
      assert Lines(patterns) + MARKER_END == patterns[0] + "\n" + rest;
    }
  }

  /** Rendered sections whose patterns do not contain the end marker are well formed. */
  lemma RenderedIsSection(patterns: seq<string>, version: string, timestamp: string)
    requires NoneContains(patterns, MARKER_END) && Lacks(version, '#') && Lacks(timestamp, '#')
    ensures var head := Head(patterns, version, timestamp); IsSection(head + MARKER_END + "\n" + TRAILER, head)
  {
    hide OccursAt, MARKER_BEGIN_PREFIX, MARKER_END, TRAILER, AUTO_GENERATED, Lines;
    var opening := Opening(version, timestamp);
    MarkerIsOneLine();
    OpeningHasNoEnd(version, timestamp);
    LinesThenMarker(patterns);
    FirstAfterLines(opening, Lines(patterns) + MARKER_END, MARKER_END, |Lines(patterns)|);
    assert Head(patterns, version, timestamp) + MARKER_END == opening + "\n" + (Lines(patterns) + MARKER_END);
    assert opening == MARKER_BEGIN_PREFIX + (version + AUTO_GENERATED + timestamp + " ===");
  }

  // ---------------------------------------------------------------------------------------------
  // Merging again and again

  lemma NotBlank(text: string, b: nat)
    requires b < |text| && text[b] == '#'
    ensures !Blank(text)
  {
    assert !IsWhitespace(text[b]);
  }

  lemma OpensAt(text: string, b: int)
    requires OccursAt(text, MARKER_BEGIN_PREFIX, b)
    ensures 0 <= b < |text| && text[b] == '#'
  {
    assert text[b] == text[b..b + |MARKER_BEGIN_PREFIX|][0];
  }

  /** Where a section stands after `prefix`, the text after its hint follows the hint. */
  lemma AroundSection(prefix: string, section: string, head: string, suffix: string)
    requires IsSection(section, head) && FirstAt(prefix + section + suffix, MARKER_BEGIN_PREFIX, |prefix|)
    ensures Around(prefix + section + suffix) == Ok(Surroundings(prefix, TRAILER + suffix))
    ensures !Blank(prefix + section + suffix)
  {
    hide OccursAt, MARKER_BEGIN_PREFIX, MARKER_END, TRAILER, Blank;
    var text := prefix + section + suffix;
    OpensAt(text, |prefix|);
    NotBlank(text, |prefix|);
    FindIs(text, MARKER_BEGIN_PREFIX, |prefix|);
    FirstStays(head + MARKER_END, MARKER_END, |head|, "\n" + TRAILER + suffix);
    SectionShape(prefix, head, suffix);
    FindIs(text[|prefix|..], MARKER_END, |head|);
    var end := |prefix| + |head| + |MARKER_END|;
    NewlineFirst(text[end..]);
  }

  lemma NewlineFirst(s: string)
    requires s != "" && s[0] == '\n'
    ensures Find(s, "\n") == Some(0)
  {
    assert s[0..1] == "\n";
    FindIs(s, "\n", 0);
  }

  lemma SectionShape(prefix: string, head: string, suffix: string)
    ensures var text := prefix + (head + MARKER_END + "\n" + TRAILER) + suffix;
            var end := |prefix| + |head| + |MARKER_END|;
            && end < |text| && text[end] == '\n'
            && text[..|prefix|] == prefix
            && text[|prefix|..] == head + MARKER_END + ("\n" + TRAILER + suffix)
            && text[end + 1..] == TRAILER + suffix
  {
    hide MARKER_END, TRAILER;
  }

  /** One merge into a file that has the block: the user's prefix and suffix are kept verbatim, and in
      the new file the suffix starts with the hint the section brought along. */
  lemma MergeKeepsUserText(existing: string, section: string, head: string)
    requires IsSection(section, head) && Around(existing).Ok?
    ensures var u := Around(existing).value;
            && Merged(existing, section) == Ok(u.prefix + section + u.suffix)
            && Around(u.prefix + section + u.suffix) == Ok(Surroundings(u.prefix, TRAILER + u.suffix))
  {
    hide OccursAt, MARKER_BEGIN_PREFIX, MARKER_END, TRAILER, Blank;
    var begin := Find(existing, MARKER_BEGIN_PREFIX).value;
    OpensAt(existing, begin);
    NotBlank(existing, begin);
    var u := Around(existing).value;
    assert MARKER_BEGIN_PREFIX <= section + u.suffix by {
      assert section + u.suffix == head + (MARKER_END + "\n" + TRAILER + u.suffix);
      PrefixChain(MARKER_BEGIN_PREFIX, head, MARKER_END + "\n" + TRAILER + u.suffix);
    }
    FirstIsKept(existing, MARKER_BEGIN_PREFIX, begin, section + u.suffix);
    assert u.prefix + (section + u.suffix) == u.prefix + section + u.suffix;
    AroundSection(u.prefix, section, head, u.suffix);
  }

  lemma PrefixChain(a: string, b: string, c: string)
    requires a <= b
    ensures a <= b + c
  {
  }

  function Hints(n: nat): string {
    if n == 0 then "" else TRAILER + Hints(n - 1)
  }

  /** The file after merging the sections one after the other. */
  function MergedAll(existing: string, sections: seq<string>): Result<string, Error> {
    if sections == [] then Ok(existing)
    else
      var before :- MergedAll(existing, sections[..|sections| - 1]);
      Merged(before, sections[|sections| - 1])
  }

  ghost predicate AllSections(sections: seq<string>, heads: seq<string>) {
    |heads| == |sections| && forall i :: 0 <= i < |sections| ==> IsSection(sections[i], heads[i])
  }

  lemma HintsAssoc(n: nat, suffix: string)
    ensures TRAILER + (Hints(n) + suffix) == Hints(n + 1) + suffix
  {
    hide TRAILER;
    assert Hints(n + 1) == TRAILER + Hints(n);
  }

  /** Any number of merges into a file that has the block keeps the user's text verbatim: the file ends
      up as prefix, last section, one more copy of the hint for every earlier merge, suffix. */
  lemma {:induction false} MergesKeepUserText(existing: string, sections: seq<string>, heads: seq<string>)
    requires sections != [] && AllSections(sections, heads) && Around(existing).Ok?
    ensures var u := Around(existing).value;
            var n := |sections|;
            var after := Hints(n - 1) + u.suffix;
            && MergedAll(existing, sections) == Ok(u.prefix + sections[n - 1] + after)
            && Around(u.prefix + sections[n - 1] + after) == Ok(Surroundings(u.prefix, Hints(n) + u.suffix))
    decreases |sections|
  {
    hide IsSection, Around, Merged, TRAILER, Hints;
    var u := Around(existing).value;
    var n := |sections|;
    HintsZero(u.suffix);
    if n == 1 {
      assert MergedAll(existing, sections[..0]) == Ok(existing);
      MergeKeepsUserText(existing, sections[0], heads[0]);
      HintsAssoc(0, u.suffix);
    } else {
      MergesKeepUserText(existing, sections[..n - 1], heads[..n - 1]);
      var before := u.prefix + sections[n - 2] + (Hints(n - 2) + u.suffix);
      assert sections[..n - 1][n - 2] == sections[n - 2];
      MergeKeepsUserText(before, sections[n - 1], heads[n - 1]);
      HintsAssoc(n - 1, u.suffix);
    }
  }

  lemma HintsZero(suffix: string)
    ensures Hints(0) + suffix == suffix
  {
  }

  /** A blank or missing file gets the section itself; from then on the hints pile up as above. */
  lemma FirstSection(existing: string, section: string, head: string)
    requires Blank(existing) && IsSection(section, head)
    ensures Merged(existing, section) == Ok(section)
    ensures Around(section) == Ok(Surroundings("", TRAILER))
  {
    hide MARKER_BEGIN_PREFIX, MARKER_END, TRAILER, Blank;
    assert section[0..|MARKER_BEGIN_PREFIX|] == MARKER_BEGIN_PREFIX by {
      PrefixChain(MARKER_BEGIN_PREFIX, head, MARKER_END + "\n" + TRAILER);
      assert section == head + (MARKER_END + "\n" + TRAILER);
    }
    assert "" + section + "" == section;
    AroundSection("", section, head, "");
    assert TRAILER + "" == TRAILER;
  }

  /** Re-running is not idempotent: merging the same section again always grows the file by one hint. */
  lemma MergingAgainGrows(existing: string, section: string, head: string)
    requires IsSection(section, head) && Merged(existing, section).Ok?
    ensures var once := Merged(existing, section).value;
            var twice := Merged(once, section);
            twice.Ok? && |twice.value| == |once| + |TRAILER| && |TRAILER| > 0
  {
    hide IsSection, Around, TRAILER, Blank;
    TrailerIsText();
    if Blank(existing) {
      FirstSection(existing, section, head);
      MergeKeepsUserText(section, section, head);
    } else {
      MergeKeepsUserText(existing, section, head);
      var u := Around(existing).value;
      MergeKeepsUserText(u.prefix + section + u.suffix, section, head);
    }
  }

  lemma TrailerIsText()
    ensures |TRAILER| > 0
  {
  }

  /** A merge is refused exactly for files with text but without the block, and the error says whether the
      begin marker is missing or the end marker behind it. */
  lemma MergeRefused(existing: string, section: string)
    ensures Merged(existing, section).Err?
       <==> !Blank(existing)
            && !exists b, e :: FirstAt(existing, MARKER_BEGIN_PREFIX, b) && b <= e && OccursAt(existing, MARKER_END, e)
    ensures Merged(existing, section).Err? ==>
              Merged(existing, section).error == if exists b :: OccursAt(existing, MARKER_BEGIN_PREFIX, b)
                                                 then NO_END_MARKER else NO_MARKERS
  {
    hide OccursAt, MARKER_BEGIN_PREFIX, MARKER_END, Blank, NO_MARKERS, NO_END_MARKER;
    if b, e :| FirstAt(existing, MARKER_BEGIN_PREFIX, b) && b <= e && OccursAt(existing, MARKER_END, e) {
      InBounds(existing, MARKER_BEGIN_PREFIX, b);
      FindIs(existing, MARKER_BEGIN_PREFIX, b);
      OccursInSuffix(existing, MARKER_END, b, e);
      assert Around(existing).Ok?;
    }
    if Around(existing).Ok? {
      var b := Find(existing, MARKER_BEGIN_PREFIX).value;
      var inner := Find(existing[b..], MARKER_END).value;
      OccursInSuffix(existing, MARKER_END, b, b + inner);
    }
  }

  lemma OccursInSuffix(s: string, pat: string, n: nat, j: int)
    requires n <= |s| && n <= j
    ensures OccursAt(s, pat, j) == OccursAt(s[n..], pat, j - n)
  {
    if j + |pat| <= |s| {
      assert s[j..j + |pat|] == s[n..][j - n..j - n + |pat|];
    }
  }

  /** The whole text of a section. */
  lemma SectionText(patterns: seq<string>, version: string, timestamp: string)
    ensures Head(patterns, version, timestamp) + MARKER_END + "\n" + TRAILER
         == "# === ohara plan v" + version + " — auto-generated " + timestamp + " ===" + "\n" + Lines(patterns)
            + "# === end auto-generated ===" + "\n" + ("\n"
            + "# user-added lines below this marker are preserved across `ohara plan` re-runs (use --replace to overwrite the entire file)\n")
  {
  }

  /** `existing` is cut into the text before the first begin marker, the block up to the end of the first
      end marker from there on, the rest of that line with its newline, and the text below; if no newline
      follows the block, all that follows is the text below. */
  ghost predicate IsCut(existing: string, prefix: string, block: string, line: string, suffix: string) {
    && existing == prefix + block + line + suffix
    && FirstAt(existing, MARKER_BEGIN_PREFIX, |prefix|)
    && FirstAt(block + line + suffix, MARKER_END, |block| - |MARKER_END|)
    && if line == "" then '\n' !in suffix else FirstAt(line + suffix, "\n", |line| - 1)
  }

  lemma FirstInBounds(s: string, pat: string, i: int)
    requires FirstAt(s, pat, i)
    ensures 0 <= i && i + |pat| <= |s|
  {
  }

  lemma NoNewline(s: string)
    requires '\n' !in s
    ensures Find(s, "\n") == None
  {
    forall j
      ensures !OccursAt(s, "\n", j)
    {
      assert 0 <= j && j + 1 <= |s| ==> s[j..j + 1][0] == s[j];
    }
    FindNothing(s, "\n");
  }

  /** The user's text is what stands before the block and below the line it ends on, whatever that line
      holds behind the end marker. */
  lemma AroundIsCut(existing: string, prefix: string, block: string, line: string, suffix: string)
    requires IsCut(existing, prefix, block, line, suffix)
    ensures Around(existing) == Ok(Surroundings(prefix, suffix))
  {
    hide FirstAt, OccursAt, MARKER_BEGIN_PREFIX, MARKER_END, NO_MARKERS, NO_END_MARKER;
    FindIs(existing, MARKER_BEGIN_PREFIX, |prefix|);
    assert existing[|prefix|..] == block + line + suffix;
    FirstInBounds(block + line + suffix, MARKER_END, |block| - |MARKER_END|);
    FindIs(block + line + suffix, MARKER_END, |block| - |MARKER_END|);
    var end := |prefix| + |block|;
    assert existing[end..] == line + suffix;
    if line == "" {
      assert existing[end..] == suffix;
      NoNewline(suffix);
    } else {
      FirstInBounds(line + suffix, "\n", |line| - 1);
      FindIs(line + suffix, "\n", |line| - 1);
      assert existing[end + |line|..] == suffix;
    }
    assert existing[..|prefix|] == prefix;
  }
}
