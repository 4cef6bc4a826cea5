/** The marker-fenced blocks that `ohara init` keeps in the post-commit hook and in CLAUDE.md. */
module ManagedBlocks {
  import opened Wrappers
  import opened Text

  type Error = string

  /** A managed block: its two markers, its body, and the line a fresh file opens with. */
  datatype Fence = Fence(firstLine: Option<string>, begin: string, body: string, end: string)

  function Managed(f: Fence): string {
    f.begin + "\n" + f.body + "\n" + f.end
  }

  function FreshFile(f: Fence): string {
    (if f.firstLine.Some? then f.firstLine.value + "\n" else "") + Managed(f) + "\n"
  }

  // ---------------------------------------------------------------------------------------------
  // Replace and append

  /** `s` is `pre + block + post`, where the block runs from the first begin marker to the end of the
      first end marker from there on. */
  ghost predicate IsBlock(s: string, begin: string, end: string, pre: string, block: string, post: string) {
    && s == pre + block + post
    && FirstAt(s, begin, |pre|)
    && FirstAt(block + post, end, |block| - |end|)
  }

  function ReplaceBlock(existing: string, begin: string, end: string, managed: string): Option<string> {
    match Find(existing, begin)
    case None => None
    case Some(b) =>
      match Find(existing[b..], end)
      case None => None
      case Some(inner) =>
        var e := b + inner + |end|;
        Some(existing[..b] + managed + existing[e..])
  }

  /** Only the block changes: the text before and after it is kept verbatim. */
  lemma ReplaceIsSplice(existing: string, begin: string, end: string, managed: string, pre: string, block: string,
                        post: string)
    requires IsBlock(existing, begin, end, pre, block, post)
    ensures ReplaceBlock(existing, begin, end, managed) == Some(pre + managed + post)
  {
    hide FirstAt, OccursAt;
    FindIs(existing, begin, |pre|);
    assert existing[|pre|..] == block + post;
    EndsInBounds(block + post, end, |block| - |end|);
    FindIs(block + post, end, |block| - |end|);
    assert existing[..|pre|] == pre;
    assert existing[|pre| + |block|..] == post;
  }

  lemma EndsInBounds(s: string, pat: string, i: int)
    requires FirstAt(s, pat, i)
    ensures 0 <= i && i + |pat| <= |s|
  {
  }

  /** It fails exactly on texts without such a block. */
  lemma ReplaceNeedsBlock(existing: string, begin: string, end: string, managed: string)
    ensures ReplaceBlock(existing, begin, end, managed).Some?
       <==> exists pre, block, post :: IsBlock(existing, begin, end, pre, block, post)
  {
    hide FirstAt, OccursAt;
    if ReplaceBlock(existing, begin, end, managed).Some? {
      var b := Find(existing, begin).value;
      var rest := existing[b..];
      var inner := Find(rest, end).value;
      EndsInBounds(rest, end, inner);
      var block, post := rest[..inner + |end|], rest[inner + |end|..];
      assert rest == block + post;
      assert existing == existing[..b] + block + post;
      assert IsBlock(existing, begin, end, existing[..b], block, post);
    }
    if pre, block, post :| IsBlock(existing, begin, end, pre, block, post) {
      ReplaceIsSplice(existing, begin, end, managed, pre, block, post);
    }
  }

  function Separator(existing: string): string {
    if existing != "" && existing[|existing| - 1] == '\n' then "\n" else "\n\n"
  }

  method AppendManagedBlock(existing: string, managed: string) returns (out: string)
    ensures out == existing + Separator(existing) + managed + "\n"
  {
    out := existing;
    if !(out != "" && out[|out| - 1] == '\n') {
      out := out + "\n";
    }
    out := out + "\n";
    out := out + managed;
    out := out + "\n";
  }

  // ---------------------------------------------------------------------------------------------
  // Installing

  /** The file after `ohara init`, or the error that leaves it as it was. */
  function Installed(existing: Option<string>, f: Fence, force: bool): Result<string, Error> {
    if existing.None? || force then Ok(FreshFile(f))
    else
      var text := existing.value;
      if Find(text, f.begin).Some? && Find(text, f.end).Some? then
        match ReplaceBlock(text, f.begin, f.end, Managed(f))
        case None => Err("failed to replace managed block")
        case Some(out) => Ok(out)
      else Ok(text + Separator(text) + Managed(f) + "\n")
  }

  class TextFile {
    var contents: Option<string>

    constructor (initial: Option<string>)
      ensures contents == initial
    {
      contents := initial;
    }

    /** `write_hook` and, with another fence and no `force`, `write_claude_md`. */
    method Install(f: Fence, force: bool) returns (r: Result<(), Error>)
      modifies this
      ensures var after := Installed(old(contents), f, force);
              && (after.Ok? ==> r == Ok(()) && contents == Some(after.value))
              && (after.Err? ==> r == Err(after.error) && contents == old(contents))
    {
      var newContents: string;
      if contents.None? || force {
        newContents := (if f.firstLine.Some? then f.firstLine.value + "\n" else "") + Managed(f) + "\n";
      } else {
        var existing := contents.value;
        if Find(existing, f.begin).Some? && Find(existing, f.end).Some? {
          var replaced := ReplaceBlock(existing, f.begin, f.end, Managed(f));
          if replaced.None? {
            return Err("failed to replace managed block");
          }
          newContents := replaced.value;
        } else {
          newContents := AppendManagedBlock(existing, Managed(f));
        }
      }
      contents := Some(newContents);
      r := Ok(());
    }
  }

  // ---------------------------------------------------------------------------------------------
  // Installing again

  /** One-line markers, no end marker inside the block, no begin marker in the line above it. */
  ghost predicate WellFenced(f: Fence) {
    && f.begin != "" && '\n' !in f.begin
    && f.end != "" && '\n' !in f.end
    && FirstAt(Managed(f), f.end, |Managed(f)| - |f.end|)
    && (f.firstLine.Some? ==> forall j :: !OccursAt(f.firstLine.value, f.begin, j))
  }

  /** The first begin marker, if there is one, is followed by an end marker. */
  predicate Ready(text: string, f: Fence) {
    var b := Find(text, f.begin);
    b.Some? ==> Find(text[b.value..], f.end).Some?
  }

  /** A text whose first begin marker opens the current block is left as it is. */
  lemma CurrentBlockStays(pre: string, post: string, f: Fence)
    requires WellFenced(f) && FirstAt(pre + Managed(f) + post, f.begin, |pre|)
    ensures Installed(Some(pre + Managed(f) + post), f, false) == Ok(pre + Managed(f) + post)
  {
    hide FirstAt, OccursAt, Managed;
    var text, m := pre + Managed(f) + post, Managed(f);
    FirstStays(m, f.end, |m| - |f.end|, post);
    assert text == pre + m + post;
    assert IsBlock(text, f.begin, f.end, pre, m, post);
    ReplaceIsSplice(text, f.begin, f.end, m, pre, m, post);
    FindIs(text, f.begin, |pre|);
    assert text[|pre|..] == m + post;
    EndsInSuffix(text, f.end, |pre|, |m| - |f.end|);
  }

  lemma EndsInSuffix(text: string, pat: string, n: nat, i: int)
    requires n <= |text| && FirstAt(text[n..], pat, i)
    ensures Find(text, pat).Some?
  {
    assert text[n..][i..i + |pat|] == text[n + i..n + i + |pat|];
    assert OccursAt(text, pat, n + i);
  }

  lemma FirstAfterSeparator(text: string, y: string, pat: string, i: int)
    requires '\n' !in pat && pat != "" && (forall j :: !OccursAt(text, pat, j)) && FirstAt(y, pat, i)
    ensures FirstAt(text + Separator(text) + y, pat, |text| + |Separator(text)| + i)
  {
    hide FirstAt, OccursAt;
    if Separator(text) == "\n" {
      FirstAfterLines(text, y, pat, i);
    } else {
      NothingInEmpty(pat);
      FirstAfterLines("", y, pat, i);
      assert "" + "\n" + y == "\n" + y;
      FirstAfterLines(text, "\n" + y, pat, 1 + i);
      assert text + "\n\n" + y == text + "\n" + ("\n" + y);
    }
  }

  lemma NothingInEmpty(pat: string)
    requires pat != ""
    ensures forall j :: !OccursAt("", pat, j)
  {
  }

  lemma ManagedOpens(f: Fence, post: string)
    requires f.begin != ""
    ensures FirstAt(Managed(f) + post, f.begin, 0) && f.begin <= Managed(f)
  {
    var s := Managed(f) + post;
    assert s == f.begin + ("\n" + f.body + "\n" + f.end + post);
    assert s[0..0 + |f.begin|] == f.begin;
  }

  /** Every file an install creates from nothing, or by force, is left alone by the next one. */
  lemma FreshStays(f: Fence)
    requires WellFenced(f)
    ensures Installed(Some(FreshFile(f)), f, false) == Ok(FreshFile(f))
  {
    hide FirstAt, OccursAt, Managed;
    var m := Managed(f);
    ManagedOpens(f, "\n");
    if f.firstLine.Some? {
      var line := f.firstLine.value;
      FirstAfterLines(line, m + "\n", f.begin, 0);
      var pre := line + "\n";
      assert line + "\n" + (m + "\n") == pre + m + "\n" == FreshFile(f);
      CurrentBlockStays(pre, "\n", f);
    } else {
      assert "" + m + "\n" == m + "\n" == FreshFile(f);
      CurrentBlockStays("", "\n", f);
    }
  }

  lemma ReplacedStays(text: string, f: Fence)
    requires WellFenced(f) && Find(text, f.begin).Some? && Find(text[Find(text, f.begin).value..], f.end).Some?
    ensures Installed(Some(text), f, false).Ok?
    ensures var r := Installed(Some(text), f, false).value; Installed(Some(r), f, false) == Ok(r)
  {
    hide FirstAt, OccursAt, Managed;
    var b := Find(text, f.begin).value;
    var inner := Find(text[b..], f.end).value;
    EndsInSuffix(text, f.end, b, inner);
    EndsInBounds(text[b..], f.end, inner);
    var post := text[b + inner + |f.end|..];
    var r := text[..b] + Managed(f) + post;
    assert Installed(Some(text), f, false) == Ok(r);
    ManagedOpens(f, post);
    FirstIsKept(text, f.begin, b, Managed(f) + post);
    assert text[..b] + (Managed(f) + post) == r;
    CurrentBlockStays(text[..b], post, f);
  }

  lemma AppendedStays(text: string, f: Fence)
    requires WellFenced(f) && Find(text, f.begin).None?
    ensures Installed(Some(text), f, false).Ok?
    ensures var r := Installed(Some(text), f, false).value; Installed(Some(r), f, false) == Ok(r)
  {
    hide FirstAt, OccursAt, Managed, Separator;
    var m, sep := Managed(f), Separator(text);
    ManagedOpens(f, "\n");
    FirstAfterSeparator(text, m + "\n", f.begin, 0);
    var pre := text + sep;
    assert pre + (m + "\n") == pre + m + "\n";
    assert Installed(Some(text), f, false) == Ok(pre + m + "\n");
    CurrentBlockStays(pre, "\n", f);
  }

  /** An unclosed begin marker: the block is appended, and the next install cuts everything from the
      old marker to the new block. */
  lemma UnclosedIsCut(text: string, f: Fence)
    requires WellFenced(f) && Find(text, f.begin).Some? && Find(text, f.end).None?
    ensures var b := Find(text, f.begin).value;
            var r := text + Separator(text) + Managed(f) + "\n";
            && Installed(Some(text), f, false) == Ok(r)
            && Installed(Some(r), f, false) == Ok(text[..b] + Managed(f) + "\n")
  {
    hide FirstAt, OccursAt, Managed, Separator, IsBlock, ReplaceBlock, Find;
    var b := Find(text, f.begin).value;
    var m, sep := Managed(f), Separator(text);
    var r := text + sep + m + "\n";
    var block := text[b..] + sep + m;
    UnclosedBlock(text, f, b);
    ReplaceIsSplice(r, f.begin, f.end, m, text[..b], block, "\n");
  }

  lemma UnclosedBlock(text: string, f: Fence, b: nat)
    requires WellFenced(f) && FirstAt(text, f.begin, b) && b < |text| && Find(text, f.end).None?
    ensures var r := text + Separator(text) + Managed(f) + "\n";
            && IsBlock(r, f.begin, f.end, text[..b], text[b..] + Separator(text) + Managed(f), "\n")
            && Find(r, f.begin).Some? && Find(r, f.end).Some?
  {
    hide FirstAt, OccursAt, Managed, Separator;
    var m, sep := Managed(f), Separator(text);
    var r := text + sep + m + "\n";
    var block := text[b..] + sep + m;
    UnclosedShape(text, sep, m, b);
    FirstStays(text, f.begin, b, sep + m + "\n");
    FindIs(r, f.begin, b);
    FirstStays(m, f.end, |m| - |f.end|, "\n");
    NoneInSuffix(text, f.end, b);
    TailSeparator(text, b);
    FirstAfterSeparator(text[b..], m + "\n", f.end, |m| - |f.end|);
    assert |block| - |f.end| == |text[b..]| + |sep| + (|m| - |f.end|);
    EndsInSuffix(r, f.end, b, |block| - |f.end|);
  }

  lemma UnclosedShape(text: string, sep: string, m: string, b: nat)
    requires b <= |text|
    ensures var r := text + sep + m + "\n";
            var block := text[b..] + sep + m;
            && r == text + (sep + m + "\n")
            && r == text[..b] + block + "\n"
            && block + "\n" == text[b..] + sep + (m + "\n") == r[b..]
  {
  }

  lemma NoneInSuffix(text: string, pat: string, n: nat)
    requires n <= |text| && Find(text, pat).None?
    ensures forall j :: !OccursAt(text[n..], pat, j)
  {
    forall j
      ensures !OccursAt(text[n..], pat, j)
    {
      assert !OccursAt(text, pat, n + j);
      assert 0 <= j && j + |pat| <= |text| - n ==> text[n..][j..j + |pat|] == text[n + j..n + j + |pat|];
    }
  }

  lemma TailSeparator(text: string, b: nat)
    requires b < |text|
    ensures Separator(text[b..]) == Separator(text)
  {
  }

  /** Installing twice equals installing once exactly for the texts whose first begin marker, if any,
      is followed by an end marker. On the others the first install fails, or the second one cuts. */
  lemma InstallTwiceIsOnce(text: string, f: Fence)
    requires WellFenced(f)
    ensures var once := Installed(Some(text), f, false);
            Ready(text, f) <==> once.Ok? && Installed(Some(once.value), f, false) == once
  {
    hide FirstAt, OccursAt, Managed, Separator;
    var b := Find(text, f.begin);
    if b.None? {
      AppendedStays(text, f);
    } else if Find(text[b.value..], f.end).Some? {
      ReplacedStays(text, f);
    } else if Find(text, f.end).None? {
      UnclosedIsCut(text, f);
      EndsInBounds(text, f.begin, b.value);
      var r := text + Separator(text) + Managed(f) + "\n";
      assert |text[..b.value] + Managed(f) + "\n"| < |r|;
    }
  }

  function InstalledTimes(existing: Option<string>, f: Fence, n: nat): Result<string, Error>
    requires n > 0
  {
    if n == 1 then Installed(existing, f, false)
    else
      var before :- InstalledTimes(existing, f, n - 1);
      Installed(Some(before), f, false)
  }

  /** Any number of installs leave what the first one left. */
  lemma {:induction false} AnyNumberOfInstalls(existing: Option<string>, f: Fence, n: nat)
    requires WellFenced(f) && n > 0
    requires existing.Some? ==> Ready(existing.value, f)
    ensures InstalledTimes(existing, f, n).Ok?
    ensures InstalledTimes(existing, f, n) == Installed(existing, f, false)
  {
    hide WellFenced, Ready, FreshFile, Find, ReplaceBlock, Managed, Separator;
    assert existing.None? ==> Installed(existing, f, false) == Ok(FreshFile(f));
    hide Installed;
    if existing.Some? {
      InstallTwiceIsOnce(existing.value, f);
    } else {
      FreshStays(f);
    }
    if n > 1 {
      AnyNumberOfInstalls(existing, f, n - 1);
    }
  }
}
