/** The two blocks `ohara init` writes, with their texts. */
module InitTexts {
  import opened Wrappers
  import opened Text
  import opened ManagedBlocks

  /** Text without the character that sets the end markers apart. */
  type Plain = s: string | Lacks(s, '<') witness ""

  function Joined(pieces: seq<Plain>): Plain {
    if pieces == [] then ""
    else
      LacksBoth(pieces[0], Joined(pieces[1..]), '<');
      pieces[0] + Joined(pieces[1..])
  }

  // The bodies are cut into short pieces because what a long string literal lacks is costly to prove;
  // where the cuts fall has no meaning.
  const HOOK_TEXT_1: seq<Plain> := ["# Re-index this repo on every ", "commit. Silently skipped if `ohara` "]
  const HOOK_TEXT_2: seq<Plain> := ["is not on PATH.\n# Pinned to the CPU ", "embedder on purpose: a per-commit "]
  const HOOK_TEXT_3: seq<Plain> := ["incremental index is a\n# tiny batch ", "(a handful of hunks), so it can't "]
  const HOOK_TEXT_4: seq<Plain> := ["amortize CoreML's one-time ~30s\n# ", "compile — CPU keeps `git commit` "]
  const HOOK_TEXT_5: seq<Plain> := ["fast. `auto` still picks CoreML for ", "larger\n# manual `ohara index` runs.\n"]
  const HOOK_TEXT_6: seq<Plain> := ["if command -v ohara >/dev/null 2>&1; ", "then\n  ( cd \"$(git rev-parse "]
  const HOOK_TEXT_7: seq<Plain> := ["--show-toplevel)\" && ohara index ", "--incremental --embed-provider cpu "]
  const HOOK_TEXT_8: seq<Plain> := [">/dev/null 2>&1 ) || true\nfi"]
  const HOOK_BODY: seq<Plain> :=
    HOOK_TEXT_1 + HOOK_TEXT_2 + HOOK_TEXT_3 + HOOK_TEXT_4 + HOOK_TEXT_5
    + HOOK_TEXT_6 + HOOK_TEXT_7 + HOOK_TEXT_8

  const CLAUDE_TEXT_1: seq<Plain> := ["## ohara\n\nThis repo is indexed by ", "[ohara](https://github.com/vss"]
  const CLAUDE_TEXT_2: seq<Plain> := ["96/ohara). Use the `find_pattern` ", "MCP tool to ask \"how have we solved "]
  const CLAUDE_TEXT_3: seq<Plain> := ["X before?\" — it returns ranked ", "commits with diff excerpts and "]
  const CLAUDE_TEXT_4: seq<Plain> := ["provenance.\n\n- Index updates ", "automatically via the `post-commit` "]
  const CLAUDE_TEXT_5: seq<Plain> := ["hook installed by `ohara init`.\n- ", "Manual refresh: `ohara index "]
  const CLAUDE_TEXT_6: seq<Plain> := ["--incremental`.\n- Status: `ohara ", "status`."]
  const CLAUDE_BODY: seq<Plain> :=
    CLAUDE_TEXT_1 + CLAUDE_TEXT_2 + CLAUDE_TEXT_3 + CLAUDE_TEXT_4
    + CLAUDE_TEXT_5 + CLAUDE_TEXT_6

  const SHEBANG := "#!/bin/sh"
  const HOOK_BEGIN := "# >>> ohara managed (do not edit) >>>"
  const HOOK_END := "# <<< ohara managed <<<"
  const CLAUDE_BEGIN := "<!-- ohara:start -->"
  const CLAUDE_END := "<!-- ohara:end -->"

  const HOOK := Fence(Some(SHEBANG), HOOK_BEGIN, Joined(HOOK_BODY), HOOK_END)
  const STANZA := Fence(None, CLAUDE_BEGIN, Joined(CLAUDE_BODY), CLAUDE_END)

  /** An end marker whose character at `k` is '<' cannot start inside a text that has no '<' from
      position `plain` on up to the marker. */
  lemma EndsFence(f: Fence, k: nat, plain: nat)
    requires k < |f.end| && f.end[k] == '<'
    requires plain <= |f.begin| && Lacks(f.begin[plain..], '<') && Lacks(f.body, '<')
    requires Lacks(f.end[..k], '<')
    requires forall j :: 0 <= j && j + k < plain ==> !OccursAt(Managed(f), f.end, j)
    ensures FirstAt(Managed(f), f.end, |Managed(f)| - |f.end|)
  {
    var m := Managed(f);
    var n := |m| - |f.end|;
    assert m[n..n + |f.end|] == f.end;
    forall i | plain <= i < n + k
      ensures m[i] != '<'
    {
      if i < |f.begin| {
        assert m[i] == f.begin[plain..][i - plain];
      } else if i >= n {
        assert m[i] == f.end[..k][i - n];
      }
    }
    hide Managed, OccursAt;
    forall j | 0 <= j < n
      ensures !OccursAt(m, f.end, j)
    {
      if j + k >= plain {
        Mismatch(m, f.end, j, k);
      }
    }
  }

  lemma HookMarkers()
    ensures |SHEBANG| < |HOOK_BEGIN| && 2 < |HOOK_END| && HOOK_END[2] == '<'
    ensures Lacks(HOOK_END, '\n') && Lacks(HOOK_END[..2], '<')
  {
  }

  lemma HookBegin()
    ensures Lacks(HOOK_BEGIN, '\n') && Lacks(HOOK_BEGIN, '<')
  {
  }

  lemma ClaudeMarkers()
    ensures 11 < |CLAUDE_BEGIN| && CLAUDE_BEGIN[11] == 's' && 11 < |CLAUDE_END| && CLAUDE_END[11] == 'e'
    ensures CLAUDE_END[0] == '<' && Lacks(CLAUDE_END, '\n')
  {
  }

  lemma ClaudeBegin()
    ensures Lacks(CLAUDE_BEGIN, '\n') && Lacks(CLAUDE_BEGIN[1..], '<')
  {
  }

  /** The hook block `ohara init` installs is well fenced. */
  lemma HookIsWellFenced()
    ensures WellFenced(HOOK)
  {
    hide HOOK_BEGIN, HOOK_END, SHEBANG, HOOK_BODY, Joined, Managed;
    HookMarkers();
    HookBegin();
    EndsFence(HOOK, 2, 0);
  }

  /** So is the CLAUDE.md stanza. */
  lemma StanzaIsWellFenced()
    ensures WellFenced(STANZA)
  {
    hide CLAUDE_BEGIN, CLAUDE_END, CLAUDE_BODY, Joined;
    ClaudeMarkers();
    ClaudeBegin();
    Mismatch(Managed(STANZA), CLAUDE_END, 0, 11);
    EndsFence(STANZA, 0, 1);
  }

  /** A fresh post-commit hook and a fresh CLAUDE.md, line by line around the body. */
  lemma FreshFiles()
    ensures FreshFile(HOOK) == "#!/bin/sh" + "\n" + ("# >>> ohara managed (do not edit) >>>" + "\n" + Joined(HOOK_BODY)
                               + "\n" + "# <<< ohara managed <<<") + "\n"
    ensures FreshFile(STANZA) == "" + ("<!-- ohara:start -->" + "\n" + Joined(CLAUDE_BODY)
                                 + "\n" + "<!-- ohara:end -->") + "\n"
  {
    hide HOOK_BODY, CLAUDE_BODY, Joined;
  }
}
