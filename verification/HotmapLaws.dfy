/** What the hotmap's counts and suggestions mean. */
module HotmapLaws {
  import opened Hotmap

  // ---------------------------------------------------------------------------------------------
  // Components

  /** Components joined by slashes. */
  function Joined(cs: seq<string>): string
    requires cs != []
  {
    if |cs| == 1 then cs[0] else Joined(cs[..|cs| - 1]) + "/" + cs[|cs| - 1]
  }

  predicate NoSlash(cs: seq<string>) {
    forall i :: 0 <= i < |cs| ==> '/' !in cs[i]
  }

  lemma {:induction false} JoinFirst(c: string, cs: seq<string>)
    requires cs != []
    ensures Joined([c] + cs) == c + "/" + Joined(cs)
    decreases |cs|
  {
    var all := [c] + cs;
    if |cs| > 1 {
      JoinFirst(c, cs[..|cs| - 1]);
      assert all[..|all| - 1] == [c] + cs[..|cs| - 1];
    } else {
      assert all[..1] == [c];
    }
  }

  lemma {:induction false} JoinCons(c: char, cs: seq<string>)
    requires cs != []
    ensures Joined([[c] + cs[0]] + cs[1..]) == [c] + Joined(cs)
    decreases |cs|
  {
    var all := [[c] + cs[0]] + cs[1..];
    if |cs| > 1 {
      var n := |cs| - 1;
      JoinCons(c, cs[..n]);
      assert all[..n] == [[c] + cs[..n][0]] + cs[..n][1..];
      assert Joined(all) == Joined(all[..n]) + "/" + cs[n];
    }
  }

  /** Splitting loses nothing: the slash-free components join back to the path. */
  lemma {:induction false} SplitJoins(p: Path)
    ensures Joined(Split(p)) == p && NoSlash(Split(p))
    ensures p != "" && p[0] != '/' ==> Split(p)[0] != ""
  {
    if p != "" {
      SplitJoins(p[1..]);
      var rest := Split(p[1..]);
      if p[0] == '/' {
        JoinFirst("", rest);
        assert "" + "/" + p[1..] == p;
      } else {
        JoinCons(p[0], rest);
      }
    }
  }

  lemma {:induction false} JoinedPrefix(cs: seq<string>, i: nat)
    requires 1 <= i < |cs|
    ensures Joined(cs[..i]) + "/" <= Joined(cs)
    decreases |cs|
  {
    var n := |cs| - 1;
    if i < n {
      JoinedPrefix(cs[..n], i);
      assert cs[..n][..i] == cs[..i];
    }
  }

  /** The buffer is the join of the components so far, as long as the path does not open with a slash. */
  lemma {:induction false} BufIsJoined(cs: seq<string>, i: nat)
    requires 1 <= i <= |cs| && cs[0] != ""
    ensures Buf(cs, i) == Joined(cs[..i]) && Buf(cs, i) != ""
  {
    if i == 1 {
      assert cs[..1] == [cs[0]];
    } else {
      BufIsJoined(cs, i - 1);
      assert cs[..i][..i - 1] == cs[..i - 1];
    }
  }

  // ---------------------------------------------------------------------------------------------
  // Directory keys are the prefixes of the path

  /** A key that ends with a slash. */
  predicate IsDir(d: string) {
    d != "" && d[|d| - 1] == '/'
  }

  predicate Relative(p: Path) {
    p == "" || p[0] != '/'
  }

  lemma KeyOfComponent(p: Path, i: nat)
    requires p != "" && Relative(p) && 1 <= i <= |Split(p)|
    ensures KeyOf(p, Buf(Split(p), i)) == if i < |Split(p)| then Joined(Split(p)[..i]) + "/" else p
  {
    hide Split, Joined;
    var cs := Split(p);
    SplitJoins(p);
    BufIsJoined(cs, i);
    if i < |cs| {
      JoinedPrefix(cs, i);
    } else {
      assert cs[..i] == cs;
    }
  }

  lemma NoDirPrefix(c: string, d: string)
    requires '/' !in c && IsDir(d)
    ensures !(d <= c)
  {
    assert forall k :: 0 <= k < |c| ==> c[k] in c;
  }

  lemma DirEndsBefore(before: string, c: string, d: string)
    requires '/' !in c && IsDir(d) && d <= before + "/" + c
    ensures |d| <= |before| + 1
  {
    var all := before + "/" + c;
    assert forall k :: |before| + 1 <= k < |all| ==> all[k] == c[k - |before| - 1];
  }

  lemma {:induction false} DirPrefixIsJoin(cs: seq<string>, d: string) returns (i: nat)
    requires cs != [] && NoSlash(cs) && IsDir(d) && d <= Joined(cs)
    ensures 1 <= i < |cs| && d == Joined(cs[..i]) + "/"
    decreases |cs|
  {
    var n := |cs| - 1;
    NoDirPrefix(cs[0], d);
    var before := Joined(cs[..n]);
    var all := before + "/" + cs[n];
    DirEndsBefore(before, cs[n], d);
    if |d| == |before| + 1 {
      i := n;
      assert d == all[..|before| + 1] == before + "/";
    } else {
      assert d == all[..|d|] == before[..|d|];
      i := DirPrefixIsJoin(cs[..n], d);
      assert cs[..n][..i] == cs[..i];
    }
  }

  /** For a path that does not open with a slash, the directory keys are exactly its prefixes that end
      with one. */
  lemma DirKeysArePrefixes(p: Path, d: string)
    requires Relative(p) && IsDir(d)
    ensures d in KeysOf(p) <==> d <= p
  {
    hide Split, Joined, Buf, KeyOf;
    var cs := Split(p);
    SplitJoins(p);
    if p == "" {
      EmptyPathKeys();
    } else {
      if d in KeysOf(p) {
        var i :| 1 <= i <= |cs| && d == KeyOf(p, Buf(cs, i));
        KeyOfComponent(p, i);
        if i < |cs| {
          JoinedPrefix(cs, i);
        }
      }
      if d <= p {
        var i := DirPrefixIsJoin(cs, d);
        KeyOfComponent(p, i);
      }
    }
  }

  lemma EmptyPathKeys()
    ensures KeysOf("") == {""}
  {
    assert Split("") == [""];
    assert Buf([""], 1) == "";
    assert KeyOf("", "") == "";
    assert 1 <= 1 <= |Split("")|;
  }

  lemma {:induction false} BufNeverOpensWithSlash(cs: seq<string>, i: nat)
    requires i <= |cs| && NoSlash(cs)
    ensures Relative(Buf(cs, i))
  {
    if i > 0 {
      BufNeverOpensWithSlash(cs, i - 1);
    }
  }

  /** Paths that open with a slash lose it, so their deeper directories are not counted: the keys are
      the directory prefixes exactly if the path does not open with a slash or has no other one. */
  lemma DirKeysIff(p: Path)
    ensures (forall d :: IsDir(d) ==> (d in KeysOf(p) <==> d <= p)) <==> Relative(p) || '/' !in p[1..]
  {
    hide Split, Buf, KeyOf, KeysOf;
    if Relative(p) {
      forall d | IsDir(d)
        ensures d in KeysOf(p) <==> d <= p
      {
        DirKeysArePrefixes(p, d);
      }
    } else if '/' in p[1..] {
      var j :| 0 <= j < |p[1..]| && p[1..][j] == '/';
      var d := p[..j + 2];
      assert d[|d| - 1] == '/';
      NoLongRootedKey(p, d);
      assert IsDir(d) && d <= p && d !in KeysOf(p);
    } else {
      forall d | IsDir(d)
        ensures d in KeysOf(p) <==> d <= p
      {
        RootedPathKeys(p, d);
      }
    }
  }

  lemma RelativeKey(p: Path, buf: string)
    requires Relative(buf)
    ensures Relative(KeyOf(p, buf)) || KeyOf(p, buf) == "/"
  {
    assert (buf + "/")[0] == if buf == "" then '/' else buf[0];
  }

  lemma NoLongRootedKey(p: Path, d: string)
    requires |d| >= 2 && d[0] == '/'
    ensures d !in KeysOf(p)
  {
    hide Split, Buf;
    var cs := Split(p);
    SplitJoins(p);
    if d in KeysOf(p) {
      var i :| 1 <= i <= |cs| && d == KeyOf(p, Buf(cs, i));
      BufNeverOpensWithSlash(cs, i);
      RelativeKey(p, Buf(cs, i));
      assert false;
    }
  }

  lemma RootedPathKeys(p: Path, d: string)
    requires p != "" && p[0] == '/' && '/' !in p[1..] && IsDir(d)
    ensures d in KeysOf(p) <==> d <= p
  {
    hide Split;
    assert p == "" + "/" + p[1..];
    if d <= p {
      DirEndsBefore("", p[1..], d);
    }
    if d == "/" {
      RootKey(p);
    } else if d[0] == '/' {
      NoLongRootedKey(p, d);
    } else {
      RootedPathHasNoOtherDir(p, d);
    }
  }

  lemma RootKey(p: Path)
    requires p != "" && p[0] == '/'
    ensures "/" in KeysOf(p)
  {
    var cs := Split(p);
    assert cs[0] == "" && Buf(cs, 0) == "" && Buf(cs, 1) == "";
    assert "" + "/" == "/" && "/" <= p;
    assert KeyOf(p, Buf(cs, 1)) == "/";
  }

  lemma RootedSplit(p: Path)
    requires p != "" && p[0] == '/' && '/' !in p[1..]
    ensures Split(p) == ["", p[1..]]
  {
    SplitPlain(p[1..]);
  }

  lemma RootedPathHasNoOtherDir(p: Path, d: string)
    requires p != "" && p[0] == '/' && '/' !in p[1..] && IsDir(d) && d[0] != '/'
    ensures d !in KeysOf(p)
  {
    hide Split, Buf, KeyOf, IsDir;
    var cs := ["", p[1..]];
    RootedSplit(p);
    TwoBuffers(p[1..]);
    RootedKeys(p, "", d);
    RootedKeys(p, p[1..], d);
    forall i | 1 <= i <= |Split(p)|
      ensures KeyOf(p, Buf(Split(p), i)) != d
    {
      assert Split(p) == cs && (i == 1 || i == 2);
    }
  }

  lemma TwoBuffers(c: string)
    ensures Buf(["", c], 1) == "" && Buf(["", c], 2) == c
  {
    var cs := ["", c];
    assert Buf(cs, 0) == "";
    assert Buf(cs, 1) == "" + "";
    assert Buf(cs, 2) == "" + c;
  }

  lemma RootedKeys(p: Path, buf: string, d: string)
    requires p != "" && p[0] == '/' && '/' !in p[1..] && IsDir(d) && d[0] != '/'
    requires buf == "" || buf == p[1..]
    ensures d != KeyOf(p, buf)
  {
    NoDirPrefix(p[1..], d);
    assert (buf + "/")[0] == if buf == "" then '/' else buf[0];
  }

  lemma {:induction false} SplitPlain(p: Path)
    requires '/' !in p
    ensures Split(p) == [p]
  {
    if p != "" {
      SplitPlain(p[1..]);
      assert [p[0]] + p[1..] == p;
    }
  }

  // ---------------------------------------------------------------------------------------------
  // Counts

  predicate Touches(paths: seq<Path>, d: string) {
    exists i :: 0 <= i < |paths| && d <= paths[i]
  }

  /** The number of commits that have a path starting with `d`. */
  function CommitsUnder(commits: seq<seq<Path>>, d: string): (n: nat)
    ensures n <= |commits|
  {
    if commits == [] then 0
    else CommitsUnder(commits[..|commits| - 1], d) + if Touches(commits[|commits| - 1], d) then 1 else 0
  }

  predicate AllRelative(commits: seq<seq<Path>>) {
    forall c, i :: 0 <= c < |commits| && 0 <= i < |commits[c]| ==> Relative(commits[c][i])
  }

  function Count(commits: seq<seq<Path>>, key: string): nat {
    if key in CountsOf(commits) then CountsOf(commits)[key] else 0
  }

  lemma {:induction false} CommitKeysTouch(paths: seq<Path>, d: string)
    requires IsDir(d) && forall i :: 0 <= i < |paths| ==> Relative(paths[i])
    ensures d in CommitKeys(paths) <==> Touches(paths, d)
    decreases |paths|
  {
    if paths != [] {
      var n := |paths| - 1;
      CommitKeysTouch(paths[..n], d);
      DirKeysArePrefixes(paths[n], d);
      if Touches(paths[..n], d) {
        var i :| 0 <= i < n && d <= paths[..n][i];
        assert d <= paths[i];
      }
      if Touches(paths, d) {
        var i :| 0 <= i < |paths| && d <= paths[i];
        assert i < n ==> d <= paths[..n][i];
      }
    }
  }

  /** The count of a directory is the number of commits that have a path under it. */
  lemma {:induction false} CountsAreCommits(commits: seq<seq<Path>>, d: string)
    requires AllRelative(commits) && IsDir(d)
    ensures Count(commits, d) == CommitsUnder(commits, d)
    ensures d in CountsOf(commits) <==> CommitsUnder(commits, d) > 0
    decreases |commits|
  {
    hide CommitKeys, Touches;
    if commits != [] {
      var n := |commits| - 1;
      CountsAreCommits(commits[..n], d);
      CommitKeysTouch(commits[n], d);
    }
  }

  lemma {:induction false} UnderIsMonotone(commits: seq<seq<Path>>, parent: string, child: string)
    requires parent <= child
    ensures CommitsUnder(commits, child) <= CommitsUnder(commits, parent)
    decreases |commits|
  {
    if commits != [] {
      var n := |commits| - 1;
      UnderIsMonotone(commits[..n], parent, child);
      if Touches(commits[n], child) {
        var i :| 0 <= i < |commits[n]| && child <= commits[n][i];
        assert parent <= commits[n][i];
      }
    }
  }

  /** No directory counts more than the total, and none more than its parent. */
  lemma CountsShrinkDownwards(commits: seq<seq<Path>>, parent: string, child: string)
    requires AllRelative(commits) && IsDir(parent) && IsDir(child) && parent <= child
    ensures Count(commits, child) <= Count(commits, parent) <= |commits|
  {
    hide CountsOf, CommitsUnder, Count;
    CountsAreCommits(commits, parent);
    CountsAreCommits(commits, child);
    UnderIsMonotone(commits, parent, child);
  }

  // ---------------------------------------------------------------------------------------------
  // Suggestions

  lemma {:induction false} SlashesCount(key: string)
    ensures Slashes(key) == 0 <==> '/' !in key
  {
    if key != "" {
      SlashesCount(key[1..]);
      assert key == [key[0]] + key[1..];
    }
  }

  lemma {:induction false} SlashesSplit(a: string, b: string)
    ensures Slashes(a + b) == Slashes(a) + Slashes(b)
  {
    if a == "" {
      assert a + b == b;
    } else {
      SlashesSplit(a[1..], b);
      assert (a + b)[1..] == a[1..] + b;
    }
  }

  /** Exactly one slash, at the end: one slash-free component and a slash. */
  lemma TopLevelDirs(key: string)
    ensures IsTopLevelDir(key) <==> IsDir(key) && '/' !in key[..|key| - 1]
  {
    if IsDir(key) {
      var n := |key| - 1;
      SlashesSplit(key[..n], key[n..]);
      assert key == key[..n] + key[n..] && key[n..] == "/";
      assert Slashes("/") == 1;
      SlashesCount(key[..n]);
    }
  }

  lemma ShareInWhole(count: nat, total: nat)
    ensures HighShare(count, total) <==> total > 0 && 20 * count >= total
  {
    if total > 0 {
      TwentiethOf(count as real, total as real);
      assert 20.0 * count as real >= total as real <==> 20 * count >= total;
    }
  }

  lemma TwentiethOf(c: real, t: real)
    requires t > 0.0
    ensures c / t >= 0.05 <==> 20.0 * c >= t
  {
    var q := c / t;
    assert q * t == c;
    var r := q - 0.05;
    assert r * t == c - 0.05 * t;
    SignOfProduct(r, t);
  }

  lemma SignOfProduct(r: real, t: real)
    requires t > 0.0
    ensures r >= 0.0 <==> r * t >= 0.0
  {
  }

  /** The suggestions are exactly the top-level directories outside the docs allowlist that at least
      5% of the commits touch. */
  lemma SuggestionsAreBusyDirs(commits: seq<seq<Path>>, d: string)
    requires AllRelative(commits) && commits != []
    ensures IsSuggested(CountsOf(commits), |commits|, d)
       <==> && IsDir(d) && '/' !in d[..|d| - 1]
            && d !in ["Documentation/", "docs/", "doc/"]
            && 20 * CommitsUnder(commits, d) >= |commits|
  {
    assert d in DOCS_ALLOWLIST <==> d in ["Documentation/", "docs/", "doc/"];
    hide CountsOf, IsTopLevelDir, HighShare, CommitsUnder, DOCS_ALLOWLIST, IsDir, AllRelative;
    TopLevelDirs(d);
    if IsDir(d) {
      CountsAreCommits(commits, d);
      ShareInWhole(CommitsUnder(commits, d), |commits|);
    }
  }
}
