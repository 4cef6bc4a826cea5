/** The directory hotmap of `ohara plan`: how many commits touched each directory. */
module Hotmap {
  import opened Sorting

  type Path = string

  // ---------------------------------------------------------------------------------------------
  // Paths and their keys

  /** `p.split('/')`. */
  function Split(p: Path): (cs: seq<string>)
    ensures cs != []
  {
    if p == "" then [""]
    else
      var rest := Split(p[1..]);
      if p[0] == '/' then [""] + rest else [[p[0]] + rest[0]] + rest[1..]
  }

  /** The buffer after the first `i` components. */
  function Buf(cs: seq<string>, i: nat): string
    requires i <= |cs|
  {
    if i == 0 then ""
    else
      var before := Buf(cs, i - 1);
      (if before != "" then before + "/" else before) + cs[i - 1]
  }

  /** A directory gets a trailing slash, a leaf does not. */
  function KeyOf(p: Path, buf: string): string {
    if buf + "/" <= p then buf + "/" else buf
  }

  /** The keys of the first `i` components of a path. */
  function KeysUpTo(p: Path, i: nat): (r: set<string>)
    requires i <= |Split(p)|
  {
    set j | 1 <= j <= i :: KeyOf(p, Buf(Split(p), j))
  }

  function KeysOf(p: Path): set<string> {
    KeysUpTo(p, |Split(p)|)
  }

  function CommitKeys(paths: seq<Path>): set<string> {
    if paths == [] then {} else CommitKeys(paths[..|paths| - 1]) + KeysOf(paths[|paths| - 1])
  }

  /** The counts after one more commit with these keys. */
  function Bumped(counts: map<string, nat>, keys: set<string>): map<string, nat> {
    map k | k in counts.Keys + keys :: (if k in counts then counts[k] else 0) + if k in keys then 1 else 0
  }

  /** `*counts.entry(key).or_insert(0) += 1`. */
  function CountedOnce(counts: map<string, nat>, key: string): map<string, nat> {
    counts[key := (if key in counts then counts[key] else 0) + 1]
  }

  function CountsOf(commits: seq<seq<Path>>): map<string, nat> {
    if commits == [] then map[]
    else Bumped(CountsOf(commits[..|commits| - 1]), CommitKeys(commits[|commits| - 1]))
  }

  // ---------------------------------------------------------------------------------------------
  // The aggregator

  class HotmapAggregator {
    var counts: map<string, nat>
    var total: nat
    ghost var commits: seq<seq<Path>>

    ghost predicate Valid()
      reads this
    {
      total == |commits| && counts == CountsOf(commits)
    }

    constructor ()
      ensures Valid() && commits == []
    {
      counts := map[];
      total := 0;
      commits := [];
    }

    method Record(paths: seq<Path>)
      requires Valid()
      modifies this
      ensures Valid() && commits == old(commits) + [paths]
    {
      total := total + 1;
      var seen: set<string> := {};
      ghost var counts0 := counts;
      hide *;
      NothingRecorded(counts0, paths);
      for i := 0 to |paths|
        invariant RecordedPaths(counts0, counts, seen, paths, i)
        modifies `counts
      {
        var p := paths[i];
        var components := Split(p);
        var buf := "";
        PathStarts(counts0, counts, seen, paths, i);
        for j := 0 to |components|
          invariant Recorded(counts0, counts, seen, paths, i, j, buf)
          modifies `counts
        {
          ghost var buf0 := buf;
          if buf != "" {
            buf := buf + "/";
          }
          buf := buf + components[j];
          var key := KeyOf(p, buf);
          RecordedStep(counts0, counts, seen, paths, i, j, buf0, buf, key);
          if key !in seen {
            seen := seen + {key};
            counts := CountedOnce(counts, key);
          }
        }
        PathEnds(counts0, counts, seen, paths, i, buf);
      }
      AllRecorded(counts0, counts, seen, paths);
      CountsStep(commits, paths);
      commits := commits + [paths];
      StillValid();
    }

    lemma StillValid()
      requires total == |commits| && counts == CountsOf(commits)
      ensures Valid()
    {
    }
  }

  /** The first `i` paths of a commit have been recorded. */
  ghost predicate RecordedPaths(counts0: map<string, nat>, counts: map<string, nat>, seen: set<string>,
                                paths: seq<Path>, i: nat)
  {
    i <= |paths| && seen == CommitKeys(paths[..i]) && counts == Bumped(counts0, seen)
  }

  /** And the first `j` components of the next one. */
  ghost predicate Recorded(counts0: map<string, nat>, counts: map<string, nat>, seen: set<string>,
                           paths: seq<Path>, i: nat, j: nat, buf: string)
  {
    && i < |paths| && j <= |Split(paths[i])|
    && buf == Buf(Split(paths[i]), j)
    && seen == CommitKeys(paths[..i]) + KeysUpTo(paths[i], j)
    && counts == Bumped(counts0, seen)
  }

  lemma NothingRecorded(counts0: map<string, nat>, paths: seq<Path>)
    ensures RecordedPaths(counts0, counts0, {}, paths, 0)
  {
    assert Bumped(counts0, {}) == counts0;
  }

  lemma AllRecorded(counts0: map<string, nat>, counts: map<string, nat>, seen: set<string>, paths: seq<Path>)
    requires RecordedPaths(counts0, counts, seen, paths, |paths|)
    ensures counts == Bumped(counts0, CommitKeys(paths))
  {
    assert paths[..|paths|] == paths;
  }

  lemma PathStarts(counts0: map<string, nat>, counts: map<string, nat>, seen: set<string>, paths: seq<Path>, i: nat)
    requires i < |paths| && RecordedPaths(counts0, counts, seen, paths, i)
    ensures Recorded(counts0, counts, seen, paths, i, 0, "")
  {
    hide Split, Bumped, CommitKeys;
    assert KeysUpTo(paths[i], 0) == {};
  }

  lemma PathEnds(counts0: map<string, nat>, counts: map<string, nat>, seen: set<string>, paths: seq<Path>, i: nat,
                 buf: string)
    requires i < |paths| && Recorded(counts0, counts, seen, paths, i, |Split(paths[i])|, buf)
    ensures RecordedPaths(counts0, counts, seen, paths, i + 1)
  {
    hide Split, Bumped, KeysUpTo;
    assert paths[..i + 1][..i] == paths[..i];
  }

  lemma RecordedStep(counts0: map<string, nat>, counts: map<string, nat>, seen: set<string>, paths: seq<Path>, i: nat,
                     j: nat, buf0: string, buf: string, key: string)
    requires Recorded(counts0, counts, seen, paths, i, j, buf0) && j < |Split(paths[i])|
    requires buf == (if buf0 != "" then buf0 + "/" else buf0) + Split(paths[i])[j]
    requires key == KeyOf(paths[i], buf)
    ensures key in seen ==> Recorded(counts0, counts, seen, paths, i, j + 1, buf)
    ensures key !in seen ==>
              Recorded(counts0, CountedOnce(counts, key), seen + {key}, paths, i, j + 1, buf)
  {
    hide Split, Bumped, CommitKeys, KeysUpTo;
    KeysStep(paths[i], j);
    if key in seen {
      assert seen + {key} == seen;
    } else {
      BumpedByOneMore(counts0, seen, key);
    }
  }

  lemma KeysStep(p: Path, j: nat)
    requires j < |Split(p)|
    ensures KeysUpTo(p, j + 1) == KeysUpTo(p, j) + {KeyOf(p, Buf(Split(p), j + 1))}
  {
    hide KeyOf, Buf, Split;
  }

  lemma BumpedByOneMore(counts: map<string, nat>, keys: set<string>, key: string)
    requires key !in keys
    ensures Bumped(counts, keys + {key}) == CountedOnce(Bumped(counts, keys), key)
  {
  }

  lemma CountsStep(commits: seq<seq<Path>>, paths: seq<Path>)
    ensures CountsOf(commits + [paths]) == Bumped(CountsOf(commits), CommitKeys(paths))
    ensures |commits + [paths]| == |commits| + 1
  {
    hide Bumped, CommitKeys;
    assert (commits + [paths])[..|commits|] == commits;
  }

  // ---------------------------------------------------------------------------------------------
  // Suggestions

  const DOCS_ALLOWLIST: seq<string> := ["Documentation/", "docs/", "doc/"]

  function Slashes(key: string): nat {
    if key == "" then 0 else (if key[0] == '/' then 1 else 0) + Slashes(key[1..])
  }

  predicate IsTopLevelDir(key: string) {
    Slashes(key) == 1 && key != "" && key[|key| - 1] == '/'
  }

  /** The share of the total is at least 5%. */
  predicate HighShare(count: nat, total: nat) {
    total > 0 && count as real / total as real >= 0.05
  }

  predicate IsSuggested(counts: map<string, nat>, total: nat, key: string) {
    key in counts && IsTopLevelDir(key) && key !in DOCS_ALLOWLIST && HighShare(counts[key], total)
  }

  method SuggestPatterns(agg: HotmapAggregator) returns (out: seq<string>)
    ensures forall key :: key in out <==> IsSuggested(agg.counts, agg.total, key)
    ensures NoDuplicates(out) && Sorted(out, LexLeq)
  {
    if agg.total == 0 {
      return [];
    }
    out := [];
    var left := agg.counts.Keys;
    while left != {}
      invariant left <= agg.counts.Keys
      invariant forall key :: key in out <==> key !in left && IsSuggested(agg.counts, agg.total, key)
      invariant NoDuplicates(out)
      decreases |left|
    {
      hide IsTopLevelDir, DOCS_ALLOWLIST, HighShare;
      var key :| key in left;
      left := left - {key};
      if IsTopLevelDir(key) && key !in DOCS_ALLOWLIST {
        if HighShare(agg.counts[key], agg.total) {
          out := out + [key];
        }
      }
    }
    LexIsTotal();
    SortSorted(out, LexLeq);
    SortSameElements(out, LexLeq);
    out := Sort(out, LexLeq);
  }

  /** There is one such list: suggestions come in the same order on every run. */
  lemma SuggestionsAreUnique(a: seq<string>, b: seq<string>)
    requires NoDuplicates(a) && NoDuplicates(b) && Sorted(a, LexLeq) && Sorted(b, LexLeq)
    requires forall key :: key in a <==> key in b
    ensures a == b
  {
    var less := (x, y) => LexLeq(x, y) && x != y;
    forall x, y | less(x, y)
      ensures !less(y, x)
    {
      LexConnected(x, y);
    }
    StrictOrderUnique(a, b, less);
  }
}
