/** The engine's bounded least-recently-used cache of blame results. */
module BlameCaching {
  import opened Wrappers
  import opened Common

  type RepoId = string

  datatype Key = Key(repoId: RepoId, file: string, contentHash: string)

  datatype LineRange = LineRange(lineStart: nat, lineEnd: nat)

  datatype BlameRange = BlameRange(commitSha: string, lines: seq<nat>)

  /** A cached result. `range` records which lines were blamed to get it; the source does not keep it
      and no operation here reads it. */
  datatype Entry = Entry(key: Key, value: seq<BlameRange>, range: LineRange)

  // ---------------------------------------------------------------------------------------------
  // Entries, most recently used first

  ghost predicate UniqueKeys(entries: seq<Entry>) {
    forall i, j :: 0 <= i < j < |entries| ==> entries[i].key != entries[j].key
  }

  function Lookup(entries: seq<Entry>, key: Key): (r: Option<nat>)
    ensures r.Some? ==> r.value < |entries| && entries[r.value].key == key
    ensures r.None? ==> forall e :: e in entries ==> e.key != key
  {
    if entries == [] then None
    else if entries[0].key == key then Some(0)
    else match Lookup(entries[1..], key) case Some(i) => Some(i + 1) case None => None
  }

  /** The entries whose keys are not among `keys`. */
  function Minus(entries: seq<Entry>, keys: set<Key>): (r: seq<Entry>)
    ensures |r| <= |entries|
  {
    if entries == [] then []
    else (if entries[0].key in keys then [] else [entries[0]]) + Minus(entries[1..], keys)
  }

  function AfterGet(entries: seq<Entry>, key: Key): seq<Entry> {
    match Lookup(entries, key)
    case None => entries
    case Some(i) => [entries[i]] + Minus(entries, {key})
  }

  function AfterPut(entries: seq<Entry>, capacity: nat, e: Entry): seq<Entry>
    requires capacity > 0
  {
    [e] + Take(Minus(entries, {e.key}), capacity - 1)
  }

  function KeysOfRepo(entries: seq<Entry>, repoId: RepoId): set<Key> {
    set e | e in entries && e.key.repoId == repoId :: e.key
  }

  lemma {:induction false} MinusMembers(entries: seq<Entry>, keys: set<Key>)
    ensures forall e :: e in Minus(entries, keys) <==> e in entries && e.key !in keys
    ensures UniqueKeys(entries) ==> UniqueKeys(Minus(entries, keys))
  {
    if entries != [] {
      MinusMembers(entries[1..], keys);
      if UniqueKeys(entries) {
        assert forall i, j :: 0 <= i < j < |entries[1..]| ==>
                 entries[1..][i] == entries[i + 1] && entries[1..][j] == entries[j + 1];
        forall e | e in Minus(entries[1..], keys)
          ensures e.key != entries[0].key
        {
          var i :| 0 <= i < |entries[1..]| && entries[1..][i] == e;
          assert entries[i + 1] == e;
        }
      }
    }
  }

  lemma {:induction false} MinusAbsent(entries: seq<Entry>, keys: set<Key>)
    requires forall e :: e in entries ==> e.key !in keys
    ensures Minus(entries, keys) == entries
  {
    if entries != [] {
      MinusAbsent(entries[1..], keys);
    }
  }

  lemma MinusStep(e: Entry, rest: seq<Entry>, keys: set<Key>)
    ensures Minus([e] + rest, keys) == (if e.key in keys then [] else [e]) + Minus(rest, keys)
    ensures Minus([], keys) == []
  {
    assert ([e] + rest)[1..] == rest;
  }

  lemma ConcatAssociates<T>(a: seq<T>, b: seq<T>, c: seq<T>)
    ensures a + (b + c) == a + b + c
  {
  }

  lemma {:induction false} MinusConcat(a: seq<Entry>, b: seq<Entry>, keys: set<Key>)
    ensures Minus(a + b, keys) == Minus(a, keys) + Minus(b, keys)
  {
    if a == [] {
      assert a + b == b;
    } else {
      hide Minus;
      MinusConcat(a[1..], b, keys);
      assert a + b == [a[0]] + (a[1..] + b) && a == [a[0]] + a[1..];
      MinusStep(a[0], a[1..], keys);
      MinusStep(a[0], a[1..] + b, keys);
      ConcatAssociates(if a[0].key in keys then [] else [a[0]], Minus(a[1..], keys), Minus(b, keys));
    }
  }

  lemma {:induction false} MinusTwice(entries: seq<Entry>, a: set<Key>, b: set<Key>)
    ensures Minus(Minus(entries, a), b) == Minus(entries, a + b)
  {
    if entries != [] {
      MinusTwice(entries[1..], a, b);
      var rest := Minus(entries[1..], a);
      assert [] + rest == rest;
      assert ([entries[0]] + rest)[1..] == rest;
    }
  }

  /** Without duplicate keys, taking one entry out is dropping its key. */
  lemma MinusOne(entries: seq<Entry>, i: nat)
    requires UniqueKeys(entries) && i < |entries|
    ensures Minus(entries, {entries[i].key}) == entries[..i] + entries[i + 1..]
  {
    hide Minus, UniqueKeys;
    var e, a, b := entries[i], entries[..i], entries[i + 1..];
    OtherKeys(entries, i);
    assert entries[i..] == [e] + b;
    assert entries == a + entries[i..];
    MinusConcat(a, entries[i..], {e.key});
    MinusStep(e, b, {e.key});
    MinusAbsent(a, {e.key});
    MinusAbsent(b, {e.key});
    assert [] + b == b;
  }

  lemma OtherKeys(entries: seq<Entry>, i: nat)
    requires UniqueKeys(entries) && i < |entries|
    ensures forall x :: x in entries[..i] ==> x.key != entries[i].key
    ensures forall x :: x in entries[i + 1..] ==> x.key != entries[i].key
  {
  }

  // ---------------------------------------------------------------------------------------------
  // The cache

  class BlameCache {
    var entries: seq<Entry>
    const capacity: nat

    ghost predicate Valid()
      reads this
    {
      capacity > 0 && |entries| <= capacity && UniqueKeys(entries)
    }

    constructor (requested: nat)
      ensures Valid() && entries == [] && capacity == if requested == 0 then 1 else requested
    {
      capacity := if requested == 0 then 1 else requested;
      entries := [];
    }

    method Get(key: Key) returns (r: Option<Entry>)
      requires Valid()
      modifies this`entries
      ensures Valid() && entries == AfterGet(old(entries), key)
      ensures r.Some? ==> r.value in old(entries) && r.value.key == key
      ensures r.None? ==> forall e :: e in old(entries) ==> e.key != key
    {
      var at := Lookup(entries, key);
      if at.None? {
        return None;
      }
      var i, e := at.value, entries[at.value];
      MinusOne(entries, i);
      MinusMembers(entries, {key});
      hide Minus;
      entries := [e] + (entries[..i] + entries[i + 1..]);
      r := Some(e);
    }

    method Put(e: Entry)
      requires Valid()
      modifies this`entries
      ensures Valid() && entries == AfterPut(old(entries), capacity, e)
    {
      MinusMembers(entries, {e.key});
      var at := Lookup(entries, e.key);
      if at.Some? {
        MinusOne(entries, at.value);
        hide Minus;
        entries := entries[..at.value] + entries[at.value + 1..];
      } else {
        MinusAbsent(entries, {e.key});
        hide Minus;
        if |entries| == capacity {
          entries := entries[..|entries| - 1];
        }
      }
      entries := [e] + entries;
    }

    method InvalidateRepo(repoId: RepoId)
      requires Valid()
      modifies this`entries
      ensures Valid() && entries == Minus(old(entries), KeysOfRepo(old(entries), repoId))
    {
      ghost var before := entries;
      hide Minus;
      var keys: seq<Key> := [];
      for i := 0 to |entries|
        invariant entries == before
        invariant forall k :: k in keys <==> exists j :: 0 <= j < i && before[j].key == k && k.repoId == repoId
      {
        if entries[i].key.repoId == repoId {
          keys := keys + [entries[i].key];
        }
      }
      MinusAbsent(before, {});
      assert Elements(keys[..0]) == {};
      for i := 0 to |keys|
        invariant Valid() && entries == Minus(before, Elements(keys[..i]))
      {
        MinusTwice(before, Elements(keys[..i]), {keys[i]});
        assert Elements(keys[..i + 1]) == Elements(keys[..i]) + {keys[i]};
        MinusMembers(entries, {keys[i]});
        var at := Lookup(entries, keys[i]);
        if at.Some? {
          MinusOne(entries, at.value);
          entries := entries[..at.value] + entries[at.value + 1..];
        } else {
          MinusAbsent(entries, {keys[i]});
        }
      }
      assert keys[..|keys|] == keys;
      SameRepoKeys(before, keys, repoId);
    }
  }

  ghost function Elements(keys: seq<Key>): set<Key> {
    set k | k in keys
  }

  lemma SameRepoKeys(entries: seq<Entry>, keys: seq<Key>, repoId: RepoId)
    requires forall k :: k in keys <==> exists j :: 0 <= j < |entries| && entries[j].key == k && k.repoId == repoId
    ensures Elements(keys) == KeysOfRepo(entries, repoId)
  {
    forall k
      ensures k in Elements(keys) <==> k in KeysOfRepo(entries, repoId)
    {
      if k in KeysOfRepo(entries, repoId) {
        var e :| e in entries && e.key.repoId == repoId && e.key == k;
        var j :| 0 <= j < |entries| && entries[j] == e;
      }
    }
  }

  // ---------------------------------------------------------------------------------------------
  // Least recently used

  /** The distinct keys used so far, latest use first. */
  function Recency(uses: seq<Key>): seq<Key> {
    if uses == [] then []
    else
      var n := |uses| - 1;
      [uses[n]] + Remove(Recency(uses[..n]), uses[n])
  }

  function Remove(keys: seq<Key>, key: Key): seq<Key> {
    if keys == [] then []
    else (if keys[0] == key then [] else [keys[0]]) + Remove(keys[1..], key)
  }

  function Keys(entries: seq<Entry>): (r: seq<Key>)
    ensures |r| == |entries|
  {
    seq(|entries|, i requires 0 <= i < |entries| => entries[i].key)
  }

  lemma {:induction false} KeysOfMinus(entries: seq<Entry>, key: Key)
    ensures Keys(Minus(entries, {key})) == Remove(Keys(entries), key)
  {
    if entries != [] {
      KeysOfMinus(entries[1..], key);
      assert Keys(entries)[1..] == Keys(entries[1..]);
      var rest := Minus(entries[1..], {key});
      assert Keys([entries[0]] + rest) == [entries[0].key] + Keys(rest);
    }
  }

  ghost predicate Distinct(keys: seq<Key>) {
    forall i, j :: 0 <= i < j < |keys| ==> keys[i] != keys[j]
  }

  lemma DistinctCons(key: Key, keys: seq<Key>)
    requires Distinct(keys) && key !in keys
    ensures Distinct([key] + keys)
  {
    var all := [key] + keys;
    assert forall j :: 0 < j < |all| ==> all[j] == keys[j - 1];
  }

  lemma {:induction false} RemoveMembers(keys: seq<Key>, key: Key)
    requires Distinct(keys)
    ensures Distinct(Remove(keys, key)) && forall k :: k in Remove(keys, key) <==> k in keys && k != key
  {
    if keys != [] {
      assert forall i, j :: 0 <= i < j < |keys[1..]| ==> keys[1..][i] == keys[i + 1] && keys[1..][j] == keys[j + 1];
      RemoveMembers(keys[1..], key);
      assert forall k :: k in keys[1..] ==> k != keys[0];
      DistinctCons(keys[0], Remove(keys[1..], key));
      assert keys == [keys[0]] + keys[1..];
    }
  }

  lemma {:induction false} RecencyDistinct(uses: seq<Key>)
    ensures Distinct(Recency(uses))
    decreases |uses|
  {
    if uses != [] {
      var n := |uses| - 1;
      RecencyDistinct(uses[..n]);
      RemoveMembers(Recency(uses[..n]), uses[n]);
      DistinctCons(uses[n], Remove(Recency(uses[..n]), uses[n]));
    }
  }

  lemma {:induction false} RemoveAbsent(keys: seq<Key>, key: Key)
    requires key !in keys
    ensures Remove(keys, key) == keys
  {
    if keys != [] {
      RemoveAbsent(keys[1..], key);
    }
  }

  /** Moving a key to the front and keeping the first `n` commute. */
  lemma {:induction false} TakeRemove(keys: seq<Key>, key: Key, n: nat)
    requires Distinct(keys) && n > 0
    ensures Take(Remove(keys, key), n - 1) == Take(Remove(Take(keys, n), key), n - 1)
    ensures key in Take(keys, n) ==> Take(Remove(keys, key), n - 1) == Remove(Take(keys, n), key)
  {
    if keys != [] && n == 1 {
      assert Take(keys, 1) == [keys[0]];
      assert Remove([keys[0]], key) == if key == keys[0] then [] else [keys[0]];
    } else if keys != [] {
      var rest := keys[1..];
      assert forall i, j :: 0 <= i < j < |rest| ==> rest[i] == keys[i + 1] && rest[j] == keys[j + 1];
      assert Take(keys, n)[1..] == Take(rest, n - 1) && Take(keys, n)[0] == keys[0];
      if keys[0] == key {
        assert key !in rest;
        RemoveAbsent(rest, key);
        RemoveAbsent(Take(rest, n - 1), key);
      } else {
        TakeRemove(rest, key, n - 1);
        TakeCons(keys[0], Remove(rest, key), n - 1);
        TakeCons(keys[0], Remove(Take(rest, n - 1), key), n - 1);
      }
    }
  }

  lemma TakeCons(k: Key, keys: seq<Key>, n: nat)
    requires n > 0
    ensures Take([k] + keys, n) == [k] + Take(keys, n - 1)
  {
  }

  lemma PutKeepsRecency(entries: seq<Entry>, uses: seq<Key>, capacity: nat, e: Entry)
    requires capacity > 0 && Keys(entries) == Take(Recency(uses), capacity)
    ensures Keys(AfterPut(entries, capacity, e)) == Take(Recency(uses + [e.key]), capacity)
  {
    hide Minus, Recency, Remove;
    RecencyDistinct(uses);
    KeysOfMinus(entries, e.key);
    TakeRemove(Recency(uses), e.key, capacity);
    RecencyStep(uses, e.key);
    TakeCons(e.key, Remove(Recency(uses), e.key), capacity);
    TakeKeys(Minus(entries, {e.key}), capacity - 1);
  }

  lemma RecencyStep(uses: seq<Key>, key: Key)
    ensures Recency(uses + [key]) == [key] + Remove(Recency(uses), key)
  {
    assert (uses + [key])[..|uses|] == uses;
  }

  lemma TakeKeys(entries: seq<Entry>, n: nat)
    ensures Keys(Take(entries, n)) == Take(Keys(entries), n)
  {
  }

  lemma HitKeepsRecency(entries: seq<Entry>, uses: seq<Key>, capacity: nat, key: Key)
    requires capacity > 0 && Keys(entries) == Take(Recency(uses), capacity) && Lookup(entries, key).Some?
    ensures Keys(AfterGet(entries, key)) == Take(Recency(uses + [key]), capacity)
  {
    hide Minus, Recency, Remove, Lookup;
    RecencyDistinct(uses);
    KeysOfMinus(entries, key);
    var i := Lookup(entries, key).value;
    assert Keys(entries)[i] == key;
    TakeRemove(Recency(uses), key, capacity);
    RecencyStep(uses, key);
    TakeCons(key, Remove(Recency(uses), key), capacity);
    assert Keys([entries[i]] + Minus(entries, {key})) == [key] + Keys(Minus(entries, {key}));
  }

  /** The keys that are in `keep`. */
  function Restrict(keys: seq<Key>, keep: set<Key>): (r: seq<Key>)
    ensures |r| <= |keys|
  {
    if keys == [] then [] else (if keys[0] in keep then [keys[0]] else []) + Restrict(keys[1..], keep)
  }

  lemma {:induction false} RestrictConcat(a: seq<Key>, b: seq<Key>, keep: set<Key>)
    ensures Restrict(a + b, keep) == Restrict(a, keep) + Restrict(b, keep)
  {
    if a == [] {
      assert a + b == b;
    } else {
      RestrictConcat(a[1..], b, keep);
      assert a + b == [a[0]] + (a[1..] + b) && a == [a[0]] + a[1..];
      RestrictStep(a[0], a[1..], keep);
      RestrictStep(a[0], a[1..] + b, keep);
      hide Restrict;
      ConcatAssociates(if a[0] in keep then [a[0]] else [], Restrict(a[1..], keep), Restrict(b, keep));
    }
  }

  lemma RestrictStep(key: Key, rest: seq<Key>, keep: set<Key>)
    ensures Restrict([key] + rest, keep) == (if key in keep then [key] else []) + Restrict(rest, keep)
  {
    assert ([key] + rest)[1..] == rest;
  }

  lemma RestrictOne(key: Key, keep: set<Key>)
    ensures Restrict([key], keep) == if key in keep then [key] else []
  {
    assert [key][1..] == [];
  }

  lemma {:induction false} RestrictAbsent(keys: seq<Key>, keep: set<Key>)
    requires forall k :: k in keys ==> k !in keep
    ensures Restrict(keys, keep) == []
  {
    if keys != [] {
      RestrictAbsent(keys[1..], keep);
    }
  }

  lemma {:induction false} RestrictMembers(keys: seq<Key>, keep: set<Key>)
    ensures forall k :: k in Restrict(keys, keep) <==> k in keys && k in keep
  {
    if keys != [] {
      RestrictMembers(keys[1..], keep);
      assert keys == [keys[0]] + keys[1..];
    }
  }

  lemma {:induction false} RestrictRemove(keys: seq<Key>, keep: set<Key>, key: Key)
    ensures Restrict(Remove(keys, key), keep) == Remove(Restrict(keys, keep), key)
  {
    if keys != [] {
      var rest := keys[1..];
      RestrictRemove(rest, keep, key);
      assert [] + Remove(rest, key) == Remove(rest, key);
      assert [] + Restrict(rest, keep) == Restrict(rest, keep);
      assert ([keys[0]] + Remove(rest, key))[1..] == Remove(rest, key);
      assert ([keys[0]] + Restrict(rest, keep))[1..] == Restrict(rest, keep);
    }
  }

  /** Forgetting keys commutes with ordering them by their last use. */
  lemma {:induction false} RecencyRestrict(uses: seq<Key>, keep: set<Key>)
    ensures Recency(Restrict(uses, keep)) == Restrict(Recency(uses), keep)
    decreases |uses|
  {
    if uses != [] {
      var n := |uses| - 1;
      var before, key := uses[..n], uses[n];
      RecencyRestrict(before, keep);
      hide Restrict, Remove, Recency;
      assert uses == before + [key];
      RestrictConcat(before, [key], keep);
      RestrictOne(key, keep);
      RecencyStep(before, key);
      RecencyStep(Restrict(before, keep), key);
      RestrictConcat([key], Remove(Recency(before), key), keep);
      RestrictRemove(Recency(before), keep, key);
      if key !in keep {
        RestrictMembers(Recency(before), keep);
        RemoveAbsent(Restrict(Recency(before), keep), key);
        assert Restrict(before, keep) + [] == Restrict(before, keep);
      }
    }
  }

  lemma {:induction false} KeysOfKept(entries: seq<Entry>, gone: set<Key>, keep: set<Key>)
    requires forall e :: e in entries ==> (e.key in gone <==> e.key !in keep)
    ensures Keys(Minus(entries, gone)) == Restrict(Keys(entries), keep)
  {
    if entries != [] {
      KeysOfKept(entries[1..], gone, keep);
      assert Keys(entries)[1..] == Keys(entries[1..]);
      var rest := Minus(entries[1..], gone);
      assert Keys([entries[0]] + rest) == [entries[0].key] + Keys(rest);
    }
  }

  lemma RestrictTop(keys: seq<Key>, n: nat, keep: set<Key>)
    requires Distinct(keys) && forall k :: k in keep ==> k in Take(keys, n)
    ensures Restrict(keys, keep) == Restrict(Take(keys, n), keep)
  {
    hide Restrict;
    if |keys| > n {
      var top, rest := keys[..n], keys[n..];
      assert keys == top + rest;
      RestrictConcat(top, rest, keep);
      forall k | k in rest
        ensures k !in keep
      {
        var j :| 0 <= j < |rest| && rest[j] == k;
        assert keys[n + j] == k;
      }
      RestrictAbsent(rest, keep);
    }
  }

  /** What an invalidation leaves worth remembering: the keys of other repositories among those that had
      not been evicted. */
  function Remaining(uses: seq<Key>, capacity: nat, repoId: RepoId): set<Key> {
    set k | k in Take(Recency(uses), capacity) && k.repoId != repoId
  }

  lemma InvalidateKeepsRecency(entries: seq<Entry>, uses: seq<Key>, capacity: nat, repoId: RepoId)
    requires capacity > 0 && Keys(entries) == Take(Recency(uses), capacity)
    ensures Keys(Minus(entries, KeysOfRepo(entries, repoId)))
         == Take(Recency(Restrict(uses, Remaining(uses, capacity, repoId))), capacity)
  {
    hide Recency, Restrict, Minus;
    var keep := Remaining(uses, capacity, repoId);
    forall e | e in entries
      ensures e.key in KeysOfRepo(entries, repoId) <==> e.key !in keep
    {
      var i :| 0 <= i < |entries| && entries[i] == e;
      assert Keys(entries)[i] == e.key;
    }
    KeysOfKept(entries, KeysOfRepo(entries, repoId), keep);
    RecencyDistinct(uses);
    RestrictTop(Recency(uses), capacity, keep);
    RecencyRestrict(uses, keep);
  }

  datatype CacheOp = GetOp(key: Key) | PutOp(entry: Entry) | InvalidateOp(repoId: RepoId)

  /** The entries after the operations, and the keys they used, every insertion and every hit, so far as
      no invalidation has made them irrelevant. */
  function AfterOps(ops: seq<CacheOp>, capacity: nat): (seq<Entry>, seq<Key>)
    requires capacity > 0
  {
    if ops == [] then ([], [])
    else
      var n := |ops| - 1;
      var (entries, uses) := AfterOps(ops[..n], capacity);
      match ops[n]
      case PutOp(e) => (AfterPut(entries, capacity, e), uses + [e.key])
      case GetOp(key) =>
        (AfterGet(entries, key), if Lookup(entries, key).Some? then uses + [key] else uses)
      case InvalidateOp(repoId) =>
        (Minus(entries, KeysOfRepo(entries, repoId)), Restrict(uses, Remaining(uses, capacity, repoId)))
  }

  /** After any sequence of lookups, insertions and invalidations the cache holds exactly the most recently used keys,
      as many as fit, latest use first. */
  lemma {:induction false} CacheIsMostRecent(ops: seq<CacheOp>, capacity: nat)
    requires capacity > 0
    ensures var (entries, uses) := AfterOps(ops, capacity); Keys(entries) == Take(Recency(uses), capacity)
    decreases |ops|
  {
    hide Minus, Recency, AfterPut, Restrict, Remaining;
    if ops == [] {
      NothingUsed(capacity);
    } else {
      var n := |ops| - 1;
      CacheIsMostRecent(ops[..n], capacity);
      var (entries, uses) := AfterOps(ops[..n], capacity);
      match ops[n]
      case PutOp(e) => PutKeepsRecency(entries, uses, capacity, e);
      case GetOp(key) =>
        if Lookup(entries, key).Some? {
          HitKeepsRecency(entries, uses, capacity, key);
        }
      case InvalidateOp(repoId) => InvalidateKeepsRecency(entries, uses, capacity, repoId);
    }
  }

  lemma NothingUsed(capacity: nat)
    ensures Keys([]) == Take(Recency([]), capacity)
  {
  }
}
