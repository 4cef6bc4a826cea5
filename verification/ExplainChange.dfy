/** `explain_change`: blame through the cache, and what that is worth compared with blaming directly. */
module ExplainChange {
  import opened Wrappers
  import opened Common
  import opened BlameCaching

  type Error = string
  type Answer = string

  datatype ExplainQuery = ExplainQuery(repoId: RepoId, file: string, range: LineRange, k: nat, includeDiff: bool,
                                       includeRelated: bool)

  /** The blame of a range of a file. The hash is that of the file's blob at HEAD, if it is there. */
  type Blamer = (RepoId, string, Option<string>, LineRange) -> Result<seq<BlameRange>, Error>

  /** Hydration of blame ranges for a query, sorting and truncation included. */
  type Hydrator = (seq<BlameRange>, ExplainQuery) -> Result<Answer, Error>

  function KeyOf(q: ExplainQuery, hash: string): Key {
    Key(q.repoId, q.file, hash)
  }

  /** Blame these lines, then hydrate for the query: no cache involved. */
  function DirectAt(q: ExplainQuery, hash: Option<string>, range: LineRange, blame: Blamer, hydrate: Hydrator)
    : Result<Answer, Error>
  {
    var ranges :- blame(q.repoId, q.file, hash, range);
    hydrate(ranges, q)
  }

  function Direct(q: ExplainQuery, hash: Option<string>, blame: Blamer, hydrate: Hydrator): Result<Answer, Error> {
    DirectAt(q, hash, q.range, blame, hydrate)
  }

  // ---------------------------------------------------------------------------------------------
  // Interleaved requests

  /** A request looks the cache up when it begins; on a miss it blames and, later, stores what it got. */
  datatype Event =
    | Begin(id: nat, query: ExplainQuery, hash: Option<string>)
    | Finish(id: nat)
    | Invalidate(repoId: RepoId)

  datatype Pending = Pending(query: ExplainQuery, hash: Option<string>)

  /** `served` is the range whose blame the answer was made from. */
  datatype Reply = Reply(query: ExplainQuery, hash: Option<string>, served: LineRange, answer: Result<Answer, Error>)

  datatype State = State(entries: seq<Entry>, pending: map<nat, Pending>, replies: seq<Reply>)

  function Step(s: State, e: Event, capacity: nat, blame: Blamer, hydrate: Hydrator): State
    requires capacity > 0
  {
    match e
    case Begin(id, q, hash) =>
      if id in s.pending then s
      else if hash.Some? && Lookup(s.entries, KeyOf(q, hash.value)).Some? then
        var key := KeyOf(q, hash.value);
        var cached := s.entries[Lookup(s.entries, key).value];
        s.(entries := AfterGet(s.entries, key),
           replies := s.replies + [Reply(q, hash, cached.range, hydrate(cached.value, q))])
      else s.(pending := s.pending[id := Pending(q, hash)])
    case Finish(id) =>
      if id !in s.pending then s
      else
        var p := s.pending[id];
        var q, raw := p.query, blame(p.query.repoId, p.query.file, p.hash, p.query.range);
        var settled := s.(pending := s.pending - {id});
        if raw.Err? then settled.(replies := s.replies + [Reply(q, p.hash, q.range, Err(raw.error))])
        else
          settled.(entries := if p.hash.None? then s.entries
                              else AfterPut(s.entries, capacity, Entry(KeyOf(q, p.hash.value), raw.value, q.range)),
                   replies := s.replies + [Reply(q, p.hash, q.range, hydrate(raw.value, q))])
    case Invalidate(repoId) =>
      s.(entries := Minus(s.entries, KeysOfRepo(s.entries, repoId)))
  }

  function Run(events: seq<Event>, capacity: nat, blame: Blamer, hydrate: Hydrator): State
    requires capacity > 0
  {
    if events == [] then State([], map[], [])
    else Step(Run(events[..|events| - 1], capacity, blame, hydrate), events[|events| - 1], capacity, blame, hydrate)
  }

  /** The states of a run in which nothing else goes on. */
  function Alone(entries: seq<Entry>, q: ExplainQuery, hash: Option<string>, capacity: nat, blame: Blamer,
                 hydrate: Hydrator): State
    requires capacity > 0
  {
    Step(Step(State(entries, map[], []), Begin(0, q, hash), capacity, blame, hydrate), Finish(0), capacity, blame,
         hydrate)
  }

  // ---------------------------------------------------------------------------------------------
  // The engine

  class Engine {
    const blameCache: BlameCache
    var blameCacheHits: nat

    constructor ()
      ensures blameCache.Valid() && blameCache.entries == [] && blameCache.capacity == 64 && blameCacheHits == 0
      ensures fresh(blameCache)
    {
      blameCache := new BlameCache(64);
      blameCacheHits := 0;
    }

    method ExplainChange(q: ExplainQuery, hash: Option<string>, blame: Blamer, hydrate: Hydrator)
      returns (r: Result<Answer, Error>, ghost served: LineRange)
      requires blameCache.Valid()
      modifies this`blameCacheHits, blameCache
      ensures blameCache.Valid()
      ensures Alone(old(blameCache.entries), q, hash, blameCache.capacity, blame, hydrate)
           == State(blameCache.entries, map[], [Reply(q, hash, served, r)])
      ensures blameCacheHits == old(blameCacheHits)
                + if hash.Some? && exists e :: e in old(blameCache.entries) && e.key == KeyOf(q, hash.value) then 1 else 0
    {
      hide Minus;
      served := q.range;
      if hash.Some? {
        var cached := blameCache.Get(KeyOf(q, hash.value));
        if cached.Some? {
          blameCacheHits := blameCacheHits + 1;
          served := cached.value.range;
          SameEntry(old(blameCache.entries), cached.value);
          r := hydrate(cached.value.value, q);
          return;
        }
      }
      assert map[0 := Pending(q, hash)] - {0} == map[];
      var raw := blame(q.repoId, q.file, hash, q.range);
      if raw.Err? {
        return Err(raw.error), served;
      }
      if hash.Some? {
        blameCache.Put(Entry(KeyOf(q, hash.value), raw.value, q.range));
      }
      r := hydrate(raw.value, q);
    }
  }

  lemma SameEntry(entries: seq<Entry>, e: Entry)
    requires UniqueKeys(entries) && e in entries
    ensures Lookup(entries, e.key).Some? && entries[Lookup(entries, e.key).value] == e
  {
  }

  // ---------------------------------------------------------------------------------------------
  // Every run

  /** What a cached entry holds is the blame of the range it was filled from. */
  ghost predicate Faithful(entries: seq<Entry>, blame: Blamer) {
    forall e :: e in entries ==> blame(e.key.repoId, e.key.file, Some(e.key.contentHash), e.range) == Ok(e.value)
  }

  ghost predicate AnsweredFrom(replies: seq<Reply>, blame: Blamer, hydrate: Hydrator) {
    forall a :: a in replies ==> a.answer == DirectAt(a.query, a.hash, a.served, blame, hydrate)
  }

  lemma EntriesAfter(entries: seq<Entry>, key: Key, capacity: nat, e: Entry, repoId: RepoId)
    requires capacity > 0
    ensures forall x :: x in AfterGet(entries, key) ==> x in entries
    ensures forall x :: x in AfterPut(entries, capacity, e) ==> x == e || x in entries
    ensures forall x :: x in Minus(entries, KeysOfRepo(entries, repoId)) <==> x in entries && x.key.repoId != repoId
  {
    hide Minus;
    MinusMembers(entries, {key});
    MinusMembers(entries, {e.key});
    MinusMembers(entries, KeysOfRepo(entries, repoId));
  }

  /** On every interleaving: each answer is the direct one for the range it was served from. */
  lemma {:induction false} AnswersAreBlames(events: seq<Event>, capacity: nat, blame: Blamer, hydrate: Hydrator)
    requires capacity > 0
    ensures Faithful(Run(events, capacity, blame, hydrate).entries, blame)
    ensures AnsweredFrom(Run(events, capacity, blame, hydrate).replies, blame, hydrate)
    decreases |events|
  {
    hide AfterGet, AfterPut, Minus, Lookup;
    if events != [] {
      var n := |events| - 1;
      AnswersAreBlames(events[..n], capacity, blame, hydrate);
      var s := Run(events[..n], capacity, blame, hydrate);
      StepIsFaithful(s, events[n], capacity, blame, hydrate);
    }
  }

  lemma StepIsFaithful(s: State, e: Event, capacity: nat, blame: Blamer, hydrate: Hydrator)
    requires capacity > 0 && Faithful(s.entries, blame) && AnsweredFrom(s.replies, blame, hydrate)
    ensures Faithful(Step(s, e, capacity, blame, hydrate).entries, blame)
    ensures AnsweredFrom(Step(s, e, capacity, blame, hydrate).replies, blame, hydrate)
  {
    hide AfterGet, AfterPut, Minus, Lookup;
    match e
    case Begin(id, q, hash) =>
      if hash.Some? {
        EntriesAfter(s.entries, KeyOf(q, hash.value), capacity, Entry(KeyOf(q, hash.value), [], q.range), "");
      }
    case Finish(id) =>
      if id in s.pending && s.pending[id].hash.Some? {
        var p := s.pending[id];
        var raw := blame(p.query.repoId, p.query.file, p.hash, p.query.range);
        if raw.Ok? {
          var key := KeyOf(p.query, p.hash.value);
          EntriesAfter(s.entries, key, capacity, Entry(key, raw.value, p.query.range), "");
        }
      }
    case Invalidate(repoId) =>
      var key := Key("", "", "");
      EntriesAfter(s.entries, key, capacity, Entry(key, [], LineRange(0, 0)), repoId);
  }

  // ---------------------------------------------------------------------------------------------
  // One range per key

  /** All queries under one key ask for the same lines. */
  ghost predicate OneRangePerKey(events: seq<Event>, rangeOf: Key -> LineRange) {
    forall e :: e in events && e.Begin? && e.hash.Some? ==> e.query.range == rangeOf(KeyOf(e.query, e.hash.value))
  }

  ghost predicate RangesAgree(s: State, rangeOf: Key -> LineRange) {
    && (forall e :: e in s.entries ==> e.range == rangeOf(e.key))
    && (forall id :: id in s.pending && s.pending[id].hash.Some? ==>
          s.pending[id].query.range == rangeOf(KeyOf(s.pending[id].query, s.pending[id].hash.value)))
    && (forall a :: a in s.replies ==> a.served == a.query.range)
  }

  lemma StepKeepsRanges(s: State, e: Event, capacity: nat, blame: Blamer, hydrate: Hydrator, rangeOf: Key -> LineRange)
    requires capacity > 0 && RangesAgree(s, rangeOf) && OneRangePerKey([e], rangeOf)
    ensures RangesAgree(Step(s, e, capacity, blame, hydrate), rangeOf)
  {
    hide AfterGet, AfterPut, Minus, Lookup;
    match e
    case Begin(id, q, hash) =>
      assert e in [e];
      if hash.Some? {
        EntriesAfter(s.entries, KeyOf(q, hash.value), capacity, Entry(KeyOf(q, hash.value), [], q.range), "");
      }
    case Finish(id) =>
      if id in s.pending && s.pending[id].hash.Some? {
        var p := s.pending[id];
        var raw := blame(p.query.repoId, p.query.file, p.hash, p.query.range);
        if raw.Ok? {
          var key := KeyOf(p.query, p.hash.value);
          EntriesAfter(s.entries, key, capacity, Entry(key, raw.value, p.query.range), "");
        }
      }
    case Invalidate(repoId) =>
      var key := Key("", "", "");
      EntriesAfter(s.entries, key, capacity, Entry(key, [], LineRange(0, 0)), repoId);
  }

  lemma {:induction false} RunKeepsRanges(events: seq<Event>, capacity: nat, blame: Blamer, hydrate: Hydrator,
                                          rangeOf: Key -> LineRange)
    requires capacity > 0 && OneRangePerKey(events, rangeOf)
    ensures RangesAgree(Run(events, capacity, blame, hydrate), rangeOf)
    decreases |events|
  {
    hide Step, RangesAgree;
    if events == [] {
      EmptyRangesAgree(rangeOf);
    } else {
      var n := |events| - 1;
      RunKeepsRanges(events[..n], capacity, blame, hydrate, rangeOf);
      StepKeepsRanges(Run(events[..n], capacity, blame, hydrate), events[n], capacity, blame, hydrate, rangeOf);
    }
  }

  lemma EmptyRangesAgree(rangeOf: Key -> LineRange)
    ensures RangesAgree(State([], map[], []), rangeOf)
  {
  }

  lemma {:induction false} MinusIsFilter(entries: seq<Entry>, keys: set<Key>, repoId: RepoId)
    requires forall e :: e in entries ==> (e.key in keys <==> e.key.repoId == repoId)
    ensures Minus(entries, keys) == Filter(entries, (e: Entry) => e.key.repoId != repoId)
  {
    if entries != [] {
      assert entries[0] in entries;
      MinusIsFilter(entries[1..], keys, repoId);
    }
  }

  /** On every interleaving, an invalidation drops the entries of its repository, no others, and leaves
      the requests under way alone; the next request for the repository blames anew. */
  lemma InvalidationForgets(events: seq<Event>, capacity: nat, blame: Blamer, hydrate: Hydrator, repoId: RepoId,
                            id: nat, q: ExplainQuery, hash: Option<string>)
    requires capacity > 0 && q.repoId == repoId
    ensures var s := Run(events, capacity, blame, hydrate);
            var next := Run(events + [Invalidate(repoId)], capacity, blame, hydrate);
            && next == State(Filter(s.entries, (e: Entry) => e.key.repoId != repoId), s.pending, s.replies)
            && (id !in s.pending ==>
                  Step(next, Begin(id, q, hash), capacity, blame, hydrate)
                  == next.(pending := s.pending[id := Pending(q, hash)]))
  {
    hide Run, Minus, Filter, AfterGet, AfterPut, Lookup, KeysOfRepo;
    var s := Run(events, capacity, blame, hydrate);
    RunSnoc(events, Invalidate(repoId), capacity, blame, hydrate);
    MinusIsFilter(s.entries, KeysOfRepo(s.entries, repoId), repoId) by {
      KeysOfRepoAre(s.entries, repoId);
    }
    NoneOfRepo(s.entries, repoId, q, hash);
  }

  lemma KeysOfRepoAre(entries: seq<Entry>, repoId: RepoId)
    ensures forall e :: e in entries ==> (e.key in KeysOfRepo(entries, repoId) <==> e.key.repoId == repoId)
  {
  }

  lemma NoneOfRepo(entries: seq<Entry>, repoId: RepoId, q: ExplainQuery, hash: Option<string>)
    requires q.repoId == repoId
    ensures hash.Some? ==> Lookup(Filter(entries, (e: Entry) => e.key.repoId != repoId), KeyOf(q, hash.value)).None?
  {
    hide Lookup, Filter;
    var kept := Filter(entries, (e: Entry) => e.key.repoId != repoId);
    assert forall e :: e in kept ==> e.key.repoId != repoId;
    assert forall i :: 0 <= i < |kept| ==> kept[i] in kept;
  }

  /** Any run of requests, evictions and invalidations in which queries under one key share one line
      range answers every request as direct blame plus hydration would. */
  lemma CacheIsTransparent(events: seq<Event>, capacity: nat, blame: Blamer, hydrate: Hydrator,
                           rangeOf: Key -> LineRange)
    requires capacity > 0 && OneRangePerKey(events, rangeOf)
    ensures forall a :: a in Run(events, capacity, blame, hydrate).replies ==>
              a.answer == Direct(a.query, a.hash, blame, hydrate)
  {
    hide Run, DirectAt, OneRangePerKey;
    AnswersAreBlames(events, capacity, blame, hydrate);
    RunKeepsRanges(events, capacity, blame, hydrate, rangeOf);
  }

  // ---------------------------------------------------------------------------------------------
  // Exactly which runs are answered directly

  /** Which blames fail. */
  type Failures = (RepoId, string, Option<string>, LineRange) -> bool

  ghost predicate FailsAs(blame: Blamer, fails: Failures) {
    forall repoId, file, hash, range :: blame(repoId, file, hash, range).Err? <==> fails(repoId, file, hash, range)
  }

  /** A blamer that only fails or not, and a hydrator that says nothing: the run they make is bookkeeping
      of keys, ranges and pending requests. */
  function Bare(fails: Failures): Blamer {
    (repoId, file, hash, range) => if fails(repoId, file, hash, range) then Err("") else Ok([])
  }

  const MUTE: Hydrator := (ranges, q) => Ok("")

  /** Whether every request of a run is served from the blame of its own range. It depends on the events,
      the capacity and which blames fail, not on what blame or hydration return. */
  ghost predicate HitsOwnRange(events: seq<Event>, capacity: nat, fails: Failures)
    requires capacity > 0
  {
    forall a :: a in Run(events, capacity, Bare(fails), MUTE).replies ==> a.served == a.query.range
  }

  ghost predicate AllDirect(replies: seq<Reply>, blame: Blamer, hydrate: Hydrator) {
    forall a :: a in replies ==> a.answer == Direct(a.query, a.hash, blame, hydrate)
  }

  function BlankEntries(entries: seq<Entry>): (r: seq<Entry>)
    ensures |r| == |entries|
  {
    seq(|entries|, i requires 0 <= i < |entries| => entries[i].(value := []))
  }

  function BlankReplies(replies: seq<Reply>): (r: seq<Reply>)
    ensures |r| == |replies|
  {
    seq(|replies|, i requires 0 <= i < |replies| => replies[i].(answer := Ok("")))
  }

  /** The state without what blame and hydration returned. */
  function Shape(s: State): State {
    State(BlankEntries(s.entries), s.pending, BlankReplies(s.replies))
  }

  lemma {:induction false} BlankLookup(entries: seq<Entry>, key: Key)
    ensures Lookup(BlankEntries(entries), key) == Lookup(entries, key)
  {
    if entries != [] {
      BlankLookup(entries[1..], key);
      assert BlankEntries(entries)[1..] == BlankEntries(entries[1..]);
    }
  }

  lemma {:induction false} BlankMinus(entries: seq<Entry>, keys: set<Key>)
    ensures Minus(BlankEntries(entries), keys) == BlankEntries(Minus(entries, keys))
  {
    if entries != [] {
      var rest := Minus(entries[1..], keys);
      BlankMinus(entries[1..], keys);
      assert BlankEntries(entries)[1..] == BlankEntries(entries[1..]);
      assert BlankEntries([entries[0]] + rest) == [entries[0].(value := [])] + BlankEntries(rest);
    }
  }

  lemma BlankGet(entries: seq<Entry>, key: Key)
    ensures AfterGet(BlankEntries(entries), key) == BlankEntries(AfterGet(entries, key))
  {
    hide Minus, Lookup;
    BlankLookup(entries, key);
    BlankMinus(entries, {key});
    var at := Lookup(entries, key);
    if at.Some? {
      BlankCons(entries[at.value], Minus(entries, {key}));
    }
  }

  lemma BlankCons(e: Entry, rest: seq<Entry>)
    ensures BlankEntries([e] + rest) == [e.(value := [])] + BlankEntries(rest)
  {
  }

  lemma BlankPut(entries: seq<Entry>, capacity: nat, e: Entry)
    requires capacity > 0
    ensures AfterPut(BlankEntries(entries), capacity, e.(value := [])) == BlankEntries(AfterPut(entries, capacity, e))
  {
    hide Minus;
    BlankMinus(entries, {e.key});
    var rest := Minus(entries, {e.key});
    assert Take(BlankEntries(rest), capacity - 1) == BlankEntries(Take(rest, capacity - 1));
    BlankCons(e, Take(rest, capacity - 1));
  }

  lemma BlankRepo(entries: seq<Entry>, repoId: RepoId)
    ensures KeysOfRepo(BlankEntries(entries), repoId) == KeysOfRepo(entries, repoId)
  {
    var blank := BlankEntries(entries);
    forall k
      ensures k in KeysOfRepo(blank, repoId) <==> k in KeysOfRepo(entries, repoId)
    {
      if k in KeysOfRepo(blank, repoId) {
        var i :| 0 <= i < |blank| && blank[i].key == k && blank[i].key.repoId == repoId;
        assert entries[i] in entries;
      }
      if k in KeysOfRepo(entries, repoId) {
        var i :| 0 <= i < |entries| && entries[i].key == k && entries[i].key.repoId == repoId;
        assert blank[i] in blank;
      }
    }
  }

  lemma BlankSnoc(replies: seq<Reply>, a: Reply)
    ensures BlankReplies(replies + [a]) == BlankReplies(replies) + [a.(answer := Ok(""))]
  {
  }

  lemma BlankTwice(s: State)
    ensures Shape(Shape(s)) == Shape(s)
  {
    assert BlankEntries(BlankEntries(s.entries)) == BlankEntries(s.entries);
    assert BlankReplies(BlankReplies(s.replies)) == BlankReplies(s.replies);
  }

  /** A step moves the shape as the bare blamer moves it. */
  lemma ShapeStep(s: State, e: Event, capacity: nat, blame: Blamer, hydrate: Hydrator, fails: Failures)
    requires capacity > 0 && FailsAs(blame, fails)
    ensures Shape(Step(s, e, capacity, blame, hydrate)) == Shape(Step(Shape(s), e, capacity, Bare(fails), MUTE))
  {
    hide AfterGet, AfterPut, Minus, Lookup, BlankEntries, BlankReplies;
    BlankTwice(s);
    match e
    case Begin(id, q, hash) => ShapeBegin(s, id, q, hash, capacity, blame, hydrate, fails);
    case Finish(id) => ShapeFinish(s, id, capacity, blame, hydrate, fails);
    case Invalidate(repoId) =>
      BlankRepo(s.entries, repoId);
      BlankMinus(s.entries, KeysOfRepo(s.entries, repoId));
      BlankMinus(BlankEntries(s.entries), KeysOfRepo(s.entries, repoId));
  }

  lemma ShapeBegin(s: State, id: nat, q: ExplainQuery, hash: Option<string>, capacity: nat, blame: Blamer,
                   hydrate: Hydrator, fails: Failures)
    requires capacity > 0
    ensures Shape(Step(s, Begin(id, q, hash), capacity, blame, hydrate))
         == Shape(Step(Shape(s), Begin(id, q, hash), capacity, Bare(fails), MUTE))
  {
    hide AfterGet, Minus, Lookup, BlankReplies;
    BlankTwice(s);
    if id !in s.pending && hash.Some? {
      var key := KeyOf(q, hash.value);
      BlankLookup(s.entries, key);
      var at := Lookup(s.entries, key);
      if at.Some? {
        var cached := s.entries[at.value];
        BlankGet(s.entries, key);
        BlankGet(BlankEntries(s.entries), key);
        BlankSnoc(s.replies, Reply(q, hash, cached.range, hydrate(cached.value, q)));
        BlankSnoc(BlankReplies(s.replies), Reply(q, hash, cached.range, Ok("")));
      }
    }
  }

  lemma ShapeFinish(s: State, id: nat, capacity: nat, blame: Blamer, hydrate: Hydrator, fails: Failures)
    requires capacity > 0 && FailsAs(blame, fails)
    ensures Shape(Step(s, Finish(id), capacity, blame, hydrate))
         == Shape(Step(Shape(s), Finish(id), capacity, Bare(fails), MUTE))
  {
    hide AfterPut, BlankReplies, BlankEntries;
    BlankTwice(s);
    if id in s.pending {
      var p := s.pending[id];
      var q, raw := p.query, blame(p.query.repoId, p.query.file, p.hash, p.query.range);
      var bare := Bare(fails)(q.repoId, q.file, p.hash, q.range);
      assert raw.Err? <==> bare.Err?;
      var answer := if raw.Err? then Err(raw.error) else hydrate(raw.value, q);
      var muted: Result<Answer, Error> := if bare.Err? then Err(bare.error) else Ok("");
      BlankSnoc(s.replies, Reply(q, p.hash, q.range, answer));
      BlankSnoc(BlankReplies(s.replies), Reply(q, p.hash, q.range, muted));
      if raw.Ok? && p.hash.Some? {
        var entry := Entry(KeyOf(q, p.hash.value), raw.value, q.range);
        BlankPut(s.entries, capacity, entry);
        BlankPut(BlankEntries(s.entries), capacity, entry.(value := []));
      }
    }
  }

  lemma BareFailsAs(fails: Failures)
    ensures FailsAs(Bare(fails), fails)
  {
  }

  /** Runs with the same failures have the same keys, ranges, pending requests and served ranges. */
  lemma {:induction false} ShapeRun(events: seq<Event>, capacity: nat, blame: Blamer, hydrate: Hydrator, fails: Failures)
    requires capacity > 0 && FailsAs(blame, fails)
    ensures Shape(Run(events, capacity, blame, hydrate)) == Shape(Run(events, capacity, Bare(fails), MUTE))
    decreases |events|
  {
    hide Shape, Step, Bare, FailsAs;
    if events != [] {
      var n := |events| - 1;
      ShapeRun(events[..n], capacity, blame, hydrate, fails);
      BareFailsAs(fails);
      ShapeStep(Run(events[..n], capacity, blame, hydrate), events[n], capacity, blame, hydrate, fails);
      ShapeStep(Run(events[..n], capacity, Bare(fails), MUTE), events[n], capacity, Bare(fails), MUTE, fails);
    }
  }

  lemma SameServed(s: State, s': State, i: nat)
    requires Shape(s) == Shape(s') && i < |s.replies|
    ensures i < |s'.replies| && s'.replies[i].query == s.replies[i].query && s'.replies[i].hash == s.replies[i].hash
    ensures s'.replies[i].served == s.replies[i].served
  {
    assert |BlankReplies(s.replies)| == |BlankReplies(s'.replies)|;
    assert BlankReplies(s.replies)[i] == BlankReplies(s'.replies)[i];
  }

  /** A reply served from another range than its own was a hit, so that blame had succeeded. */
  ghost predicate HitsSucceeded(replies: seq<Reply>, blame: Blamer) {
    forall a :: a in replies && a.served != a.query.range ==>
      blame(a.query.repoId, a.query.file, a.hash, a.served).Ok?
  }

  lemma {:induction false} HitsHadSucceeded(events: seq<Event>, capacity: nat, blame: Blamer, hydrate: Hydrator)
    requires capacity > 0
    ensures HitsSucceeded(Run(events, capacity, blame, hydrate).replies, blame)
    decreases |events|
  {
    hide AfterGet, AfterPut, Minus;
    if events != [] {
      var n := |events| - 1;
      HitsHadSucceeded(events[..n], capacity, blame, hydrate);
      AnswersAreBlames(events[..n], capacity, blame, hydrate);
      var s := Run(events[..n], capacity, blame, hydrate);
      StepHitSucceeded(s, events[n], capacity, blame, hydrate);
    }
  }

  lemma StepHitSucceeded(s: State, e: Event, capacity: nat, blame: Blamer, hydrate: Hydrator)
    requires capacity > 0 && Faithful(s.entries, blame) && HitsSucceeded(s.replies, blame)
    ensures HitsSucceeded(Step(s, e, capacity, blame, hydrate).replies, blame)
  {
    hide AfterGet, AfterPut, Minus;
  }

  /** Exactly which runs are answered directly, whatever blame and hydration return and however blames
      fail: those in which every request is served from the blame of its own range. */
  lemma DirectIffOwnRange(events: seq<Event>, capacity: nat, fails: Failures)
    requires capacity > 0
    ensures HitsOwnRange(events, capacity, fails)
       <==> forall blame: Blamer, hydrate: Hydrator :: FailsAs(blame, fails) ==>
              AllDirect(Run(events, capacity, blame, hydrate).replies, blame, hydrate)
  {
    hide Run, FailsAs, AllDirect, HitsOwnRange;
    if HitsOwnRange(events, capacity, fails) {
      forall blame: Blamer, hydrate: Hydrator | FailsAs(blame, fails)
        ensures AllDirect(Run(events, capacity, blame, hydrate).replies, blame, hydrate)
      {
        OwnRangeIsDirect(events, capacity, blame, hydrate, fails);
      }
    } else {
      var blame, hydrate := OtherRangeShows(events, capacity, fails);
    }
  }

  lemma OwnRangeIsDirect(events: seq<Event>, capacity: nat, blame: Blamer, hydrate: Hydrator, fails: Failures)
    requires capacity > 0 && FailsAs(blame, fails) && HitsOwnRange(events, capacity, fails)
    ensures AllDirect(Run(events, capacity, blame, hydrate).replies, blame, hydrate)
  {
    hide Run, FailsAs, Shape;
    AnswersAreBlames(events, capacity, blame, hydrate);
    ShapeRun(events, capacity, blame, hydrate, fails);
    var s, bare := Run(events, capacity, blame, hydrate), Run(events, capacity, Bare(fails), MUTE);
    forall a | a in s.replies
      ensures a.answer == Direct(a.query, a.hash, blame, hydrate)
    {
      var i :| 0 <= i < |s.replies| && s.replies[i] == a;
      SameServed(s, bare, i);
      assert bare.replies[i] in bare.replies;
    }
  }

  /** The bounds of a range, as blame. */
  function Mark(range: LineRange): seq<BlameRange> {
    [BlameRange("", [range.lineStart, range.lineEnd])]
  }

  function Marking(fails: Failures): Blamer {
    (repoId, file, hash, range) => if fails(repoId, file, hash, range) then Err("") else Ok(Mark(range))
  }

  lemma MarkingFailsAs(fails: Failures)
    ensures FailsAs(Marking(fails), fails)
  {
  }

  /** Says whether the blame is that of the given range. */
  function Telling(range: LineRange): Hydrator {
    (ranges, q) => if ranges == Mark(range) then Ok("1") else Ok("0")
  }

  lemma OtherRangeShows(events: seq<Event>, capacity: nat, fails: Failures) returns (blame: Blamer, hydrate: Hydrator)
    requires capacity > 0 && !HitsOwnRange(events, capacity, fails)
    ensures FailsAs(blame, fails) && !AllDirect(Run(events, capacity, blame, hydrate).replies, blame, hydrate)
  {
    hide Run, FailsAs, Shape;
    BareFailsAs(fails);
    MarkingFailsAs(fails);
    var bare := Run(events, capacity, Bare(fails), MUTE);
    var b :| b in bare.replies && b.served != b.query.range;
    var i :| 0 <= i < |bare.replies| && bare.replies[i] == b;
    blame, hydrate := Marking(fails), Telling(b.served);
    ShapeRun(events, capacity, blame, hydrate, fails);
    var s := Run(events, capacity, blame, hydrate);
    SameServed(bare, s, i);
    AnswersAreBlames(events, capacity, blame, hydrate);
    HitsHadSucceeded(events, capacity, blame, hydrate);
    OtherRangeIsWrong(s.replies[i], fails);
    assert s.replies[i] in s.replies;
  }

  lemma OtherRangeIsWrong(a: Reply, fails: Failures)
    requires a.served != a.query.range && Marking(fails)(a.query.repoId, a.query.file, a.hash, a.served).Ok?
    ensures DirectAt(a.query, a.hash, a.served, Marking(fails), Telling(a.served)) == Ok("1")
    ensures Direct(a.query, a.hash, Marking(fails), Telling(a.served)) != Ok("1")
  {
    assert Mark(a.served)[0].lines[0] == a.served.lineStart && Mark(a.served)[0].lines[1] == a.served.lineEnd;
    assert Mark(a.query.range)[0].lines[0] == a.query.range.lineStart;
    assert Mark(a.query.range)[0].lines[1] == a.query.range.lineEnd;
    assert "0"[0] != "1"[0];
  }

  /** Queries under one key that share a range are one way to get there. */
  lemma OneRangeIsOwnRange(events: seq<Event>, capacity: nat, fails: Failures, rangeOf: Key -> LineRange)
    requires capacity > 0 && OneRangePerKey(events, rangeOf)
    ensures HitsOwnRange(events, capacity, fails)
  {
    hide Run;
    RunKeepsRanges(events, capacity, Bare(fails), MUTE, rangeOf);
  }

  /** Not the only one: two requests for any two ranges of one file that both begin before either
      finishes are both served from their own. */
  lemma ParallelMissesAreDirect(q1: ExplainQuery, q2: ExplainQuery, hash: string, capacity: nat, fails: Failures)
    requires capacity > 0
    ensures HitsOwnRange([Begin(0, q1, Some(hash)), Begin(1, q2, Some(hash)), Finish(0), Finish(1)], capacity, fails)
  {
    hide Run, AfterPut;
    var b1, b2 := Begin(0, q1, Some(hash)), Begin(1, q2, Some(hash));
    var blame := Bare(fails);
    var s1: State := State([], map[0 := Pending(q1, Some(hash))], []);
    var s2: State := State([], map[0 := Pending(q1, Some(hash)), 1 := Pending(q2, Some(hash))], []);
    RunNothing(capacity, blame, MUTE);
    RunSnoc([], b1, capacity, blame, MUTE);
    assert [] + [b1] == [b1];
    assert Run([b1], capacity, blame, MUTE) == s1;
    RunSnoc([b1], b2, capacity, blame, MUTE);
    assert Run([b1] + [b2], capacity, blame, MUTE) == s2;
    RunSnoc([b1] + [b2], Finish(0), capacity, blame, MUTE);
    RunSnoc([b1] + [b2] + [Finish(0)], Finish(1), capacity, blame, MUTE);
    assert [b1] + [b2] + [Finish(0)] + [Finish(1)] == [b1, b2, Finish(0), Finish(1)];
  }

  lemma RunNothing(capacity: nat, blame: Blamer, hydrate: Hydrator)
    requires capacity > 0
    ensures Run([], capacity, blame, hydrate) == State([], map[], [])
  {
  }

  lemma RunSnoc(events: seq<Event>, e: Event, capacity: nat, blame: Blamer, hydrate: Hydrator)
    requires capacity > 0
    ensures Run(events + [e], capacity, blame, hydrate)
         == Step(Run(events, capacity, blame, hydrate), e, capacity, blame, hydrate)
  {
    assert (events + [e])[..|events|] == events;
  }

  // ---------------------------------------------------------------------------------------------
  // Two ranges under one key

  /** The answer to `q2` right after `q1` was answered, starting from an empty cache. */
  function SecondAnswer(q1: ExplainQuery, q2: ExplainQuery, hash: string, capacity: nat, blame: Blamer,
                        hydrate: Hydrator): Result<Answer, Error>
    requires capacity > 0
  {
    var first := Alone([], q1, Some(hash), capacity, blame, hydrate);
    var second := Alone(first.entries, q2, Some(hash), capacity, blame, hydrate);
    if second.replies == [] then Err("") else second.replies[0].answer
  }

  /** The key leaves the range out: the second of two queries under one key is answered with the blame
      of the first one's lines. */
  lemma SecondIsServedFirst(q1: ExplainQuery, q2: ExplainQuery, hash: string, capacity: nat, blame: Blamer,
                            hydrate: Hydrator)
    requires capacity > 0 && KeyOf(q1, hash) == KeyOf(q2, hash)
    requires blame(q1.repoId, q1.file, Some(hash), q1.range).Ok?
    ensures SecondAnswer(q1, q2, hash, capacity, blame, hydrate) == DirectAt(q2, Some(hash), q1.range, blame, hydrate)
  {
    var raw := blame(q1.repoId, q1.file, Some(hash), q1.range).value;
    var e := Entry(KeyOf(q1, hash), raw, q1.range);
    assert AfterPut([], capacity, e) == [e];
    assert Lookup([e], e.key) == Some(0);
    assert Alone([], q1, Some(hash), capacity, blame, hydrate).entries == [e];
  }

  /** So the cache is right about two such queries in a row, whatever blame and hydration return, exactly when
      they ask for the same lines. */
  lemma RightIffSameRange(q1: ExplainQuery, q2: ExplainQuery, hash: string, capacity: nat)
    requires capacity > 0 && KeyOf(q1, hash) == KeyOf(q2, hash)
    ensures q1.range == q2.range
       <==> forall blame: Blamer, hydrate: Hydrator :: blame(q1.repoId, q1.file, Some(hash), q1.range).Ok? ==>
              SecondAnswer(q1, q2, hash, capacity, blame, hydrate) == Direct(q2, Some(hash), blame, hydrate)
  {
    hide SecondAnswer;
    forall blame: Blamer, hydrate: Hydrator | blame(q1.repoId, q1.file, Some(hash), q1.range).Ok?
      ensures SecondAnswer(q1, q2, hash, capacity, blame, hydrate)
           == DirectAt(q2, Some(hash), q1.range, blame, hydrate)
    {
      SecondIsServedFirst(q1, q2, hash, capacity, blame, hydrate);
    }
    if q1.range != q2.range {
      var blame: Blamer := (repoId, file, h, range) => if range == q1.range then Ok([BlameRange("first", [])]) else Ok([]);
      var hydrate: Hydrator := (ranges, q) => if ranges == [] then Ok("second") else Ok("first");
      assert blame(q1.repoId, q1.file, Some(hash), q1.range).Ok?;
      assert DirectAt(q2, Some(hash), q1.range, blame, hydrate) == Ok("first");
      assert Direct(q2, Some(hash), blame, hydrate) == Ok("second");
      assert "first"[0] != "second"[0];
    }
  }
}
