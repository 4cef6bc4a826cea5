/** The daemon registry's operations on a list of records, one after the other. */
module RegistrySpec {
  import opened Wrappers

  datatype Record = Record(
    pid: nat,
    socketPath: string,
    version: string,
    gitSha: Option<string>,
    startedAt: nat,
    lastHealth: nat)

  const STALE_AFTER: nat := 5 * 60

  /** An operation with what it finds outside the file: the clock, the live pids, and for
      find-or-spawn the record of the daemon it would spawn (`None` if spawning fails). */
  datatype Op =
    | Open
    | List
    | Register(rec: Record)
    | Unregister(pid: nat)
    | Touch(touched: nat, at: nat)
    | ListAlive(alive: set<nat>, now: nat)
    | FindOrPush(version: string, spawned: Option<Record>, alive: set<nat>, now: nat)

  datatype Answer = Done | Listed(records: seq<Record>) | Found(found: Record) | Pushed(pushed: Record) | SpawnFailed
    | ParseError

  predicate Fresh(r: Record, alive: set<nat>, now: nat) {
    // `saturating_sub`: a stamp in the future is fresh.
    r.pid in alive && (if now < r.lastHealth then 0 else now - r.lastHealth) <= STALE_AFTER
  }

  function Without(rs: seq<Record>, pid: nat): seq<Record> {
    if rs == [] then [] else (if rs[0].pid != pid then [rs[0]] else []) + Without(rs[1..], pid)
  }

  function Kept(rs: seq<Record>, alive: set<nat>, now: nat): seq<Record> {
    if rs == [] then [] else (if Fresh(rs[0], alive, now) then [rs[0]] else []) + Kept(rs[1..], alive, now)
  }

  lemma KeptStep(kept: seq<Record>, rest: seq<Record>, alive: set<nat>, now: nat)
    requires rest != []
    ensures kept + Kept(rest, alive, now)
         == (if Fresh(rest[0], alive, now) then kept + [rest[0]] else kept) + Kept(rest[1..], alive, now)
  {
  }

  lemma KeptEnd(kept: seq<Record>, alive: set<nat>, now: nat)
    ensures kept + Kept([], alive, now) == kept
  {
  }

  function Touched(rs: seq<Record>, pid: nat, now: nat): (k: seq<Record>)
    ensures |k| == |rs|
    ensures forall i :: 0 <= i < |rs| ==> k[i] == if rs[i].pid == pid then rs[i].(lastHealth := now) else rs[i]
  {
    if rs == [] then []
    else [if rs[0].pid == pid then rs[0].(lastHealth := now) else rs[0]] + Touched(rs[1..], pid, now)
  }

  /** The first `i` records have been touched. */
  ghost predicate TouchedUpTo(before: seq<Record>, rs: seq<Record>, pid: nat, now: nat, i: nat) {
    i <= |before| && rs == Touched(before[..i], pid, now) + before[i..]
  }

  lemma NothingTouched(rs: seq<Record>, pid: nat, now: nat)
    ensures TouchedUpTo(rs, rs, pid, now, 0)
  {
  }

  lemma AllTouched(before: seq<Record>, rs: seq<Record>, pid: nat, now: nat)
    requires TouchedUpTo(before, rs, pid, now, |before|)
    ensures rs == Apply(Touch(pid, now), before)
  {
    assert before[..|before|] == before;
  }

  lemma TouchStep(before: seq<Record>, rs: seq<Record>, pid: nat, now: nat, i: nat)
    requires i < |before| && TouchedUpTo(before, rs, pid, now, i)
    ensures i < |rs| && rs[i] == before[i]
    ensures TouchedUpTo(before, if rs[i].pid == pid then rs[i := rs[i].(lastHealth := now)] else rs, pid, now, i + 1)
  {
    var done, r, rest := Touched(before[..i], pid, now), before[i], before[i + 1..];
    assert before[..i + 1] == before[..i] + [r];
    TouchedSnoc(before[..i], r, pid, now);
    hide Touched;
    assert before[i..] == [r] + rest;
    SetNext(done, r, r.(lastHealth := now), rest);
  }

  lemma SetNext(done: seq<Record>, r: Record, touched: Record, rest: seq<Record>)
    ensures (done + ([r] + rest))[|done|] == r
    ensures (done + ([r] + rest))[|done| := touched] == done + [touched] + rest
    ensures done + ([r] + rest) == done + [r] + rest
  {
  }

  lemma TouchedSnoc(rs: seq<Record>, r: Record, pid: nat, now: nat)
    ensures Touched(rs + [r], pid, now)
         == Touched(rs, pid, now) + [if r.pid == pid then r.(lastHealth := now) else r]
  {
    var all := Touched(rs + [r], pid, now);
    hide Touched;
    forall i | 0 <= i < |all|
      ensures all[i] == (Touched(rs, pid, now) + [if r.pid == pid then r.(lastHealth := now) else r])[i]
    {
    }
  }

  /** The first record of the given version. */
  function Find(rs: seq<Record>, version: string): Option<Record> {
    if rs == [] then None else if rs[0].version == version then Some(rs[0]) else Find(rs[1..], version)
  }

  function Apply(op: Op, rs: seq<Record>): seq<Record> {
    match op
    case Open => rs
    case List => rs
    case Register(rec) => Without(rs, rec.pid) + [rec]
    case Unregister(pid) => Without(rs, pid)
    case Touch(pid, now) => Touched(rs, pid, now)
    case ListAlive(alive, now) => Kept(rs, alive, now)
    case FindOrPush(version, spawned, alive, now) =>
      var kept := Kept(rs, alive, now);
      if Find(kept, version).None? && spawned.Some? then kept + [spawned.value] else kept
  }

  function AnswerOf(op: Op, rs: seq<Record>): Answer {
    match op
    case List => Listed(rs)
    case ListAlive(alive, now) => Listed(Kept(rs, alive, now))
    case FindOrPush(version, spawned, alive, now) =>
      var found := Find(Kept(rs, alive, now), version);
      if found.Some? then Found(found.value)
      else if spawned.Some? then Pushed(spawned.value)
      else SpawnFailed
    case _ => Done
  }

  // ---------------------------------------------------------------------------------------------
  // The records of a parsed file, updated in place

  class RegistryFile {
    var daemons: seq<Record>

    constructor (records: seq<Record>)
      ensures daemons == records
    {
      daemons := records;
    }

    method RetainOtherPids(pid: nat)
      modifies this
      ensures daemons == Without(old(daemons), pid)
    {
      var kept: seq<Record> := [];
      var rest := daemons;
      while rest != []
        invariant kept + Without(rest, pid) == Without(daemons, pid)
        decreases |rest|
      {
        if rest[0].pid != pid {
          kept := kept + [rest[0]];
        }
        rest := rest[1..];
      }
      daemons := kept;
    }

    method Register(rec: Record)
      modifies this
      ensures daemons == Apply(Op.Register(rec), old(daemons))
    {
      RetainOtherPids(rec.pid);
      daemons := daemons + [rec];
    }

    method Unregister(pid: nat)
      modifies this
      ensures daemons == Apply(Op.Unregister(pid), old(daemons))
    {
      RetainOtherPids(pid);
    }

    method TouchHealth(pid: nat, now: nat)
      modifies this
      ensures daemons == Apply(Touch(pid, now), old(daemons))
    {
      hide *;
      ghost var before := daemons;
      NothingTouched(before, pid, now);
      for i := 0 to |daemons|
        invariant |daemons| == |before| && TouchedUpTo(before, daemons, pid, now, i)
      {
        TouchStep(before, daemons, pid, now, i);
        if daemons[i].pid == pid {
          daemons := daemons[i := daemons[i].(lastHealth := now)];
        }
      }
      AllTouched(before, daemons, pid, now);
    }

    method PruneDead(alive: set<nat>, now: nat)
      modifies this
      ensures daemons == Kept(old(daemons), alive, now)
    {
      hide Fresh, Kept;
      var kept: seq<Record> := [];
      var rest := daemons;
      assert [] + Kept(rest, alive, now) == Kept(rest, alive, now);
      while rest != []
        invariant kept + Kept(rest, alive, now) == Kept(old(daemons), alive, now)
        decreases |rest|
      {
        KeptStep(kept, rest, alive, now);
        if Fresh(rest[0], alive, now) {
          kept := kept + [rest[0]];
        }
        rest := rest[1..];
      }
      KeptEnd(kept, alive, now);
      daemons := kept;
    }

    method FindVersion(version: string) returns (r: Option<Record>)
      ensures r == Find(daemons, version)
    {
      for i := 0 to |daemons|
        invariant Find(daemons, version) == Find(daemons[i..], version)
      {
        if daemons[i].version == version {
          return Some(daemons[i]);
        }
      }
      return None;
    }

    /** `locked_update` with the find-or-spawn closure, between reading and writing the file. */
    method FindOrPush(version: string, spawned: Option<Record>, alive: set<nat>, now: nat) returns (answer: Answer)
      modifies this
      ensures daemons == Apply(Op.FindOrPush(version, spawned, alive, now), old(daemons))
      ensures answer == AnswerOf(Op.FindOrPush(version, spawned, alive, now), old(daemons))
    {
      PruneDead(alive, now);
      var existing := FindVersion(version);
      if existing.Some? {
        return Found(existing.value);
      }
      if spawned.None? {
        return SpawnFailed;
      }
      daemons := daemons + [spawned.value];
      return Pushed(spawned.value);
    }
  }
}
