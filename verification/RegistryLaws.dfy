/** What the registry promises on every interleaving of its callers. */
module RegistryLaws {
  import opened Wrappers
  import opened RegistrySpec
  import opened Registry

  // ---------------------------------------------------------------------------------------------
  // Linearizability

  /** On every interleaving the calls that returned answered as if they had run one at a time in
      lock order, none failed to parse the file, and whenever no process holds the lock the file holds
      exactly the records those calls leave. */
  lemma Linearizable(file: File, run: Run)
    requires !file.Torn? && Exec(file, run).Some?
    ensures var s := Exec(file, run).value;
            && Legal(BaseOf(file), s.log)
            && (forall i :: 0 <= i < |s.log| ==> s.log[i].answer != ParseError)
            && (s.lock.None? && s.log != [] ==> s.file == Json(Fold(BaseOf(file), s.log)))
  {
    RunKeepsInv(file, run);
    hide Fold, Apply;
  }

  /** No process ever looks at a file it cannot use: a reader finds the records of the calls before
      it, and only `open` can find a file of length zero, which it then seeds. */
  lemma NoReaderSeesHalfWrittenFile(file: File, run: Run, p: Process)
    requires !file.Torn? && Exec(file, run).Some? && PhaseOf(Exec(file, run).value, p).Locked?
    ensures var s := Exec(file, run).value;
            var op := PhaseOf(s, p).op;
            && s.lock == Some(p)
            && (s.file == Json(Fold(BaseOf(file), s.log)) || (op.Open? && s.file.Empty?))
            && (!op.Open? ==> s.file == Json(Fold(BaseOf(file), s.log)))
  {
    RunKeepsInv(file, run);
    hide Fold, Apply, Legal;
  }

  /** At most one process is between locking and unlocking. */
  lemma LockIsExclusive(file: File, run: Run, p: Process, q: Process)
    requires !file.Torn? && Exec(file, run).Some?
    requires HoldsLock(PhaseOf(Exec(file, run).value, p)) && HoldsLock(PhaseOf(Exec(file, run).value, q))
    ensures p == q
  {
    RunKeepsInv(file, run);
  }

  // ---------------------------------------------------------------------------------------------
  // Pids

  predicate UniquePids(rs: seq<Record>) {
    forall i, j :: 0 <= i < j < |rs| ==> rs[i].pid != rs[j].pid
  }

  predicate HasPid(rs: seq<Record>, pid: nat) {
    exists i :: 0 <= i < |rs| && rs[i].pid == pid
  }

  /** The one way to duplicate a pid: find-or-spawn pushes a record whose pid a live, fresh record
      already has. */
  predicate PushesTakenPid(op: Op, rs: seq<Record>) {
    && op.FindOrPush? && op.spawned.Some?
    && Find(Kept(rs, op.alive, op.now), op.version).None?
    && HasPid(Kept(rs, op.alive, op.now), op.spawned.value.pid)
  }

  lemma {:induction false} WithoutPids(rs: seq<Record>, pid: nat)
    ensures !HasPid(Without(rs, pid), pid)
    ensures forall q :: HasPid(Without(rs, pid), q) ==> HasPid(rs, q)
    ensures UniquePids(rs) ==> UniquePids(Without(rs, pid))
  {
    if rs != [] {
      WithoutPids(rs[1..], pid);
      PidsOfCons(rs);
      var k := Without(rs[1..], pid);
      if rs[0].pid != pid {
        assert Without(rs, pid) == [rs[0]] + k;
        PidsOfCons([rs[0]] + k);
      }
    }
  }

  lemma {:induction false} KeptPids(rs: seq<Record>, alive: set<nat>, now: nat)
    ensures forall q :: HasPid(Kept(rs, alive, now), q) ==> HasPid(rs, q)
    ensures UniquePids(rs) ==> UniquePids(Kept(rs, alive, now))
  {
    if rs != [] {
      KeptPids(rs[1..], alive, now);
      PidsOfCons(rs);
      var k := Kept(rs[1..], alive, now);
      if Fresh(rs[0], alive, now) {
        assert Kept(rs, alive, now) == [rs[0]] + k;
        PidsOfCons([rs[0]] + k);
      }
    }
  }

  lemma PidsOfCons(rs: seq<Record>)
    requires rs != []
    ensures forall q :: HasPid(rs, q) <==> rs[0].pid == q || HasPid(rs[1..], q)
    ensures UniquePids(rs) <==> UniquePids(rs[1..]) && !HasPid(rs[1..], rs[0].pid)
  {
    forall q
      ensures HasPid(rs, q) <==> rs[0].pid == q || HasPid(rs[1..], q)
    {
      if HasPid(rs, q) && rs[0].pid != q {
        var i :| 0 <= i < |rs| && rs[i].pid == q;
        assert rs[1..][i - 1].pid == q;
      }
      if HasPid(rs[1..], q) {
        var i :| 0 <= i < |rs[1..]| && rs[1..][i].pid == q;
        assert rs[i + 1].pid == q;
      }
    }
    if UniquePids(rs[1..]) && !HasPid(rs[1..], rs[0].pid) {
      forall i, j | 0 <= i < j < |rs|
        ensures rs[i].pid != rs[j].pid
      {
        assert rs[j] == rs[1..][j - 1];
        if i > 0 {
          assert rs[i] == rs[1..][i - 1];
        }
      }
    }
  }

  lemma PidsOfSnoc(rs: seq<Record>, r: Record)
    ensures UniquePids(rs + [r]) <==> UniquePids(rs) && !HasPid(rs, r.pid)
  {
    var longer := rs + [r];
    assert forall i :: 0 <= i < |rs| ==> longer[i] == rs[i];
    assert longer[|rs|] == r;
    if UniquePids(longer) {
      forall i, j | 0 <= i < j < |rs|
        ensures rs[i].pid != rs[j].pid
      {
        assert longer[i].pid != longer[j].pid;
      }
      forall i | 0 <= i < |rs|
        ensures rs[i].pid != r.pid
      {
        assert longer[i].pid != longer[|rs|].pid;
      }
    }
  }

  /** Every operation keeps pids unique, except exactly when find-or-spawn pushes a taken pid. */
  lemma PidsStayUnique(op: Op, rs: seq<Record>)
    requires UniquePids(rs)
    ensures UniquePids(Apply(op, rs)) <==> !PushesTakenPid(op, rs)
  {
    match op
    case Register(rec) =>
      WithoutPids(rs, rec.pid);
      PidsOfSnoc(Without(rs, rec.pid), rec);
    case Unregister(pid) => WithoutPids(rs, pid);
    case ListAlive(alive, now) => KeptPids(rs, alive, now);
    case FindOrPush(version, spawned, alive, now) =>
      KeptPids(rs, alive, now);
      if spawned.Some? {
        PidsOfSnoc(Kept(rs, alive, now), spawned.value);
      }
    case _ =>
  }

  /** How it happens: a daemon dies after the list was pruned, and the daemon that the closure spawns
      is given its pid. */
  lemma ReusedPidIsDuplicated(spawnedAt: nat)
    ensures var kept := Record(7, "/run/a.sock", "0.7.6", None, 0, 100);
            var spawned := Record(7, "/run/b.sock", "0.7.7", None, spawnedAt, spawnedAt);
            var op := FindOrPush("0.7.7", Some(spawned), {7}, 100);
            && UniquePids([kept]) && PushesTakenPid(op, [kept])
            && Apply(op, [kept]) == [kept, spawned]
            && !UniquePids(Apply(op, [kept])) && AnswerOf(op, [kept]) == Pushed(spawned)
  {
    var kept := Record(7, "/run/a.sock", "0.7.6", None, 0, 100);
    var spawned := Record(7, "/run/b.sock", "0.7.7", None, spawnedAt, spawnedAt);
    var op := FindOrPush("0.7.7", Some(spawned), {7}, 100);
    assert Fresh(kept, {7}, 100);
    assert Kept([kept], {7}, 100) == [kept] + Kept([], {7}, 100);
    assert kept.version[4] != spawned.version[4];
    assert Find([kept], "0.7.7") == Find([], "0.7.7");
    assert [kept][0].pid == 7;
    assert [kept, spawned][0].pid == [kept, spawned][1].pid;
  }

  /** The `i`th call of the log pushes a taken pid. */
  predicate TakesPid(base: seq<Record>, log: seq<Entry>, i: nat)
    requires i < |log|
  {
    PushesTakenPid(log[i].op, Fold(base, log[..i]))
  }

  lemma {:induction false} UniqueAfter(base: seq<Record>, log: seq<Entry>, n: nat)
    requires UniquePids(base) && n <= |log| && forall i :: 0 <= i < n ==> !TakesPid(base, log, i)
    ensures UniquePids(Fold(base, log[..n]))
  {
    if n > 0 {
      UniqueAfter(base, log, n - 1);
      FoldStep(base, log, n - 1);
      assert !TakesPid(base, log, n - 1);
      PidsStayUnique(log[n - 1].op, Fold(base, log[..n - 1]));
    }
  }

  lemma FoldStep(base: seq<Record>, log: seq<Entry>, i: nat)
    requires i < |log|
    ensures Fold(base, log[..i + 1]) == Apply(log[i].op, Fold(base, log[..i]))
  {
    hide Apply;
    assert log[..i + 1][..i] == log[..i];
  }

  /** On every interleaving: the records are free of duplicate pids after each call of the log exactly
      when no call pushes a taken pid; and the records after the last call are what the file holds. */
  lemma PidsUniqueOnEveryRun(file: File, run: Run)
    requires !file.Torn? && Exec(file, run).Some? && UniquePids(BaseOf(file))
    ensures var base, log := BaseOf(file), Exec(file, run).value.log;
            (forall n :: 0 <= n <= |log| ==> UniquePids(Fold(base, log[..n])))
            <==> (forall i :: 0 <= i < |log| ==> !TakesPid(base, log, i))
    ensures var s := Exec(file, run).value;
            s.lock.None? && s.log != [] ==> s.file == Json(Fold(BaseOf(file), s.log[..|s.log|]))
  {
    hide Exec, UniquePids, PushesTakenPid, Fold;
    Linearizable(file, run);
    var base, log := BaseOf(file), Exec(file, run).value.log;
    assert log[..|log|] == log;
    if forall i :: 0 <= i < |log| ==> !TakesPid(base, log, i) {
      forall n | 0 <= n <= |log|
        ensures UniquePids(Fold(base, log[..n]))
      {
        UniqueAfter(base, log, n);
      }
    }
    if forall n :: 0 <= n <= |log| ==> UniquePids(Fold(base, log[..n])) {
      forall i | 0 <= i < |log|
        ensures !TakesPid(base, log, i)
      {
        FoldStep(base, log, i);
        assert UniquePids(Fold(base, log[..i])) && UniquePids(Fold(base, log[..i + 1]));
        PidsStayUnique(log[i].op, Fold(base, log[..i]));
      }
    }
  }

  // ---------------------------------------------------------------------------------------------
  // Find-or-spawn

  predicate Has(rs: seq<Record>, pid: nat, version: string) {
    exists i :: 0 <= i < |rs| && rs[i].pid == pid && rs[i].version == version
  }

  /** The operation neither removes the records of `pid` nor replaces them by one of another version;
      for the pruning operations, the process is alive and its records fresh. */
  predicate Spares(op: Op, rs: seq<Record>, pid: nat, version: string) {
    match op
    case Register(rec) => rec.pid != pid || rec.version == version
    case Unregister(gone) => gone != pid
    case ListAlive(alive, now) => forall r :: r in rs && r.pid == pid ==> Fresh(r, alive, now)
    case FindOrPush(_, _, alive, now) => forall r :: r in rs && r.pid == pid ==> Fresh(r, alive, now)
    case _ => true
  }

  lemma {:induction false} WithoutHas(rs: seq<Record>, gone: nat, r: Record)
    requires r in rs && r.pid != gone
    ensures r in Without(rs, gone)
  {
    if rs[0] != r {
      WithoutHas(rs[1..], gone, r);
    }
  }

  lemma {:induction false} KeptHas(rs: seq<Record>, alive: set<nat>, now: nat, r: Record)
    requires r in rs && Fresh(r, alive, now)
    ensures r in Kept(rs, alive, now)
  {
    if rs[0] != r {
      KeptHas(rs[1..], alive, now, r);
    }
  }

  lemma {:induction false} FindHas(rs: seq<Record>, version: string, r: Record)
    requires r in rs && r.version == version
    ensures Find(rs, version).Some? && Find(rs, version).value.version == version
  {
    if rs[0].version != version {
      FindHas(rs[1..], version, r);
    }
  }

  lemma SparedStays(op: Op, rs: seq<Record>, pid: nat, version: string)
    requires Has(rs, pid, version) && Spares(op, rs, pid, version)
    ensures Has(Apply(op, rs), pid, version)
  {
    var i :| 0 <= i < |rs| && rs[i].pid == pid && rs[i].version == version;
    var r := rs[i];
    var next := Apply(op, rs);
    var survivor := match op
      case Touch(p, now) => (if r.pid == p then r.(lastHealth := now) else r)
      case Register(rec) => (if r.pid == rec.pid then rec else r)
      case _ => r;
    match op {
      case Register(rec) =>
        if r.pid == rec.pid {
          assert next[|next| - 1] == rec;
        } else {
          WithoutHas(rs, rec.pid, r);
        }
      case Unregister(gone) => WithoutHas(rs, gone, r);
      case Touch(p, now) => assert Touched(rs, p, now)[i] == survivor;
      case ListAlive(alive, now) => KeptHas(rs, alive, now, r);
      case FindOrPush(_, _, alive, now) => KeptHas(rs, alive, now, r);
      case _ =>
    }
    assert survivor in next;
  }

  /** No lost update: a record stays, whatever else runs, until some call removes or replaces it or
      finds it dead or stale. */
  lemma {:induction false} NoLostUpdate(base: seq<Record>, log: seq<Entry>, i: nat, pid: nat, version: string)
    requires i <= |log| && Has(Fold(base, log[..i]), pid, version)
    requires forall k :: i <= k < |log| ==> Spares(log[k].op, Fold(base, log[..k]), pid, version)
    ensures Has(Fold(base, log), pid, version)
    decreases |log|
  {
    if i == |log| {
      assert log[..i] == log;
    } else {
      var before := log[..|log| - 1];
      assert before[..i] == log[..i];
      forall k | i <= k < |before|
        ensures Spares(before[k].op, Fold(base, before[..k]), pid, version)
      {
        assert before[..k] == log[..k];
      }
      NoLostUpdate(base, before, i, pid, version);
      SparedStays(log[|log| - 1].op, Fold(base, before), pid, version);
    }
  }

  /** At most one spawn: once a find-or-spawn has pushed its record, no later call for the same
      version pushes while that record stays registered, alive and fresh; it finds a record of the
      version instead. */
  lemma AtMostOneSpawns(base: seq<Record>, log: seq<Entry>, i: nat, j: nat)
    requires Legal(base, log) && i < j < |log|
    requires log[i].op.FindOrPush? && log[i].answer.Pushed? && log[i].answer.pushed.version == log[i].op.version
    requires log[j].op.FindOrPush? && log[j].op.version == log[i].op.version
    requires forall k :: i < k <= j ==> Spares(log[k].op, Fold(base, log[..k]), log[i].answer.pushed.pid, log[i].op.version)
    ensures log[j].answer.Found? && log[j].answer.found.version == log[i].op.version
  {
    var rec, rs := log[i].answer.pushed, Fold(base, log[..i]);
    var version := rec.version;
    var upTo := log[..j];
    assert log[..i + 1][..i] == log[..i];
    var next := Fold(base, log[..i + 1]);
    assert next == Apply(log[i].op, rs);
    assert next[|next| - 1] == rec;
    assert Has(next, rec.pid, version);
    assert upTo[..i + 1] == log[..i + 1];
    forall k | i + 1 <= k < |upTo|
      ensures Spares(upTo[k].op, Fold(base, upTo[..k]), rec.pid, version)
    {
      assert upTo[..k] == log[..k];
    }
    NoLostUpdate(base, upTo, i + 1, rec.pid, version);
    FindsSpared(log[j].op, Fold(base, upTo), rec.pid, version);
  }

  lemma FindsSpared(op: Op, rs: seq<Record>, pid: nat, version: string)
    requires op.FindOrPush? && op.version == version
    requires Has(rs, pid, version) && Spares(op, rs, pid, version)
    ensures AnswerOf(op, rs).Found? && AnswerOf(op, rs).found.version == version
  {
    var i :| 0 <= i < |rs| && rs[i].pid == pid && rs[i].version == version;
    KeptHas(rs, op.alive, op.now, rs[i]);
    FindHas(Kept(rs, op.alive, op.now), version, rs[i]);
  }
}
