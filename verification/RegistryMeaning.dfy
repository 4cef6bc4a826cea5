/** What each registry call leaves and answers, in terms of the records themselves, on every run. */
module RegistryMeaning {
  import opened Wrappers
  import opened Common
  import opened RegistrySpec
  import opened Registry
  import opened RegistryLaws

  /** What a call promises: the records it leaves, and its answer. Three hundred is the number of seconds
      a record may go without a health stamp. */
  ghost predicate Promised(op: Op, before: seq<Record>, after: seq<Record>, answer: Answer) {
    match op
    case Open => after == before && answer == Done
    case List => after == before && answer == Listed(before)
    case Register(rec) => after == Filter(before, (r: Record) => r.pid != rec.pid) + [rec] && answer == Done
    case Unregister(pid) => after == Filter(before, (r: Record) => r.pid != pid) && answer == Done
    case Touch(pid, at) =>
      && |after| == |before| && answer == Done
      && forall i :: 0 <= i < |before| ==>
           after[i] == if before[i].pid == pid then before[i].(lastHealth := at) else before[i]
    case ListAlive(alive, now) =>
      && after == Filter(before, (r: Record) => r.pid in alive && now <= r.lastHealth + 300)
      && answer == Listed(after)
    case FindOrPush(version, spawned, alive, now) =>
      var live := Filter(before, (r: Record) => r.pid in alive && now <= r.lastHealth + 300);
      var same := Filter(live, (r: Record) => r.version == version);
      if same != [] then after == live && answer == Found(same[0])
      else if spawned.Some? then after == live + [spawned.value] && answer == Pushed(spawned.value)
      else after == live && answer == SpawnFailed
  }

  lemma {:induction false} WithoutIsFilter(rs: seq<Record>, pid: nat)
    ensures Without(rs, pid) == Filter(rs, (r: Record) => r.pid != pid)
  {
    if rs != [] {
      WithoutIsFilter(rs[1..], pid);
    }
  }

  lemma {:induction false} KeptIsFilter(rs: seq<Record>, alive: set<nat>, now: nat)
    ensures Kept(rs, alive, now) == Filter(rs, (r: Record) => r.pid in alive && now <= r.lastHealth + 300)
  {
    if rs != [] {
      KeptIsFilter(rs[1..], alive, now);
    }
  }

  lemma {:induction false} FindIsFilter(rs: seq<Record>, version: string)
    ensures var same := Filter(rs, (r: Record) => r.version == version);
            Find(rs, version) == if same == [] then None else Some(same[0])
  {
    if rs != [] {
      FindIsFilter(rs[1..], version);
    }
  }

  /** Alone, every operation does what it promises. */
  lemma OperationDoesAsPromised(op: Op, rs: seq<Record>)
    ensures Promised(op, rs, Apply(op, rs), AnswerOf(op, rs))
  {
    match op
    case Register(rec) => WithoutIsFilter(rs, rec.pid);
    case Unregister(pid) => WithoutIsFilter(rs, pid);
    case ListAlive(alive, now) => KeptIsFilter(rs, alive, now);
    case FindOrPush(version, spawned, alive, now) =>
      KeptIsFilter(rs, alive, now);
      FindIsFilter(Kept(rs, alive, now), version);
    case _ =>
  }

  /** On every interleaving, every call that returned did what it promises to the records its
      predecessors in lock order left. */
  lemma EveryCallDoesAsPromised(file: File, run: Run, i: nat)
    requires !file.Torn? && Exec(file, run).Some? && i < |Exec(file, run).value.log|
    ensures var base, log := BaseOf(file), Exec(file, run).value.log;
            Promised(log[i].op, Fold(base, log[..i]), Fold(base, log[..i + 1]), log[i].answer)
  {
    hide Exec, Fold, Promised, Apply, AnswerOf, BaseOf;
    Linearizable(file, run);
    var base, log := BaseOf(file), Exec(file, run).value.log;
    FoldStep(base, log, i);
    OperationDoesAsPromised(log[i].op, Fold(base, log[..i]));
  }

  /** On every interleaving, a record handed to a caller that asks for a version was in the file, has that
      version, belongs to a live process and was stamped within the last 300 seconds; and where the
      caller is told that its own daemon was pushed, the file held no such record. */
  lemma FoundIsLiveAndRecent(file: File, run: Run, i: nat)
    requires !file.Torn? && Exec(file, run).Some? && i < |Exec(file, run).value.log|
    requires Exec(file, run).value.log[i].op.FindOrPush?
    ensures var base, log := BaseOf(file), Exec(file, run).value.log;
            var FindOrPush(version, spawned, alive, now) := log[i].op;
            var rs := Fold(base, log[..i]);
            && (log[i].answer.Found? ==>
                  var r := log[i].answer.found;
                  r in rs && r.version == version && r.pid in alive && now <= r.lastHealth + 300)
            && (log[i].answer.Found? <==>
                  exists r :: r in rs && r.version == version && r.pid in alive && now <= r.lastHealth + 300)
            && (!log[i].answer.Found? ==> log[i].answer == if spawned.Some? then Pushed(spawned.value) else SpawnFailed)
  {
    hide Exec, Fold, Apply, AnswerOf, BaseOf;
    EveryCallDoesAsPromised(file, run, i);
    var base, log := BaseOf(file), Exec(file, run).value.log;
    var FindOrPush(version, spawned, alive, now) := log[i].op;
    var rs := Fold(base, log[..i]);
    var live := Filter(rs, (r: Record) => r.pid in alive && now <= r.lastHealth + 300);
    var same := Filter(live, (r: Record) => r.version == version);
    assert forall r :: r in same <==> r in rs && r.version == version && r.pid in alive && now <= r.lastHealth + 300;
    assert same != [] ==> same[0] in same;
  }

  // ---------------------------------------------------------------------------------------------
  // Calls complete

  predicate InCall(ph: Phase) {
    !ph.Away? && !ph.Ready?
  }

  /** On every interleaving, while calls are under way one of them can go on. */
  lemma SomeCallGoesOn(file: File, run: Run, p: Process)
    requires !file.Torn? && Exec(file, run).Some? && InCall(PhaseOf(Exec(file, run).value, p))
    ensures exists q, e :: Enabled(Exec(file, run).value, q, e) && InCall(PhaseOf(Exec(file, run).value, q))
  {
    RunKeepsInv(file, run);
    hide Exec, Inv, Enabled;
    var s := Exec(file, run).value;
    if s.lock.Some? {
      var e := HolderGoesOn(BaseOf(file), s);
    } else {
      WaiterGoesOn(BaseOf(file), s, p);
    }
  }

  lemma HolderGoesOn(base: seq<Record>, s: State) returns (e: Event)
    requires Inv(base, s) && s.lock.Some?
    ensures Enabled(s, s.lock.value, e) && InCall(PhaseOf(s, s.lock.value))
  {
    hide Fold, Apply, AnswerOf, Legal, AtRest;
    e := match s.phases[s.lock.value]
      case Locked(_) => Look
      case HasRead(_, _) => Truncate
      case Truncated(_, _) => StartWrite
      case Writing(_, _) => EndWrite
      case _ => Unlock;
  }

  lemma WaiterGoesOn(base: seq<Record>, s: State, p: Process)
    requires Inv(base, s) && s.lock.None? && InCall(PhaseOf(s, p))
    ensures Enabled(s, p, Lock)
  {
    hide Fold, Apply, AnswerOf, Legal, AtRest;
  }

  function StepAll(s: State, p: Process, es: seq<Event>): Option<State>
    decreases |es|
  {
    if es == [] then Some(s)
    else if !Enabled(s, p, es[0]) then None
    else StepAll(Step(s, p, es[0]), p, es[1..])
  }

  /** What a call goes through when nobody else holds the lock. */
  function Course(op: Op): seq<Event> {
    if op.List? then [Begin(op), Lock, Look, Unlock]
    else [Begin(op), Lock, Look, Truncate, StartWrite, EndWrite, Unlock]
  }

  lemma StepAllCons(s: State, p: Process, e: Event, es: seq<Event>)
    requires Enabled(s, p, e)
    ensures StepAll(s, p, [e] + es) == StepAll(Step(s, p, e), p, es)
  {
    assert ([e] + es)[1..] == es;
  }

  /** On every interleaving that leaves the lock free, a process with a handle completes any call; the
      file then holds the records the call promises, and the call's answer joins the log. */
  lemma CallCompletes(file: File, run: Run, p: Process, op: Op)
    requires !file.Torn? && Exec(file, run).Some? && !op.Open?
    requires Exec(file, run).value.lock.None? && PhaseOf(Exec(file, run).value, p).Ready?
    ensures var s := Exec(file, run).value;
            var next := StepAll(s, p, Course(op));
            && next.Some? && s.file.Json? && next.value.file.Json? && next.value.lock.None?
            && PhaseOf(next.value, p).Ready?
            && |next.value.log| == |s.log| + 1 && s.log <= next.value.log
            && var e := next.value.log[|s.log|];
            && e.process == p && e.op == op
            && Promised(op, s.file.records, next.value.file.records, e.answer)
  {
    RunKeepsInv(file, run);
    var s := Exec(file, run).value;
    assert AtRest(BaseOf(file), s) && s.log != [];
    assert s.file.Json?;
    OperationDoesAsPromised(op, s.file.records);
    hide Exec, Promised, Apply, AnswerOf, Fold, Inv;
    ReadersOnly(s.file.records);
    if op.List? {
      ReadCompletes(s, p, op);
    } else {
      RewriteCompletes(s, p, op);
    }
  }

  /** `open` creates a missing file and seeds one of length zero with no records; it leaves any other as it
      is. It too completes whenever the lock is free. */
  lemma OpenCompletes(file: File, run: Run, p: Process)
    requires !file.Torn? && Exec(file, run).Some? && Exec(file, run).value.lock.None?
    requires !InCall(PhaseOf(Exec(file, run).value, p))
    ensures var s := Exec(file, run).value;
            var log := s.log + [Entry(p, Open, Done)];
            match s.file
            case Json(records) =>
              StepAll(s, p, [Begin(Open), Lock, Look, Unlock]) == Some(s.(phases := s.phases[p := Ready], log := log))
            case _ =>
              StepAll(s, p, [Begin(Open), Lock, Look, EndWrite, Unlock])
              == Some(s.(file := Json([]), phases := s.phases[p := Ready], log := log))
  {
    RunKeepsInv(file, run);
    var s := Exec(file, run).value;
    NotTorn(BaseOf(file), s);
    hide Exec, Inv, Fold, StepAll;
    if s.file.Json? {
      ReopenCompletes(s, p);
    } else {
      SeedCompletes(s, p);
    }
  }

  lemma ReopenCompletes(s: State, p: Process)
    requires s.lock.None? && !InCall(PhaseOf(s, p)) && s.file.Json?
    ensures StepAll(s, p, [Begin(Open), Lock, Look, Unlock])
         == Some(s.(phases := s.phases[p := Ready], log := s.log + [Entry(p, Open, Done)]))
  {
    hide StepAll;
    var s3 := Step(Step(Step(s, p, Begin(Open)), p, Lock), p, Look);
    assert s3 == s.(lock := Some(p), phases := s.phases[p := Finished(Open, Done)]);
    assert s3.phases[p := Ready] == s.phases[p := Ready];
    Four(s, p, Begin(Open), Lock, Look, Unlock);
  }

  lemma SeedCompletes(s: State, p: Process)
    requires s.lock.None? && !InCall(PhaseOf(s, p)) && (s.file.Absent? || s.file.Empty?)
    ensures StepAll(s, p, [Begin(Open), Lock, Look, EndWrite, Unlock])
         == Some(s.(file := Json([]), phases := s.phases[p := Ready], log := s.log + [Entry(p, Open, Done)]))
  {
    hide StepAll;
    var s3 := Step(Step(Step(s, p, Begin(Open)), p, Lock), p, Look);
    assert s3 == s.(file := Torn, lock := Some(p), phases := s.phases[p := Writing(Open, [])]);
    var s4 := Step(s3, p, EndWrite);
    Three(s, p, Begin(Open), Lock, Look);
    assert s4 == s.(file := Json([]), lock := Some(p), phases := s.phases[p := Finished(Open, Done)]);
    assert s4.phases[p := Ready] == s.phases[p := Ready];
    Two(s3, p, EndWrite, Unlock);
    hide Enabled, Step;
    Joined(s, p, [Begin(Open), Lock, Look], [EndWrite, Unlock]);
    assert [Begin(Open), Lock, Look] + [EndWrite, Unlock] == [Begin(Open), Lock, Look, EndWrite, Unlock];
  }

  lemma NotTorn(base: seq<Record>, s: State)
    requires Inv(base, s) && s.lock.None?
    ensures !s.file.Torn?
  {
    hide Fold, Legal;
  }

  lemma ReadCompletes(s: State, p: Process, op: Op)
    requires s.lock.None? && PhaseOf(s, p).Ready? && op.List? && s.file.Json?
    ensures StepAll(s, p, [Begin(op), Lock, Look, Unlock])
         == Some(s.(phases := s.phases[p := Ready], log := s.log + [Entry(p, op, AnswerOf(op, s.file.records))]))
  {
    hide StepAll, AnswerOf;
    var s1 := Step(s, p, Begin(op));
    var s2 := Step(s1, p, Lock);
    var s3 := Step(s2, p, Look);
    var s4 := Step(s3, p, Unlock);
    Four(s, p, Begin(op), Lock, Look, Unlock);
    assert s4.phases == s.phases[p := Ready];
  }

  lemma Four(s: State, p: Process, e1: Event, e2: Event, e3: Event, e4: Event)
    requires Enabled(s, p, e1)
    requires Enabled(Step(s, p, e1), p, e2)
    requires Enabled(Step(Step(s, p, e1), p, e2), p, e3)
    requires Enabled(Step(Step(Step(s, p, e1), p, e2), p, e3), p, e4)
    ensures StepAll(s, p, [e1, e2, e3, e4]) == Some(Step(Step(Step(Step(s, p, e1), p, e2), p, e3), p, e4))
  {
    hide Enabled, Step;
    StepAllCons(s, p, e1, [e2, e3, e4]);
    assert [e1] + [e2, e3, e4] == [e1, e2, e3, e4];
    Three(Step(s, p, e1), p, e2, e3, e4);
  }

  lemma RewriteCompletes(s: State, p: Process, op: Op)
    requires s.lock.None? && PhaseOf(s, p).Ready? && Rewrites(op) && s.file.Json?
    ensures StepAll(s, p, [Begin(op), Lock, Look, Truncate, StartWrite, EndWrite, Unlock])
         == Some(s.(file := Json(Apply(op, s.file.records)), phases := s.phases[p := Ready],
                    log := s.log + [Entry(p, op, AnswerOf(op, s.file.records))]))
  {
    hide StepAll, Apply, AnswerOf;
    var s4 := Step(Step(Step(Step(s, p, Begin(op)), p, Lock), p, Look), p, Truncate);
    assert s4 == State(Empty, Some(p), s.phases[p := Truncated(op, s.file.records)], s.log);
    Four(s, p, Begin(op), Lock, Look, Truncate);
    var s7 := Step(Step(Step(s4, p, StartWrite), p, EndWrite), p, Unlock);
    assert s7.phases == s.phases[p := Ready];
    Three(s4, p, StartWrite, EndWrite, Unlock);
    hide Enabled, Step;
    Joined(s, p, [Begin(op), Lock, Look, Truncate], [StartWrite, EndWrite, Unlock]);
    assert [Begin(op), Lock, Look, Truncate] + [StartWrite, EndWrite, Unlock] == Course(op);
  }

  lemma Two(s: State, p: Process, e1: Event, e2: Event)
    requires Enabled(s, p, e1)
    requires Enabled(Step(s, p, e1), p, e2)
    ensures StepAll(s, p, [e1, e2]) == Some(Step(Step(s, p, e1), p, e2))
  {
    hide Enabled, Step;
    StepAllCons(s, p, e1, [e2]);
    assert [e1] + [e2] == [e1, e2];
    StepAllCons(Step(s, p, e1), p, e2, []);
    assert [e2] + [] == [e2];
  }

  lemma Three(s: State, p: Process, e1: Event, e2: Event, e3: Event)
    requires Enabled(s, p, e1)
    requires Enabled(Step(s, p, e1), p, e2)
    requires Enabled(Step(Step(s, p, e1), p, e2), p, e3)
    ensures StepAll(s, p, [e1, e2, e3]) == Some(Step(Step(Step(s, p, e1), p, e2), p, e3))
  {
    hide Enabled, Step;
    StepAllCons(s, p, e1, [e2, e3]);
    assert [e1] + [e2, e3] == [e1, e2, e3];
    Two(Step(s, p, e1), p, e2, e3);
  }

  lemma {:induction false} Joined(s: State, p: Process, es: seq<Event>, more: seq<Event>)
    requires StepAll(s, p, es).Some?
    ensures StepAll(s, p, es + more) == StepAll(StepAll(s, p, es).value, p, more)
    decreases |es|
  {
    hide Enabled, Step;
    if es == [] {
      assert es + more == more;
    } else {
      Joined(Step(s, p, es[0]), p, es[1..], more);
      assert (es + more)[1..] == es[1..] + more;
    }
  }
}
