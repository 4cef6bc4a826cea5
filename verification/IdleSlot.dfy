/** The reloadable lazy slot, as a state machine over the atomic steps of any number of tasks that get
    the value or try to unload it. A step ends where the source awaits a lock or the initialiser. */
module IdleSlot {
  import opened Wrappers

  type Task = nat
  type Value = nat

  /** Where a task stands. `since` is the time its call began. */
  datatype Phase =
    | Out
    | Stamped(since: nat)                        // get: stamp written, waiting for the read lock
    | Reading(since: nat)                        // get: holds the read lock
    | Missed(since: nat)                         // get: saw an empty slot, waiting for the write lock
    | Checking(since: nat)                       // get: holds the write lock, about to look again
    | Initing(since: nat)                        // get: holds the write lock across the initialiser
    | Loaded(last: nat)                          // unload: has read the stamp
    | WantsUnload(last: nat, now: nat, idle: nat)  // unload: found it old enough, waiting for the write lock
    | Unloading(last: nat, now: nat, idle: nat)  // unload: holds the write lock

  datatype Event =
    | StartGet(now: nat)
    | AcquireRead
    | FinishRead
    | AcquireWrite
    | CheckAgain
    | InitOk(value: Value)
    | InitErr
    | StartUnload
    | CheckIdle(clock: nat, quiet: nat)
    | FinishUnload

  /** A get that returned `Ok(value)` at time `at`, after `drops` drops. */
  datatype Returned = Returned(since: nat, at: nat, value: Value, drops: nat)

  datatype State = State(
    slot: Option<Value>,
    lastUsed: nat,
    writer: Option<Task>,
    phases: map<Task, Phase>,
    // History: the slot's value at every time so far, values stored, drops, successful gets.
    values: seq<Option<Value>>,
    stored: seq<Value>,
    drops: nat,
    returned: seq<Returned>)

  const INIT := State(None, 0, None, map[], [None], [], 0, [])

  function PhaseOf(s: State, t: Task): Phase {
    if t in s.phases then s.phases[t] else Out
  }

  predicate NoReaders(s: State) {
    forall t :: t in s.phases ==> !s.phases[t].Reading?
  }

  predicate Enabled(s: State, t: Task, e: Event) {
    var p := PhaseOf(s, t);
    match e
    case StartGet(_) => p.Out?
    case AcquireRead => p.Stamped? && s.writer.None?
    case FinishRead => p.Reading?
    case AcquireWrite => (p.Missed? || p.WantsUnload?) && s.writer.None? && NoReaders(s)
    case CheckAgain => p.Checking?
    case InitOk(_) => p.Initing?
    case InitErr => p.Initing?
    case StartUnload => p.Out?
    case CheckIdle(_, _) => p.Loaded?
    case FinishUnload => p.Unloading?
  }

  function Return(s: State, t: Task, since: nat, v: Value): State {
    s.(phases := s.phases[t := Out], returned := s.returned + [Returned(since, |s.values|, v, s.drops)])
  }

  /** One atomic step, before time advances. */
  function Act(s: State, t: Task, e: Event): State
    requires Enabled(s, t, e)
  {
    var p := PhaseOf(s, t);
    match e
    case StartGet(now) => s.(lastUsed := now, phases := s.phases[t := Stamped(|s.values|)])
    case AcquireRead => s.(phases := s.phases[t := Reading(p.since)])
    case FinishRead =>
      if s.slot.Some? then Return(s, t, p.since, s.slot.value)
      else s.(phases := s.phases[t := Missed(p.since)])
    case AcquireWrite =>
      s.(writer := Some(t),
         phases := s.phases[t := if p.Missed? then Checking(p.since) else Unloading(p.last, p.now, p.idle)])
    case CheckAgain =>
      if s.slot.Some? then Return(s, t, p.since, s.slot.value).(writer := None)
      else s.(phases := s.phases[t := Initing(p.since)])
    case InitOk(v) =>
      Return(s.(slot := Some(v), stored := s.stored + [v]), t, p.since, v).(writer := None)
    case InitErr => s.(phases := s.phases[t := Out], writer := None)
    case StartUnload =>
      if s.lastUsed == 0 then s else s.(phases := s.phases[t := Loaded(s.lastUsed)])
    case CheckIdle(now, idle) =>
      // `saturating_sub`: a stamp in the future counts as used just now.
      if (if now < p.last then 0 else now - p.last) < idle then s.(phases := s.phases[t := Out])
      else s.(phases := s.phases[t := WantsUnload(p.last, now, idle)])
    case FinishUnload =>
      if s.slot.None? then s.(phases := s.phases[t := Out], writer := None)
      else s.(slot := None, drops := s.drops + 1, phases := s.phases[t := Out], writer := None)
  }

  /** One atomic step; the clock ticks and records the slot. */
  function Step(s: State, t: Task, e: Event): State
    requires Enabled(s, t, e)
  {
    var next := Act(s, t, e);
    next.(values := next.values + [next.slot])
  }

  type Run = seq<(Task, Event)>

  /** The state a run ends in, if every step was enabled when it was taken. */
  function Exec(run: Run): Option<State> {
    if run == [] then Some(INIT)
    else
      var (t, e) := run[|run| - 1];
      match Exec(run[..|run| - 1])
      case None => None
      case Some(s) => if Enabled(s, t, e) then Some(Step(s, t, e)) else None
  }

  // ---------------------------------------------------------------------------------------------
  // The invariant

  predicate HoldsWrite(p: Phase) {
    p.Checking? || p.Initing? || p.Unloading?
  }

  /** The write lock is exclusive, and held exactly in the phases that need it. */
  ghost predicate LockInv(s: State) {
    && (forall t :: t in s.phases && HoldsWrite(s.phases[t]) ==> s.writer == Some(t))
    && (s.writer.Some? ==> s.writer.value in s.phases && HoldsWrite(s.phases[s.writer.value]) && NoReaders(s))
    && (forall t :: t in s.phases && s.phases[t].Initing? ==> s.slot.None?)
  }

  /** Successful initialisations are the drops plus the value loaded now, which is the newest one. */
  ghost predicate CountInv(s: State) {
    && |s.stored| == s.drops + (if s.slot.Some? then 1 else 0)
    && (s.slot.Some? ==> s.slot.value == s.stored[|s.stored| - 1])
  }

  function Since(p: Phase): nat {
    match p
    case Stamped(since) => since
    case Reading(since) => since
    case Missed(since) => since
    case Checking(since) => since
    case Initing(since) => since
    case _ => 0
  }

  ghost predicate HistoryInv(s: State) {
    && s.values != [] && s.values[|s.values| - 1] == s.slot
    && (forall t :: t in s.phases ==> Since(s.phases[t]) < |s.values|)
    && (forall i :: 0 <= i < |s.returned| ==>
          var r := s.returned[i];
          && r.since <= r.at < |s.values|
          && s.values[r.at] == Some(r.value)
          && r.drops < |s.stored| && r.value == s.stored[r.drops])
  }

  /** An unload in progress found the stamp it read old enough. */
  ghost predicate IdleInv(s: State) {
    forall t :: t in s.phases ==>
      match s.phases[t]
      case WantsUnload(last, now, idle) => 0 < last && (idle == 0 || last + idle <= now)
      case Unloading(last, now, idle) => 0 < last && (idle == 0 || last + idle <= now)
      case Loaded(last) => 0 < last
      case _ => true
  }

  ghost predicate Inv(s: State) {
    LockInv(s) && CountInv(s) && HistoryInv(s) && IdleInv(s)
  }

  lemma StepKeepsLock(s: State, t: Task, e: Event)
    requires LockInv(s) && Enabled(s, t, e)
    ensures LockInv(Step(s, t, e))
  {
  }

  lemma StepKeepsHistory(s: State, t: Task, e: Event)
    requires Inv(s) && Enabled(s, t, e)
    ensures HistoryInv(Step(s, t, e))
  {
  }

  lemma StepKeepsIdle(s: State, t: Task, e: Event)
    requires IdleInv(s) && Enabled(s, t, e)
    ensures IdleInv(Step(s, t, e))
  {
  }

  lemma StepKeepsInv(s: State, t: Task, e: Event)
    requires Inv(s) && Enabled(s, t, e)
    ensures Inv(Step(s, t, e))
  {
    StepKeepsLock(s, t, e);
    StepKeepsHistory(s, t, e);
    StepKeepsIdle(s, t, e);
    hide LockInv, HistoryInv, IdleInv;
  }

  /** On every interleaving: see the predicates above. */
  lemma {:induction false} RunKeepsInv(run: Run)
    ensures Exec(run).Some? ==> Inv(Exec(run).value)
  {
    if run != [] {
      var before := run[..|run| - 1];
      RunKeepsInv(before);
      var (t, e) := run[|run| - 1];
      if Exec(before).Some? && Enabled(Exec(before).value, t, e) {
        StepKeepsInv(Exec(before).value, t, e);
      }
    }
  }

  // ---------------------------------------------------------------------------------------------
  // Main results

  /** On every interleaving: initialisations that succeeded are the drops plus the loaded value, at
      most one initialiser runs, and only over an empty slot. */
  lemma InitsAreDropsPlusLoaded(run: Run, t: Task, u: Task)
    requires Exec(run).Some?
    ensures var s := Exec(run).value;
            && |s.stored| == s.drops + (if s.slot.Some? then 1 else 0)
            && (PhaseOf(s, t).Initing? ==> s.slot.None?)
            && (PhaseOf(s, t).Initing? && PhaseOf(s, u).Initing? ==> t == u)
  {
    RunKeepsInv(run);
  }

  /** On every interleaving: each value returned was in the slot at a time within its call, and gets
      that return between the same two drops return the same value. */
  lemma ReturnsAreLoadedValues(run: Run, i: nat, j: nat)
    requires Exec(run).Some? && i < |Exec(run).value.returned| && j < |Exec(run).value.returned|
    ensures var s := Exec(run).value;
            var r := s.returned[i];
            && r.since <= r.at < |s.values| && s.values[r.at] == Some(r.value)
            && (r.drops == s.returned[j].drops ==> r.value == s.returned[j].value)
  {
    RunKeepsInv(run);
  }

  /** A failed initialiser leaves the slot empty and the lock free, so the next get retries. */
  lemma FailedInitLeavesEmpty(run: Run, t: Task)
    requires Exec(run).Some? && Enabled(Exec(run).value, t, InitErr)
    ensures var s := Step(Exec(run).value, t, InitErr);
            s.slot.None? && s.writer.None? && s.stored == Exec(run).value.stored && PhaseOf(s, t) == Out
  {
    RunKeepsInv(run);
  }

  /** A call already begun can always go on: some task in the middle of a call has a step enabled. */
  lemma NoDeadlock(run: Run)
    requires Exec(run).Some?
    requires exists t :: t in Exec(run).value.phases && Exec(run).value.phases[t] != Out
    ensures exists t, e :: Enabled(Exec(run).value, t, e) && PhaseOf(Exec(run).value, t) != Out
  {
    RunKeepsInv(run);
    var s := Exec(run).value;
    var t := if s.writer.Some? then s.writer.value
      else if !NoReaders(s) then (var r :| r in s.phases && s.phases[r].Reading?; r)
      else (var r :| r in s.phases && s.phases[r] != Out; r);
    var e := match s.phases[t]
      case Stamped(_) => AcquireRead
      case Reading(_) => FinishRead
      case Missed(_) => AcquireWrite
      case Checking(_) => CheckAgain
      case Initing(_) => InitErr
      case Loaded(_) => CheckIdle(0, 0)
      case WantsUnload(_, _, _) => AcquireWrite
      case _ => FinishUnload;
    assert Enabled(s, t, e);
  }

  /** The stamp is read before the write lock is taken, so a drop does not see gets that come after
      the check: where task `t` has found the stamp of a loaded value old enough, and nobody holds the
      lock, another task `u` can get the value at any time `clock` and `t` still drops it right after. */
  lemma LateGetDoesNotStopTheDrop(s: State, t: Task, u: Task, clock: nat)
    requires Inv(s) && t != u
    requires s.slot.Some? && s.writer.None? && NoReaders(s)
    requires PhaseOf(s, t).WantsUnload? && PhaseOf(s, u).Out?
    ensures Enabled(s, u, StartGet(clock))
    ensures var s1 := Step(s, u, StartGet(clock));
            && Enabled(s1, u, AcquireRead)
            && var s2 := Step(s1, u, AcquireRead);
            && Enabled(s2, u, FinishRead)
            && var s3 := Step(s2, u, FinishRead);
            && s3.returned == s.returned + [Returned(|s.values|, |s.values| + 2, s.slot.value, s.drops)]
            && Enabled(s3, t, AcquireWrite)
            && var s4 := Step(s3, t, AcquireWrite);
            && Enabled(s4, t, FinishUnload)
            && s4.lastUsed == clock && s4.slot == s.slot && s4.returned == s3.returned && |s4.values| == |s.values| + 4
            && PhaseOf(s4, t) == Unloading(PhaseOf(s, t).last, PhaseOf(s, t).now, PhaseOf(s, t).idle)
            && Step(s4, t, FinishUnload).slot.None?
  {
    var s1 := Step(s, u, StartGet(clock));
    var s2 := Step(s1, u, AcquireRead);
    var s3 := Step(s2, u, FinishRead);
    assert forall v :: v in s3.phases && v != u ==> s3.phases[v] == s.phases[v];
  }

  // ---------------------------------------------------------------------------------------------
  // When a recently used value is dropped

  /** The stamp after a run: the time of its last get. */
  function LastStamp(run: Run): nat {
    if run == [] then 0
    else
      match run[|run| - 1].1
      case StartGet(now) => now
      case _ => LastStamp(run[..|run| - 1])
  }

  lemma {:induction false} StampIsLast(run: Run)
    requires Exec(run).Some?
    ensures Exec(run).value.lastUsed == LastStamp(run)
    decreases |run|
  {
    hide Enabled;
    if run != [] {
      StampIsLast(run[..|run| - 1]);
    }
  }

  /** The last get after the first `k` steps is the one at `j`. */
  ghost predicate LastGetAt(run: Run, k: nat, j: nat) {
    && k <= j < |run| && run[j].1.StartGet?
    && forall i :: j < i < |run| ==> !run[i].1.StartGet?
  }

  lemma {:induction false} StampStays(run: Run, k: nat)
    requires k <= |run| && forall i :: k <= i < |run| ==> !run[i].1.StartGet?
    ensures LastStamp(run) == LastStamp(run[..k])
    decreases |run|
  {
    if k == |run| {
      assert run[..k] == run;
    } else {
      StampStays(run[..|run| - 1], k);
      assert run[..|run| - 1][..k] == run[..k];
    }
  }

  lemma StampOfLastGet(run: Run, k: nat, j: nat)
    requires LastGetAt(run, k, j)
    ensures LastStamp(run) == run[j].1.now
  {
    StampStays(run, j + 1);
  }

  lemma {:induction false} SomeGetIsLast(run: Run, k: nat, i: nat) returns (j: nat)
    requires k <= i < |run| && run[i].1.StartGet?
    ensures LastGetAt(run, k, j)
    decreases |run|
  {
    var n := |run| - 1;
    if run[n].1.StartGet? {
      j := n;
    } else {
      j := SomeGetIsLast(run[..n], k, i);
      assert forall m :: 0 <= m < n ==> run[..n][m] == run[m];
    }
  }

  /** The step at `k` is the last `StartUnload` of the task. */
  ghost predicate UnloadStartsAt(run: Run, t: Task, k: nat) {
    k < |run| && run[k] == (t, StartUnload) && forall i :: k < i < |run| ==> run[i] != (t, StartUnload)
  }

  predicate IsUnload(p: Phase) {
    p.Loaded? || p.WantsUnload? || p.Unloading?
  }

  lemma UnloadStep(s: State, t: Task, u: Task, e: Event)
    requires Enabled(s, u, e) && IsUnload(PhaseOf(Step(s, u, e), t))
    ensures var last := PhaseOf(Step(s, u, e), t).last;
            if (u, e) == (t, StartUnload) then last == s.lastUsed
            else IsUnload(PhaseOf(s, t)) && PhaseOf(s, t).last == last
  {
  }

  /** An unload in progress carries the stamp it read when it started. */
  lemma {:induction false} UnloadRemembersStamp(run: Run, t: Task) returns (k: nat)
    requires Exec(run).Some? && IsUnload(PhaseOf(Exec(run).value, t))
    ensures UnloadStartsAt(run, t, k)
    ensures PhaseOf(Exec(run).value, t).last == LastStamp(run[..k])
    decreases |run|
  {
    hide Enabled, Step, IsUnload, LastStamp;
    StartsOut(t);
    var n := |run| - 1;
    var (u, e) := run[n];
    var before := Exec(run[..n]).value;
    UnloadStep(before, t, u, e);
    StampIsLast(run[..n]);
    if run[n] == (t, StartUnload) {
      k := n;
    } else {
      k := UnloadRemembersStamp(run[..n], t);
      assert run[..n][..k] == run[..k];
      assert forall i :: 0 <= i < n ==> run[..n][i] == run[i];
    }
  }

  lemma StartsOut(t: Task)
    ensures !IsUnload(PhaseOf(INIT, t))
  {
  }

  /** The unload of task `t` is about to drop a value. */
  ghost predicate AboutToDrop(run: Run, t: Task) {
    Exec(run).Some? && PhaseOf(Exec(run).value, t).Unloading? && Exec(run).value.slot.Some?
  }

  /** A value used less than `idle` before the unload's check. */
  ghost predicate RecentlyUsed(run: Run, t: Task)
    requires AboutToDrop(run, t)
  {
    var p := PhaseOf(Exec(run).value, t);
    Exec(run).value.lastUsed + p.idle > p.now
  }

  /** Exactly when a drop hits a recently used value, whatever the clock does: the last get since the
      unload started came less than `idle` before its check, or after it. */
  lemma RecentDropIff(run: Run, t: Task, k: nat)
    requires AboutToDrop(run, t) && UnloadStartsAt(run, t, k) && PhaseOf(Exec(run).value, t).idle > 0
    ensures var p := PhaseOf(Exec(run).value, t);
            RecentlyUsed(run, t) <==> exists j: nat :: LastGetAt(run, k, j) && run[j].1.now + p.idle > p.now
    ensures RecentlyUsed(run, t) ==> Exec(run).value.lastUsed != PhaseOf(Exec(run).value, t).last
    ensures Enabled(Exec(run).value, t, FinishUnload)
    ensures Step(Exec(run).value, t, FinishUnload).slot.None?
    ensures Step(Exec(run).value, t, FinishUnload).drops == Exec(run).value.drops + 1
  {
    hide Exec, Step, Enabled, LastStamp, LockInv, CountInv, HistoryInv;
    RunKeepsInv(run);
    StampIsLast(run);
    var p := PhaseOf(Exec(run).value, t);
    var k' := UnloadRemembersStamp(run, t);
    assert k' == k;
    DropEmptiesSlot(Exec(run).value, t);
    CheckedStampIsOld(Exec(run).value, t);
    if forall i :: k <= i < |run| ==> !run[i].1.StartGet? {
      StampStays(run, k);
    } else {
      var i :| k <= i < |run| && run[i].1.StartGet?;
      var j := SomeGetIsLast(run, k, i);
      StampOfLastGet(run, k, j);
    }
  }

  lemma DropEmptiesSlot(s: State, t: Task)
    requires PhaseOf(s, t).Unloading? && s.slot.Some?
    ensures Enabled(s, t, FinishUnload) && Step(s, t, FinishUnload).slot.None?
    ensures Step(s, t, FinishUnload).drops == s.drops + 1
  {
  }

  lemma CheckedStampIsOld(s: State, t: Task)
    requires IdleInv(s) && PhaseOf(s, t).Unloading? && PhaseOf(s, t).idle > 0
    ensures PhaseOf(s, t).last + PhaseOf(s, t).idle <= PhaseOf(s, t).now
  {
  }

  /** The time a step reads off the clock. */
  function TimeOf(e: Event): Option<nat> {
    match e
    case StartGet(now) => Some(now)
    case CheckIdle(clock, _) => Some(clock)
    case _ => None
  }

  ghost predicate ClockNeverGoesBack(run: Run) {
    forall i, j :: 0 <= i < j < |run| && TimeOf(run[i].1).Some? && TimeOf(run[j].1).Some? ==>
      TimeOf(run[i].1).value <= TimeOf(run[j].1).value
  }

  /** With a clock that never goes back: a drop hits a recently used value if and only if some get that
      began between the unload's start and its drop came less than `idle` before its check, or after it. */
  lemma RecentDropIffGetBetween(run: Run, t: Task, k: nat)
    requires AboutToDrop(run, t) && UnloadStartsAt(run, t, k) && PhaseOf(Exec(run).value, t).idle > 0
    requires ClockNeverGoesBack(run)
    ensures var p := PhaseOf(Exec(run).value, t);
            RecentlyUsed(run, t) <==>
            exists j :: k < j < |run| && run[j].1.StartGet? && run[j].1.now + p.idle > p.now
  {
    hide Exec, RecentlyUsed;
    RecentDropIff(run, t, k);
    var p := PhaseOf(Exec(run).value, t);
    if j :| k < j < |run| && run[j].1.StartGet? && run[j].1.now + p.idle > p.now {
      var l := SomeGetIsLast(run, k, j);
      assert TimeOf(run[j].1).value <= TimeOf(run[l].1).value;
    }
  }

  lemma ExecSnoc(run: Run, t: Task, e: Event, s: State)
    requires Exec(run) == Some(s) && Enabled(s, t, e)
    ensures Exec(run + [(t, e)]) == Some(Step(s, t, e))
  {
    hide Enabled, Step;
    assert (run + [(t, e)])[..|run|] == run;
  }

  // Task 0 loads the value at time 50; at time 100 task 1 finds it idle for ten seconds.
  const LOADED: Run := [
    (0, StartGet(50)), (0, AcquireRead), (0, FinishRead), (0, AcquireWrite), (0, CheckAgain), (0, InitOk(7))]
  const CHECKED: Run := LOADED + [(1, StartUnload), (1, CheckIdle(100, 10))]
  // Task 0 gets the value again at time 100 before task 1 has the write lock.
  const USED_AGAIN: Run := CHECKED + [(0, StartGet(100)), (0, AcquireRead), (0, FinishRead)]

  lemma ExecSteps(run: Run, s: State, t: Task, e1: Event, e2: Event, e3: Event)
    requires Exec(run) == Some(s) && Enabled(s, t, e1)
    requires Enabled(Step(s, t, e1), t, e2)
    requires Enabled(Step(Step(s, t, e1), t, e2), t, e3)
    ensures Exec(run + [(t, e1), (t, e2), (t, e3)]) == Some(Step(Step(Step(s, t, e1), t, e2), t, e3))
  {
    hide Enabled, Step, Exec;
    ExecSnoc(run, t, e1, s);
    ExecSnoc(run + [(t, e1)], t, e2, Step(s, t, e1));
    ExecSnoc(run + [(t, e1)] + [(t, e2)], t, e3, Step(Step(s, t, e1), t, e2));
    assert run + [(t, e1)] + [(t, e2)] + [(t, e3)] == run + [(t, e1), (t, e2), (t, e3)];
  }

  lemma LoadedIsReached()
    ensures Exec(LOADED).Some?
    ensures var s := Exec(LOADED).value;
            && s.slot == Some(7) && s.lastUsed == 50 && s.writer == None && s.phases == map[0 := Out]
  {
    var s1 := Step(INIT, 0, StartGet(50));
    var s3 := Step(Step(s1, 0, AcquireRead), 0, FinishRead);
    assert s1.phases == map[0 := Stamped(1)];
    assert s3.phases == map[0 := Missed(1)];
    ExecSteps([], INIT, 0, StartGet(50), AcquireRead, FinishRead);
    var s4 := Step(s3, 0, AcquireWrite);
    assert s4.phases == map[0 := Checking(1)];
    var s6 := Step(Step(s4, 0, CheckAgain), 0, InitOk(7));
    assert s6.phases == map[0 := Out];
    var first: Run := [(0, StartGet(50)), (0, AcquireRead), (0, FinishRead)];
    assert [] + first == first;
    ExecSteps(first, s3, 0, AcquireWrite, CheckAgain, InitOk(7));
    assert first + [(0, AcquireWrite), (0, CheckAgain), (0, InitOk(7))] == LOADED;
  }

  lemma CheckedIsReached()
    ensures Exec(CHECKED).Some?
    ensures var s := Exec(CHECKED).value;
            && s.slot == Some(7) && s.writer == None && NoReaders(s)
            && PhaseOf(s, 0) == Out && PhaseOf(s, 1) == WantsUnload(50, 100, 10)
  {
    LoadedIsReached();
    hide Exec, LOADED;
    var s := Exec(LOADED).value;
    var s1 := Step(s, 1, StartUnload);
    ExecSnoc(LOADED, 1, StartUnload, s);
    ExecSnoc(LOADED + [(1, StartUnload)], 1, CheckIdle(100, 10), s1);
    assert LOADED + [(1, StartUnload)] + [(1, CheckIdle(100, 10))] == CHECKED;
  }

  /** A real run in which a value returned at time 100 is dropped by an unload that checked at time 100
      that it had been idle for ten seconds. */
  lemma FreshValueIsDropped()
    ensures AboutToDrop(USED_AGAIN + [(1, AcquireWrite)], 1)
    ensures RecentlyUsed(USED_AGAIN + [(1, AcquireWrite)], 1)
    ensures var s := Exec(USED_AGAIN + [(1, AcquireWrite)]).value;
            && s.lastUsed == 100 && PhaseOf(s, 1) == Unloading(50, 100, 10)
            && s.returned != [] && s.returned[|s.returned| - 1].value == 7 && s.returned[|s.returned| - 1].at == |s.values| - 2
            && Step(s, 1, FinishUnload).slot.None?
  {
    CheckedIsReached();
    hide CHECKED, Exec, Step, Enabled, Inv;
    var s := Exec(CHECKED).value;
    RunKeepsInv(CHECKED);
    LateGetDoesNotStopTheDrop(s, 1, 0, 100);
    ExecSteps(CHECKED, s, 0, StartGet(100), AcquireRead, FinishRead);
    var s3 := Step(Step(Step(s, 0, StartGet(100)), 0, AcquireRead), 0, FinishRead);
    ExecSnoc(USED_AGAIN, 1, AcquireWrite, s3);
  }
}
