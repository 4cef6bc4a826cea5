/** Calls on the slot from start to end: when an unload goes on, what it drops, and what a get returns. */
module IdleSlotLaws {
  import opened Wrappers
  import opened IdleSlot

  /** On every interleaving: an unload that starts goes on exactly when the last get stamped a time other
      than 0, and carries that stamp. Nothing else changes. */
  lemma StartGoesOnIffStamped(run: Run, t: Task)
    requires Exec(run).Some? && PhaseOf(Exec(run).value, t).Out?
    ensures Enabled(Exec(run).value, t, StartUnload)
    ensures var s := Exec(run).value;
            var next := Step(s, t, StartUnload);
            && PhaseOf(next, t) == (if LastStamp(run) > 0 then Loaded(LastStamp(run)) else Out)
            && next.slot == s.slot && next.writer == s.writer && next.lastUsed == s.lastUsed && next.drops == s.drops
            && (forall u :: u != t ==> PhaseOf(next, u) == PhaseOf(s, u))
  {
    StampIsLast(run);
  }

  /** On every interleaving: an unload that has read the stamp `last` goes on to the write lock exactly
      when no idle time is asked for or that much has passed since the stamp; otherwise it ends and the
      value stays. */
  lemma CheckGoesOnIff(run: Run, t: Task, now: nat, idle: nat)
    requires Exec(run).Some? && PhaseOf(Exec(run).value, t).Loaded?
    ensures Enabled(Exec(run).value, t, CheckIdle(now, idle))
    ensures var s := Exec(run).value;
            var last := PhaseOf(s, t).last;
            var next := Step(s, t, CheckIdle(now, idle));
            && (PhaseOf(next, t) == WantsUnload(last, now, idle) <==> idle == 0 || last + idle <= now)
            && (PhaseOf(next, t) == Out <==> idle > 0 && now < last + idle)
            && next.slot == s.slot && next.writer == s.writer && next.lastUsed == s.lastUsed && next.drops == s.drops
            && (forall u :: u != t ==> PhaseOf(next, u) == PhaseOf(s, u))
  {
  }

  /** No step of any other task turns an unload back once it has passed its check. */
  lemma CheckedUnloadStays(s: State, t: Task, u: Task, e: Event)
    requires Enabled(s, u, e) && u != t && (PhaseOf(s, t).WantsUnload? || PhaseOf(s, t).Unloading?)
    ensures PhaseOf(Step(s, u, e), t) == PhaseOf(s, t)
  {
  }

  /** Where nobody holds the lock and the last get was `idle` seconds ago, an unload runs through its four
      steps and leaves the slot empty, with one drop more if a value was loaded. */
  lemma IdleValueIsDropped(run: Run, t: Task, now: nat, idle: nat)
    requires Exec(run).Some?
    requires var s := Exec(run).value; s.writer.None? && NoReaders(s) && PhaseOf(s, t).Out?
    requires 0 < LastStamp(run) && LastStamp(run) + idle <= now
    ensures var s := Exec(run).value;
            && Enabled(s, t, StartUnload)
            && var s1 := Step(s, t, StartUnload);
            && Enabled(s1, t, CheckIdle(now, idle))
            && var s2 := Step(s1, t, CheckIdle(now, idle));
            && Enabled(s2, t, AcquireWrite)
            && var s3 := Step(s2, t, AcquireWrite);
            && Enabled(s3, t, FinishUnload)
            && var s4 := Step(s3, t, FinishUnload);
            && s4.slot == None && s4.writer == None && PhaseOf(s4, t) == Out
            && s4.drops == s.drops + (if s.slot.Some? then 1 else 0)
            && s4.stored == s.stored && s4.returned == s.returned
  {
    StampIsLast(run);
    hide Exec, LastStamp;
    var s := Exec(run).value;
    var s1 := Step(s, t, StartUnload);
    var s2 := Step(s1, t, CheckIdle(now, idle));
    assert forall u :: u in s2.phases && u != t ==> u in s.phases && s2.phases[u] == s.phases[u];
  }

  /** A get that finds the read lock free returns the loaded value, and loads nothing. */
  lemma LoadedValueIsReturned(s: State, t: Task, now: nat)
    requires s.writer.None? && PhaseOf(s, t).Out? && s.slot.Some?
    ensures Enabled(s, t, StartGet(now))
    ensures var s1 := Step(s, t, StartGet(now));
            && Enabled(s1, t, AcquireRead)
            && var s2 := Step(s1, t, AcquireRead);
            && Enabled(s2, t, FinishRead)
            && var s3 := Step(s2, t, FinishRead);
            && s3.slot == s.slot && s3.writer == None && PhaseOf(s3, t) == Out && s3.lastUsed == now
            && s3.stored == s.stored && s3.drops == s.drops
            && s3.returned == s.returned + [Returned(|s.values|, |s.values| + 2, s.slot.value, s.drops)]
  {
  }

  /** A get that misses an empty slot runs the initialiser and, on success, stores and returns its value;
      on an error the slot stays empty. */
  lemma EmptySlotIsLoaded(s: State, t: Task, now: nat, v: Value)
    requires s.writer.None? && NoReaders(s) && PhaseOf(s, t).Out? && s.slot.None?
    ensures Enabled(s, t, StartGet(now))
    ensures var s1 := Step(s, t, StartGet(now));
            && Enabled(s1, t, AcquireRead)
            && var s2 := Step(s1, t, AcquireRead);
            && Enabled(s2, t, FinishRead)
            && var s3 := Step(s2, t, FinishRead);
            && Enabled(s3, t, AcquireWrite)
            && var s4 := Step(s3, t, AcquireWrite);
            && Enabled(s4, t, CheckAgain)
            && var s5 := Step(s4, t, CheckAgain);
            && Enabled(s5, t, InitOk(v)) && Enabled(s5, t, InitErr)
            && var ok, failed := Step(s5, t, InitOk(v)), Step(s5, t, InitErr);
            && ok.slot == Some(v) && ok.writer == None && PhaseOf(ok, t) == Out && ok.lastUsed == now
            && ok.stored == s.stored + [v] && ok.drops == s.drops
            && ok.returned == s.returned + [Returned(|s.values|, |s.values| + 5, v, s.drops)]
            && failed.slot == None && failed.writer == None && PhaseOf(failed, t) == Out
            && failed.stored == s.stored && failed.returned == s.returned
  {
    var s1 := Step(s, t, StartGet(now));
    var s3 := Step(Step(s1, t, AcquireRead), t, FinishRead);
    assert forall u :: u in s3.phases && u != t ==> u in s.phases && s3.phases[u] == s.phases[u];
  }

  /** A get that lost the race for the write lock finds the other task's value on its second look, and
      does not run its own initialiser. */
  lemma SecondLookReturnsTheValue(s: State, t: Task)
    requires PhaseOf(s, t).Missed? && s.writer.None? && NoReaders(s) && s.slot.Some?
    ensures Enabled(s, t, AcquireWrite)
    ensures var s1 := Step(s, t, AcquireWrite);
            && Enabled(s1, t, CheckAgain)
            && var s2 := Step(s1, t, CheckAgain);
            && s2.slot == s.slot && s2.stored == s.stored && s2.writer == None && PhaseOf(s2, t) == Out
            && s2.returned == s.returned + [Returned(PhaseOf(s, t).since, |s.values| + 1, s.slot.value, s.drops)]
  {
  }
}
