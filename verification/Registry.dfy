/** The file-locked registry as a state machine over the file-system steps of any number of processes:
    create, lock, read, truncate, write, unlock. */
module Registry {
  import opened Wrappers
  import opened RegistrySpec

  type Process = nat

  /** Contents of the file. A write in progress leaves bytes that do not parse. */
  datatype File = Absent | Empty | Torn | Json(records: seq<Record>)

  datatype Phase =
    | Away                                    // has no handle yet
    | Ready                                   // has a handle, in no call
    | Waiting(op: Op)                         // has opened the file, waits for the lock
    | Locked(op: Op)                          // holds the lock, has not looked at the file
    | HasRead(op: Op, records: seq<Record>)   // holds the lock, has parsed the file
    | Truncated(op: Op, records: seq<Record>)
    | Writing(op: Op, records: seq<Record>)
    | Finished(op: Op, answer: Answer)        // about to unlock

  datatype Event = Begin(op: Op) | Lock | Look | Truncate | StartWrite | EndWrite | Unlock

  datatype Entry = Entry(process: Process, op: Op, answer: Answer)

  /** `log` is history: the calls that returned, in the order they released the lock. */
  datatype State = State(file: File, lock: Option<Process>, phases: map<Process, Phase>, log: seq<Entry>)

  function PhaseOf(s: State, p: Process): Phase {
    if p in s.phases then s.phases[p] else Away
  }

  predicate Rewrites(op: Op) {
    !op.Open? && !op.List?
  }

  predicate Enabled(s: State, p: Process, e: Event) {
    var ph := PhaseOf(s, p);
    match e
    // A handle comes from `open`; only `open` creates the file.
    case Begin(op) => if op.Open? then ph.Away? || ph.Ready? else ph.Ready? && !s.file.Absent?
    case Lock => ph.Waiting? && s.lock.None?
    case Look => ph.Locked?
    case Truncate => ph.HasRead? && Rewrites(ph.op)
    case StartWrite => ph.Truncated?
    case EndWrite => ph.Writing?
    case Unlock => ph.Finished?
  }

  function Goto(s: State, p: Process, ph: Phase): State {
    s.(phases := s.phases[p := ph])
  }

  function Step(s: State, p: Process, e: Event): State
    requires Enabled(s, p, e)
  {
    var ph := PhaseOf(s, p);
    match e
    case Begin(op) =>
      Goto(s.(file := if s.file.Absent? then Empty else s.file), p, Waiting(op))
    case Lock => Goto(s.(lock := Some(p)), p, Locked(ph.op))
    case Look =>
      if ph.op.Open? then
        // Seed a file of length zero; leave any other alone.
        if s.file.Empty? then Goto(s.(file := Torn), p, Writing(Open, []))
        else Goto(s, p, Finished(Open, Done))
      else if !s.file.Json? then Goto(s, p, Finished(ph.op, ParseError))
      else if Rewrites(ph.op) then Goto(s, p, HasRead(ph.op, s.file.records))
      else Goto(s, p, Finished(ph.op, AnswerOf(ph.op, s.file.records)))
    case Truncate => Goto(s.(file := Empty), p, Truncated(ph.op, ph.records))
    case StartWrite => Goto(s.(file := Torn), p, Writing(ph.op, ph.records))
    case EndWrite =>
      Goto(s.(file := Json(Apply(ph.op, ph.records))), p, Finished(ph.op, AnswerOf(ph.op, ph.records)))
    case Unlock =>
      Goto(s.(lock := None, log := s.log + [Entry(p, ph.op, ph.answer)]), p, Ready)
  }

  type Run = seq<(Process, Event)>

  /** The state a run ends in, from a file that does not exist, is empty, or holds records. */
  function Exec(file: File, run: Run): Option<State> {
    if run == [] then Some(State(file, None, map[], []))
    else
      var (p, e) := run[|run| - 1];
      match Exec(file, run[..|run| - 1])
      case None => None
      case Some(s) => if Enabled(s, p, e) then Some(Step(s, p, e)) else None
  }

  // ---------------------------------------------------------------------------------------------
  // One operation after the other

  function Fold(base: seq<Record>, log: seq<Entry>): seq<Record> {
    if log == [] then base else Apply(log[|log| - 1].op, Fold(base, log[..|log| - 1]))
  }

  /** Every call answered what it would have answered running alone, at its place in the log. */
  ghost predicate Legal(base: seq<Record>, log: seq<Entry>) {
    forall i :: 0 <= i < |log| ==> log[i].answer == AnswerOf(log[i].op, Fold(base, log[..i]))
  }

  // ---------------------------------------------------------------------------------------------
  // The invariant

  predicate HoldsLock(ph: Phase) {
    ph.Locked? || ph.HasRead? || ph.Truncated? || ph.Writing? || ph.Finished?
  }

  /** What the file holds while no write is in progress. */
  ghost predicate AtRest(base: seq<Record>, s: State) {
    || s.file == Json(Fold(base, s.log))
    || (s.log == [] && base == [] && s.file.Empty?)
  }

  /** What the phase of the lock holder says about the file. */
  ghost predicate HolderInv(base: seq<Record>, s: State, ph: Phase) {
    var rs := Fold(base, s.log);
    match ph
    case Locked(op) => AtRest(base, s) && (!op.Open? ==> s.file == Json(rs))
    case HasRead(op, records) => records == rs && s.file == Json(rs) && Rewrites(op)
    case Truncated(op, records) => records == rs && s.file == Empty && Rewrites(op)
    case Writing(op, records) => records == rs && s.file == Torn && (op.Open? ==> s.log == [] && base == []) && !op.List?
    case Finished(op, answer) => s.file == Json(Apply(op, rs)) && answer == AnswerOf(op, rs)
    case _ => false
  }

  ghost predicate Inv(base: seq<Record>, s: State) {
    && Legal(base, s.log)
    && (forall p :: p in s.phases && HoldsLock(s.phases[p]) ==> s.lock == Some(p))
    // A handle, or a call on one, means some `open` has returned.
    && (forall p :: p in s.phases && (s.phases[p].Ready? || (s.phases[p].Waiting? && !s.phases[p].op.Open?))
              ==> s.log != [])
    && (forall p :: p in s.phases ==> !s.phases[p].Away?)
    && match s.lock
       case None => AtRest(base, s) || (s.file.Absent? && s.log == [] && base == [] && s.phases == map[])
       case Some(p) => p in s.phases && HolderInv(base, s, s.phases[p])
  }

  function BaseOf(file: File): seq<Record> {
    if file.Json? then file.records else []
  }

  lemma LegalSnoc(base: seq<Record>, log: seq<Entry>, e: Entry)
    requires Legal(base, log) && e.answer == AnswerOf(e.op, Fold(base, log))
    ensures Legal(base, log + [e])
    ensures Fold(base, log + [e]) == Apply(e.op, Fold(base, log))
  {
    var longer := log + [e];
    assert longer[..|log|] == log;
    forall i | 0 <= i < |longer|
      ensures longer[i].answer == AnswerOf(longer[i].op, Fold(base, longer[..i]))
    {
      if i < |log| {
        assert longer[..i] == log[..i];
      }
    }
  }

  lemma FoldNothing(base: seq<Record>)
    ensures Fold(base, []) == base
  {
  }

  lemma ReadersOnly(rs: seq<Record>)
    ensures Apply(Open, rs) == rs && AnswerOf(Open, rs) == Done && Apply(List, rs) == rs
  {
  }

  lemma StepKeepsInv(base: seq<Record>, s: State, p: Process, e: Event)
    requires Inv(base, s) && Enabled(s, p, e)
    ensures Inv(base, Step(s, p, e))
  {
    match e
    case Begin(op) => BeginKeepsInv(base, s, p, op);
    case Lock => LockKeepsInv(base, s, p);
    case Look => LookKeepsInv(base, s, p);
    case Unlock => UnlockKeepsInv(base, s, p);
    case _ => WriteKeepsInv(base, s, p, e);
  }

  lemma BeginKeepsInv(base: seq<Record>, s: State, p: Process, op: Op)
    requires Inv(base, s) && Enabled(s, p, Begin(op))
    ensures Inv(base, Step(s, p, Begin(op)))
  {
    hide Legal, Apply, AnswerOf, Fold;
  }

  lemma LockKeepsInv(base: seq<Record>, s: State, p: Process)
    requires Inv(base, s) && Enabled(s, p, Lock)
    ensures Inv(base, Step(s, p, Lock))
  {
    hide Legal, Apply, AnswerOf, Fold;
  }

  lemma LookKeepsInv(base: seq<Record>, s: State, p: Process)
    requires Inv(base, s) && Enabled(s, p, Look)
    ensures Inv(base, Step(s, p, Look))
  {
    hide Legal, Apply, AnswerOf, Fold;
    FoldNothing(base);
    ReadersOnly(Fold(base, s.log));
  }

  lemma WriteKeepsInv(base: seq<Record>, s: State, p: Process, e: Event)
    requires Inv(base, s) && Enabled(s, p, e) && (e.Truncate? || e.StartWrite? || e.EndWrite?)
    ensures Inv(base, Step(s, p, e))
  {
    hide Legal, Apply, AnswerOf, Fold;
  }

  lemma UnlockKeepsInv(base: seq<Record>, s: State, p: Process)
    requires Inv(base, s) && Enabled(s, p, Unlock)
    ensures Inv(base, Step(s, p, Unlock))
  {
    hide Legal, Apply, AnswerOf, Fold;
    LegalSnoc(base, s.log, Entry(p, s.phases[p].op, s.phases[p].answer));
  }

  lemma {:induction false} RunKeepsInv(file: File, run: Run)
    requires !file.Torn?
    ensures Exec(file, run).Some? ==> Inv(BaseOf(file), Exec(file, run).value)
  {
    if run != [] {
      var before := run[..|run| - 1];
      RunKeepsInv(file, before);
      var (p, e) := run[|run| - 1];
      if Exec(file, before).Some? && Enabled(Exec(file, before).value, p, e) {
        StepKeepsInv(BaseOf(file), Exec(file, before).value, p, e);
      }
    }
  }
}
