/**
The record of the last schema version at which every replica was available, shared by the
cluster managers through etcd. A manager that finds the current version in a recent record
skips its pass. Reading the version, reading the record, deciding, reading the tables and
writing the record are separate steps, interleaved with schema changes and other managers.
*/
module SchemaCache {
  import opened Managers

  const TIME_OUT: int := 300

  type TableId = int

  datatype Record = Record(version: nat, tso: int)

  /** Where a manager is in its update: `version` and `tso` are what it keeps in its fields. */
  datatype Place =
    | Idle
    | GotVersion(version: nat)
    | GotRecord(version: nat, record: Record)
    | Passing(version: nat, tso: int)
    | GotTables(version: nat, tso: int, tables: map<TableId, bool>)

  /** A pass that wrote the record: what it read before the tables, and the tables it saw. */
  datatype Pass = Pass(version: nat, tso: int, tables: map<TableId, bool>)

  /** `tables` maps each table with replicas to whether these are available. `passes` is history:
      no step reads it. */
  datatype State = State(clock: int, version: nat, tables: map<TableId, bool>, record: Option<Record>,
                         managers: map<Address, Place>, passes: set<Pass>)

  datatype Step =
    | Tick(d: nat)
    | Ddl(newTables: map<TableId, bool>, versions: nat)
    | Sync(flags: map<TableId, bool>)
    | Act(m: Address)

  predicate AllAvailable(tables: map<TableId, bool>) {
    forall id :: id in tables ==> tables[id]
  }

  /** A schema change raises the version; availability may change without one. */
  predicate IsStep(s: State, step: Step) {
    match step
    case Ddl(_, versions) => versions > 0
    case Sync(flags) => flags.Keys == s.tables.Keys
    case _ => true
  }

  /** An absent record stands for version zero handled at time zero. */
  function RecordOf(s: State): Record {
    if s.record.None? then Record(0, 0) else s.record.value
  }

  predicate Skips(s: State, m: Address) {
    && m in s.managers && s.managers[m].GotRecord?
    && s.managers[m].version == s.managers[m].record.version
    && s.managers[m].record.tso + TIME_OUT > s.clock
  }

  function At(s: State, m: Address, place: Place): State {
    s.(managers := s.managers[m := place])
  }

  function ActOf(s: State, m: Address): State
    requires m in s.managers
  {
    match s.managers[m]
    case Idle => At(s, m, GotVersion(s.version))
    case GotVersion(v) => At(s, m, GotRecord(v, RecordOf(s)))
    case GotRecord(v, record) => At(s, m, if Skips(s, m) then Idle else Passing(v, s.clock))
    case Passing(v, tso) => At(s, m, GotTables(v, tso, s.tables))
    case GotTables(v, tso, tables) =>
      if AllAvailable(tables) then
        At(s, m, Idle).(record := Some(Record(v, tso)), passes := s.passes + {Pass(v, tso, tables)})
      else At(s, m, Idle)
  }

  function Apply(s: State, step: Step): State {
    match step
    case Tick(d) => s.(clock := s.clock + d)
    case Ddl(newTables, versions) => s.(version := s.version + versions, tables := newTables)
    case Sync(flags) => s.(tables := flags)
    case Act(m) => if m in s.managers then ActOf(s, m) else s
  }

  function RunAll(s: State, steps: seq<Step>): State
    decreases steps
  {
    if steps == [] then s else RunAll(Apply(s, steps[0]), steps[1..])
  }

  ghost predicate AllSteps(s: State, steps: seq<Step>)
    decreases steps
  {
    steps == [] || (IsStep(s, steps[0]) && AllSteps(Apply(s, steps[0]), steps[1..]))
  }

  ghost predicate IsInitial(s: State) {
    s.clock >= TIME_OUT && s.record.None? && s.passes == {} && forall m :: m in s.managers ==> s.managers[m].Idle?
  }

  // ---- What every run keeps ----------------------------------------------------------

  /** A record other than the default was written by a pass that saw every table available. */
  ghost predicate IsBacked(s: State, record: Record) {
    || record.tso + TIME_OUT <= s.clock
    || exists p :: p in s.passes && p.version == record.version && p.tso == record.tso && AllAvailable(p.tables)
  }

  /** Tables read at the current version or later are, if the version is still the same, the
      current ones. */
  ghost predicate IsCurrent(s: State, version: nat, tables: map<TableId, bool>) {
    version <= s.version && (version == s.version ==> tables.Keys == s.tables.Keys)
  }

  /** Passes are stamped with a time of the run. */
  ghost predicate IsStamp(s: State, tso: int) {
    TIME_OUT <= tso <= s.clock
  }

  ghost predicate PlaceOk(s: State, place: Place) {
    match place
    case Idle => true
    case GotVersion(v) => v <= s.version
    case GotRecord(v, record) => v <= s.version && IsBacked(s, record)
    case Passing(v, tso) => v <= s.version && IsStamp(s, tso)
    case GotTables(v, tso, tables) => IsCurrent(s, v, tables) && IsStamp(s, tso)
  }

  ghost predicate AllOk(s: State) {
    && s.clock >= TIME_OUT
    && IsBacked(s, RecordOf(s))
    && (forall p :: p in s.passes ==> IsCurrent(s, p.version, p.tables) && IsStamp(s, p.tso))
    && (forall m :: m in s.managers ==> PlaceOk(s, s.managers[m]))
  }

  /** What was kept stays so while passes are only added and the version only grows. */
  lemma Kept(s: State, t: State, place: Place)
    requires PlaceOk(s, place) && s.clock <= t.clock && s.passes <= t.passes && s.version <= t.version
    requires s.version == t.version ==> s.tables.Keys == t.tables.Keys
    ensures PlaceOk(t, place)
  {
    if place.GotRecord? { BackedStays(s, t, place.record); }
  }

  lemma BackedStays(s: State, t: State, record: Record)
    requires IsBacked(s, record) && s.clock <= t.clock && s.passes <= t.passes
    ensures IsBacked(t, record)
  {
  }

  lemma StepKeeps(s: State, step: Step)
    requires AllOk(s) && IsStep(s, step)
    ensures AllOk(Apply(s, step))
  {
    var t := Apply(s, step);
    forall place | PlaceOk(s, place)
      ensures PlaceOk(t, place)
    {
      Kept(s, t, place);
    }
    BackedStays(s, t, RecordOf(s));
    match step
    case Act(m) =>
      if m in s.managers {
        assert PlaceOk(s, s.managers[m]);
        match s.managers[m]
        case GotTables(v, tso, tables) =>
          if AllAvailable(tables) { assert Pass(v, tso, tables) in t.passes; }
        case _ =>
      }
    case _ =>
  }

  lemma {:induction false} RunKeeps(s: State, steps: seq<Step>)
    requires AllOk(s) && AllSteps(s, steps)
    ensures AllOk(RunAll(s, steps))
    decreases steps
  {
    if steps == [] {
    } else {
      StepKeeps(s, steps[0]);
      RunKeeps(Apply(s, steps[0]), steps[1..]);
    }
  }

  /** A pass within the last 300 seconds saw exactly the current tables, all available. */
  ghost predicate HandledRecently(s: State) {
    exists p :: p in s.passes && IsFresh(s, p)
  }

  ghost predicate IsFresh(s: State, p: Pass) {
    s.clock < p.tso + TIME_OUT && AllAvailable(p.tables) && p.tables.Keys == s.tables.Keys
  }

  /** A skip at a version that is still current is justified, by a pass at that version. */
  lemma SkipIsJustified(s: State, steps: seq<Step>, m: Address)
    requires IsInitial(s) && AllSteps(s, steps) && Skips(RunAll(s, steps), m)
    requires RunAll(s, steps).managers[m].version == RunAll(s, steps).version
    ensures var t := RunAll(s, steps); exists p :: p in t.passes && p.version == t.version && IsFresh(t, p)
  {
    RunKeeps(s, steps);
    var t := RunAll(s, steps);
    assert PlaceOk(t, t.managers[m]);
    var record := t.managers[m].record;
    var p :| p in t.passes && p.version == record.version && p.tso == record.tso && AllAvailable(p.tables);
    assert IsCurrent(t, p.version, p.tables);
    assert IsFresh(t, p);
  }

  // ---- What an update comes to -------------------------------------------------------

  /** No step is one of this manager. */
  predicate Spares(steps: seq<Step>, m: Address) {
    forall i :: 0 <= i < |steps| ==> steps[i] != Act(m)
  }

  lemma {:induction false} SparedStays(s: State, steps: seq<Step>, m: Address)
    requires m in s.managers && Spares(steps, m)
    ensures m in RunAll(s, steps).managers && RunAll(s, steps).managers[m] == s.managers[m]
    decreases steps
  {
    if steps == [] {
    } else {
      assert steps[0] != Act(m);
      var t := Apply(s, steps[0]);
      assert forall i :: 0 <= i < |steps[1..]| ==> steps[1..][i] == steps[i + 1];
      SparedStays(t, steps[1..], m);
    }
  }

  /** A manager has read the version and is about to read the record; `a` is what happens in
      between. */
  function AtRecord(s: State, m: Address, a: seq<Step>): State {
    RunAll(Apply(s, Act(m)), a)
  }

  /** It has read the record too and is about to decide. */
  function AtDecision(s: State, m: Address, a: seq<Step>, b: seq<Step>): State {
    RunAll(Apply(AtRecord(s, m, a), Act(m)), b)
  }

  /** Whatever happens meanwhile: the update is passed over exactly if the record is of the version
      read before it and, when the manager decides, less than 300 seconds old. Otherwise the
      manager goes on, with that version and the time of its decision. */
  lemma CheckOutcome(s: State, m: Address, a: seq<Step>, b: seq<Step>)
    requires m in s.managers && s.managers[m] == Idle && Spares(a, m) && Spares(b, m)
    ensures
      var read, now := AtRecord(s, m, a), AtDecision(s, m, a, b);
      var last := if read.record.Some? then read.record.value else Record(0, 0);
      var skips := last.version == s.version && now.clock < last.tso + 300;
      Apply(now, Act(m)) == At(now, m, if skips then Idle else Passing(s.version, now.clock))
  {
    hide RunAll;
    SparedStays(Apply(s, Act(m)), a, m);
    SparedStays(Apply(AtRecord(s, m, a), Act(m)), b, m);
  }

  /** A manager has read the tables and is about to record its pass. */
  function AtPut(s: State, m: Address, a: seq<Step>): State {
    RunAll(Apply(s, Act(m)), a)
  }

  /** Whatever happens meanwhile: a pass records the version and the time of its check if every
      table was available when it read them, and leaves the record as it is otherwise. */
  lemma PassOutcome(s: State, m: Address, v: nat, tso: int, a: seq<Step>)
    requires m in s.managers && s.managers[m] == Passing(v, tso) && Spares(a, m)
    ensures
      var t := Apply(AtPut(s, m, a), Act(m));
      && t.record == (if forall id :: id in s.tables ==> s.tables[id] then Some(Record(v, tso)) else AtPut(s, m, a).record)
      && t == At(AtPut(s, m, a), m, Idle).(record := t.record, passes := t.passes)
  {
    hide RunAll;
    SparedStays(Apply(s, Act(m)), a, m);
  }

  /** After a pass that saw every table available, a manager that reads its version and its record
      passes over the update exactly until 300 seconds after the check of that pass. */
  lemma NextSkips(s: State, m: Address, v: nat, tso: int, a: seq<Step>, between: seq<Step>,
                  m': Address, b: seq<Step>, c: seq<Step>)
    requires m in s.managers && s.managers[m] == Passing(v, tso) && Spares(a, m) && AllAvailable(s.tables)
    requires
      var t := Apply(AtPut(s, m, a), Act(m));
      var u := RunAll(t, between);
      && m' in u.managers && u.managers[m'] == Idle && Spares(b, m') && Spares(c, m')
      && u.version == v && AtRecord(u, m', b).record == t.record
    ensures
      var u := RunAll(Apply(AtPut(s, m, a), Act(m)), between);
      var now := AtDecision(u, m', b, c);
      Apply(now, Act(m')) == At(now, m', if now.clock < tso + 300 then Idle else Passing(v, now.clock))
  {
    hide RunAll, AtPut, AtRecord, AtDecision, Apply;
    PassOutcome(s, m, v, tso, a);
    CheckOutcome(RunAll(Apply(AtPut(s, m, a), Act(m)), between), m', b, c);
  }

  // ---- What a manager can know -------------------------------------------------------

  /** Two states that look the same to a manager that reads the version and the clock again. */
  predicate SameView(s: State, t: State, m: Address) {
    m in s.managers && m in t.managers && s.managers[m] == t.managers[m] && s.clock == t.clock && s.version == t.version
  }

  /** In every run that looks the same to the manager, the current tables have been handled. */
  ghost predicate KnowsHandled(s: State, m: Address) {
    forall s0, steps :: IsInitial(s0) && AllSteps(s0, steps) && SameView(s, RunAll(s0, steps), m) ==> HandledRecently(RunAll(s0, steps))
  }

  /** A skip is justified in every run that looks the same exactly when the version has not
      changed since the manager read it. */
  lemma SkipIsKnown(s: State, steps: seq<Step>, m: Address)
    requires IsInitial(s) && AllSteps(s, steps) && Skips(RunAll(s, steps), m)
    ensures var t := RunAll(s, steps); KnowsHandled(t, m) <==> t.managers[m].version == t.version
  {
    var t := RunAll(s, steps);
    if t.managers[m].version == t.version {
      forall s0, other | IsInitial(s0) && AllSteps(s0, other) && SameView(t, RunAll(s0, other), m)
        ensures HandledRecently(RunAll(s0, other))
      {
        SkipIsJustified(s0, other, m);
      }
    } else {
      StampOfSkip(s, steps, m);
      var s0, other := StaleSkip(m, t.managers[m].version, t.managers[m].record.tso, t.clock, t.version);
      assert !HandledRecently(RunAll(s0, other));
    }
  }

  lemma StampOfSkip(s: State, steps: seq<Step>, m: Address)
    requires IsInitial(s) && AllSteps(s, steps) && Skips(RunAll(s, steps), m)
    ensures
      var t := RunAll(s, steps);
      t.managers[m].version <= t.version && IsStamp(t, t.managers[m].record.tso)
  {
    RunKeeps(s, steps);
    var t := RunAll(s, steps);
    assert PlaceOk(t, t.managers[m]);
    var record := t.managers[m].record;
    var p :| p in t.passes && p.version == record.version && p.tso == record.tso;
    assert IsStamp(t, p.tso);
  }

  // ---- Skips at a version that has changed -------------------------------------------

  lemma Go(s0: State, before: seq<Step>, s: State, step: Step) returns (steps: seq<Step>, s': State)
    requires RunAll(s0, before) == s && AllSteps(s0, before) && IsStep(s, step)
    ensures s' == Apply(s, step) && RunAll(s0, steps) == s' && AllSteps(s0, steps)
  {
    steps, s' := before + [step], Apply(s, step);
    Append(s0, before, step);
  }

  lemma {:induction false} Append(s: State, before: seq<Step>, step: Step)
    requires AllSteps(s, before) && IsStep(RunAll(s, before), step)
    ensures RunAll(s, before + [step]) == Apply(RunAll(s, before), step) && AllSteps(s, before + [step])
    decreases before
  {
    if before == [] {
      assert RunAll(Apply(s, step), []) == Apply(s, step);
      assert before + [step] == [step] && [step][1..] == [];
    } else {
      assert (before + [step])[1..] == before[1..] + [step];
      Append(Apply(s, before[0]), before[1..], step);
    }
  }

  /** Whatever version, record and time a manager skips at, if the version has changed since,
      there is a run in which it sees just that and no pass ever saw the current tables. */
  lemma StaleSkip(m: Address, version: nat, tso: int, clock: int, current: nat) returns (s0: State, steps: seq<Step>)
    requires TIME_OUT <= tso <= clock < tso + TIME_OUT && version < current
    ensures IsInitial(s0) && AllSteps(s0, steps)
    ensures
      var t := RunAll(s0, steps);
      && Skips(t, m) && t.managers[m] == GotRecord(version, Record(version, tso)) && t.clock == clock && t.version == current
      && forall p :: p in t.passes ==> p.tables.Keys != t.tables.Keys
  {
    var s;
    s0, steps, s := PassOfNothing(m, version, tso);
    steps, s := Go(s0, steps, s, Act(m));
    steps, s := Go(s0, steps, s, Act(m));
    assert s.managers[m] == GotRecord(version, Record(version, tso));
    steps, s := Go(s0, steps, s, Tick(clock - tso));
    steps, s := Go(s0, steps, s, Ddl(map[5 := false], current - version));
    assert 5 in s.tables.Keys;
  }

  /** A pass before there are any tables. */
  lemma PassOfNothing(m: Address, version: nat, tso: int) returns (s0: State, steps: seq<Step>, s: State)
    requires TIME_OUT <= tso
    ensures IsInitial(s0) && AllSteps(s0, steps) && s == RunAll(s0, steps)
    ensures s == State(tso, version, map[], Some(Record(version, tso)), map[m := Idle], {Pass(version, tso, map[])})
  {
    s0 := State(tso, version, map[], None, map[m := Idle], {});
    s, steps := s0, [];
    steps, s := Go(s0, steps, s, Act(m));
    steps, s := Go(s0, steps, s, Act(m));
    steps, s := Go(s0, steps, s, Act(m));
    assert s.managers[m] == Passing(version, tso);
    steps, s := Go(s0, steps, s, Act(m));
    steps, s := Go(s0, steps, s, Act(m));
  }
}
