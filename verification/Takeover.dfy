/**
What a call of `try_get_lock` comes to when no other step intervenes, for every role and every
state of the key, and what follows for the time that an abandoned key stays untaken.
*/
module Takeover {
  import opened Managers
  import opened Lease

  /** After `n` of its own steps, and not before, the call of `m` is ready, in state `t`. */
  ghost predicate CallEnds(c: Config, s: State, m: Address, n: nat, t: State)
    decreases n
  {
    && m in s.managers
    && if n == 0 then s.managers[m].place == Ready && t == s
       else s.managers[m].place != Ready && CallEnds(c, ActOf(c, s, m), m, n - 1, t)
  }

  /** The manager's steps are a run. */
  lemma {:induction false} CallIsRun(c: Config, s: State, m: Address, n: nat, t: State) returns (steps: seq<Step>)
    requires CallEnds(c, s, m, n, t)
    ensures RunAll(c, s, steps) == t && |steps| == n && forall step :: step in steps ==> step == Act(m)
    decreases n
  {
    if n == 0 {
      steps := [];
    } else {
      var rest := CallIsRun(c, ActOf(c, s, m), m, n - 1, t);
      steps := [Act(m)] + rest;
      assert steps[1..] == rest;
    }
  }

  /** One step more at the beginning. */
  lemma Before(c: Config, s: State, m: Address, u: State, n: nat, t: State)
    requires m in s.managers && s.managers[m].place != Ready && ActOf(c, s, m) == u && CallEnds(c, u, m, n, t)
    ensures CallEnds(c, s, m, n + 1, t)
  {
  }

  lemma StampEnds(c: Config, s: State, m: Address, role: Role) returns (t: State)
    requires m in s.managers && s.managers[m].place == Stamping(role)
    ensures t == With(s, m, s.managers[m].(role := role, ts := s.clock, place := Ready)) && CallEnds(c, s, m, 1, t)
  {
    t := With(s, m, s.managers[m].(role := role, ts := s.clock, place := Ready));
    Before(c, s, m, t, 0, t);
  }

  /** The key and its grant after `m` has been granted a new lease. */
  function Granted(c: Config, s: State, m: Address): State {
    s.(mutex := Some(Mutex(LeaseId(m, s.nextNumber), s.clock + c.ttl)), nextNumber := s.nextNumber + 1,
       granted := s.granted[m := s.clock])
  }

  function Noted(s: State, m: Address, x: Manager, role: Role): State {
    With(s, m, x.(role := role, ts := s.clock, place := Ready))
  }

  /** A manager that would initialise the key: it gets an absent one, and leaves any other alone. */
  lemma InitEnds(c: Config, s: State, m: Address) returns (n: nat, t: State)
    requires IsConfig(c) && m in s.managers && s.managers[m].place == Checking && s.managers[m].role == INIT
    ensures CallEnds(c, s, m, n, t)
    ensures t == if s.mutex.None? then Noted(Granted(c, s, m), m, s.managers[m], MASTER) else Noted(s, m, s.managers[m], SECONDARY)
  {
    var x := s.managers[m];
    var u := With(s, m, x.(place := InitGetting));
    if s.mutex.Some? {
      var v := With(s, m, x.(place := Stamping(SECONDARY)));
      t := StampEnds(c, v, m, SECONDARY);
      n := 3;
      Before(c, u, m, v, 1, t);
    } else {
      n, t := GrantEnds(c, u, m);
    }
    Before(c, s, m, u, n - 1, t);
  }

  lemma GrantEnds(c: Config, s: State, m: Address) returns (n: nat, t: State)
    requires IsConfig(c) && m in s.managers && s.managers[m].place == InitGetting && s.managers[m].role == INIT && s.mutex.None?
    ensures n == 5 && CallEnds(c, s, m, n - 1, t) && t == Noted(Granted(c, s, m), m, s.managers[m], MASTER)
  {
    var x := s.managers[m];
    var v := With(s, m, x.(place := InitGranting));
    var w := With(s, m, x.(place := InitPutting(LeaseId(m, s.nextNumber), s.clock + c.ttl))).(nextNumber := s.nextNumber + 1);
    var y := With(Granted(c, s, m), m, x.(place := Stamping(MASTER)));
    n := 5;
    t := StampEnds(c, y, m, MASTER);
    Before(c, w, m, y, 1, t);
    Before(c, v, m, w, 2, t);
    Before(c, s, m, v, 3, t);
  }

  /** A manager that asks for its key: it refreshes its own, gives way to another's, and
      initialises an absent one. */
  lemma RefreshEnds(c: Config, s: State, m: Address) returns (n: nat, t: State)
    requires IsConfig(c) && m in s.managers && s.managers[m].place == RefreshGetting
    ensures CallEnds(c, s, m, n, t)
    ensures t == RefreshOutcome(c, s, m, s.managers[m])
  {
    var x := s.managers[m];
    if s.mutex.None? {
      var u := With(s, m, x.(role := INIT, ts := 0, place := Checking));
      n, t := InitEnds(c, u, m);
      Before(c, s, m, u, n, t);
      n := n + 1;
    } else if HoldsKey(s, m) {
      var id := s.mutex.value.id;
      var u := With(s, m, x.(place := Refreshing(id)));
      var v := With(s, m, x.(place := Stamping(MASTER)))
               .(mutex := Some(Mutex(id, s.clock + c.ttl)), granted := s.granted[m := s.clock]);
      t := StampEnds(c, v, m, MASTER);
      Before(c, u, m, v, 1, t);
      Before(c, s, m, u, 2, t);
      n := 3;
    } else {
      var u := With(s, m, x.(place := Stamping(SECONDARY)));
      t := StampEnds(c, u, m, SECONDARY);
      Before(c, s, m, u, 1, t);
      n := 2;
    }
  }

  function RefreshOutcome(c: Config, s: State, m: Address, x: Manager): State {
    if s.mutex.None? then Noted(Granted(c, s, m), m, x, MASTER)
    else if HoldsKey(s, m) then
      Noted(s.(mutex := Some(Mutex(s.mutex.value.id, s.clock + c.ttl)), granted := s.granted[m := s.clock]), m, x, MASTER)
    else Noted(s, m, x, SECONDARY)
  }

  /** What a call comes to. A secondary keeps quiet for a ttl since its note, and a master for its
      interval. After that a secondary takes an absent key and notes any other anew; a master
      refreshes its key, gives way to another's, and takes an absent one. */
  function CallOutcome(c: Config, s: State, m: Address): State
    requires m in s.managers
  {
    var x := s.managers[m].(began := s.clock);
    match x.role
    case SECONDARY =>
      if s.clock < x.ts + c.ttl then With(s, m, x.(place := Ready))
      else if s.mutex.None? then Noted(Granted(c, s, m), m, x, MASTER)
      else Noted(s, m, x, SECONDARY)
    case MASTER =>
      if s.clock < x.ts + c.interval then With(s, m, x.(place := Ready)) else RefreshOutcome(c, s, m, x)
    case INIT =>
      if s.mutex.None? then Noted(Granted(c, s, m), m, x, MASTER) else Noted(s, m, x, SECONDARY)
  }

  lemma CallEndsSo(c: Config, s: State, m: Address) returns (n: nat)
    requires IsConfig(c) && m in s.managers && s.managers[m].place == Idle
    ensures CallEnds(c, s, m, n, CallOutcome(c, s, m))
  {
    var t;
    var x := s.managers[m].(began := s.clock, place := Checking);
    var u := With(s, m, x);
    match x.role {
      case INIT => n, t := InitEnds(c, u, m);
      case SECONDARY => n, t := SecondaryEnds(c, u, m);
      case MASTER => n, t := MasterEnds(c, u, m);
    }
    assert t.managers == CallOutcome(c, s, m).managers;
    assert t == CallOutcome(c, s, m);
    Before(c, s, m, u, n, CallOutcome(c, s, m));
    n := n + 1;
  }

  lemma SecondaryEnds(c: Config, s: State, m: Address) returns (n: nat, t: State)
    requires IsConfig(c) && m in s.managers && s.managers[m].place == Checking && s.managers[m].role == SECONDARY
    ensures CallEnds(c, s, m, n, t)
    ensures
      var x := s.managers[m];
      t == if s.clock < x.ts + c.ttl then With(s, m, x.(place := Ready))
           else if s.mutex.None? then Noted(Granted(c, s, m), m, x, MASTER)
           else Noted(s, m, x, SECONDARY)
  {
    var x := s.managers[m];
    if s.clock < x.ts + c.ttl {
      n, t := 1, With(s, m, x.(place := Ready));
      Before(c, s, m, t, 0, t);
    } else {
      var u := With(s, m, x.(role := INIT, ts := 0));
      n, t := InitEnds(c, u, m);
      Before(c, s, m, u, n, t);
      n := n + 1;
    }
  }

  lemma MasterEnds(c: Config, s: State, m: Address) returns (n: nat, t: State)
    requires IsConfig(c) && m in s.managers && s.managers[m].place == Checking && s.managers[m].role == MASTER
    ensures CallEnds(c, s, m, n, t)
    ensures
      var x := s.managers[m];
      t == if s.clock < x.ts + c.interval then With(s, m, x.(place := Ready)) else RefreshOutcome(c, s, m, x)
  {
    var x := s.managers[m];
    if s.clock < x.ts + c.interval {
      n, t := 1, With(s, m, x.(place := Ready));
      Before(c, s, m, t, 0, t);
    } else {
      var y := x.(place := RefreshGetting);
      var u := With(s, m, y);
      OutcomeForgets(c, s, m, x, y);
      hide CallEnds, RefreshOutcome;
      n, t := RefreshEnds(c, u, m);
      Before(c, s, m, u, n, t);
      n := n + 1;
    }
  }

  lemma OutcomeForgets(c: Config, s: State, m: Address, x: Manager, y: Manager)
    requires m in s.managers && y == x.(place := RefreshGetting)
    ensures RefreshOutcome(c, With(s, m, y), m, y) == RefreshOutcome(c, s, m, x)
  {
    var t, u := RefreshOutcome(c, s, m, x), RefreshOutcome(c, With(s, m, y), m, y);
    assert t.managers == u.managers;
  }

  // ---- What that means for the lock --------------------------------------------------

  /** A secondary takes a key that is absent once a ttl has passed since its note. */
  lemma SecondaryTakesOver(c: Config, s: State, m: Address) returns (n: nat, t: State)
    requires IsConfig(c) && m in s.managers && s.managers[m].place == Idle && !s.managers[m].booting
    requires s.managers[m].role == SECONDARY && s.managers[m].ts + c.ttl <= s.clock && s.mutex.None?
    ensures CallEnds(c, s, m, n, t) && t.clock == s.clock && Starts(t, m) && HoldsKey(t, m)
    ensures t.managers[m].ts == s.clock && t.mutex.value.expiry == s.clock + c.ttl
    ensures forall a :: a in s.managers && a != m ==> a in t.managers && t.managers[a] == s.managers[a]
  {
    n := CallEndsSo(c, s, m);
    t := CallOutcome(c, s, m);
  }

  /** Until then it leaves everything as it is. */
  lemma SecondaryWaits(c: Config, s: State, m: Address) returns (n: nat, t: State)
    requires IsConfig(c) && m in s.managers && s.managers[m].place == Idle
    requires s.managers[m].role == SECONDARY && s.clock < s.managers[m].ts + c.ttl
    ensures CallEnds(c, s, m, n, t) && !Starts(t, m)
    ensures t == With(s, m, s.managers[m].(place := Ready, began := s.clock))
  {
    n := CallEndsSo(c, s, m);
    t := CallOutcome(c, s, m);
  }

  /** A master whose interval is over keeps its key for another ttl. */
  lemma MasterRefreshes(c: Config, s: State, m: Address) returns (n: nat, t: State)
    requires IsConfig(c) && m in s.managers && s.managers[m].place == Idle && !s.managers[m].booting
    requires s.managers[m].role == MASTER && s.managers[m].ts + c.interval <= s.clock && HoldsKey(s, m)
    ensures CallEnds(c, s, m, n, t) && Starts(t, m) && t.managers[m].ts == s.clock
    ensures t.mutex == Some(Mutex(s.mutex.value.id, s.clock + c.ttl)) && t.nextNumber == s.nextNumber
  {
    n := CallEndsSo(c, s, m);
    t := CallOutcome(c, s, m);
  }

  /** A manager that asks and finds the key another's does not start, and leaves the key alone. */
  lemma FindsKeyTaken(c: Config, s: State, m: Address) returns (n: nat, t: State)
    requires IsConfig(c) && m in s.managers && s.managers[m].place == Idle
    requires s.managers[m].role == MASTER ==> s.managers[m].ts + c.interval <= s.clock
    requires s.mutex.Some? && !HoldsKey(s, m)
    ensures CallEnds(c, s, m, n, t) && !Starts(t, m) && m in t.managers && t.managers[m].role == SECONDARY
    ensures t.mutex == s.mutex && t.nextNumber == s.nextNumber
    ensures s.managers[m].role == MASTER ==> t.managers[m].ts == s.clock
  {
    n := CallEndsSo(c, s, m);
    t := CallOutcome(c, s, m);
  }

  /** So does one that loses the race for an absent key. */
  lemma LosesRace(c: Config, s: State, m: Address) returns (n: nat, t: State)
    requires m in s.managers && s.managers[m].place.InitPutting? && s.clock < s.managers[m].place.expiry && s.mutex.Some?
    ensures CallEnds(c, s, m, n, t) && t == Noted(s, m, s.managers[m], SECONDARY)
  {
    var u := With(s, m, s.managers[m].(place := Stamping(SECONDARY)));
    t := StampEnds(c, u, m, SECONDARY);
    n := 2;
    Before(c, s, m, u, 1, t);
  }

  // ---- How long an abandoned key stays untaken ---------------------------------------

  /** A manager between calls has finished booting and noted an outcome, in the past. */
  ghost predicate RestOk(s: State) {
    forall m :: m in s.managers ==> NoteOk(s, s.managers[m])
  }

  ghost predicate NoteOk(s: State, x: Manager) {
    && (x.place.Idle? ==> !x.booting)
    && (x.place.Idle? || x.place.Ready? ==> x.role != INIT)
    && (x.place.Stamping? ==> x.place.as_ != INIT)
    && (x.role != INIT ==> x.ts <= s.clock)
  }

  lemma RestAct(c: Config, s: State, m: Address)
    requires RestOk(s) && m in s.managers
    ensures m in ActOf(c, s, m).managers && NoteOk(s, ActOf(c, s, m).managers[m])
  {
    assert NoteOk(s, s.managers[m]);
  }

  lemma RestStep(c: Config, s: State, step: Step)
    requires RestOk(s)
    ensures RestOk(Apply(c, s, step))
  {
    var t := Apply(c, s, step);
    SameManagers(c, s, step);
    forall m | m in t.managers
      ensures NoteOk(t, t.managers[m])
    {
      assert NoteOk(s, s.managers[m]);
      if step == Act(m) { RestAct(c, s, m); }
    }
  }

  lemma {:induction false} RestRun(c: Config, s: State, steps: seq<Step>)
    requires RestOk(s)
    ensures RestOk(RunAll(c, s, steps))
    decreases steps
  {
    hide RestOk, Apply;
    if steps == [] {
    } else {
      RestStep(c, s, steps[0]);
      RestRun(c, Apply(c, s, steps[0]), steps[1..]);
    }
  }

  /** In every run, whatever the delays and whoever has died: when no manager has done anything
      for a ttl, whichever one calls next holds the key and starts. */
  lemma Failover(c: Config, s: State, steps: seq<Step>, quiet: nat, m: Address) returns (n: nat, t: State)
    requires IsConfig(c) && IsInitial(c, s) && c.ttl <= quiet
    requires var before := RunAll(c, s, steps); m in before.managers && before.managers[m].place == Idle
    ensures CallEnds(c, Advance(RunAll(c, s, steps), quiet), m, n, t)
    ensures Starts(t, m) && HoldsKey(t, m) && t.clock == RunAll(c, s, steps).clock + quiet
  {
    var before := RunAll(c, s, steps);
    var after := Advance(before, quiet);
    RestRun(c, s, steps);
    MutexRun(c, s, steps);
    assert NoteOk(before, before.managers[m]);
    KeyLapses(c, before, quiet);
    n := CallEndsSo(c, after, m);
    t := CallOutcome(c, after, m);
  }

  /** In every run: an idle secondary that finds the key gone a ttl after its note takes it. */
  lemma TakesOverInRuns(c: Config, s: State, steps: seq<Step>, m: Address) returns (n: nat, t: State)
    requires IsConfig(c) && IsInitial(c, s)
    requires
      var before := RunAll(c, s, steps);
      && m in before.managers && before.managers[m].place == Idle && before.managers[m].role == SECONDARY
      && before.managers[m].ts + c.ttl <= before.clock && before.mutex.None?
    ensures CallEnds(c, RunAll(c, s, steps), m, n, t) && Starts(t, m) && HoldsKey(t, m)
  {
    var before := RunAll(c, s, steps);
    RestRun(c, s, steps);
    assert NoteOk(before, before.managers[m]);
    n, t := SecondaryTakesOver(c, before, m);
  }

  /** A key that nobody refreshes is gone after a ttl. */
  lemma KeyLapses(c: Config, s: State, quiet: nat)
    requires IsConfig(c) && MutexOk(c, s) && c.ttl <= quiet
    ensures Advance(s, quiet).mutex.None?
  {
    if s.mutex.Some? {
      assert HoldsKey(s, s.mutex.value.id.owner);
    }
  }
}
