/**
Master election among cluster managers, over one etcd key with a lease. Each request to etcd,
each reading of the clock and each dispatch on the role is a step of its own, so time may pass
and other managers may act between any two of them.
*/
module Lease {
  import opened Managers

  /** A lease is known by who was granted it and a serial number. */
  datatype LeaseId = LeaseId(owner: Address, number: nat)

  /** The mutex key: its value is the owner's address; it disappears when its lease expires. */
  datatype Mutex = Mutex(id: LeaseId, expiry: int)

  datatype Role = INIT | SECONDARY | MASTER

  /** Where a manager is in `try_get_lock`. */
  datatype Place =
    | Idle                                   // outside any lock-guarded call
    | Stopped                                // the process has died, perhaps in the middle of a call
    | Checking                               // about to look at the role
    | InitGetting                            // try_init_mutex: about to read the key
    | InitGranting                           // try_init_mutex: about to be granted a lease
    | InitPutting(id: LeaseId, expiry: int)  // try_init_mutex: about to put the key if absent
    | RefreshGetting                         // refresh_ttl: about to read the key
    | Refreshing(id: LeaseId)                // refresh_ttl: about to refresh the lease it saw
    | Stamping(as_: Role)                    // about to note the outcome with the time
    | Ready                                  // about to look at the role and start the body

  /** `began` is when the current call began; `booting` holds during the constructor's own
      refresh, which guards no body. */
  datatype Manager = Manager(role: Role, ts: int, place: Place, began: int, booting: bool)

  /** `granted` records when etcd last granted or refreshed the lease that holds the key for
      an address. It is history: no step reads it. */
  datatype State = State(clock: int, mutex: Option<Mutex>, nextNumber: nat,
                         managers: map<Address, Manager>, granted: map<Address, int>)

  datatype Config = Config(ttl: int, interval: int)

  /** `refresh_interval` is capped by the ttl when the configuration is read. */
  predicate IsConfig(c: Config) {
    0 <= c.interval <= c.ttl && 0 < c.ttl
  }

  datatype Step = Tick(d: nat) | Act(m: Address) | Stop(m: Address) | Restart(m: Address)

  // ---- Steps -------------------------------------------------------------------------

  function Booting(clock: int): Manager {
    Manager(INIT, 0, RefreshGetting, clock, true)
  }

  function Advance(s: State, d: nat): State {
    var clock := s.clock + d;
    s.(clock := clock, mutex := if s.mutex.Some? && s.mutex.value.expiry <= clock then None else s.mutex)
  }

  /** The state when the only change is in one manager. */
  function With(s: State, m: Address, x: Manager): State {
    s.(managers := s.managers[m := x])
  }

  function Checked(c: Config, s: State, x: Manager): Manager {
    match x.role
    case INIT => x.(place := InitGetting)
    case SECONDARY => if s.clock >= x.ts + c.ttl then x.(role := INIT, ts := 0) else x.(place := Ready)
    case MASTER => if s.clock >= x.ts + c.interval then x.(place := RefreshGetting) else x.(place := Ready)
  }

  function Put(c: Config, s: State, m: Address, x: Manager, id: LeaseId, expiry: int): State {
    if expiry <= s.clock then With(s, m, Booting(s.clock)) // etcd refuses a lease that has expired
    else if s.mutex.None? then
      With(s, m, x.(place := Stamping(MASTER))).(mutex := Some(Mutex(id, expiry)), granted := s.granted[m := expiry - c.ttl])
    else With(s, m, x.(place := Stamping(SECONDARY)))
  }

  function RefreshGot(s: State, m: Address, x: Manager): Manager {
    if s.mutex.None? then x.(role := INIT, ts := 0, place := Checking)
    else if s.mutex.value.id.owner != m then x.(place := Stamping(SECONDARY))
    else x.(place := Refreshing(s.mutex.value.id))
  }

  predicate IsAlive(s: State, id: LeaseId) {
    s.mutex.Some? && s.mutex.value.id == id
  }

  /** Refreshing a lease that has expired has no effect, and is not noticed. */
  function Refresh(c: Config, s: State, m: Address, x: Manager, id: LeaseId): State {
    var s' := With(s, m, x.(place := Stamping(MASTER)));
    if IsAlive(s, id) then s'.(mutex := Some(Mutex(id, s.clock + c.ttl)), granted := s.granted[m := s.clock]) else s'
  }

  function ActOf(c: Config, s: State, m: Address): State
    requires m in s.managers
  {
    var x := s.managers[m];
    match x.place
    case Idle => With(s, m, x.(place := Checking, began := s.clock))
    case Checking => With(s, m, Checked(c, s, x))
    case InitGetting => With(s, m, x.(place := if s.mutex.None? then InitGranting else Stamping(SECONDARY)))
    case InitGranting =>
      With(s, m, x.(place := InitPutting(LeaseId(m, s.nextNumber), s.clock + c.ttl))).(nextNumber := s.nextNumber + 1)
    case InitPutting(id, expiry) => Put(c, s, m, x, id, expiry)
    case RefreshGetting => With(s, m, RefreshGot(s, m, x))
    case Refreshing(id) => Refresh(c, s, m, x, id)
    case Stamping(role) => With(s, m, x.(role := role, ts := s.clock, place := Ready))
    case Ready => With(s, m, x.(place := Idle, booting := false))
    case Stopped => s
  }

  function Apply(c: Config, s: State, step: Step): State {
    match step
    case Tick(d) => Advance(s, d)
    case Act(m) => if m in s.managers then ActOf(c, s, m) else s
    case Stop(m) => if m in s.managers then With(s, m, s.managers[m].(place := Stopped)) else s
    case Restart(m) => if m in s.managers then With(s, m, Booting(s.clock)) else s
  }

  /** The next step of `m` starts a lock-guarded body. */
  predicate Starts(s: State, m: Address) {
    m in s.managers && s.managers[m].place.Ready? && s.managers[m].role.MASTER? && !s.managers[m].booting
  }

  predicate HoldsKey(s: State, m: Address) {
    s.mutex.Some? && s.mutex.value.id.owner == m
  }

  function RunAll(c: Config, s: State, steps: seq<Step>): State
    decreases steps
  {
    if steps == [] then s else RunAll(c, Apply(c, s, steps[0]), steps[1..])
  }

  ghost predicate IsInitial(c: Config, s: State) {
    && s.mutex.None?
    && s.granted.Keys == s.managers.Keys
    && (forall m :: m in s.managers ==> s.managers[m] == Booting(s.clock) && s.granted[m] + c.ttl <= s.clock)
  }

  // ---- What every run keeps ----------------------------------------------------------

  /** The key is held for an address exactly while its last grant has not run out. */
  ghost predicate MutexOk(c: Config, s: State) {
    && s.granted.Keys == s.managers.Keys
    && (s.mutex.Some? ==> s.mutex.value.id.owner in s.managers)
    && (forall a :: a in s.granted ==> s.granted[a] <= s.clock)
    && (forall a :: a in s.granted ==>
          (HoldsKey(s, a) <==> s.clock < s.granted[a] + c.ttl)
          && (HoldsKey(s, a) ==> s.mutex.value.expiry == s.granted[a] + c.ttl))
    && (forall m :: m in s.managers ==> PlaceOk(c, s, m, s.managers[m].place))
  }

  ghost predicate PlaceOk(c: Config, s: State, m: Address, place: Place) {
    match place
    case InitPutting(id, expiry) => id.owner == m && expiry <= s.clock + c.ttl
    case Refreshing(id) => id.owner == m
    case _ => true
  }

  /** A step that changes only one manager, and not to a place that holds a lease. */
  lemma MutexLocal(c: Config, s: State, m: Address, x: Manager)
    requires MutexOk(c, s) && m in s.managers && PlaceOk(c, s, m, x.place)
    ensures MutexOk(c, With(s, m, x))
  {
    var t := With(s, m, x);
    assert forall a :: HoldsKey(t, a) == HoldsKey(s, a);
    assert forall a, p :: PlaceOk(c, t, a, p) == PlaceOk(c, s, a, p);
  }

  lemma MutexTick(c: Config, s: State, d: nat)
    requires MutexOk(c, s)
    ensures MutexOk(c, Advance(s, d))
  {
    var t := Advance(s, d);
    assert forall a, p :: PlaceOk(c, s, a, p) ==> PlaceOk(c, t, a, p);
  }

  /** Putting or refreshing the key: only its own lease can be there. */
  lemma MutexGrant(c: Config, s: State, m: Address, x: Manager, id: LeaseId, at: int)
    requires IsConfig(c) && MutexOk(c, s) && m in s.managers && PlaceOk(c, s, m, x.place) && id.owner == m
    requires s.mutex.None? || HoldsKey(s, m)
    requires at <= s.clock < at + c.ttl
    ensures MutexOk(c, With(s, m, x).(mutex := Some(Mutex(id, at + c.ttl)), granted := s.granted[m := at]))
  {
    var t := With(s, m, x).(mutex := Some(Mutex(id, at + c.ttl)), granted := s.granted[m := at]);
    assert forall a :: HoldsKey(t, a) <==> a == m;
    assert forall a :: a != m ==> !HoldsKey(s, a);
    assert forall a, p :: PlaceOk(c, t, a, p) == PlaceOk(c, s, a, p);
  }

  lemma MutexStep(c: Config, s: State, step: Step)
    requires IsConfig(c) && MutexOk(c, s)
    ensures MutexOk(c, Apply(c, s, step))
  {
    hide MutexOk;
    match step
    case Tick(d) => MutexTick(c, s, d);
    case Stop(m) =>
      if m in s.managers { MutexLocal(c, s, m, s.managers[m].(place := Stopped)); }
    case Restart(m) =>
      if m in s.managers { MutexLocal(c, s, m, Booting(s.clock)); }
    case Act(m) =>
      if m in s.managers { MutexAct(c, s, m); }
  }

  lemma MutexPut(c: Config, s: State, m: Address, x: Manager, id: LeaseId, expiry: int)
    requires IsConfig(c) && MutexOk(c, s) && m in s.managers && id.owner == m && expiry <= s.clock + c.ttl
    ensures MutexOk(c, Put(c, s, m, x, id, expiry))
  {
    hide MutexOk;
    if s.clock < expiry && s.mutex.None? {
      MutexGrant(c, s, m, x.(place := Stamping(MASTER)), id, expiry - c.ttl);
    } else {
      MutexLocal(c, s, m, if expiry <= s.clock then Booting(s.clock) else x.(place := Stamping(SECONDARY)));
    }
  }

  lemma MutexRefresh(c: Config, s: State, m: Address, x: Manager, id: LeaseId)
    requires IsConfig(c) && MutexOk(c, s) && m in s.managers && id.owner == m
    ensures MutexOk(c, Refresh(c, s, m, x, id))
  {
    hide MutexOk;
    if IsAlive(s, id) {
      MutexGrant(c, s, m, x.(place := Stamping(MASTER)), id, s.clock);
    } else {
      MutexLocal(c, s, m, x.(place := Stamping(MASTER)));
    }
  }

  lemma MutexAct(c: Config, s: State, m: Address)
    requires IsConfig(c) && MutexOk(c, s) && m in s.managers
    ensures MutexOk(c, ActOf(c, s, m))
  {
    var x := s.managers[m];
    assert PlaceOk(c, s, m, x.place);
    hide MutexOk, Put, Refresh, Checked, RefreshGot;
    match x.place
    case InitPutting(id, expiry) => MutexPut(c, s, m, x, id, expiry);
    case Refreshing(id) => MutexRefresh(c, s, m, x, id);
    case InitGranting => MutexGranting(c, s, m);
    case _ => MutexLocalAct(c, s, m);
  }

  lemma MutexGranting(c: Config, s: State, m: Address)
    requires MutexOk(c, s) && m in s.managers && s.managers[m].place.InitGranting?
    ensures MutexOk(c, ActOf(c, s, m))
  {
    hide MutexOk;
    var y := s.managers[m].(place := InitPutting(LeaseId(m, s.nextNumber), s.clock + c.ttl));
    MutexLocal(c, s, m, y);
    MutexNumber(c, With(s, m, y), s.nextNumber + 1);
  }

  /** The steps that leave etcd as it is. */
  lemma MutexLocalAct(c: Config, s: State, m: Address)
    requires MutexOk(c, s) && m in s.managers
    requires var p := s.managers[m].place; !p.InitPutting? && !p.Refreshing? && !p.InitGranting?
    ensures MutexOk(c, ActOf(c, s, m))
  {
    var x := s.managers[m];
    hide MutexOk, With;
    match x.place
    case Idle => MutexLocal(c, s, m, x.(place := Checking, began := s.clock));
    case Checking => MutexLocal(c, s, m, Checked(c, s, x));
    case InitGetting => MutexLocal(c, s, m, x.(place := if s.mutex.None? then InitGranting else Stamping(SECONDARY)));
    case RefreshGetting => MutexLocal(c, s, m, RefreshGot(s, m, x));
    case Stamping(role) => MutexLocal(c, s, m, x.(role := role, ts := s.clock, place := Ready));
    case Ready => MutexLocal(c, s, m, x.(place := Idle, booting := false));
    case Stopped =>
  }

  lemma MutexNumber(c: Config, s: State, number: nat)
    requires MutexOk(c, s)
    ensures MutexOk(c, s.(nextNumber := number))
  {
    var t := s.(nextNumber := number);
    assert forall a :: HoldsKey(t, a) == HoldsKey(s, a);
    assert forall a, p :: PlaceOk(c, t, a, p) == PlaceOk(c, s, a, p);
  }

  lemma {:induction false} MutexRun(c: Config, s: State, steps: seq<Step>)
    requires IsConfig(c) && MutexOk(c, s)
    ensures MutexOk(c, RunAll(c, s, steps)) && RunAll(c, s, steps).managers.Keys == s.managers.Keys
    decreases steps
  {
    if steps == [] {
    } else {
      MutexStep(c, s, steps[0]);
      SameManagers(c, s, steps[0]);
      hide MutexOk, Apply;
      MutexRun(c, Apply(c, s, steps[0]), steps[1..]);
    }
  }

  lemma SameManagers(c: Config, s: State, step: Step)
    ensures Apply(c, s, step).managers.Keys == s.managers.Keys
  {
  }

  /** In every run, whatever the delays, a manager holds the key exactly when its last grant has
      not run out. */
  lemma HoldsUntilExpiry(c: Config, s: State, steps: seq<Step>, m: Address)
    requires IsConfig(c) && IsInitial(c, s) && m in s.managers
    ensures
      var t := RunAll(c, s, steps);
      m in t.granted && (HoldsKey(t, m) <==> t.clock < t.granted[m] + c.ttl)
  {
    MutexRun(c, s, steps);
  }

  // ---- Prompt runs -------------------------------------------------------------------

  /** What is asked of a run. BOUNDED: a call takes at most `delay`, unless its process dies.
      ALIVE: moreover, a lease that a manager saw is still alive when its refresh arrives.
      ATOMIC: moreover, no time passes between the read and the refresh of `refresh_ttl`. */
  datatype Discipline = BOUNDED | ALIVE | ATOMIC

  predicate InCall(x: Manager) {
    !x.place.Idle? && !x.place.Stopped?
  }

  ghost predicate Follows(k: Discipline, s: State, step: Step, delay: int) {
    match step
    case Tick(d) =>
      && (forall m :: m in s.managers && InCall(s.managers[m]) ==> s.clock + d <= s.managers[m].began + delay)
      && (k == ATOMIC && d > 0 ==> forall m :: m in s.managers ==> !s.managers[m].place.Refreshing?)
    case Act(m) => k == ALIVE && m in s.managers && s.managers[m].place.Refreshing? ==> IsAlive(s, s.managers[m].place.id)
    case _ => true
  }

  ghost predicate AllFollow(k: Discipline, c: Config, s: State, steps: seq<Step>, delay: int)
    decreases steps
  {
    steps == [] || (Follows(k, s, steps[0], delay) && AllFollow(k, c, Apply(c, s, steps[0]), steps[1..], delay))
  }

  /** Calls are shorter than the life of a lease, and a master that does not refresh has time
      for two of them besides its refresh interval. With no interval it always refreshes. */
  predicate IsPrompt(c: Config, delay: int) {
    IsConfig(c) && 0 <= delay < c.ttl && (c.interval == 0 || c.interval + 2 * delay <= c.ttl)
  }

  ghost predicate ManagerOk(c: Config, clock: int, x: Manager, granted: int, delay: int) {
    && granted <= clock
    && (InCall(x) ==> x.began <= clock <= x.began + delay)
    && (x.role.MASTER? ==> x.ts <= clock && x.ts <= granted + delay)
    && (x.place == Stamping(MASTER) ==> x.began <= granted)
    && (x.place.InitGetting? || x.place.InitGranting? || x.place.InitPutting? ==> x.role.INIT?)
    && (x.place.InitPutting? ==> x.began + c.ttl <= x.place.expiry)
    && (x.place.Ready? && x.role.MASTER? ==> x.began + delay < granted + c.ttl)
  }

  ghost predicate AllOk(c: Config, s: State, delay: int) {
    && MutexOk(c, s)
    && forall m :: m in s.managers ==> ManagerOk(c, s.clock, s.managers[m], s.granted[m], delay)
  }

  /** What a step of `try_get_lock` changes: its own manager, and the key. */
  lemma ActFrame(c: Config, s: State, m: Address)
    requires m in s.managers && m in s.granted
    ensures
      var t := ActOf(c, s, m);
      && t.clock == s.clock && t.managers.Keys == s.managers.Keys && t.granted.Keys == s.granted.Keys
      && (forall a :: a in s.managers && a != m ==> t.managers[a] == s.managers[a])
      && (forall a :: a in s.granted && a != m ==> t.granted[a] == s.granted[a])
  {
  }

  lemma PromptAct(c: Config, s: State, m: Address, delay: int)
    requires IsPrompt(c, delay) && AllOk(c, s, delay) && m in s.managers && Follows(ALIVE, s, Act(m), delay)
    ensures m in ActOf(c, s, m).managers && m in ActOf(c, s, m).granted
    ensures ManagerOk(c, s.clock, ActOf(c, s, m).managers[m], ActOf(c, s, m).granted[m], delay)
  {
    var x := s.managers[m];
    assert ManagerOk(c, s.clock, x, s.granted[m], delay) && PlaceOk(c, s, m, x.place) && m in s.granted;
    ActFrame(c, s, m);
    hide AllOk, MutexOk, ManagerOk, Checked, Put, Refresh, IsPrompt;
    match x.place
    case Checking => PromptCheck(c, s, x, s.granted[m], delay);
    case InitPutting(id, expiry) => PromptPut(c, s, m, x, id, expiry, delay);
    case Refreshing(id) => PromptRefresh(c, s, m, x, id, delay);
    case _ => PromptOther(c, s, m, delay);
  }

  lemma PromptOther(c: Config, s: State, m: Address, delay: int)
    requires IsPrompt(c, delay) && m in s.managers && m in s.granted && ManagerOk(c, s.clock, s.managers[m], s.granted[m], delay)
    requires var p := s.managers[m].place; !p.Checking? && !p.InitPutting? && !p.Refreshing?
    ensures m in ActOf(c, s, m).managers && m in ActOf(c, s, m).granted
    ensures ManagerOk(c, s.clock, ActOf(c, s, m).managers[m], ActOf(c, s, m).granted[m], delay)
  {
    hide Checked, Put, Refresh;
  }

  lemma PromptRefresh(c: Config, s: State, m: Address, x: Manager, id: LeaseId, delay: int)
    requires IsPrompt(c, delay) && m in s.granted && x.place == Refreshing(id) && IsAlive(s, id)
    requires ManagerOk(c, s.clock, x, s.granted[m], delay)
    ensures ManagerOk(c, s.clock, Refresh(c, s, m, x, id).managers[m], Refresh(c, s, m, x, id).granted[m], delay)
  {
  }

  lemma PromptPut(c: Config, s: State, m: Address, x: Manager, id: LeaseId, expiry: int, delay: int)
    requires IsPrompt(c, delay) && m in s.granted && x.place == InitPutting(id, expiry)
    requires ManagerOk(c, s.clock, x, s.granted[m], delay) && expiry <= s.clock + c.ttl
    ensures ManagerOk(c, s.clock, Put(c, s, m, x, id, expiry).managers[m], Put(c, s, m, x, id, expiry).granted[m], delay)
  {
  }

  lemma PromptCheck(c: Config, s: State, x: Manager, granted: int, delay: int)
    requires IsPrompt(c, delay) && ManagerOk(c, s.clock, x, granted, delay) && x.place == Checking
    ensures ManagerOk(c, s.clock, Checked(c, s, x), granted, delay)
  {
  }

  lemma PromptStep(c: Config, s: State, step: Step, delay: int)
    requires IsPrompt(c, delay) && AllOk(c, s, delay) && Follows(ALIVE, s, step, delay)
    ensures AllOk(c, Apply(c, s, step), delay)
  {
    MutexStep(c, s, step);
    match step
    case Tick(d) =>
      hide MutexOk;
      var t := Advance(s, d);
      forall m | m in t.managers
        ensures ManagerOk(c, t.clock, t.managers[m], t.granted[m], delay)
      {
        assert ManagerOk(c, s.clock, s.managers[m], s.granted[m], delay);
      }
    case Act(m) =>
      if m in s.managers {
        ActFrame(c, s, m);
        PromptAct(c, s, m, delay);
        hide MutexOk, ActOf, ManagerOk;
      }
    case _ =>
      hide MutexOk;
  }

  lemma InitialOk(c: Config, s: State, delay: int)
    requires IsConfig(c) && delay >= 0 && IsInitial(c, s)
    ensures AllOk(c, s, delay)
  {
  }

  lemma {:induction false} PromptRun(c: Config, s: State, steps: seq<Step>, delay: int)
    requires IsPrompt(c, delay) && AllOk(c, s, delay) && AllFollow(ALIVE, c, s, steps, delay)
    ensures AllOk(c, RunAll(c, s, steps), delay)
    decreases steps
  {
    if steps == [] {
    } else {
      PromptStep(c, s, steps[0], delay);
      PromptRun(c, Apply(c, s, steps[0]), steps[1..], delay);
    }
  }

  /** In every prompt run, a manager about to start a lock-guarded body holds the key. */
  lemma StartHoldsKey(c: Config, s: State, steps: seq<Step>, delay: int, m: Address)
    requires IsPrompt(c, delay) && IsInitial(c, s) && AllFollow(ALIVE, c, s, steps, delay)
    requires Starts(RunAll(c, s, steps), m)
    ensures HoldsKey(RunAll(c, s, steps), m)
  {
    InitialOk(c, s, delay);
    PromptRun(c, s, steps, delay);
    var t := RunAll(c, s, steps);
    assert ManagerOk(c, t.clock, t.managers[m], t.granted[m], delay);
  }

  lemma KeyStep(c: Config, s: State, step: Step)
    requires IsConfig(c)
    ensures Apply(c, s, step).clock >= s.clock
    ensures Apply(c, s, step).clock == s.clock && MutexOk(c, s) && s.mutex.Some? ==>
      MutexOk(c, Apply(c, s, step)) && HoldsKey(Apply(c, s, step), s.mutex.value.id.owner)
  {
    if Apply(c, s, step).clock == s.clock && MutexOk(c, s) && s.mutex.Some? {
      MutexStep(c, s, step);
      AliveStays(c, s, step, s.mutex.value.id);
    }
  }

  /** The clock never goes back, and while it stands the key stays with whom it is. */
  lemma {:induction false} KeyStays(c: Config, s: State, steps: seq<Step>)
    requires IsConfig(c)
    ensures RunAll(c, s, steps).clock >= s.clock
    ensures RunAll(c, s, steps).clock == s.clock && MutexOk(c, s) && s.mutex.Some? ==>
      HoldsKey(RunAll(c, s, steps), s.mutex.value.id.owner)
    decreases steps
  {
    hide MutexOk, Apply;
    if steps == [] {
    } else {
      var t := Apply(c, s, steps[0]);
      KeyStays(c, t, steps[1..]);
      KeyStep(c, s, steps[0]);
    }
  }

  /** No two managers start lock-guarded bodies at the same instant of a prompt run. */
  lemma OneMaster(c: Config, s: State, before: seq<Step>, between: seq<Step>, delay: int, m: Address, m': Address)
    requires IsPrompt(c, delay) && IsInitial(c, s) && AllFollow(ALIVE, c, s, before + between, delay)
    requires Starts(RunAll(c, s, before), m) && Starts(RunAll(c, s, before + between), m')
    requires RunAll(c, s, before).clock == RunAll(c, s, before + between).clock
    ensures m == m'
  {
    SplitRun(ALIVE, c, s, before, between, delay);
    var t := RunAll(c, s, before);
    MutexRun(c, s, before);
    StartHoldsKey(c, s, before, delay, m);
    StartHoldsKey(c, s, before + between, delay, m');
    KeyStays(c, t, between);
  }

  lemma {:induction false} SplitRun(k: Discipline, c: Config, s: State, before: seq<Step>, between: seq<Step>, delay: int)
    ensures RunAll(c, s, before + between) == RunAll(c, RunAll(c, s, before), between)
    ensures AllFollow(k, c, s, before + between, delay)
       <==> AllFollow(k, c, s, before, delay) && AllFollow(k, c, RunAll(c, s, before), between, delay)
    decreases before
  {
    if before == [] {
      assert before + between == between;
    } else {
      assert (before + between)[1..] == before[1..] + between;
      SplitRun(k, c, Apply(c, s, before[0]), before[1..], between, delay);
    }
  }

  // ---- Atomic refreshes --------------------------------------------------------------

  /** Every lease about to be refreshed still holds the key. */
  ghost predicate SeenAlive(s: State) {
    forall m :: m in s.managers && s.managers[m].place.Refreshing? ==> IsAlive(s, s.managers[m].place.id)
  }

  lemma AliveStays(c: Config, s: State, step: Step, id: LeaseId)
    requires IsConfig(c) && MutexOk(c, s) && IsAlive(s, id) && (step.Tick? ==> step.d == 0)
    ensures IsAlive(Apply(c, s, step), id)
  {
    assert HoldsKey(s, id.owner);
  }

  lemma AtomicStep(c: Config, s: State, step: Step, delay: int)
    requires IsConfig(c) && MutexOk(c, s) && SeenAlive(s) && Follows(ATOMIC, s, step, delay)
    ensures Follows(ALIVE, s, step, delay) && SeenAlive(Apply(c, s, step))
  {
    hide MutexOk, IsAlive;
    var t := Apply(c, s, step);
    forall m | m in t.managers && t.managers[m].place.Refreshing?
      ensures IsAlive(t, t.managers[m].place.id)
    {
      var id := t.managers[m].place.id;
      SeenWas(c, s, step, m);
      AliveStays(c, s, step, id);
    }
  }

  /** A lease about to be refreshed was seen alive, before the step or in it. */
  lemma SeenWas(c: Config, s: State, step: Step, m: Address)
    requires SeenAlive(s) && (step.Tick? && step.d > 0 ==> forall a :: a in s.managers ==> !s.managers[a].place.Refreshing?)
    requires var t := Apply(c, s, step); m in t.managers && t.managers[m].place.Refreshing?
    ensures IsAlive(s, Apply(c, s, step).managers[m].place.id) && (step.Tick? ==> step.d == 0)
  {
  }

  lemma {:induction false} AtomicRun(c: Config, s: State, steps: seq<Step>, delay: int)
    requires IsConfig(c) && MutexOk(c, s) && SeenAlive(s) && AllFollow(ATOMIC, c, s, steps, delay)
    ensures AllFollow(ALIVE, c, s, steps, delay)
    decreases steps
  {
    hide MutexOk, SeenAlive, Follows, Apply;
    if steps == [] {
    } else {
      AtomicStep(c, s, steps[0], delay);
      MutexStep(c, s, steps[0]);
      AtomicRun(c, Apply(c, s, steps[0]), steps[1..], delay);
    }
  }

  /** With atomic refreshes, promptness alone is enough. */
  lemma AtomicStartHoldsKey(c: Config, s: State, steps: seq<Step>, delay: int, m: Address)
    requires IsPrompt(c, delay) && IsInitial(c, s) && AllFollow(ATOMIC, c, s, steps, delay)
    requires Starts(RunAll(c, s, steps), m)
    ensures HoldsKey(RunAll(c, s, steps), m)
  {
    InitialOk(c, s, delay);
    AtomicRun(c, s, steps, delay);
    StartHoldsKey(c, s, steps, delay, m);
  }

  /** Calls began in the past. */
  ghost predicate BeganOk(s: State) {
    forall m :: m in s.managers && InCall(s.managers[m]) ==> s.managers[m].began <= s.clock
  }

  lemma BeganStep(c: Config, s: State, step: Step)
    requires BeganOk(s)
    ensures BeganOk(Apply(c, s, step))
  {
  }

  /** If calls take no time at all, refreshes are atomic. */
  lemma {:induction false} InstantRun(c: Config, s: State, steps: seq<Step>)
    requires BeganOk(s) && AllFollow(BOUNDED, c, s, steps, 0)
    ensures AllFollow(ATOMIC, c, s, steps, 0)
    decreases steps
  {
    if steps == [] {
    } else {
      BeganStep(c, s, steps[0]);
      hide Apply;
      InstantRun(c, Apply(c, s, steps[0]), steps[1..]);
    }
  }

  // ---- Exactly when the lock is safe -------------------------------------------------

  /** Whoever starts a guarded body holds the key. */
  ghost predicate IsSafe(k: Discipline, c: Config, delay: int) {
    forall s, steps, m :: IsInitial(c, s) && AllFollow(k, c, s, steps, delay) && Starts(RunAll(c, s, steps), m) ==>
      HoldsKey(RunAll(c, s, steps), m)
  }

  predicate BothStart(s: State, m: Address, m': Address) {
    Starts(s, m) && Starts(s, m')
  }

  /** No two managers are about to start guarded bodies. */
  ghost predicate IsExclusive(k: Discipline, c: Config, delay: int) {
    forall s, steps, m, m' :: IsInitial(c, s) && AllFollow(k, c, s, steps, delay) && BothStart(RunAll(c, s, steps), m, m') ==> m == m'
  }

  lemma SafeIsExclusive(k: Discipline, c: Config, delay: int)
    requires IsSafe(k, c, delay)
    ensures IsExclusive(k, c, delay)
  {
    forall s, steps, m, m' | IsInitial(c, s) && AllFollow(k, c, s, steps, delay) && BothStart(RunAll(c, s, steps), m, m')
      ensures m == m'
    {
      assert HoldsKey(RunAll(c, s, steps), m) && HoldsKey(RunAll(c, s, steps), m');
    }
  }

  /** For every configuration and every bound on the duration of calls: if leases are alive when
      their refresh arrives, or refreshes are atomic, the lock is safe exactly for prompt calls;
      otherwise it is safe exactly for calls that take no time. The same holds for mutual
      exclusion. */
  lemma SafeExactly(c: Config, delay: int)
    requires IsConfig(c) && delay >= 0
    ensures IsSafe(ALIVE, c, delay) <==> IsPrompt(c, delay)
    ensures IsSafe(ATOMIC, c, delay) <==> IsPrompt(c, delay)
    ensures IsSafe(BOUNDED, c, delay) <==> delay == 0
    ensures forall k :: IsSafe(k, c, delay) <==> IsExclusive(k, c, delay)
  {
    TwoMasters(c, delay);
    forall s, steps, m | IsInitial(c, s) && Starts(RunAll(c, s, steps), m)
      ensures IsPrompt(c, delay) && AllFollow(ALIVE, c, s, steps, delay) ==> HoldsKey(RunAll(c, s, steps), m)
      ensures IsPrompt(c, delay) && AllFollow(ATOMIC, c, s, steps, delay) ==> HoldsKey(RunAll(c, s, steps), m)
      ensures delay == 0 && AllFollow(BOUNDED, c, s, steps, delay) ==> HoldsKey(RunAll(c, s, steps), m)
    {
      SafeRun(c, s, steps, delay, m);
    }
    hide AllFollow, RunAll, Starts, HoldsKey, IsInitial, IsExclusive;
    forall k | IsSafe(k, c, delay)
      ensures IsExclusive(k, c, delay)
    {
      SafeIsExclusive(k, c, delay);
    }
    forall k | IsExclusive(k, c, delay)
      ensures IsSafe(k, c, delay)
    {
      match k
      case BOUNDED =>
      case ALIVE =>
      case ATOMIC =>
    }
  }

  lemma SafeRun(c: Config, s: State, steps: seq<Step>, delay: int, m: Address)
    requires IsConfig(c) && IsInitial(c, s) && Starts(RunAll(c, s, steps), m)
    ensures IsPrompt(c, delay) && AllFollow(ALIVE, c, s, steps, delay) ==> HoldsKey(RunAll(c, s, steps), m)
    ensures IsPrompt(c, delay) && AllFollow(ATOMIC, c, s, steps, delay) ==> HoldsKey(RunAll(c, s, steps), m)
    ensures delay == 0 && AllFollow(BOUNDED, c, s, steps, delay) ==> HoldsKey(RunAll(c, s, steps), m)
  {
    if delay == 0 && AllFollow(BOUNDED, c, s, steps, delay) { InstantRun(c, s, steps); }
    if IsPrompt(c, delay) && AllFollow(ATOMIC, c, s, steps, delay) { AtomicStartHoldsKey(c, s, steps, delay, m); }
    if IsPrompt(c, delay) && AllFollow(ALIVE, c, s, steps, delay) { StartHoldsKey(c, s, steps, delay, m); }
  }

  /** Otherwise there are runs with two masters. */
  lemma TwoMasters(c: Config, delay: int)
    requires IsConfig(c) && delay >= 0
    ensures IsExclusive(ALIVE, c, delay) ==> IsPrompt(c, delay)
    ensures IsExclusive(ATOMIC, c, delay) ==> IsPrompt(c, delay)
    ensures IsExclusive(BOUNDED, c, delay) ==> delay == 0
  {
    if !IsPrompt(c, delay) {
      var s, steps := SlowStart(c, delay);
      assert BothStart(RunAll(c, s, steps), 1, 2);
      InitialOk(c, s, delay);
      AtomicRun(c, s, steps, delay);
      assert AllFollow(BOUNDED, c, s, steps, delay) by { AtomicIsBounded(c, s, steps, delay); }
      assert !IsExclusive(ATOMIC, c, delay) && !IsExclusive(ALIVE, c, delay) && !IsExclusive(BOUNDED, c, delay);
    } else if delay > 0 {
      var s, steps := LapsedRefresh(c, delay);
      assert BothStart(RunAll(c, s, steps), 1, 2);
      assert !IsExclusive(BOUNDED, c, delay);
    }
  }

  lemma {:induction false} AtomicIsBounded(c: Config, s: State, steps: seq<Step>, delay: int)
    requires AllFollow(ATOMIC, c, s, steps, delay)
    ensures AllFollow(BOUNDED, c, s, steps, delay)
    decreases steps
  {
    hide Apply;
    if steps == [] {
    } else {
      AtomicIsBounded(c, Apply(c, s, steps[0]), steps[1..], delay);
    }
  }

  // ---- Runs with two masters ---------------------------------------------------------

  /** A run so far, and its last state. */
  ghost predicate Reaches(k: Discipline, c: Config, delay: int, s0: State, steps: seq<Step>, s: State) {
    RunAll(c, s0, steps) == s && AllFollow(k, c, s0, steps, delay)
  }

  lemma Go(k: Discipline, c: Config, delay: int, s0: State, before: seq<Step>, s: State, step: Step) returns (steps: seq<Step>, t: State)
    requires Reaches(k, c, delay, s0, before, s) && Follows(k, s, step, delay)
    ensures t == Apply(c, s, step) && Reaches(k, c, delay, s0, steps, t)
  {
    hide Apply, Follows;
    steps, t := before + [step], Apply(c, s, step);
    SplitRun(k, c, s0, before, [step], delay);
    assert [step][1..] == [];
    assert RunAll(c, t, []) == t && AllFollow(k, c, t, [], delay);
  }

  /** A step of one manager that changes nothing else. */
  lemma GoTo(k: Discipline, c: Config, delay: int, s0: State, before: seq<Step>, s: State, m: Address, x: Manager)
    returns (steps: seq<Step>, t: State)
    requires Reaches(k, c, delay, s0, before, s) && k != ALIVE && m in s.managers && ActOf(c, s, m) == With(s, m, x)
    ensures t == With(s, m, x) && Reaches(k, c, delay, s0, steps, t)
  {
    hide ActOf, Reaches;
    steps, t := Go(k, c, delay, s0, before, s, Act(m));
  }

  /** The steps by which a manager in role INIT acquires an absent key. */
  lemma Acquires(k: Discipline, c: Config, delay: int, s0: State, before: seq<Step>, s: State, m: Address, x: Manager)
    returns (steps: seq<Step>, t: State)
    requires IsConfig(c) && Reaches(k, c, delay, s0, before, s) && k != ALIVE && s.mutex.None? && m in s.managers
    requires s.managers[m] == x && x.role == INIT && x.place == Checking
    ensures Reaches(k, c, delay, s0, steps, t) && t.clock == s.clock && t.nextNumber == s.nextNumber + 1
    ensures t.mutex == Some(Mutex(LeaseId(m, s.nextNumber), s.clock + c.ttl))
    ensures t.managers == s.managers[m := x.(place := Stamping(MASTER))]
  {
    hide Reaches;
    steps, t := GoTo(k, c, delay, s0, before, s, m, x.(place := InitGetting));
    steps, t := GoTo(k, c, delay, s0, steps, t, m, x.(place := InitGranting));
    steps, t := Go(k, c, delay, s0, steps, t, Act(m));
    assert t.managers[m] == x.(place := InitPutting(LeaseId(m, s.nextNumber), s.clock + c.ttl)) && t.mutex.None?;
    steps, t := Go(k, c, delay, s0, steps, t, Act(m));
  }

  /** Two managers boot. The first acquires the key at time zero and notes it at time `lag`; the
      second finds the key taken. */
  lemma Boot(k: Discipline, c: Config, delay: int, lag: nat) returns (s0: State, steps: seq<Step>, s: State)
    requires IsConfig(c) && k != ALIVE && lag <= delay && lag < c.ttl
    ensures IsInitial(c, s0) && Reaches(k, c, delay, s0, steps, s) && s.clock == lag
    ensures s.mutex == Some(Mutex(LeaseId(1, 0), c.ttl))
    ensures s.managers == map[1 := Manager(MASTER, lag, Idle, 0, false), 2 := Manager(SECONDARY, 0, Idle, 0, false)]
  {
    s0, steps, s := BootFirst(k, c, delay);
    hide Reaches;
    steps, s := BootSecond(k, c, delay, s0, steps, s);
    steps, s := Go(k, c, delay, s0, steps, s, Tick(lag));
    steps, s := NotesGrant(k, c, delay, s0, steps, s);
  }

  lemma NotesGrant(k: Discipline, c: Config, delay: int, s0: State, before: seq<Step>, s: State) returns (steps: seq<Step>, t: State)
    requires Reaches(k, c, delay, s0, before, s) && k != ALIVE
    requires 1 in s.managers && s.managers[1] == Manager(INIT, 0, Stamping(MASTER), 0, true)
    ensures Reaches(k, c, delay, s0, steps, t) && t == With(s, 1, Manager(MASTER, s.clock, Idle, 0, false))
  {
    hide Reaches;
    steps, t := GoTo(k, c, delay, s0, before, s, 1, Manager(MASTER, s.clock, Ready, 0, true));
    steps, t := GoTo(k, c, delay, s0, steps, t, 1, Manager(MASTER, s.clock, Idle, 0, false));
  }

  lemma BootFirst(k: Discipline, c: Config, delay: int) returns (s0: State, steps: seq<Step>, s: State)
    requires IsConfig(c) && k != ALIVE
    ensures IsInitial(c, s0) && Reaches(k, c, delay, s0, steps, s) && s.clock == 0
    ensures s.mutex == Some(Mutex(LeaseId(1, 0), c.ttl))
    ensures s.managers == map[1 := Manager(INIT, 0, Stamping(MASTER), 0, true), 2 := Booting(0)]
  {
    s0 := State(0, None, 0, map[1 := Booting(0), 2 := Booting(0)], map[1 := -c.ttl, 2 := -c.ttl]);
    assert Reaches(k, c, delay, s0, [], s0);
    hide Reaches;
    steps, s := GoTo(k, c, delay, s0, [], s0, 1, Manager(INIT, 0, Checking, 0, true));
    steps, s := Acquires(k, c, delay, s0, steps, s, 1, Manager(INIT, 0, Checking, 0, true));
  }

  lemma BootSecond(k: Discipline, c: Config, delay: int, s0: State, before: seq<Step>, s: State) returns (steps: seq<Step>, t: State)
    requires Reaches(k, c, delay, s0, before, s) && k != ALIVE && s.clock == 0
    requires 2 in s.managers && s.managers[2] == Booting(0) && s.mutex.Some? && s.mutex.value.id.owner == 1
    ensures Reaches(k, c, delay, s0, steps, t) && t == With(s, 2, Manager(SECONDARY, 0, Idle, 0, false))
  {
    hide Reaches;
    steps, t := GoTo(k, c, delay, s0, before, s, 2, Manager(INIT, 0, Stamping(SECONDARY), 0, true));
    steps, t := GoTo(k, c, delay, s0, steps, t, 2, Manager(SECONDARY, 0, Ready, 0, true));
    steps, t := GoTo(k, c, delay, s0, steps, t, 2, Manager(SECONDARY, 0, Idle, 0, false));
  }

  /** When the key has lapsed, the second manager takes it and is ready to start. */
  lemma SecondTakesOver(k: Discipline, c: Config, delay: int, s0: State, before: seq<Step>, s: State) returns (steps: seq<Step>, t: State)
    requires IsConfig(c) && Reaches(k, c, delay, s0, before, s) && k != ALIVE && s.clock >= c.ttl && s.mutex.None?
    requires 2 in s.managers && s.managers[2] == Manager(SECONDARY, 0, Idle, 0, false)
    ensures Reaches(k, c, delay, s0, steps, t) && t.clock == s.clock && HoldsKey(t, 2)
    ensures t.managers == s.managers[2 := Manager(MASTER, s.clock, Ready, s.clock, false)]
  {
    hide Reaches;
    steps, t := GoTo(k, c, delay, s0, before, s, 2, Manager(SECONDARY, 0, Checking, s.clock, false));
    steps, t := GoTo(k, c, delay, s0, steps, t, 2, Manager(INIT, 0, Checking, s.clock, false));
    steps, t := Acquires(k, c, delay, s0, steps, t, 2, Manager(INIT, 0, Checking, s.clock, false));
    steps, t := GoTo(k, c, delay, s0, steps, t, 2, Manager(MASTER, s.clock, Ready, s.clock, false));
  }

  /** A master whose interval is over reads its key. */
  lemma ReadsKey(k: Discipline, c: Config, delay: int, s0: State, before: seq<Step>, s: State) returns (steps: seq<Step>, t: State)
    requires Reaches(k, c, delay, s0, before, s) && k != ALIVE && s.clock >= c.interval
    requires s.mutex.Some? && s.mutex.value.id == LeaseId(1, 0)
    requires 1 in s.managers && s.managers[1] == Manager(MASTER, 0, Idle, 0, false)
    ensures Reaches(k, c, delay, s0, steps, t)
    ensures t == With(s, 1, Manager(MASTER, 0, Refreshing(LeaseId(1, 0)), s.clock, false))
  {
    hide Reaches;
    steps, t := GoTo(k, c, delay, s0, before, s, 1, Manager(MASTER, 0, Checking, s.clock, false));
    steps, t := GoTo(k, c, delay, s0, steps, t, 1, Manager(MASTER, 0, RefreshGetting, s.clock, false));
    steps, t := GoTo(k, c, delay, s0, steps, t, 1, Manager(MASTER, 0, Refreshing(LeaseId(1, 0)), s.clock, false));
  }

  /** The master is ready to start and its key has lapsed. */
  lemma SlowMaster(c: Config, delay: int) returns (s0: State, steps: seq<Step>, s: State)
    requires IsConfig(c) && delay >= 0 && !IsPrompt(c, delay)
    ensures IsInitial(c, s0) && Reaches(ATOMIC, c, delay, s0, steps, s) && s.clock >= c.ttl && s.mutex.None?
    ensures 1 in s.managers && s.managers[1].role == MASTER && s.managers[1].place == Ready && !s.managers[1].booting
    ensures 2 in s.managers && s.managers[2] == Manager(SECONDARY, 0, Idle, 0, false)
  {
    if delay >= c.ttl && c.interval == 0 {
      s0, steps, s := Boot(ATOMIC, c, delay, 0);
      hide Reaches;
      steps, s := ReadsKey(ATOMIC, c, delay, s0, steps, s);
      steps, s := Go(ATOMIC, c, delay, s0, steps, s, Act(1));
      steps, s := GoTo(ATOMIC, c, delay, s0, steps, s, 1, Manager(MASTER, 0, Ready, 0, false));
      steps, s := Go(ATOMIC, c, delay, s0, steps, s, Tick(c.ttl));
    } else {
      s0, steps, s := SlowCheck(c, delay);
    }
  }

  /** A master that noted its grant late checks just before its next refresh and starts late. */
  lemma SlowCheck(c: Config, delay: int) returns (s0: State, steps: seq<Step>, s: State)
    requires IsConfig(c) && delay >= 0 && c.interval > 0 && c.interval + 2 * delay > c.ttl
    ensures IsInitial(c, s0) && Reaches(ATOMIC, c, delay, s0, steps, s) && s.clock >= c.ttl && s.mutex.None?
    ensures 1 in s.managers && s.managers[1].role == MASTER && s.managers[1].place == Ready && !s.managers[1].booting
    ensures 2 in s.managers && s.managers[2] == Manager(SECONDARY, 0, Idle, 0, false)
  {
    var lag := if delay < c.ttl then delay else 0;
    s0, steps, s := Boot(ATOMIC, c, delay, lag);
    hide Reaches;
    steps, s := Go(ATOMIC, c, delay, s0, steps, s, Tick(c.interval - 1));
    steps, s := ChecksEarly(c, delay, s0, steps, s, lag);
    steps, s := Go(ATOMIC, c, delay, s0, steps, s, Tick(delay));
  }

  /** A master whose interval is not over gets ready without a refresh. */
  lemma ChecksEarly(c: Config, delay: int, s0: State, before: seq<Step>, s: State, ts: int) returns (steps: seq<Step>, t: State)
    requires Reaches(ATOMIC, c, delay, s0, before, s) && s.clock < ts + c.interval
    requires 1 in s.managers && s.managers[1] == Manager(MASTER, ts, Idle, 0, false)
    ensures Reaches(ATOMIC, c, delay, s0, steps, t) && t == With(s, 1, Manager(MASTER, ts, Ready, s.clock, false))
  {
    hide Reaches;
    steps, t := GoTo(ATOMIC, c, delay, s0, before, s, 1, Manager(MASTER, ts, Checking, s.clock, false));
    steps, t := GoTo(ATOMIC, c, delay, s0, steps, t, 1, Manager(MASTER, ts, Ready, s.clock, false));
  }

  /** Whenever calls are not prompt, two managers can be about to start at the same instant. */
  lemma SlowStart(c: Config, delay: int) returns (s0: State, steps: seq<Step>)
    requires IsConfig(c) && delay >= 0 && !IsPrompt(c, delay)
    ensures IsInitial(c, s0) && AllFollow(ATOMIC, c, s0, steps, delay)
    ensures Starts(RunAll(c, s0, steps), 1) && Starts(RunAll(c, s0, steps), 2) && !HoldsKey(RunAll(c, s0, steps), 1)
  {
    var s;
    s0, steps, s := SlowMaster(c, delay);
    steps, s := SecondTakesOver(ATOMIC, c, delay, s0, steps, s);
  }

  /** A master has read its key, which has lapsed since. */
  lemma Lapse(c: Config, delay: int) returns (s0: State, steps: seq<Step>, s: State)
    requires IsPrompt(c, delay) && delay > 0
    ensures IsInitial(c, s0) && Reaches(BOUNDED, c, delay, s0, steps, s) && s.clock == c.ttl && s.mutex.None?
    ensures s.managers == map[1 := Manager(MASTER, 0, Refreshing(LeaseId(1, 0)), c.ttl - 1, false),
                              2 := Manager(SECONDARY, 0, Idle, 0, false)]
  {
    var now := c.ttl - 1;
    s0, steps, s := Boot(BOUNDED, c, delay, 0);
    hide Reaches;
    steps, s := Go(BOUNDED, c, delay, s0, steps, s, Tick(now));
    steps, s := ReadsKey(BOUNDED, c, delay, s0, steps, s);
    steps, s := Go(BOUNDED, c, delay, s0, steps, s, Tick(1));
  }

  /** However prompt calls are, if they take any time at all: a lease that lapses between the read
      and the refresh is refreshed in vain, and leaves two managers about to start. */
  lemma LapsedRefresh(c: Config, delay: int) returns (s0: State, steps: seq<Step>)
    requires IsPrompt(c, delay) && delay > 0
    ensures IsInitial(c, s0) && AllFollow(BOUNDED, c, s0, steps, delay)
    ensures Starts(RunAll(c, s0, steps), 1) && Starts(RunAll(c, s0, steps), 2) && !HoldsKey(RunAll(c, s0, steps), 1)
  {
    var s;
    var now := c.ttl - 1;
    s0, steps, s := Lapse(c, delay);
    steps, s := SecondTakesOver(BOUNDED, c, delay, s0, steps, s);
    steps, s := GoTo(BOUNDED, c, delay, s0, steps, s, 1, Manager(MASTER, 0, Stamping(MASTER), now, false));
    steps, s := GoTo(BOUNDED, c, delay, s0, steps, s, 1, Manager(MASTER, c.ttl, Ready, now, false));
  }
}
