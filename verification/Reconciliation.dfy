/**
One pass of a cluster manager over the listed tables: set the rules that are missing or do not
match, remove the rules of no table. The pass works from a snapshot of the rules. Each write is
guarded by the cluster lock, and left out when the lock is refused; before each guarded call
other managers may have written to PD.
*/
module Reconciliation {
  import opened PlacementRules
  import opened Sets
  import opened Words

  // ---- Guarded calls -----------------------------------------------------------------

  datatype Call = Writing(write: Write) | Reporting(id: Int64)

  /** The rules after a guarded call: other managers write `ws` first, and the call writes only
      with the lock. */
  function AfterCall(rules: Rules, ws: seq<Write>, call: Call, isMaster: bool): Rules {
    var now := WrittenAll(rules, ws);
    if call.Writing? && isMaster then Written(now, call.write) else now
  }

  /** The rules after all guarded calls of a pass. `isMaster(c)` is the outcome of the lock for
      call `c`, and `others(c)` is what other managers write since the call before. */
  ghost function Evolved(rules: Rules, calls: seq<Call>, isMaster: nat -> bool, others: nat -> seq<Write>): Rules
    decreases |calls|
  {
    if calls == [] then rules
    else
      var n := |calls| - 1;
      AfterCall(Evolved(rules, calls[..n], isMaster, others), others(n), calls[n], isMaster(n))
  }

  /** The lock guards one call. */
  method Guard(pd: PlacementDriver, call: Call, isMaster: bool, ws: seq<Write>)
    requires pd.Valid()
    modifies pd
    ensures pd.Valid() && pd.rules == AfterCall(old(pd.rules), ws, call, isMaster)
  {
    Interfere(pd, ws);
    if isMaster {
      match call
      case Writing(Set(rule)) => pd.SetRule(rule);
      case Writing(Remove(id)) => pd.RemoveRule(id);
      case Reporting(_) =>
    }
  }

  /** Writes of other managers. */
  method Interfere(pd: PlacementDriver, ws: seq<Write>)
    requires pd.Valid()
    modifies pd
    ensures pd.Valid() && pd.rules == WrittenAll(old(pd.rules), ws)
  {
    for i := 0 to |ws|
      invariant pd.Valid() && WrittenAll(pd.rules, ws[i..]) == WrittenAll(old(pd.rules), ws)
    {
      assert ws[i..][1..] == ws[i + 1..];
      match ws[i]
      case Set(rule) => pd.SetRule(rule);
      case Remove(id) => pd.RemoveRule(id);
    }
  }

  // ---- The calls of a pass -----------------------------------------------------------

  /** The calls for the listed tables, when `left` is what is left of the snapshot. */
  function SetCalls(left: Rules, tables: seq<Table>): seq<Call>
    decreases tables
  {
    if tables == [] then []
    else TableCalls(left, tables[0]) + SetCalls(left - {RuleId(tables[0])}, tables[1..])
  }

  function TableCalls(left: Rules, t: Table): seq<Call> {
    (if HasRule(left, t) then [] else [Writing(Set(MakeRule(t)))]) + (if t.available then [] else [Reporting(t.id)])
  }

  function RemoveCalls(ids: seq<string>): seq<Call> {
    if ids == [] then [] else RemoveCalls(ids[..|ids| - 1]) + [Writing(Remove(ids[|ids| - 1]))]
  }

  ghost predicate Enumerates(ids: seq<string>, s: set<string>) {
    && (forall i, j :: 0 <= i < j < |ids| ==> ids[i] != ids[j])
    && (forall id :: id in ids <==> id in s)
  }

  /** The calls of a pass: they depend on the snapshot and the tables only. The rules of no table
      are removed in any order. */
  ghost predicate IsPass(calls: seq<Call>, snapshot: Rules, tables: seq<Table>) {
    exists ids :: Enumerates(ids, snapshot.Keys - RuleIds(tables)) && calls == SetCalls(snapshot, tables) + RemoveCalls(ids)
  }

  ghost predicate AllProper(calls: seq<Call>, tables: seq<Table>) {
    forall c :: 0 <= c < |calls| && calls[c].Writing? ==> IsProper(calls[c].write, tables)
  }

  function Writes(calls: seq<Call>): seq<Write> {
    if calls == [] then []
    else
      var n := |calls| - 1;
      Writes(calls[..n]) + (if calls[n].Writing? then [calls[n].write] else [])
  }

  /** The tables that are reported on, in order. */
  function Reports(calls: seq<Call>): seq<Int64> {
    if calls == [] then []
    else (if calls[0].Reporting? then [calls[0].id] else []) + Reports(calls[1..])
  }

  function Unavailable(tables: seq<Table>): seq<Int64> {
    if tables == [] then [] else (if tables[0].available then [] else [tables[0].id]) + Unavailable(tables[1..])
  }

  ghost function Targets(calls: seq<Call>): set<string> {
    if calls == [] then {}
    else
      var n := |calls| - 1;
      Targets(calls[..n]) + (if calls[n].Writing? then {Target(calls[n].write)} else {})
  }

  /** The targets of the writes that the lock allowed. */
  ghost function Done(calls: seq<Call>, isMaster: nat -> bool): set<string> {
    if calls == [] then {}
    else
      var n := |calls| - 1;
      Done(calls[..n], isMaster) + (if calls[n].Writing? && isMaster(n) then {Target(calls[n].write)} else {})
  }

  ghost predicate AllAllowed(calls: seq<Call>, isMaster: nat -> bool) {
    forall c :: 0 <= c < |calls| && calls[c].Writing? ==> isMaster(c)
  }

  /** The manager has the lock for every guarded call. */
  ghost predicate Stayed(isMaster: nat -> bool, n: nat) {
    forall c :: 0 <= c < n ==> isMaster(c)
  }

  ghost predicate Alone(others: nat -> seq<Write>, n: nat) {
    forall c :: 0 <= c < n ==> others(c) == []
  }

  ghost predicate OthersProper(others: nat -> seq<Write>, n: nat, tables: seq<Table>) {
    forall c, w :: 0 <= c < n && w in others(c) ==> IsProper(w, tables)
  }

  // ---- Calls and rules ---------------------------------------------------------------

  lemma {:induction false} CallsAppend(a: seq<Call>, b: seq<Call>)
    ensures Targets(a + b) == Targets(a) + Targets(b)
    ensures Writes(a + b) == Writes(a) + Writes(b)
  {
    if b == [] {
      assert a + b == a;
    } else {
      var n := |b| - 1;
      assert (a + b)[..|a| + n] == a + b[..n];
      CallsAppend(a, b[..n]);
    }
  }

  /** Every write of a pass is for a listed table or against a rule of none. */
  lemma {:induction false} SetCallsProper(left: Rules, tables: seq<Table>, all: seq<Table>)
    requires forall i :: 0 <= i < |tables| ==> tables[i] in all
    ensures AllProper(SetCalls(left, tables), all)
    decreases tables
  {
    hide RuleId, Matches, MakeRule;
    if tables == [] {
    } else {
      var t := tables[0];
      assert t in all;
      var k :| 0 <= k < |all| && all[k] == t;
      assert IsProper(Set(MakeRule(t)), all);
      SetCallsProper(left - {RuleId(t)}, tables[1..], all);
    }
  }

  lemma {:induction false} RemoveCallsProper(ids: seq<string>, tables: seq<Table>)
    requires forall id :: id in ids ==> id !in RuleIds(tables)
    ensures AllProper(RemoveCalls(ids), tables)
  {
    hide RuleIds;
    if ids == [] {
    } else {
      RemoveCallsProper(ids[..|ids| - 1], tables);
    }
  }

  lemma PassIsProper(calls: seq<Call>, snapshot: Rules, tables: seq<Table>)
    requires IsPass(calls, snapshot, tables)
    ensures AllProper(calls, tables)
  {
    hide SetCalls, RemoveCalls, IsProper, RuleIds;
    var ids :| Enumerates(ids, snapshot.Keys - RuleIds(tables)) && calls == SetCalls(snapshot, tables) + RemoveCalls(ids);
    SetCallsProper(snapshot, tables, tables);
    RemoveCallsProper(ids, tables);
  }

  /** What a pass does to the rules, with other managers passing over the same tables: whatever
      the lock allowed is right at the end, and nothing that was right becomes wrong. With no
      other manager, what is left wrong is exactly what the lock refused. */
  lemma {:induction false} EvolvedMends(rules: Rules, calls: seq<Call>, isMaster: nat -> bool, others: nat -> seq<Write>,
                                        tables: seq<Table>)
    requires DistinctIds(tables) && AllProper(calls, tables) && OthersProper(others, |calls|, tables)
    ensures Wrong(Evolved(rules, calls, isMaster, others), tables) <= Wrong(rules, tables) - Done(calls, isMaster)
    ensures Alone(others, |calls|) ==>
              Wrong(Evolved(rules, calls, isMaster, others), tables) == Wrong(rules, tables) - Done(calls, isMaster)
    decreases |calls|
  {
    hide Wrong, IsProper, Written, DistinctIds;
    if calls == [] {
    } else {
      var n := |calls| - 1;
      EvolvedMends(rules, calls[..n], isMaster, others, tables);
      var before := Evolved(rules, calls[..n], isMaster, others);
      ProperNeverHarms(before, others(n), tables);
      if calls[n].Writing? {
        ProperMends(WrittenAll(before, others(n)), calls[n].write, tables);
      }
    }
  }

  // ---- One call for each wrong rule --------------------------------------------------

  /** The rules of the listed tables that are missing or do not match. */
  ghost function Missing(rules: Rules, tables: seq<Table>): set<string> {
    set i | 0 <= i < |tables| && !HasRule(rules, tables[i]) :: RuleId(tables[i])
  }

  lemma TableCallsAre(left: Rules, t: Table)
    ensures Writes(TableCalls(left, t)) == if HasRule(left, t) then [] else [Set(MakeRule(t))]
    ensures Targets(TableCalls(left, t)) == if HasRule(left, t) then {} else {RuleId(t)}
  {
    MadeRuleMatches(t);
    hide RuleId, Matches, MakeRule;
    var a, b := if HasRule(left, t) then [] else [Writing(Set(MakeRule(t)))], if t.available then [] else [Reporting(t.id)];
    CallsAppend(a, b);
    OneCall(Writing(Set(MakeRule(t))));
    OneCall(Reporting(t.id));
  }

  lemma OneCall(call: Call)
    ensures Writes([call]) == if call.Writing? then [call.write] else []
    ensures Targets([call]) == if call.Writing? then {Target(call.write)} else {}
  {
    assert [call][..0] == [];
    assert Writes([]) == [] && Targets([]) == {};
  }

  /** Taking the rule of the first table out changes nothing for tables with other ids. */
  lemma HasRuleLeft(left: Rules, t: Table, u: Table)
    ensures HasRule(left - {RuleId(t)}, u) <==> HasRule(left, u) && u.id != t.id
  {
    hide RuleId, Matches;
    RuleIdInjective(t, u);
  }

  lemma MissingStep(left: Rules, tables: seq<Table>)
    requires tables != [] && DistinctIds(tables)
    ensures
      var id := RuleId(tables[0]);
      var later := Missing(left - {id}, tables[1..]);
      && id !in later
      && Missing(left, tables) == later + (if HasRule(left, tables[0]) then {} else {id})
  {
    hide HasRule, RuleId;
    var t, later := tables[0], Missing(left - {RuleId(tables[0])}, tables[1..]);
    forall i | 1 <= i < |tables|
      ensures HasRule(left - {RuleId(t)}, tables[i]) == HasRule(left, tables[i]) && RuleId(tables[i]) != RuleId(t)
      ensures tables[i] == tables[1..][i - 1]
    {
      HasRuleLeft(left, t, tables[i]);
      RuleIdInjective(t, tables[i]);
    }
    forall id | id in Missing(left, tables) && id != RuleId(t)
      ensures id in later
    {
      var i :| 0 <= i < |tables| && !HasRule(left, tables[i]) && RuleId(tables[i]) == id;
      assert tables[1..][i - 1] == tables[i];
    }
    assert forall i :: 0 <= i < |tables| - 1 ==> tables[1..][i] == tables[i + 1];
  }

  lemma {:induction false} SetCallsTargets(left: Rules, tables: seq<Table>)
    requires DistinctIds(tables)
    ensures Targets(SetCalls(left, tables)) == Missing(left, tables)
    ensures |Writes(SetCalls(left, tables))| == |Missing(left, tables)|
    decreases tables
  {
    hide Missing, HasRule, RuleId, TableCalls, MakeRule;
    if tables == [] {
      NoneMissing(left);
    } else {
      var t, rest := tables[0], left - {RuleId(tables[0])};
      TableCallsAre(left, t);
      CallsAppend(TableCalls(left, t), SetCalls(rest, tables[1..]));
      SetCallsTargets(rest, tables[1..]);
      MissingStep(left, tables);
    }
  }

  lemma NoneMissing(left: Rules)
    ensures Missing(left, []) == {} && Targets([]) == {} && Writes([]) == []
  {
  }

  lemma {:induction false} RemoveCallsTargets(ids: seq<string>)
    ensures Targets(RemoveCalls(ids)) == set id | id in ids
    ensures |Writes(RemoveCalls(ids))| == |ids|
  {
    if ids == [] {
    } else {
      var n := |ids| - 1;
      RemoveCallsTargets(ids[..n]);
      var calls := RemoveCalls(ids);
      assert calls[..|calls| - 1] == RemoveCalls(ids[..n]);
      assert ids == ids[..n] + [ids[n]];
    }
  }

  lemma {:induction false} EnumerationSize(ids: seq<string>, s: set<string>)
    requires Enumerates(ids, s)
    ensures |ids| == |s|
  {
    if ids == [] {
      assert s == {};
    } else {
      var n := |ids| - 1;
      assert forall id :: id in ids <==> id in ids[..n] || id == ids[n];
      EnumerationSize(ids[..n], s - {ids[n]});
    }
  }

  lemma WrongIs(rules: Rules, tables: seq<Table>)
    ensures Wrong(rules, tables) == Missing(rules, tables) + (rules.Keys - RuleIds(tables))
    ensures Missing(rules, tables) <= RuleIds(tables)
  {
    hide HasRule, RuleId;
    forall i | 0 <= i < |tables|
      ensures RuleId(tables[i]) in RuleIds(tables)
    {
    }
  }

  /** A pass asks for exactly one write for each rule that is wrong in the snapshot. */
  lemma PassTargets(calls: seq<Call>, snapshot: Rules, tables: seq<Table>)
    requires IsPass(calls, snapshot, tables) && DistinctIds(tables)
    ensures Targets(calls) == Wrong(snapshot, tables) && |Writes(calls)| == |Wrong(snapshot, tables)|
  {
    hide Wrong, Missing, SetCalls, RemoveCalls, RuleIds, DistinctIds, Targets, Writes;
    var others := snapshot.Keys - RuleIds(tables);
    var ids :| Enumerates(ids, others) && calls == SetCalls(snapshot, tables) + RemoveCalls(ids);
    CallsAppend(SetCalls(snapshot, tables), RemoveCalls(ids));
    SetCallsTargets(snapshot, tables);
    RemovalTargets(ids, others);
    WrongIs(snapshot, tables);
    assert Missing(snapshot, tables) !! others;
  }

  lemma RemovalTargets(ids: seq<string>, s: set<string>)
    requires Enumerates(ids, s)
    ensures Targets(RemoveCalls(ids)) == s && |Writes(RemoveCalls(ids))| == |s|
  {
    hide Targets, Writes, RemoveCalls;
    RemoveCallsTargets(ids);
    EnumerationSize(ids, s);
  }

  // ---- When a pass ends in sync ------------------------------------------------------

  /** Every refused write takes one from what was done. */
  lemma {:induction false} DoneSize(calls: seq<Call>, isMaster: nat -> bool)
    ensures Done(calls, isMaster) <= Targets(calls) && |Done(calls, isMaster)| <= |Writes(calls)|
    ensures if AllAllowed(calls, isMaster) then Done(calls, isMaster) == Targets(calls)
            else |Done(calls, isMaster)| < |Writes(calls)|
    decreases |calls|
  {
    if calls == [] {
    } else {
      var n := |calls| - 1;
      DoneSize(calls[..n], isMaster);
      assert AllAllowed(calls, isMaster) <==> AllAllowed(calls[..n], isMaster) && (calls[n].Writing? ==> isMaster(n)) by {
        assert forall c :: 0 <= c < n ==> calls[..n][c] == calls[c];
      }
    }
  }

  /** A pass over distinct tables. With other managers passing over the same tables, it ends in
      sync if the lock allowed all its writes; alone, it ends in sync only then. */
  lemma PassResult(calls: seq<Call>, snapshot: Rules, isMaster: nat -> bool, others: nat -> seq<Write>, tables: seq<Table>)
    requires IsPass(calls, snapshot, tables) && DistinctIds(tables) && OthersProper(others, |calls|, tables)
    ensures
      var end := Evolved(snapshot, calls, isMaster, others);
      && Wrong(end, tables) <= Wrong(snapshot, tables) - Done(calls, isMaster)
      && (AllAllowed(calls, isMaster) ==> InSync(end, tables))
      && (Alone(others, |calls|) ==> Wrong(end, tables) == Wrong(snapshot, tables) - Done(calls, isMaster))
      && (Alone(others, |calls|) ==> (InSync(end, tables) <==> AllAllowed(calls, isMaster)))
  {
    hide Wrong, IsPass, InSync, DistinctIds, Evolved, Done, AllAllowed, OthersProper, Alone, Targets, Writes;
    var end := Evolved(snapshot, calls, isMaster, others);
    PassIsProper(calls, snapshot, tables);
    PassTargets(calls, snapshot, tables);
    EvolvedMends(snapshot, calls, isMaster, others, tables);
    InSyncMeansNoneWrong(end, tables);
    DoneSize(calls, isMaster);
    if Wrong(snapshot, tables) - Done(calls, isMaster) == {} {
      NothingLeft(Wrong(snapshot, tables), Done(calls, isMaster));
      assert Done(calls, isMaster) == Targets(calls);
    }
  }

  lemma {:induction false} AvailableCalls(left: Rules, tables: seq<Table>)
    requires forall i :: 0 <= i < |tables| ==> tables[i].available
    ensures forall c :: 0 <= c < |SetCalls(left, tables)| ==> SetCalls(left, tables)[c].Writing?
    decreases tables
  {
    hide HasRule, RuleId, MakeRule;
    if tables == [] {
    } else {
      AvailableCalls(left - {RuleId(tables[0])}, tables[1..]);
    }
  }

  lemma {:induction false} RemoveCallsWrite(ids: seq<string>)
    ensures forall c :: 0 <= c < |RemoveCalls(ids)| ==> RemoveCalls(ids)[c].Writing?
  {
    if ids == [] {
    } else {
      RemoveCallsWrite(ids[..|ids| - 1]);
    }
  }

  /** When every table is available, every guarded call of a pass is a write. */
  lemma AvailablePass(calls: seq<Call>, snapshot: Rules, isMaster: nat -> bool, tables: seq<Table>)
    requires IsPass(calls, snapshot, tables) && forall i :: 0 <= i < |tables| ==> tables[i].available
    ensures AllAllowed(calls, isMaster) <==> Stayed(isMaster, |calls|)
  {
    hide SetCalls, RemoveCalls, Enumerates, RuleIds;
    var ids :| Enumerates(ids, snapshot.Keys - RuleIds(tables)) && calls == SetCalls(snapshot, tables) + RemoveCalls(ids);
    AvailableCalls(snapshot, tables);
    RemoveCallsWrite(ids);
  }

  // ---- What a pass reports -----------------------------------------------------------

  lemma {:induction false} ReportsAppend(a: seq<Call>, b: seq<Call>)
    ensures Reports(a + b) == Reports(a) + Reports(b)
  {
    if a == [] {
      assert a + b == b;
    } else {
      ReportsAppend(a[1..], b);
      assert (a + b)[0] == a[0] && (a + b)[1..] == a[1..] + b;
      var first := if a[0].Reporting? then [a[0].id] else [];
      assert first + (Reports(a[1..]) + Reports(b)) == first + Reports(a[1..]) + Reports(b);
    }
  }

  lemma {:induction false} SetReports(left: Rules, tables: seq<Table>)
    ensures Reports(SetCalls(left, tables)) == Unavailable(tables)
    decreases tables
  {
    hide RuleId, HasRule, MakeRule;
    if tables == [] {
    } else {
      var rest := left - {RuleId(tables[0])};
      ReportsAppend(TableCalls(left, tables[0]), SetCalls(rest, tables[1..]));
      SetReports(rest, tables[1..]);
    }
  }

  lemma {:induction false} RemoveReports(ids: seq<string>)
    ensures Reports(RemoveCalls(ids)) == []
  {
    if ids == [] {
    } else {
      var n := |ids| - 1;
      RemoveReports(ids[..n]);
      ReportsAppend(RemoveCalls(ids[..n]), [Writing(Remove(ids[n]))]);
    }
  }

  /** A pass reports on exactly the tables that are not available, in the order of the list. */
  lemma ReportsAre(calls: seq<Call>, snapshot: Rules, tables: seq<Table>)
    requires IsPass(calls, snapshot, tables)
    ensures Reports(calls) == Unavailable(tables)
  {
    hide SetCalls, RemoveCalls, Enumerates, RuleIds, Reports, Unavailable;
    var ids :| Enumerates(ids, snapshot.Keys - RuleIds(tables)) && calls == SetCalls(snapshot, tables) + RemoveCalls(ids);
    SetReports(snapshot, tables);
    RemoveReports(ids);
    ReportsAppend(SetCalls(snapshot, tables), RemoveCalls(ids));
  }

  // ---- Passes that write nothing -----------------------------------------------------

  ghost predicate AllHaveRules(rules: Rules, tables: seq<Table>) {
    forall i :: 0 <= i < |tables| ==> HasRule(rules, tables[i])
  }

  lemma AllHaveRulesFront(left: Rules, tables: seq<Table>)
    requires tables != []
    ensures
      var rest := left - {RuleId(tables[0])};
      DistinctIds(tables) && AllHaveRules(left, tables) <==>
      HasRule(left, tables[0]) && DistinctIds(tables[1..]) && AllHaveRules(rest, tables[1..])
  {
    hide HasRule, RuleId;
    var t, rest := tables[0], left - {RuleId(tables[0])};
    forall i | 1 <= i < |tables|
      ensures HasRule(rest, tables[i]) <==> HasRule(left, tables[i]) && tables[i].id != t.id
      ensures tables[1..][i - 1] == tables[i]
    {
      HasRuleLeft(left, t, tables[i]);
    }
    assert forall i :: 0 <= i < |tables| - 1 ==> tables[1..][i] == tables[i + 1];
  }

  lemma {:induction false} NothingToSet(left: Rules, tables: seq<Table>)
    ensures Writes(SetCalls(left, tables)) == [] <==> DistinctIds(tables) && AllHaveRules(left, tables)
    decreases tables
  {
    hide HasRule, RuleId, TableCalls, MakeRule;
    if tables == [] {
    } else {
      hide DistinctIds, AllHaveRules, Writes;
      var t, rest := tables[0], left - {RuleId(tables[0])};
      TableCallsAre(left, t);
      CallsAppend(TableCalls(left, t), SetCalls(rest, tables[1..]));
      NothingToSet(rest, tables[1..]);
      AllHaveRulesFront(left, tables);
    }
  }

  /** A pass asks for no write exactly if the rules are in sync and no id is listed twice. */
  lemma NothingToWrite(calls: seq<Call>, snapshot: Rules, tables: seq<Table>)
    requires IsPass(calls, snapshot, tables)
    ensures Writes(calls) == [] <==> InSync(snapshot, tables) && DistinctIds(tables)
  {
    hide SetCalls, RemoveCalls, DistinctIds, RuleId, Matches, Writes;
    var others := snapshot.Keys - RuleIds(tables);
    var ids :| Enumerates(ids, others) && calls == SetCalls(snapshot, tables) + RemoveCalls(ids);
    CallsAppend(SetCalls(snapshot, tables), RemoveCalls(ids));
    RemoveCallsTargets(ids);
    NothingToSet(snapshot, tables);
    forall i | 0 <= i < |tables|
      ensures RuleId(tables[i]) in RuleIds(tables)
    {
    }
    EnumerationSize(ids, others);
    if ids == [] {
      assert others == {};
      NothingLeft(snapshot.Keys, RuleIds(tables));
    }
  }

  // ---- Tables listed twice -----------------------------------------------------------

  /** No later table has the id of table `i`. */
  ghost predicate IsLast(tables: seq<Table>, i: nat) {
    i < |tables| && forall j :: i < j < |tables| ==> tables[j].id != tables[i].id
  }

  /** Every table has its rule: for an id listed twice, the last table has. */
  ghost predicate LastHaveRules(rules: Rules, tables: seq<Table>) {
    forall i :: 0 <= i < |tables| && IsLast(tables, i) ==> HasRule(rules, tables[i])
  }

  lemma {:induction false} WrittenAppend(rules: Rules, a: seq<Write>, b: seq<Write>)
    ensures WrittenAll(rules, a + b) == WrittenAll(WrittenAll(rules, a), b)
    decreases a
  {
    if a == [] {
      assert a + b == b;
    } else {
      assert (a + b)[1..] == a[1..] + b;
      WrittenAppend(Written(rules, a[0]), a[1..], b);
    }
  }

  /** Alone and with the lock, a pass makes just its writes. */
  lemma {:induction false} EvolvedAlone(rules: Rules, calls: seq<Call>, isMaster: nat -> bool, others: nat -> seq<Write>)
    requires Alone(others, |calls|) && AllAllowed(calls, isMaster)
    ensures Evolved(rules, calls, isMaster, others) == WrittenAll(rules, Writes(calls))
    decreases |calls|
  {
    if calls == [] {
    } else {
      var n := |calls| - 1;
      assert forall c :: 0 <= c < n ==> calls[..n][c] == calls[c];
      EvolvedAlone(rules, calls[..n], isMaster, others);
      if calls[n].Writing? {
        var w := calls[n].write;
        WrittenAppend(rules, Writes(calls[..n]), [w]);
        assert WrittenAll(Written(WrittenAll(rules, Writes(calls[..n])), w), []) == Written(WrittenAll(rules, Writes(calls[..n])), w);
        assert [w][1..] == [];
      } else {
        assert Writes(calls) == Writes(calls[..n]);
      }
    }
  }

  ghost predicate SameElsewhere(before: Rules, now: Rules, ids: set<string>) {
    forall id :: id !in ids ==> (id in now <==> id in before) && (id in now ==> now[id] == before[id])
  }

  /** The calls for the tables leave each with its rule and touch no other. */
  lemma {:induction false} SetsLast(now: Rules, left: Rules, tables: seq<Table>)
    requires forall id :: id in left ==> id in now && now[id] == left[id]
    ensures
      var after := WrittenAll(now, Writes(SetCalls(left, tables)));
      LastHaveRules(after, tables) && SameElsewhere(now, after, RuleIds(tables))
    decreases tables
  {
    if tables == [] {
      assert Writes(SetCalls(left, tables)) == [];
    } else {
      hide *;
      var t, rest := tables[0], left - {RuleId(tables[0])};
      var step := if HasRule(left, t) then now else now[RuleId(t) := MakeRule(t)];
      MadeRuleMatches(t);
      FirstTable(now, left, tables);
      SetsLast(step, rest, tables[1..]);
      var after := WrittenAll(step, Writes(SetCalls(rest, tables[1..])));
      ElsewhereFront(now, step, after, tables);
      LastFront(step, after, tables);
    }
  }

  lemma ElsewhereFront(now: Rules, step: Rules, after: Rules, tables: seq<Table>)
    requires tables != [] && SameElsewhere(now, step, {RuleId(tables[0])}) && SameElsewhere(step, after, RuleIds(tables[1..]))
    ensures SameElsewhere(now, after, RuleIds(tables))
  {
    hide RuleId, RuleIds;
    RuleIdsFront(tables);
  }

  lemma FirstTable(now: Rules, left: Rules, tables: seq<Table>)
    requires tables != []
    ensures
      var t := tables[0];
      var step := if HasRule(left, t) then now else now[RuleId(t) := MakeRule(t)];
      WrittenAll(now, Writes(SetCalls(left, tables))) == WrittenAll(step, Writes(SetCalls(left - {RuleId(t)}, tables[1..])))
  {
    MadeRuleMatches(tables[0]);
    hide RuleId, Matches, MakeRule, TableCalls, Writes;
    var t, rest := tables[0], left - {RuleId(tables[0])};
    TableCallsAre(left, t);
    CallsAppend(TableCalls(left, t), SetCalls(rest, tables[1..]));
    WrittenAppend(now, Writes(TableCalls(left, t)), Writes(SetCalls(rest, tables[1..])));
    if !HasRule(left, t) {
      var w := Set(MakeRule(t));
      assert [w][1..] == [] && WrittenAll(Written(now, w), []) == Written(now, w);
    }
  }

  lemma RuleIdsFront(tables: seq<Table>)
    requires tables != []
    ensures RuleIds(tables) == {RuleId(tables[0])} + RuleIds(tables[1..])
  {
    hide RuleId;
    forall i | 1 <= i < |tables|
      ensures RuleId(tables[i]) in RuleIds(tables[1..])
    {
      assert tables[1..][i - 1] == tables[i];
    }
    forall i | 0 <= i < |tables| - 1
      ensures RuleId(tables[1..][i]) in RuleIds(tables)
    {
      assert tables[1..][i] == tables[i + 1];
    }
  }

  lemma LastFront(step: Rules, after: Rules, tables: seq<Table>)
    requires tables != [] && HasRule(step, tables[0])
    requires LastHaveRules(after, tables[1..]) && SameElsewhere(step, after, RuleIds(tables[1..]))
    ensures LastHaveRules(after, tables)
  {
    hide RuleId, Matches;
    forall i | 0 <= i < |tables| && IsLast(tables, i)
      ensures HasRule(after, tables[i])
    {
      if i == 0 {
        forall j | 1 <= j < |tables|
          ensures RuleId(tables[j]) != RuleId(tables[0])
        {
          RuleIdInjective(tables[j], tables[0]);
        }
        assert RuleId(tables[0]) !in RuleIds(tables[1..]);
      } else {
        assert tables[1..][i - 1] == tables[i];
        assert IsLast(tables[1..], i - 1);
      }
    }
  }

  lemma {:induction false} RemovesAll(rules: Rules, ids: seq<string>)
    ensures WrittenAll(rules, Writes(RemoveCalls(ids))) == rules - (set id | id in ids)
  {
    if ids == [] {
    } else {
      var n := |ids| - 1;
      var calls, w := RemoveCalls(ids), Remove(ids[n]);
      RemovesAll(rules, ids[..n]);
      assert calls[..|calls| - 1] == RemoveCalls(ids[..n]);
      WrittenAppend(rules, Writes(RemoveCalls(ids[..n])), [w]);
      var before := WrittenAll(rules, Writes(RemoveCalls(ids[..n])));
      assert [w][1..] == [] && WrittenAll(Written(before, w), []) == Written(before, w);
      assert forall id :: id in ids <==> id in ids[..n] || id == ids[n];
    }
  }

  lemma LastExists(tables: seq<Table>, i: nat) returns (j: nat)
    requires i < |tables|
    ensures j < |tables| && tables[j].id == tables[i].id && IsLast(tables, j)
    decreases |tables| - i
  {
    j := i;
    if !IsLast(tables, i) {
      var later :| i < later < |tables| && tables[later].id == tables[i].id;
      j := LastExists(tables, later);
    }
  }

  /** Alone and with the lock, a pass leaves the rules of the listed tables and no others, also
      when an id is listed twice. */
  lemma PassLeavesLast(calls: seq<Call>, snapshot: Rules, isMaster: nat -> bool, others: nat -> seq<Write>, tables: seq<Table>)
    requires IsPass(calls, snapshot, tables) && Alone(others, |calls|) && AllAllowed(calls, isMaster)
    ensures
      var end := Evolved(snapshot, calls, isMaster, others);
      end.Keys == RuleIds(tables) && LastHaveRules(end, tables)
  {
    hide SetCalls, RemoveCalls, RuleIds, RuleId, Matches, Writes, Evolved, LastHaveRules, SameElsewhere;
    var foreign := snapshot.Keys - RuleIds(tables);
    var ids :| Enumerates(ids, foreign) && calls == SetCalls(snapshot, tables) + RemoveCalls(ids);
    EvolvedAlone(snapshot, calls, isMaster, others);
    CallsAppend(SetCalls(snapshot, tables), RemoveCalls(ids));
    WrittenAppend(snapshot, Writes(SetCalls(snapshot, tables)), Writes(RemoveCalls(ids)));
    SetsLast(snapshot, snapshot, tables);
    var after := WrittenAll(snapshot, Writes(SetCalls(snapshot, tables)));
    RemovesAll(after, ids);
    assert (set id | id in ids) == foreign;
    LastAndNoOther(snapshot, after, tables);
  }

  lemma LastAndNoOther(snapshot: Rules, after: Rules, tables: seq<Table>)
    requires LastHaveRules(after, tables) && SameElsewhere(snapshot, after, RuleIds(tables))
    ensures
      var end := after - (snapshot.Keys - RuleIds(tables));
      end.Keys == RuleIds(tables) && LastHaveRules(end, tables)
  {
    hide RuleId, Matches;
    forall i | 0 <= i < |tables|
      ensures RuleId(tables[i]) in after && RuleId(tables[i]) in RuleIds(tables)
    {
      var j := LastExists(tables, i);
      assert HasRule(after, tables[j]);
      RuleIdInjective(tables[j], tables[i]);
    }
  }

  // ---- The pass ----------------------------------------------------------------------

  /** Asks for a rule to be set unless one that matches was left; it is set only with the lock.
      `ws` is what other managers write before the call. */
  method CheckAndMakeRule(pd: PlacementDriver, table: Table, allRules: Rules, isMaster: bool, ws: seq<Write>)
    returns (needNewRule: bool, rest: Rules)
    requires pd.Valid()
    modifies pd
    ensures pd.Valid() && rest == allRules - {RuleId(table)}
    ensures needNewRule <==> !HasRule(allRules, table)
    ensures needNewRule <==> !HasReplicas(allRules, table)
    ensures pd.rules == if needNewRule then AfterCall(old(pd.rules), ws, Writing(Set(MakeRule(table))), isMaster)
                        else old(pd.rules)
  {
    hide RuleId, Matches, MakeRule, HasReplicas;
    var ruleId := RuleId(table);
    needNewRule := true;
    if ruleId in allRules {
      var rule := allRules[ruleId];
      if Matches(rule, table) {
        needNewRule := false;
      }
    }
    if needNewRule {
      Guard(pd, Writing(Set(MakeRule(table))), isMaster, ws);
    }
    rest := allRules - {ruleId};
    HasRuleMeans(allRules, table);
  }

  lemma EvolvedStep(rules: Rules, calls: seq<Call>, call: Call, isMaster: nat -> bool, others: nat -> seq<Write>)
    ensures Evolved(rules, calls + [call], isMaster, others)
         == AfterCall(Evolved(rules, calls, isMaster, others), others(|calls|), call, isMaster(|calls|))
  {
    assert (calls + [call])[..|calls|] == calls;
  }

  /** One round of the first half of a pass. */
  method UpdateTable(pd: PlacementDriver, table: Table, left: Rules, isMaster: nat -> bool, others: nat -> seq<Write>,
                     start: nat, ghost rules: Rules, ghost before: seq<Call>)
    returns (rest: Rules, count: nat, ghost calls: seq<Call>)
    requires pd.Valid() && start == |before| && pd.rules == Evolved(rules, before, isMaster, others)
    modifies pd
    ensures pd.Valid() && count == |calls| && rest == left - {RuleId(table)}
    ensures calls == before + TableCalls(left, table) && pd.rules == Evolved(rules, calls, isMaster, others)
  {
    hide RuleId, HasRule, MakeRule, Evolved;
    var needNewRule;
    calls, count := before, start;
    needNewRule, rest := CheckAndMakeRule(pd, table, left, isMaster(count), others(count));
    if needNewRule {
      EvolvedStep(rules, calls, Writing(Set(MakeRule(table))), isMaster, others);
      calls, count := calls + [Writing(Set(MakeRule(table)))], count + 1;
    }
    if !table.available {
      Guard(pd, Reporting(table.id), isMaster(count), others(count));
      EvolvedStep(rules, calls, Reporting(table.id), isMaster, others);
      calls, count := calls + [Reporting(table.id)], count + 1;
    }
  }

  /** The first half of a pass: the calls for the listed tables are made, and the rules of the
      listed tables are taken out of those to remove. */
  method SetRules(pd: PlacementDriver, tables: seq<Table>, allRules: Rules, isMaster: nat -> bool, others: nat -> seq<Write>)
    returns (left: Rules, allAvailable: bool, count: nat, ghost calls: seq<Call>)
    requires pd.Valid()
    modifies pd
    ensures pd.Valid() && count == |calls| && left == allRules - RuleIds(tables)
    ensures calls == SetCalls(allRules, tables) && pd.rules == Evolved(old(pd.rules), calls, isMaster, others)
    ensures allAvailable <==> forall i :: 0 <= i < |tables| ==> tables[i].available
  {
    hide RuleId, HasRule, MakeRule, Evolved, TableCalls, RuleIds;
    left, allAvailable, count, calls := allRules, true, 0, [];
    var k := 0;
    assert RuleIds(tables[..0]) == {} by { NoRuleIds(); }
    assert tables[0..] == tables;
    assert Evolved(pd.rules, [], isMaster, others) == pd.rules by { NoCalls(pd.rules, isMaster, others); }
    while k < |tables|
      invariant 0 <= k <= |tables| && pd.Valid() && count == |calls| && left == allRules - RuleIds(tables[..k])
      invariant calls + SetCalls(left, tables[k..]) == SetCalls(allRules, tables)
      invariant pd.rules == Evolved(old(pd.rules), calls, isMaster, others)
      invariant allAvailable <==> forall i :: 0 <= i < k ==> tables[i].available
    {
      assert tables[k..][0] == tables[k] && tables[k..][1..] == tables[k + 1..];
      RuleIdsBack(tables, k);
      left, count, calls := UpdateTable(pd, tables[k], left, isMaster, others, count, old(pd.rules), calls);
      if !tables[k].available {
        allAvailable := false;
      }
      k := k + 1;
    }
    assert tables[..k] == tables && tables[k..] == [];
  }

  lemma NoRuleIds()
    ensures RuleIds([]) == {}
  {
  }

  lemma NoCalls(rules: Rules, isMaster: nat -> bool, others: nat -> seq<Write>)
    ensures Evolved(rules, [], isMaster, others) == rules
  {
  }

  lemma RuleIdsBack(tables: seq<Table>, k: nat)
    requires k < |tables|
    ensures RuleIds(tables[..k + 1]) == RuleIds(tables[..k]) + {RuleId(tables[k])}
  {
    hide RuleId;
    var front, next := tables[..k], tables[..k + 1];
    forall i | 0 <= i < |next|
      ensures RuleId(next[i]) in RuleIds(front) + {RuleId(tables[k])}
    {
      if i < k { assert front[i] == next[i]; }
    }
    forall i | 0 <= i < |front|
      ensures RuleId(front[i]) in RuleIds(next)
    {
      assert front[i] == next[i];
    }
    assert next[k] == tables[k];
  }

  lemma NoneEnumerated(before: seq<Call>)
    ensures Enumerates([], {}) && RemoveCalls([]) == [] && before + RemoveCalls([]) == before
  {
  }

  lemma EnumeratesStep(ids: seq<string>, s: set<string>, id: string)
    requires Enumerates(ids, s) && id !in s
    ensures Enumerates(ids + [id], s + {id})
  {
  }

  lemma RemoveCallsStep(ids: seq<string>, id: string)
    ensures RemoveCalls(ids + [id]) == RemoveCalls(ids) + [Writing(Remove(id))]
  {
    assert (ids + [id])[..|ids|] == ids;
  }

  /** The second half of a pass: the rules that are left are removed, in some order. */
  method RemoveRules(pd: PlacementDriver, left: Rules, isMaster: nat -> bool, others: nat -> seq<Write>,
                     start: nat, ghost rules: Rules, ghost before: seq<Call>)
    returns (ghost ids: seq<string>)
    requires pd.Valid() && start == |before| && pd.rules == Evolved(rules, before, isMaster, others)
    requires forall id :: id in left ==> left[id].id == id
    modifies pd
    ensures pd.Valid() && Enumerates(ids, left.Keys)
    ensures pd.rules == Evolved(rules, before + RemoveCalls(ids), isMaster, others)
  {
    hide Evolved, RemoveCalls, Enumerates, AfterCall;
    ids := [];
    var todo, count := left.Keys, start;
    NoneEnumerated(before);
    assert left.Keys - todo == {};
    while todo != {}
      invariant pd.Valid() && todo <= left.Keys && Enumerates(ids, left.Keys - todo) && count == start + |RemoveCalls(ids)|
      invariant pd.rules == Evolved(rules, before + RemoveCalls(ids), isMaster, others)
      decreases |todo|
    {
      var id :| id in todo;
      Guard(pd, Writing(Remove(left[id].id)), isMaster(count), others(count));
      EvolvedStep(rules, before + RemoveCalls(ids), Writing(Remove(id)), isMaster, others);
      RemoveCallsStep(ids, id);
      EnumeratesStep(ids, left.Keys - todo, id);
      assert left.Keys - (todo - {id}) == (left.Keys - todo) + {id};
      assert before + RemoveCalls(ids + [id]) == before + RemoveCalls(ids) + [Writing(Remove(id))];
      ids, todo, count := ids + [id], todo - {id}, count + 1;
    }
    assert left.Keys - todo == left.Keys;
  }

  /** One pass over the tables. Its guarded calls are those of a pass from the rules as they were
      at its start, and it writes exactly those that the lock allows, whatever other managers do. */
  method TableUpdate(pd: PlacementDriver, tables: seq<Table>, isMaster: nat -> bool, others: nat -> seq<Write>)
    returns (allAvailable: bool, ghost calls: seq<Call>)
    requires pd.Valid()
    modifies pd
    ensures pd.Valid() && IsPass(calls, old(pd.rules), tables) && AllProper(calls, tables)
    ensures pd.rules == Evolved(old(pd.rules), calls, isMaster, others) && Reports(calls) == Unavailable(tables)
    // one write is asked for each wrong rule, and none exactly if the rules are in sync
    ensures DistinctIds(tables) ==> |Writes(calls)| == |Wrong(old(pd.rules), tables)|
    ensures Writes(calls) == [] <==> InSync(old(pd.rules), tables) && DistinctIds(tables)
    // passes over the same tables do not undo each other, and one that has the lock ends in sync
    ensures DistinctIds(tables) && OthersProper(others, |calls|, tables) ==>
              Wrong(pd.rules, tables) <= Wrong(old(pd.rules), tables) - Done(calls, isMaster)
    ensures DistinctIds(tables) && OthersProper(others, |calls|, tables) && AllAllowed(calls, isMaster) ==> InSync(pd.rules, tables)
    ensures InSync(pd.rules, tables) ==> pd.rules.Keys == RuleIds(tables) && forall t :: t in tables ==> HasReplicas(pd.rules, t)
    // alone, what is left wrong is exactly what the lock refused
    ensures DistinctIds(tables) && Alone(others, |calls|) ==>
              Wrong(pd.rules, tables) == Wrong(old(pd.rules), tables) - Done(calls, isMaster)
    ensures DistinctIds(tables) && Alone(others, |calls|) ==> (InSync(pd.rules, tables) <==> AllAllowed(calls, isMaster))
    ensures Alone(others, |calls|) && AllAllowed(calls, isMaster) ==>
              pd.rules.Keys == RuleIds(tables) && LastHaveRules(pd.rules, tables)
    // the pass is recorded as complete if every table is available; alone, that is right
    // exactly for a manager that has the lock throughout
    ensures allAvailable <==> forall i :: 0 <= i < |tables| ==> tables[i].available
    ensures DistinctIds(tables) && Alone(others, |calls|) && allAvailable ==>
              (InSync(pd.rules, tables) <==> Stayed(isMaster, |calls|))
  {
    hide Wrong, InSync, RuleIds, DistinctIds, Evolved, Done, AllAllowed, Stayed, LastHaveRules, Writes, Reports, HasReplicas;
    var left, count;
    ghost var sets;
    left, allAvailable, count, sets := SetRules(pd, tables, pd.rules, isMaster, others);
    ghost var ids := RemoveRules(pd, left, isMaster, others, count, old(pd.rules), sets);
    calls := sets + RemoveCalls(ids);
    PassFacts(calls, old(pd.rules), isMaster, others, tables);
    ReportsAre(calls, old(pd.rules), tables);
    InSyncMeans(pd.rules, tables);
  }

  lemma PassFacts(calls: seq<Call>, snapshot: Rules, isMaster: nat -> bool, others: nat -> seq<Write>, tables: seq<Table>)
    requires IsPass(calls, snapshot, tables)
    ensures AllProper(calls, tables)
    ensures Writes(calls) == [] <==> InSync(snapshot, tables) && DistinctIds(tables)
    ensures
      var end := Evolved(snapshot, calls, isMaster, others);
      && (Alone(others, |calls|) && AllAllowed(calls, isMaster) ==> end.Keys == RuleIds(tables) && LastHaveRules(end, tables))
      && (DistinctIds(tables) ==> |Writes(calls)| == |Wrong(snapshot, tables)|)
      && (DistinctIds(tables) && OthersProper(others, |calls|, tables) ==>
            && Wrong(end, tables) <= Wrong(snapshot, tables) - Done(calls, isMaster)
            && (AllAllowed(calls, isMaster) ==> InSync(end, tables)))
      && (DistinctIds(tables) && Alone(others, |calls|) ==>
            && Wrong(end, tables) == Wrong(snapshot, tables) - Done(calls, isMaster)
            && (InSync(end, tables) <==> AllAllowed(calls, isMaster)))
      && ((forall i :: 0 <= i < |tables| ==> tables[i].available) ==> (AllAllowed(calls, isMaster) <==> Stayed(isMaster, |calls|)))
  {
    hide Wrong, InSync, IsPass, RuleIds, DistinctIds, Evolved, Done, AllAllowed, Stayed, LastHaveRules, Writes, IsProper;
    PassIsProper(calls, snapshot, tables);
    NothingToWrite(calls, snapshot, tables);
    if Alone(others, |calls|) && AllAllowed(calls, isMaster) { PassLeavesLast(calls, snapshot, isMaster, others, tables); }
    if DistinctIds(tables) { PassTargets(calls, snapshot, tables); }
    if DistinctIds(tables) && OthersProper(others, |calls|, tables) { PassResult(calls, snapshot, isMaster, others, tables); }
    if forall i :: 0 <= i < |tables| ==> tables[i].available { AvailablePass(calls, snapshot, isMaster, tables); }
  }

  // ---- What a lost lock can do -------------------------------------------------------

  /** Without the lock a manager changes nothing, whatever it asks for. */
  lemma {:induction false} RefusedChangesNothing(rules: Rules, calls: seq<Call>, isMaster: nat -> bool, others: nat -> seq<Write>)
    requires Alone(others, |calls|) && forall c :: 0 <= c < |calls| ==> !isMaster(c)
    ensures Evolved(rules, calls, isMaster, others) == rules
    decreases |calls|
  {
    if calls == [] {
    } else {
      RefusedChangesNothing(rules, calls[..|calls| - 1], isMaster, others);
    }
  }

  /** A pass that is refused the lock is recorded as complete and leaves the table without its
      rule. */
  method RefusedPass(t: Table) returns (pd: PlacementDriver, allAvailable: bool)
    requires t.available
    ensures allAvailable && !InSync(pd.rules, [t])
  {
    hide InSync, RuleIds, RuleId, MakeRule, Matches;
    pd := new PlacementDriver(map[]);
    ghost var calls;
    NotInSync(t);
    allAvailable, calls := TableUpdate(pd, [t], _ => false, _ => []);
    assert Writes([]) == [];
    assert !Stayed(_ => false, |calls|);
  }

  lemma NotInSync(t: Table)
    ensures !InSync(map[], [t])
  {
    assert RuleId([t][0]) in RuleIds([t]);
  }

  /** A manager that is refused, then has the lock again after another has passed, writes a rule
      that is right already: its snapshot is old. */
  lemma OldSnapshot(t: Table, u: Table)
    returns (calls: seq<Call>, isMaster: nat -> bool, others: nat -> seq<Write>)
    requires t.id != u.id && t.available && u.available
    ensures IsPass(calls, map[], [t, u]) && |calls| == 2 && calls[1].Writing? && !isMaster(0) && isMaster(1) && OthersProper(others, 2, [t, u])
    ensures InSync(WrittenAll(Evolved(map[], calls[..1], isMaster, others), others(1)), [t, u])
  {
    hide RuleId, Matches, MakeRule, InSync, RuleIds, SetCalls, RemoveCalls;
    var a, b := Set(MakeRule(t)), Set(MakeRule(u));
    isMaster, others := c => c == 1, c => if c == 1 then [a, b] else [];
    calls := [Writing(a), Writing(b)];
    assert MakeRule([t, u][0]) == a.rule && MakeRule([t, u][1]) == b.rule;
    PassOverTwo(t, u);
    BothSet(t, u);
    NoCalls(map[], isMaster, others);
    EvolvedStep(map[], [], Writing(a), isMaster, others);
    assert calls[..1] == [] + [Writing(a)];
  }

  lemma PassOverTwo(t: Table, u: Table)
    requires t.available && u.available
    ensures IsPass([Writing(Set(MakeRule(t))), Writing(Set(MakeRule(u)))], map[], [t, u])
  {
    hide RuleId, Matches, MakeRule, RuleIds;
    var calls := [Writing(Set(MakeRule(t))), Writing(Set(MakeRule(u)))];
    assert [t, u][1..] == [u] && [u][1..] == [];
    assert SetCalls(map[], [u]) == [Writing(Set(MakeRule(u)))];
    assert SetCalls(map[], [t, u]) == calls;
    assert Enumerates([], {}) && RemoveCalls([]) == [] && calls + [] == calls;
  }

  lemma BothSet(t: Table, u: Table)
    requires t.id != u.id
    ensures InSync(WrittenAll(map[], [Set(MakeRule(t)), Set(MakeRule(u))]), [t, u])
  {
    MadeRuleMatches(t);
    MadeRuleMatches(u);
    RuleIdInjective(t, u);
    hide RuleId, Matches, MakeRule;
    var a, b := Set(MakeRule(t)), Set(MakeRule(u));
    assert [a, b][1..] == [b] && [b][1..] == [];
    var now := Written(Written(map[], a), b);
    assert WrittenAll(map[], [a, b]) == WrittenAll(Written(map[], a), [b]) == WrittenAll(now, []) == now;
    assert RuleId([t, u][0]) in RuleIds([t, u]) && RuleId([t, u][1]) in RuleIds([t, u]);
  }
}
