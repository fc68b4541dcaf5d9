/**
PD's placement rules for tables with TiFlash replicas: the rule made for a table, what it covers,
and how far a set of rules is from one matching rule per listed table and no others.
*/
module PlacementRules {
  import opened Memory
  import opened Codec
  import opened TikvKey
  import opened Sets
  import opened Words

  const GROUP_ID: string := "tiflash"
  const LEARNER: string := "learner"

  datatype Constraint = Constraint(key: string, op: string, values: seq<string>)

  const DEFAULT_LABEL_CONSTRAINTS: seq<Constraint> := [Constraint("engine", "in", ["tiflash"])]

  datatype Rule = Rule(group: string, id: string, index: int, overrides: bool, startKey: Bytes, endKey: Bytes,
                       role: string, count: int, labelConstraints: seq<Constraint>, locationLabels: seq<string>)

  type Rules = map<string, Rule>

  datatype Table = Table(id: Int64, replicaCount: int, locationLabels: seq<string>, available: bool)

  // ---- Rule ids ----------------------------------------------------------------------

  function Digits(n: nat): (s: string)
    ensures |s| > 0 && forall i :: 0 <= i < |s| ==> '0' <= s[i] <= '9'
  {
    var last := [('0' as int + n % 10) as char];
    if n < 10 then last else Digits(n / 10) + last
  }

  function Decimal(x: int): string {
    if x < 0 then "-" + Digits(-x) else Digits(x)
  }

  function RuleId(t: Table): string {
    "table-" + Decimal(t.id) + "-r"
  }

  /** The number that a string of digits denotes. */
  ghost function Value(s: string): int
    requires forall i :: 0 <= i < |s| ==> '0' <= s[i] <= '9'
  {
    if s == "" then 0 else 10 * Value(s[..|s| - 1]) + (s[|s| - 1] as int - '0' as int)
  }

  /** The digits denote the number, without leading zeros. */
  lemma {:induction false} DigitsAre(n: nat)
    ensures Value(Digits(n)) == n && (Digits(n)[0] == '0' ==> n == 0)
  {
    var s := Digits(n);
    if n < 10 {
      assert s[..0] == "";
    } else {
      DigitsAre(n / 10);
      assert s[..|s| - 1] == Digits(n / 10);
    }
  }

  /** A rule id is `table-`, the decimal table id with its sign, and `-r`. */
  lemma RuleIdIs(t: Table)
    ensures t.id >= 0 ==> RuleId(t) == "table-" + Digits(t.id) + "-r"
    ensures t.id < 0 ==> RuleId(t) == "table--" + Digits(-(t.id as int)) + "-r"
    ensures t.id == 45 ==> RuleId(t) == "table-45-r"
  {
    hide Digits;
    if t.id < 0 { assert "table-" + ("-" + Digits(-(t.id as int))) == "table--" + Digits(-(t.id as int)); }
    if t.id == 45 { FortyFive(); }
  }

  lemma FortyFive()
    ensures Digits(45) == "45"
  {
    assert Digits(4) == "4";
  }

  lemma {:induction false} DigitsInjective(a: nat, b: nat)
    requires Digits(a) == Digits(b)
    ensures a == b
  {
    var x, y := Digits(a), Digits(b);
    assert x[|x| - 1] == y[|y| - 1];
    if a < 10 || b < 10 {
    } else {
      assert x[..|x| - 1] == Digits(a / 10) && y[..|y| - 1] == Digits(b / 10);
      DigitsInjective(a / 10, b / 10);
    }
  }

  /** Tables share a rule id only if they share their id. */
  lemma RuleIdInjective(t: Table, u: Table)
    ensures RuleId(t) == RuleId(u) <==> t.id == u.id
  {
    if RuleId(t) == RuleId(u) {
      var x, y := Decimal(t.id), Decimal(u.id);
      assert RuleId(t)[6..|RuleId(t)| - 2] == x && RuleId(u)[6..|RuleId(u)| - 2] == y;
      DecimalInjective(t.id, u.id);
    }
  }

  lemma DecimalInjective(a: int, b: int)
    requires Decimal(a) == Decimal(b)
    ensures a == b
  {
    assert Decimal(a)[0] == Decimal(b)[0];
    if a < 0 {
      assert Decimal(a)[1..] == Digits(-a) && Decimal(b)[1..] == Digits(-b);
      DigitsInjective(-a, -b);
    } else {
      DigitsInjective(a, b);
    }
  }

  // ---- Rules -------------------------------------------------------------------------

  function MakeRule(t: Table): Rule {
    Rule(GROUP_ID, RuleId(t), 0, true, ToPdKey(MakeTableBegin(t.id)), ToPdKey(MakeTableEnd(t.id)),
         LEARNER, t.replicaCount, DEFAULT_LABEL_CONSTRAINTS, t.locationLabels)
  }

  /** The fields that the manager compares. */
  predicate Matches(r: Rule, t: Table) {
    && r.overrides && r.startKey == ToPdKey(MakeTableBegin(t.id)) && r.endKey == ToPdKey(MakeTableEnd(t.id))
    && r.labelConstraints == DEFAULT_LABEL_CONSTRAINTS && r.locationLabels == t.locationLabels
    && r.count == t.replicaCount && r.role == LEARNER
  }

  /** The rule of a table, field by field. */
  lemma MakeRuleIs(t: Table)
    ensures
      var r := MakeRule(t);
      && r.group == "tiflash" && r.id == RuleId(t) && r.index == 0 && r.overrides && r.role == "learner"
      && r.labelConstraints == [Constraint("engine", "in", ["tiflash"])]
      && r.count == t.replicaCount && r.locationLabels == t.locationLabels
      && r.startKey == ToPdKey(MakeTableBegin(t.id)) && r.endKey == ToPdKey(MakeTableEnd(t.id))
  {
  }

  /** A rule matches exactly if it is the one that would be made, but for what the manager does
      not compare: its group, its id and its index. */
  lemma MatchesIs(r: Rule, t: Table)
    ensures Matches(r, t) <==> r == MakeRule(t).(group := r.group, id := r.id, index := r.index)
  {
    MakeRuleIs(t);
  }

  /** A table has a rule under its id for its key range, with its replica count and its location
      labels, for learners on TiFlash stores. */
  ghost predicate HasReplicas(rules: Rules, t: Table) {
    && RuleId(t) in rules
    && var r := rules[RuleId(t)];
       && r.count == t.replicaCount && r.locationLabels == t.locationLabels && r.role == "learner" && r.overrides
       && r.labelConstraints == [Constraint("engine", "in", ["tiflash"])]
       && r.startKey == ToPdKey(MakeTableBegin(t.id)) && r.endKey == ToPdKey(MakeTableEnd(t.id))
  }

  lemma HasRuleMeans(rules: Rules, t: Table)
    ensures HasRule(rules, t) <==> HasReplicas(rules, t)
  {
  }

  /** In sync, the rules are those of the listed tables, and every table has its own. */
  lemma InSyncMeans(rules: Rules, tables: seq<Table>)
    ensures InSync(rules, tables) ==> rules.Keys == RuleIds(tables) && forall t :: t in tables ==> HasReplicas(rules, t)
  {
    hide RuleId, HasReplicas, Matches;
    if InSync(rules, tables) {
      forall t | t in tables
        ensures HasReplicas(rules, t)
      {
        var i :| 0 <= i < |tables| && tables[i] == t;
        assert RuleId(tables[i]) in RuleIds(tables);
        HasRuleMeans(rules, t);
      }
    }
  }

  lemma MadeRuleMatches(t: Table)
    ensures Matches(MakeRule(t), t) && MakeRule(t).id == RuleId(t)
  {
  }

  ghost predicate DistinctIds(tables: seq<Table>) {
    forall i, j :: 0 <= i < j < |tables| ==> tables[i].id != tables[j].id
  }

  function RuleIds(tables: seq<Table>): set<string> {
    set i | 0 <= i < |tables| :: RuleId(tables[i])
  }

  /** Exactly one rule per listed table, matching it, and no other rule. */
  ghost predicate InSync(rules: Rules, tables: seq<Table>) {
    && rules.Keys == RuleIds(tables)
    && forall i :: 0 <= i < |tables| ==> Matches(rules[RuleId(tables[i])], tables[i])
  }

  /** A matching rule covers the rows of its table and of no other, in the order of PD's keys. */
  lemma RuleCoversTable(r: Rule, t: Table, id: Int64, handle: Int64)
    requires Matches(r, t) && t.id != INT64_MAX
    ensures
      var key := ToPdKey(MakeTableHandle(id, handle));
      Compare(r.startKey, key) <= 0 && Compare(key, r.endKey) < 0 <==> id == t.id
  {
    hide MakeTableHandle, MakeTableBegin, MakeTableEnd, ToPdKey, Compare;
    HexOrder(MakeTableBegin(t.id), MakeTableHandle(id, handle));
    HexOrder(MakeTableHandle(id, handle), MakeTableEnd(t.id));
    TableRange(t.id, id, handle);
  }

  datatype Write = Set(rule: Rule) | Remove(id: string)

  /** PD's rules of the TiFlash group. */
  class PlacementDriver {
    var rules: Rules

    ghost predicate Valid()
      reads this
    {
      forall id :: id in rules ==> rules[id].id == id
    }

    constructor (initial: Rules)
      requires forall id :: id in initial ==> initial[id].id == id
      ensures Valid() && rules == initial
    {
      rules := initial;
    }

    method SetRule(rule: Rule)
      requires Valid()
      modifies this
      ensures Valid() && rules == old(rules)[rule.id := rule]
    {
      rules := rules[rule.id := rule];
    }

    method RemoveRule(id: string)
      requires Valid()
      modifies this
      ensures Valid() && rules == old(rules) - {id}
    {
      rules := rules - {id};
    }
  }

  // ---- How far the rules are from the tables ------------------------------------------

  predicate HasRule(rules: Rules, t: Table) {
    RuleId(t) in rules && Matches(rules[RuleId(t)], t)
  }

  ghost predicate IsWrong(rules: Rules, tables: seq<Table>, id: string) {
    id !in RuleIds(tables) || exists i :: 0 <= i < |tables| && RuleId(tables[i]) == id && !HasRule(rules, tables[i])
  }

  /** The rules that are missing, do not match, or belong to no table. */
  ghost function Wrong(rules: Rules, tables: seq<Table>): set<string> {
    set id | id in rules.Keys + RuleIds(tables) && IsWrong(rules, tables, id)
  }

  lemma InSyncMeansNoneWrong(rules: Rules, tables: seq<Table>)
    ensures InSync(rules, tables) <==> Wrong(rules, tables) == {}
  {
    hide RuleId, Matches;
    if Wrong(rules, tables) == {} {
      forall i | 0 <= i < |tables|
        ensures HasRule(rules, tables[i])
      {
        assert RuleId(tables[i]) !in Wrong(rules, tables);
      }
      assert forall id :: id in rules.Keys + RuleIds(tables) ==> id in RuleIds(tables) by {
        assert forall id :: id in rules.Keys + RuleIds(tables) ==> id !in Wrong(rules, tables);
      }
      assert rules.Keys == RuleIds(tables);
    }
  }

  function Written(rules: Rules, w: Write): Rules {
    match w
    case Set(rule) => rules[rule.id := rule]
    case Remove(id) => rules - {id}
  }

  function WrittenAll(rules: Rules, ws: seq<Write>): Rules
    decreases ws
  {
    if ws == [] then rules else WrittenAll(Written(rules, ws[0]), ws[1..])
  }

  function Target(w: Write): string {
    match w
    case Set(rule) => rule.id
    case Remove(id) => id
  }

  /** A write changes the state of its own rule only. */
  lemma Elsewhere(rules: Rules, w: Write, tables: seq<Table>, id: string)
    requires id != Target(w)
    ensures id in Wrong(rules, tables) <==> id in Wrong(Written(rules, w), tables)
  {
    hide RuleId, Matches, RuleIds;
    forall i | 0 <= i < |tables| && RuleId(tables[i]) == id
      ensures HasRule(rules, tables[i]) == HasRule(Written(rules, w), tables[i])
    {
    }
  }

  lemma WriteMendsOne(rules: Rules, w: Write, tables: seq<Table>)
    ensures Wrong(rules, tables) <= Wrong(Written(rules, w), tables) + {Target(w)}
  {
    hide Wrong;
    forall id | id in Wrong(rules, tables) && id != Target(w)
      ensures id in Wrong(Written(rules, w), tables)
    {
      Elsewhere(rules, w, tables, id);
    }
  }

  lemma SizeWithOne(a: set<string>, b: set<string>, x: string)
    requires a <= b + {x}
    ensures |a| <= |b| + 1
  {
    SubsetSize(a - {x}, b);
    assert a <= (a - {x}) + {x};
    SubsetSize(a, (a - {x}) + {x});
  }

  /** No sequence of writes puts the rules in sync with fewer writes than there are wrong rules. */
  lemma {:induction false} FewestWrites(rules: Rules, ws: seq<Write>, tables: seq<Table>)
    requires InSync(WrittenAll(rules, ws), tables)
    ensures |Wrong(rules, tables)| <= |ws|
    decreases ws
  {
    hide InSync, Wrong;
    if ws == [] {
      InSyncMeansNoneWrong(rules, tables);
    } else {
      FewestWrites(Written(rules, ws[0]), ws[1..], tables);
      WriteMendsOne(rules, ws[0], tables);
      SizeWithOne(Wrong(rules, tables), Wrong(Written(rules, ws[0]), tables), Target(ws[0]));
    }
  }

  /** A write that a pass over `tables` may make: a rule made for a listed table, or the removal
      of a rule that belongs to none. */
  ghost predicate IsProper(w: Write, tables: seq<Table>) {
    match w
    case Set(rule) => exists i :: 0 <= i < |tables| && rule == MakeRule(tables[i])
    case Remove(id) => id !in RuleIds(tables)
  }

  /** A proper write leaves its own rule right, whatever it was before, and changes no other. */
  lemma ProperMends(rules: Rules, w: Write, tables: seq<Table>)
    requires DistinctIds(tables) && IsProper(w, tables)
    ensures Wrong(Written(rules, w), tables) == Wrong(rules, tables) - {Target(w)}
  {
    TargetIsRight(rules, w, tables);
    hide Wrong, IsProper, Written;
    forall id | id != Target(w)
      ensures id in Wrong(rules, tables) <==> id in Wrong(Written(rules, w), tables)
    {
      Elsewhere(rules, w, tables, id);
    }
  }

  lemma TargetIsRight(rules: Rules, w: Write, tables: seq<Table>)
    requires DistinctIds(tables) && IsProper(w, tables)
    ensures Target(w) !in Wrong(Written(rules, w), tables)
  {
    hide MakeRule, RuleId, Matches;
    match w
    case Set(rule) =>
      var k :| 0 <= k < |tables| && rule == MakeRule(tables[k]);
      SetIsRight(rules, tables, k);
    case Remove(_) =>
  }

  lemma SetIsRight(rules: Rules, tables: seq<Table>, k: nat)
    requires DistinctIds(tables) && k < |tables|
    ensures MakeRule(tables[k]).id !in Wrong(Written(rules, Set(MakeRule(tables[k]))), tables)
  {
    MadeRuleMatches(tables[k]);
    hide RuleId, Matches, MakeRule;
    OnlyTable(tables, k);
    assert HasRule(Written(rules, Set(MakeRule(tables[k]))), tables[k]);
  }

  lemma OnlyTable(tables: seq<Table>, k: nat)
    requires DistinctIds(tables) && k < |tables|
    ensures RuleId(tables[k]) in RuleIds(tables)
    ensures forall i :: 0 <= i < |tables| && RuleId(tables[i]) == RuleId(tables[k]) ==> i == k
  {
    hide RuleId;
    forall i | 0 <= i < |tables| && RuleId(tables[i]) == RuleId(tables[k])
      ensures i == k
    {
      RuleIdInjective(tables[i], tables[k]);
    }
  }

  /** A write that mends its own rule leaves one wrong rule fewer. */
  lemma Mends(rules: Rules, w: Write, tables: seq<Table>)
    requires Target(w) in Wrong(rules, tables) && Target(w) !in Wrong(Written(rules, w), tables)
    ensures |Wrong(Written(rules, w), tables)| + 1 == |Wrong(rules, tables)|
  {
    hide Wrong;
    forall id | id != Target(w)
      ensures id in Wrong(rules, tables) <==> id in Wrong(Written(rules, w), tables)
    {
      Elsewhere(rules, w, tables, id);
    }
    assert Wrong(Written(rules, w), tables) + {Target(w)} == Wrong(rules, tables);
  }

  lemma SetMends(rules: Rules, tables: seq<Table>, k: nat)
    requires DistinctIds(tables) && k < |tables| && !HasRule(rules, tables[k])
    ensures |Wrong(rules[RuleId(tables[k]) := MakeRule(tables[k])], tables)| + 1 == |Wrong(rules, tables)|
  {
    MadeRuleMatches(tables[k]);
    hide RuleId, Matches, MakeRule;
    SetIsRight(rules, tables, k);
    assert RuleId(tables[k]) in RuleIds(tables);
    Mends(rules, Set(MakeRule(tables[k])), tables);
  }

  lemma RemoveMends(rules: Rules, tables: seq<Table>, id: string)
    requires id in rules && id !in RuleIds(tables)
    ensures |Wrong(rules - {id}, tables)| + 1 == |Wrong(rules, tables)|
  {
    Mends(rules, Remove(id), tables);
  }

  /** Proper writes never make a rule wrong: passes over the same tables do not undo each other. */
  lemma {:induction false} ProperNeverHarms(rules: Rules, ws: seq<Write>, tables: seq<Table>)
    requires DistinctIds(tables) && forall w :: w in ws ==> IsProper(w, tables)
    ensures Wrong(WrittenAll(rules, ws), tables) <= Wrong(rules, tables)
    decreases ws
  {
    hide Wrong, IsProper, Written, DistinctIds;
    if ws == [] {
    } else {
      ProperMends(rules, ws[0], tables);
      ProperNeverHarms(Written(rules, ws[0]), ws[1..], tables);
    }
  }
}
