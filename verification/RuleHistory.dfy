/** Rule versions and their snapshots (api/v1/endpoints/rules.py), together with the
    version and logic that executions copy into alerts (backend/detection/service.py). */
module RuleHistory {
  import opened Basics

  /** What a snapshot preserves; JSON and text columns are opaque strings. */
  datatype Content = Content(ruleType: string, logic: Option<string>, query: string)

  datatype RuleRow = RuleRow(name: string, version: nat, content: Content)

  datatype SnapKey = SnapKey(ruleId: nat, version: nat)

  datatype AlertRow = AlertRow(ruleId: nat, version: nat, logic: Option<string>)

  /** A partial update: `Some` marks a field present in the request. The schema lets a null
      rule type through, and the column refuses it. */
  datatype Patch = Patch(name: Option<string>, query: Option<string>, logic: Option<Option<string>>,
                         ruleType: Option<Option<string>>)

  datatype Tables = Tables(rules: map<nat, RuleRow>, snaps: map<SnapKey, Content>, alerts: seq<AlertRow>)

  datatype Result = Ok(id: nat) | NotFound | NameTaken | NullRuleType

  predicate NameUsed(rules: map<nat, RuleRow>, name: string, exclude: Option<nat>) {
    exists r :: r in rules && rules[r].name == name && exclude != Some(r)
  }

  function Created(t: Tables, id: nat, name: string, version: nat, c: Content): (Tables, Result) {
    if NameUsed(t.rules, name, None) then (t, NameTaken)
    else (t.(rules := t.rules[id := RuleRow(name, version, c)], snaps := t.snaps[SnapKey(id, version) := c]), Ok(id))
  }

  predicate TouchesLogic(p: Patch) { p.query.Some? || p.logic.Some? || p.ruleType.Some? }

  predicate ClearsRuleType(p: Patch) { p.ruleType == Some(None) }

  function Patched(c: Content, p: Patch): Content {
    Content(if p.ruleType.Some? && p.ruleType.value.Some? then p.ruleType.value.value else c.ruleType,
            if p.logic.Some? then p.logic.value else c.logic,
            if p.query.Some? then p.query.value else c.query)
  }

  /** Back-fill the current version's snapshot from the values before the update. */
  function BackFilled(snaps: map<SnapKey, Content>, id: nat, before: RuleRow): map<SnapKey, Content> {
    if SnapKey(id, before.version) in snaps then snaps else snaps[SnapKey(id, before.version) := before.content]
  }

  function Updated(t: Tables, id: nat, p: Patch): (Tables, Result) {
    if id !in t.rules then (t, NotFound)
    else
      var before := t.rules[id];
      if p.name.Some? && p.name.value != before.name && NameUsed(t.rules, p.name.value, Some(id)) then (t, NameTaken)
      else if ClearsRuleType(p) then (t, NullRuleType)
      else
        var c := Patched(before.content, p);
        var row := RuleRow(if p.name.Some? then p.name.value else before.name, before.version, c);
        if TouchesLogic(p) then
          (t.(rules := t.rules[id := row.(version := before.version + 1)],
              snaps := BackFilled(t.snaps, id, before)[SnapKey(id, before.version + 1) := c]), Ok(id))
        else (t.(rules := t.rules[id := row]), Ok(id))
  }

  /** An execution files `n` alerts under the rule's current version and logic. */
  function Executed(t: Tables, id: nat, n: nat): Tables {
    if id !in t.rules then t
    else t.(alerts := t.alerts + seq(n, _ => AlertRow(id, t.rules[id].version, t.rules[id].content.logic)))
  }

  // ---- What the operations do ----------------------------------------------

  /** An update is refused when the rule is not there, when another rule has the new name, or
      when the rule type is set to null, and then changes nothing. Otherwise each field named
      in the request has its new value, every other its old one. */
  lemma UpdateSays(t: Tables, id: nat, p: Patch)
    ensures var (after, r) := Updated(t, id, p);
      && (r == NotFound <==> id !in t.rules)
      && (r == NameTaken <==>
            && id in t.rules && p.name.Some? && p.name.value != t.rules[id].name
            && exists other :: other in t.rules && other != id && t.rules[other].name == p.name.value)
      && (r == NullRuleType <==> r != NotFound && r != NameTaken && p.ruleType == Some(None))
      && (r != Ok(id) ==> after == t && r in {NotFound, NameTaken, NullRuleType})
    ensures var (after, r) := Updated(t, id, p);
      r == Ok(id) ==>
        var old_, new_ := t.rules[id], after.rules[id];
        && after.rules == t.rules[id := new_] && after.alerts == t.alerts
        && (p.name.Some? ==> new_.name == p.name.value) && (p.name.None? ==> new_.name == old_.name)
        && (p.query.Some? ==> new_.content.query == p.query.value)
        && (p.query.None? ==> new_.content.query == old_.content.query)
        && (p.logic.Some? ==> new_.content.logic == p.logic.value)
        && (p.logic.None? ==> new_.content.logic == old_.content.logic)
        && (p.ruleType.Some? ==> Some(new_.content.ruleType) == p.ruleType.value)
        && (p.ruleType.None? ==> new_.content.ruleType == old_.content.ruleType)
        && new_.version == old_.version + (if p.query.Some? || p.logic.Some? || p.ruleType.Some? then 1 else 0)
  { }

  /** A rule is created under a name that no rule has, with its snapshot; an execution files
      alerts under the rule's version and logic of that moment. */
  lemma OthersSay(t: Tables, id: nat, name: string, version: nat, c: Content, n: nat)
    ensures var (after, r) := Created(t, id, name, version, c);
      if exists other :: other in t.rules && t.rules[other].name == name then r == NameTaken && after == t
      else
        && r == Ok(id) && after.rules == t.rules[id := RuleRow(name, version, c)]
        && after.snaps == t.snaps[SnapKey(id, version) := c] && after.alerts == t.alerts
    ensures var after := Executed(t, id, n);
      && after.rules == t.rules && after.snaps == t.snaps
      && |after.alerts| == |t.alerts| + (if id in t.rules then n else 0) && t.alerts <= after.alerts
      && forall i :: |t.alerts| <= i < |after.alerts| ==>
           after.alerts[i] == AlertRow(id, t.rules[id].version, t.rules[id].content.logic)
  {
    if exists other :: other in t.rules && t.rules[other].name == name { assert NameUsed(t.rules, name, None); }
  }

  // ---- The endpoints -------------------------------------------------------

  class RuleStore {
    var rules: map<nat, RuleRow>
    var snaps: map<SnapKey, Content>
    var alerts: seq<AlertRow>
    var nextId: nat

    function Rows(): Tables reads this { Tables(rules, snaps, alerts) }

    /** `create_rule`. */
    method CreateRule(name: string, version: nat, c: Content) returns (r: Result)
      modifies this`rules, this`snaps, this`nextId
      ensures (Rows(), r) == Created(old(Rows()), old(nextId), name, version, c)
      ensures nextId == old(nextId) + if r.Ok? then 1 else 0
    {
      if NameTakenBy(name, None) { return NameTaken; }
      var id := nextId;
      rules := rules[id := RuleRow(name, version, c)];
      snaps := snaps[SnapKey(id, version) := c];
      nextId := nextId + 1;
      r := Ok(id);
    }

    predicate NameTakenBy(name: string, exclude: Option<nat>) reads this { NameUsed(rules, name, exclude) }

    /** `update_rule`: set the fields, then bump the version and snapshot when logic changed. */
    method UpdateRule(id: nat, p: Patch) returns (r: Result)
      modifies this`rules, this`snaps
      ensures (Rows(), r) == Updated(old(Rows()), id, p)
    {
      if id !in rules { return NotFound; }
      if p.name.Some? && p.name.value != rules[id].name {
        if NameTakenBy(p.name.value, Some(id)) { return NameTaken; }
      }
      if ClearsRuleType(p) { return NullRuleType; }
      var previous := rules[id];
      var rule := previous;
      if p.name.Some? { rule := rule.(name := p.name.value); }
      if p.query.Some? { rule := rule.(content := rule.content.(query := p.query.value)); }
      if p.logic.Some? { rule := rule.(content := rule.content.(logic := p.logic.value)); }
      if p.ruleType.Some? { rule := rule.(content := rule.content.(ruleType := p.ruleType.value.value)); }
      if TouchesLogic(p) {
        if SnapKey(id, rule.version) !in snaps {
          snaps := snaps[SnapKey(id, previous.version) := previous.content];
        }
        rule := rule.(version := rule.version + 1);
        snaps := snaps[SnapKey(id, rule.version) := rule.content];
      }
      rules := rules[id := rule];
      r := Ok(id);
    }
  }

  // ---- Histories -----------------------------------------------------------

  datatype Op =
    | Create(name: string, version: nat, content: Content)
    | Update(id: nat, patch: Patch)
    | Execute(id: nat, alerts: nat)

  /** A state of the tables with the next rule id; legacy rules may have no snapshot. */
  datatype State = State(t: Tables, nextId: nat)

  function Step(st: State, op: Op): State {
    match op
    case Create(name, v, c) =>
      var (t, r) := Created(st.t, st.nextId, name, v, c);
      State(t, st.nextId + if r.Ok? then 1 else 0)
    case Update(id, p) => st.(t := Updated(st.t, id, p).0)
    case Execute(id, n) => st.(t := Executed(st.t, id, n))
  }

  function Run(st: State, ops: seq<Op>): State {
    if ops == [] then st else Step(Run(st, ops[..|ops| - 1]), ops[|ops| - 1])
  }

  /** Once any snapshot of a rule exists, every later version up to the current one has one. */
  ghost predicate Contiguous(t: Tables, id: nat)
    requires id in t.rules
  {
    forall v: nat, u: nat :: SnapKey(id, v) in t.snaps && v <= u <= t.rules[id].version ==> SnapKey(id, u) in t.snaps
  }

  ghost predicate SnapOk(t: Tables, k: SnapKey)
    requires k in t.snaps
  {
    k.ruleId in t.rules && k.version <= t.rules[k.ruleId].version
    && (k.version == t.rules[k.ruleId].version ==> t.snaps[k] == t.rules[k.ruleId].content)
  }

  /** An alert agrees with the snapshot of its version, and while that version is still
      current it agrees with the rule itself. */
  ghost predicate AlertOk(t: Tables, a: AlertRow) {
    && a.ruleId in t.rules && a.version <= t.rules[a.ruleId].version
    && (a.version == t.rules[a.ruleId].version ==> a.logic == t.rules[a.ruleId].content.logic)
    && (SnapKey(a.ruleId, a.version) in t.snaps ==> t.snaps[SnapKey(a.ruleId, a.version)].logic == a.logic)
  }

  ghost predicate Inv(st: State) {
    && (forall id :: id in st.t.rules ==> id < st.nextId && Contiguous(st.t, id))
    && (forall k :: k in st.t.snaps ==> SnapOk(st.t, k))
    && (forall i :: 0 <= i < |st.t.alerts| ==> AlertOk(st.t, st.t.alerts[i]))
  }

  lemma CreateKeepsInv(st: State, name: string, v: nat, c: Content)
    requires Inv(st)
    ensures Inv(Step(st, Create(name, v, c)))
  {
    var after := Step(st, Create(name, v, c));
    if !NameUsed(st.t.rules, name, None) {
      forall k | k in after.t.snaps ensures SnapOk(after.t, k) {
        if k in st.t.snaps { assert SnapOk(st.t, k); }
      }
      forall id | id in after.t.rules ensures id < after.nextId && Contiguous(after.t, id) {
        if id == st.nextId {
          forall k | k in st.t.snaps ensures k.ruleId != id { assert SnapOk(st.t, k); }
        } else { assert Contiguous(st.t, id); }
      }
      forall i | 0 <= i < |after.t.alerts| ensures AlertOk(after.t, after.t.alerts[i]) {
        assert AlertOk(st.t, st.t.alerts[i]);
      }
    }
  }

  lemma UpdateKeepsInv(st: State, id: nat, p: Patch)
    requires Inv(st)
    ensures Inv(Step(st, Update(id, p)))
  {
    var after := Step(st, Update(id, p));
    if Updated(st.t, id, p).1.Ok? {
      assert Contiguous(st.t, id);
      var v := st.t.rules[id].version;
      forall k | k in after.t.snaps ensures SnapOk(after.t, k) {
        if k in st.t.snaps { assert SnapOk(st.t, k); }
      }
      forall r | r in after.t.rules ensures r < after.nextId && Contiguous(after.t, r) {
        assert Contiguous(st.t, r);
      }
      forall i | 0 <= i < |after.t.alerts| ensures AlertOk(after.t, after.t.alerts[i]) {
        assert AlertOk(st.t, st.t.alerts[i]);
      }
    }
  }

  lemma ExecuteKeepsInv(st: State, id: nat, n: nat)
    requires Inv(st)
    ensures Inv(Step(st, Execute(id, n)))
  {
    var after := Step(st, Execute(id, n));
    if id in st.t.rules {
      var v := st.t.rules[id].version;
      forall r | r in after.t.rules ensures Contiguous(after.t, r) { assert Contiguous(st.t, r); }
      forall k | k in after.t.snaps ensures SnapOk(after.t, k) { assert SnapOk(st.t, k); }
      forall i | 0 <= i < |after.t.alerts| ensures AlertOk(after.t, after.t.alerts[i]) {
        if i < |st.t.alerts| { assert AlertOk(st.t, st.t.alerts[i]); }
        else if SnapKey(id, v) in st.t.snaps { assert SnapOk(st.t, SnapKey(id, v)); }
      }
    }
  }

  /** Over any series of creations, updates and executions the snapshots of a rule stay
      contiguous up to its version and every alert is explained by its snapshot. */
  lemma {:induction false} HistoryKeepsInv(st: State, ops: seq<Op>)
    requires Inv(st)
    ensures Inv(Run(st, ops))
  {
    if ops != [] {
      HistoryKeepsInv(st, ops[..|ops| - 1]);
      var mid := Run(st, ops[..|ops| - 1]);
      match ops[|ops| - 1]
      case Create(name, v, c) => CreateKeepsInv(mid, name, v, c);
      case Update(id, p) => UpdateKeepsInv(mid, id, p);
      case Execute(id, n) => ExecuteKeepsInv(mid, id, n);
    }
  }

  ghost predicate NamesApart(rules: map<nat, RuleRow>) {
    forall a, b :: a in rules && b in rules && a != b ==> rules[a].name != rules[b].name
  }

  /** No two rules ever have the same name. */
  lemma {:induction false} NamesStayApart(st: State, ops: seq<Op>)
    requires NamesApart(st.t.rules)
    ensures NamesApart(Run(st, ops).t.rules)
  {
    if ops != [] {
      NamesStayApart(st, ops[..|ops| - 1]);
      var mid, op := Run(st, ops[..|ops| - 1]), ops[|ops| - 1];
      match op
      case Create(name, v, c) => OthersSay(mid.t, mid.nextId, name, v, c, 0);
      case Update(id, p) => UpdateSays(mid.t, id, p);
      case Execute(id, n) =>
    }
  }

  /** Snapshots are never rewritten or lost, and no insert meets the unique constraint on
      rule and version: the snapshot of the next version never exists beforehand. */
  lemma SnapshotsAreImmutable(st: State, op: Op)
    requires Inv(st)
    ensures forall k :: k in st.t.snaps ==> k in Step(st, op).t.snaps && Step(st, op).t.snaps[k] == st.t.snaps[k]
    ensures op.Update? && op.id in st.t.rules ==> SnapKey(op.id, st.t.rules[op.id].version + 1) !in st.t.snaps
    ensures op.Create? ==> SnapKey(st.nextId, op.version) !in st.t.snaps
  {
    forall k | k in st.t.snaps ensures k.ruleId in st.t.rules && k.version <= st.t.rules[k.ruleId].version {
      assert SnapOk(st.t, k);
    }
  }

  /** The version moves by one exactly when the request names a logic field, even if the
      value is unchanged; then both versions have a snapshot, old and new content. */
  lemma VersionMovesWithLogic(st: State, id: nat, p: Patch)
    requires Inv(st) && Updated(st.t, id, p).1.Ok?
    ensures var before, after := st.t.rules[id], Updated(st.t, id, p).0;
      && after.rules[id].version == before.version + (if TouchesLogic(p) then 1 else 0)
      && (after.rules[id].content != before.content ==> TouchesLogic(p))
      && (TouchesLogic(p) ==>
            && SnapKey(id, before.version) in after.snaps && after.snaps[SnapKey(id, before.version)] == before.content
            && SnapKey(id, before.version + 1) in after.snaps
            && after.snaps[SnapKey(id, before.version + 1)] == after.rules[id].content)
  {
    if SnapKey(id, st.t.rules[id].version) in st.t.snaps { assert SnapOk(st.t, SnapKey(id, st.t.rules[id].version)); }
  }
}
