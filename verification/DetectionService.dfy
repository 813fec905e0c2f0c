/** Persistence of detection runs and alerts (backend/detection/service.py). */
module DetectionService {
  import opened Basics
  import opened Dsl
  import opened Matcher
  import opened Events
  import opened Candidates
  import opened FieldAccess
  import S = Sequence
  import T = Threshold
  import X = SequenceExact

  /** What an evaluator reports; the fingerprint digests all of it. */
  datatype Firing =
    | SingleFiring(id: string, explanation: Explanation)
    | ThresholdFiring(group: seq<Value>, ids: seq<string>)
    | SequenceFiring(correlation: seq<Option<Value>>, stageEvidence: seq<S.StageEvidence>)

  /** SHA-256 of the canonical JSON of rule id, version and firing, taken as injective. */
  datatype Fingerprint = Fingerprint(ruleId: nat, version: nat, firing: Firing)

  /** A rule row; `structured` is `None` when the column is empty or is not of a rule's form. */
  datatype Rule = Rule(id: nat, version: nat, enabledForExecution: bool, lookbackSeconds: int,
                       maxEventsScanned: nat, structured: Option<DetectionLogic>)

  datatype RunStatus = Running | Completed | Failed

  datatype Run = Run(ruleId: nat, version: nat, start: int, end: int, status: RunStatus,
                     eventsScanned: nat, alertsCreated: nat)

  /** An alert with its `alert_event` rows: evidence event id to stage label. */
  datatype Alert = Alert(fingerprint: Fingerprint, runId: nat, logic: DetectionLogic,
                         firstSeen: int, lastSeen: int, links: map<string, Option<string>>)

  /** Alert ids are positions in `alerts`. */
  datatype Tables = Tables(runs: map<nat, Run>, alerts: seq<Alert>)

  /** Where the database strikes a run with an exception from outside, if anywhere. `Stopped`
      is a process that stops after the run's header is committed, or a handler that cannot
      record the failure: the run is never finalized. */
  datatype Fault = NoFault | AtFiring(k: nat) | AtCommit | Stopped

  datatype Outcome =
    | Skipped
    | DryRun(scanned: nat, wouldFire: seq<Firing>, truncated: bool)
    | Done(runId: nat, scanned: nat, created: seq<nat>, firings: seq<Firing>, truncated: bool)
    | Raised

  // ---- Evaluation ----------------------------------------------------------

  function SingleFirings(cidr: Cidr, c: Condition, events: seq<Event>): seq<Firing> {
    if events == [] then []
    else
      var n := |events| - 1;
      var before := SingleFirings(cidr, c, events[..n]);
      var x := MatchEvent(cidr, events[n], c);
      if x.matched then before + [SingleFiring(events[n].id, x)] else before
  }

  function ThresholdFirings(ms: seq<T.ThresholdMatch>): seq<Firing> {
    seq(|ms|, i requires 0 <= i < |ms| => ThresholdFiring(ms[i].group, ms[i].evidence))
  }

  function SequenceFirings(ms: seq<S.SequenceMatch>): seq<Firing> {
    seq(|ms|, i requires 0 <= i < |ms| => SequenceFiring(ms[i].correlation, ms[i].evidence))
  }

  function FiringsOf(cidr: Cidr, repr: T.Repr, logic: DetectionLogic, candidates: seq<Event>,
                     start: int, end: int): seq<Firing>
    requires LogicOk(logic)
  {
    match logic
    case SingleRule(c) => SingleFirings(cidr, c, candidates)
    case ThresholdRule(t) => ThresholdFirings(T.Firings(RowView(cidr), repr, t, start, end, candidates))
    case SequenceRule(q) => SequenceFirings(S.Reported(RowView(cidr), Ordered(candidates), q, 0, {}))
  }

  /** Evaluating the rule over these candidates ends in an exception. */
  predicate EvaluationRaises(cidr: Cidr, logic: DetectionLogic, candidates: seq<Event>, start: int, end: int) {
    match logic
    case SingleRule(c) => exists i | 0 <= i < |candidates| :: MatchEvent(cidr, candidates[i], c).raised
    case ThresholdRule(t) => T.EvaluationRaises(RaiserOf(cidr), t, start, end, candidates)
    case SequenceRule(q) => S.EvaluationRaises(RowView(cidr), RaiserOf(cidr), Ordered(candidates), q)
  }

  /** A condition of the rule applies a time operator to a non-datetime of this event. */
  ghost predicate Misuses(logic: DetectionLogic, e: Event) {
    exists k :: 0 <= k < |Conditions(logic)| && HasTimeMisuse(e, Conditions(logic)[k])
  }

  ghost predicate Misused(logic: DetectionLogic, candidates: seq<Event>) {
    exists e :: e in candidates && Misuses(logic, e)
  }

  lemma MisusesOne(c: Condition, e: Event, logic: DetectionLogic)
    requires Conditions(logic) == [c]
    ensures Misuses(logic, e) <==> HasTimeMisuse(e, c)
  {
    assert Conditions(logic)[0] == c;
  }

  lemma SingleRaisesExactly(cidr: Cidr, c: Condition, candidates: seq<Event>, start: int, end: int)
    ensures EvaluationRaises(cidr, SingleRule(c), candidates, start, end) <==> Misused(SingleRule(c), candidates)
  {
    forall i | 0 <= i < |candidates|
      ensures MatchEvent(cidr, candidates[i], c).raised <==> Misuses(SingleRule(c), candidates[i])
    {
      RaisedExactly(cidr, candidates[i], c);
      MisusesOne(c, candidates[i], SingleRule(c));
    }
    hide MatchEvent, Misuses;
  }

  lemma ThresholdRaisesExactly(cidr: Cidr, t: ThresholdLogic, candidates: seq<Event>, start: int, end: int)
    requires forall i :: 0 <= i < |candidates| ==> start <= candidates[i].time < end
    ensures EvaluationRaises(cidr, ThresholdRule(t), candidates, start, end) <==> Misused(ThresholdRule(t), candidates)
  {
    forall i | 0 <= i < |candidates|
      ensures MatchEvent(cidr, candidates[i], t.condition).raised <==> Misuses(ThresholdRule(t), candidates[i])
    {
      RaisedExactly(cidr, candidates[i], t.condition);
      MisusesOne(t.condition, candidates[i], ThresholdRule(t));
    }
    hide MatchEvent, Misuses;
  }

  /** A sequence rule looks at fewer pairs of event and stage: it raises exactly when some
      event stops it, and then some candidate is misused. */
  lemma SequenceRaisesExactly(cidr: Cidr, q: SequenceLogic, candidates: seq<Event>, start: int, end: int)
    requires S.Staged(q)
    ensures EvaluationRaises(cidr, SequenceRule(q), candidates, start, end) <==>
      exists s: nat :: X.Stops(RowView(cidr), RaiserOf(cidr), Ordered(candidates), q, s)
    ensures EvaluationRaises(cidr, SequenceRule(q), candidates, start, end) ==> Misused(SequenceRule(q), candidates)
  {
    hide X.Stops, S.StartRaises, Ordered, HasTimeMisuse;
    var ord := Ordered(candidates);
    OrderedProperties(candidates);
    SameMembers(ord, candidates);
    X.EvaluationRaisesExactly(RowView(cidr), RaiserOf(cidr), ord, q);
    if EvaluationRaises(cidr, SequenceRule(q), candidates, start, end) {
      var i, k := S.RaisesAtSomeStage(RowView(cidr), RaiserOf(cidr), ord, q);
      RaisedExactly(cidr, ord[i], q.stages[k].condition);
      assert Conditions(SequenceRule(q))[k] == q.stages[k].condition;
      assert ord[i] in candidates && Misuses(SequenceRule(q), ord[i]);
    }
  }

  lemma StagedWhenOk(q: SequenceLogic)
    requires SequenceOk(q)
    ensures S.Staged(q)
  {
    assert forall k :: 0 <= k < |q.stages| ==> StageOk(q.stages[k]);
  }

  /** No rule that comes out of its JSON column raises on anything: raising takes a time
      operator, and those never get past `parse_logic`. */
  lemma StoredRulesNeverRaise(cidr: Cidr, rule: Rule, candidates: seq<Event>, start: int, end: int)
    requires ParseLogic(rule.structured).Some?
    requires forall i :: 0 <= i < |candidates| ==> start <= candidates[i].time < end
    ensures !EvaluationRaises(cidr, ParseLogic(rule.structured).value, candidates, start, end)
  {
    var logic := rule.structured.value;
    match logic {
      case SingleRule(c) => SingleRaisesExactly(cidr, c, candidates, start, end);
      case ThresholdRule(t) => ThresholdRaisesExactly(cidr, t, candidates, start, end);
      case SequenceRule(q) => StagedWhenOk(q); SequenceRaisesExactly(cidr, q, candidates, start, end);
    }
    hide EvaluationRaises, HasTimeMisuse, HasTimeOp, LogicOk, JsonLogic;
    assert EvaluationRaises(cidr, logic, candidates, start, end) ==> Misused(logic, candidates);
    if e, k :| e in candidates && 0 <= k < |Conditions(logic)| && HasTimeMisuse(e, Conditions(logic)[k]) {
      NoTimeOpNoMisuse(e, Conditions(logic)[k]);
      StoredTimeRulesAreRefused(logic);
    }
  }

  method EvaluateSingle(cidr: Cidr, c: Condition, candidates: seq<Event>) returns (raised: bool, firings: seq<Firing>)
    ensures raised <==> exists i :: 0 <= i < |candidates| && MatchEvent(cidr, candidates[i], c).raised
    ensures !raised ==> firings == SingleFirings(cidr, c, candidates)
  {
    hide MatchEvent;
    raised, firings := false, [];
    for i := 0 to |candidates|
      invariant forall j :: 0 <= j < i ==> !MatchEvent(cidr, candidates[j], c).raised
      invariant firings == SingleFirings(cidr, c, candidates[..i])
    {
      assert candidates[..i + 1][..i] == candidates[..i];
      var x := MatchEvent(cidr, candidates[i], c);
      if x.raised { return true, []; }
      if x.matched { firings := firings + [SingleFiring(candidates[i].id, x)]; }
    }
    assert candidates[..|candidates|] == candidates;
  }

  method Evaluate(cidr: Cidr, repr: T.Repr, logic: DetectionLogic, candidates: seq<Event>, start: int, end: int)
    returns (raised: bool, firings: seq<Firing>)
    requires LogicOk(logic) && start < end
    ensures raised <==> EvaluationRaises(cidr, logic, candidates, start, end)
    ensures !raised ==> firings == FiringsOf(cidr, repr, logic, candidates, start, end)
  {
    match logic {
      case SingleRule(c) =>
        raised, firings := EvaluateSingle(cidr, c, candidates);
      case ThresholdRule(t) =>
        var boom, ms := T.EvaluateThreshold(cidr, RowGet(), repr, candidates, t, start, end);
        raised, firings := boom, if boom then [] else ThresholdFirings(ms);
      case SequenceRule(q) =>
        var boom, ms := S.EvaluateSequence(cidr, RowGet(), candidates, q);
        raised, firings := boom, if boom then [] else SequenceFirings(ms);
    }
  }

  // ---- Alerts --------------------------------------------------------------

  function StageIds(stages: seq<S.StageEvidence>): set<string> {
    set i, j | 0 <= i < |stages| && 0 <= j < |stages[i].ids| :: stages[i].ids[j]
  }

  function EvidenceIds(f: Firing): set<string> {
    match f
    case SingleFiring(id, _) => {id}
    case ThresholdFiring(_, ids) => set id | id in ids
    case SequenceFiring(_, stages) => StageIds(stages)
  }

  /** `SELECT ... WHERE event_id IN (...)`. */
  function Rows(events: seq<Event>, ids: set<string>): seq<Event> {
    if events == [] then []
    else (if events[0].id in ids then [events[0]] else []) + Rows(events[1..], ids)
  }

  function Earliest(rows: seq<Event>): int
    requires rows != []
  {
    if |rows| == 1 then rows[0].time
    else if rows[0].time < Earliest(rows[1..]) then rows[0].time else Earliest(rows[1..])
  }

  function Latest(rows: seq<Event>): int
    requires rows != []
  {
    if |rows| == 1 then rows[0].time
    else if rows[0].time > Latest(rows[1..]) then rows[0].time else Latest(rows[1..])
  }

  function StagesOf(f: Firing): seq<S.StageEvidence> {
    if f.SequenceFiring? then f.stageEvidence else []
  }

  /** One `UPDATE alert_event SET stage = ...`. */
  function SetStage(links: map<string, Option<string>>, st: S.StageEvidence): map<string, Option<string>> {
    map id | id in links :: if id in st.ids then Some(st.tag) else links[id]
  }

  function SetStages(links: map<string, Option<string>>, stages: seq<S.StageEvidence>)
    : (r: map<string, Option<string>>)
    ensures r.Keys == links.Keys
  {
    if stages == [] then links
    else SetStage(SetStages(links, stages[..|stages| - 1]), stages[|stages| - 1])
  }

  function Unlabelled(rows: seq<Event>): map<string, Option<string>> {
    map e | e in rows :: e.id := None
  }

  function PrintOf(rule: Rule, f: Firing): Fingerprint { Fingerprint(rule.id, rule.version, f) }

  /** Position of the alert with this fingerprint, or the table's size. */
  function Find(alerts: seq<Alert>, fp: Fingerprint): (i: nat)
    ensures i <= |alerts|
    ensures i < |alerts| ==> alerts[i].fingerprint == fp
    ensures i == |alerts| ==> forall j :: 0 <= j < |alerts| ==> alerts[j].fingerprint != fp
  {
    if alerts == [] then 0
    else if alerts[0].fingerprint == fp then 0
    else 1 + Find(alerts[1..], fp)
  }

  function MaxOf(a: int, b: int): int { if a < b then b else a }

  function Record(alerts: seq<Alert>, events: seq<Event>, rule: Rule, logic: DetectionLogic, runId: nat, f: Firing)
    : seq<Alert>
  {
    var rows := Rows(events, EvidenceIds(f));
    var i := Find(alerts, PrintOf(rule, f));
    if rows == [] then alerts
    else if i < |alerts| then
      alerts[i := alerts[i].(lastSeen := MaxOf(alerts[i].lastSeen, Latest(rows)))]
    else alerts + [Alert(PrintOf(rule, f), runId, logic, Earliest(rows), Latest(rows),
                         SetStages(Unlabelled(rows), StagesOf(f)))]
  }

  function RecordAll(alerts: seq<Alert>, events: seq<Event>, rule: Rule, logic: DetectionLogic, runId: nat,
                     fs: seq<Firing>): seq<Alert>
  {
    if fs == [] then alerts
    else Record(RecordAll(alerts, events, rule, logic, runId, fs[..|fs| - 1]), events, rule, logic, runId, fs[|fs| - 1])
  }

  /** One statement binds at most so many values, and the evidence query binds one per id. */
  const MAX_PARAMETERS := 65_535

  predicate Queryable(f: Firing) { |EvidenceIds(f)| <= MAX_PARAMETERS }

  predicate NoNul(s: string) { forall i | 0 <= i < |s| :: s[i] != '\0' }

  /** A new alert's rows can be written: `match_explanation` is a JSON column, which takes no
      datetime, and `stage` a text column, which takes no NUL. */
  predicate Storable(f: Firing) {
    match f
    case SingleFiring(_, explanation) => !ShowsTime(explanation)
    case ThresholdFiring(_, _) => true
    case SequenceFiring(_, stages) => forall i | 0 <= i < |stages| :: NoNul(stages[i].tag)
  }

  /** Querying this firing's evidence raises, or writing a new alert for it does. */
  predicate Refuses(alerts: seq<Alert>, events: seq<Event>, rule: Rule, f: Firing) {
    || !Queryable(f)
    || (Rows(events, EvidenceIds(f)) != [] && Find(alerts, PrintOf(rule, f)) == |alerts| && !Storable(f))
  }

  /** Some statement raises on the way through the firings. */
  predicate Refused(alerts: seq<Alert>, events: seq<Event>, rule: Rule, logic: DetectionLogic, runId: nat,
                    fs: seq<Firing>)
  {
    fs != [] &&
    (|| Refused(alerts, events, rule, logic, runId, fs[..|fs| - 1])
     || Refuses(RecordAll(alerts, events, rule, logic, runId, fs[..|fs| - 1]), events, rule, fs[|fs| - 1]))
  }

  function Between(a: nat, b: nat): seq<nat> {
    if a < b then seq(b - a, i => a + i) else []
  }

  lemma BetweenStep(a: nat, b: nat)
    requires a <= b
    ensures Between(a, b) + [b] == Between(a, b + 1)
  { }

  // ---- One execution as a function of the committed tables ------------------

  predicate WindowOk(rule: Rule, start: int, end: int) {
    start < end && end - start <= rule.lookbackSeconds * MICROS
  }

  predicate Strikes(fault: Fault, firings: nat) {
    fault.AtCommit? || fault.Stopped? || (fault.AtFiring? && fault.k < firings)
  }

  /** Real runs that pass the checks commit a run header before evaluating. */
  predicate WritesHeader(rule: Rule, start: int, end: int, dryRun: bool) {
    rule.enabledForExecution && WindowOk(rule, start, end) && ParseLogic(rule.structured).Some? && !dryRun
  }

  function Header(rule: Rule, start: int, end: int): Run {
    Run(rule.id, rule.version, start, end, Running, 0, 0)
  }

  /** The `try` block of a real run and its `except`, from tables that hold the header. */
  function Attempt(t: Tables, runId: nat, events: seq<Event>, rule: Rule, logic: DetectionLogic,
                   scanned: nat, raises: bool, fs: seq<Firing>, truncated: bool, fault: Fault): (Tables, Outcome)
    requires runId in t.runs
  {
    if fault.Stopped? then (t, Raised)
    else if raises || Strikes(fault, |fs|) || Refused(t.alerts, events, rule, logic, runId, fs) then
      (t.(runs := t.runs[runId := t.runs[runId].(status := Failed, eventsScanned := scanned)]), Raised)
    else
      var alerts := RecordAll(t.alerts, events, rule, logic, runId, fs);
      var created := Between(|t.alerts|, |alerts|);
      (Tables(t.runs[runId := t.runs[runId].(status := Completed, eventsScanned := scanned,
                                             alertsCreated := |created|)], alerts),
       Done(runId, scanned, created, fs, truncated))
  }

  function Execute(cidr: Cidr, repr: T.Repr, t: Tables, runId: nat, events: seq<Event>, rule: Rule,
                   start: int, end: int, dryRun: bool, fault: Fault): (Tables, Outcome)
  {
    if !rule.enabledForExecution then (t, Skipped)
    else if !WindowOk(rule, start, end) || ParseLogic(rule.structured).None? then (t, Raised)
    else
      var logic := ParseLogic(rule.structured).value;
      var candidates := CandidatesOf(events, start, end, rule.maxEventsScanned);
      var truncated := |InWindow(Ordered(events), start, end)| > rule.maxEventsScanned;
      var raises := EvaluationRaises(cidr, logic, candidates, start, end);
      var fs := FiringsOf(cidr, repr, logic, candidates, start, end);
      if dryRun then (t, if raises then Raised else DryRun(|candidates|, fs, truncated))
      else
        Attempt(t.(runs := t.runs[runId := Header(rule, start, end)]), runId, events, rule, logic,
                |candidates|, raises, fs, truncated, fault)
  }

  lemma {:induction false} RecordAllGrows(alerts: seq<Alert>, events: seq<Event>, rule: Rule, logic: DetectionLogic,
                                          runId: nat, fs: seq<Firing>)
    ensures |alerts| <= |RecordAll(alerts, events, rule, logic, runId, fs)|
  {
    if fs != [] { RecordAllGrows(alerts, events, rule, logic, runId, fs[..|fs| - 1]); }
  }

  lemma {:induction false} RefusedPrefix(alerts: seq<Alert>, events: seq<Event>, rule: Rule, logic: DetectionLogic,
                                         runId: nat, fs: seq<Firing>, n: nat)
    requires n <= |fs| && Refused(alerts, events, rule, logic, runId, fs[..n])
    ensures Refused(alerts, events, rule, logic, runId, fs)
  {
    if n == |fs| {
      assert fs[..n] == fs;
    } else {
      assert fs[..|fs| - 1][..n] == fs[..n];
      RefusedPrefix(alerts, events, rule, logic, runId, fs[..|fs| - 1], n);
    }
  }

  // ---- The service over a session ------------------------------------------

  /** The database session: working rows, and what a rollback returns to. */
  class Session {
    var events: seq<Event>
    var runs: map<nat, Run>
    var alerts: seq<Alert>
    var committed: Tables
    var nextRunId: nat

    ghost predicate Clean() reads this {
      committed == Tables(runs, alerts) && UniqueIds(events)
    }

    method Commit()
      modifies this`committed
      ensures committed == Tables(runs, alerts)
    {
      committed := Tables(runs, alerts);
    }

    method Rollback()
      modifies this`runs, this`alerts
      ensures runs == committed.runs && alerts == committed.alerts
    {
      runs, alerts := committed.runs, committed.alerts;
    }

    /** The body of the loop over firings for one firing, up to a statement that raises. */
    method RecordFiring(rule: Rule, logic: DetectionLogic, runId: nat, f: Firing)
      returns (written: bool, created: Option<nat>)
      modifies this`alerts
      ensures written <==> !Refuses(old(alerts), events, rule, f)
      ensures written ==> alerts == Record(old(alerts), events, rule, logic, runId, f)
      ensures created == if |alerts| > |old(alerts)| then Some(|old(alerts)|) else None
      ensures |alerts| == |old(alerts)| + if created.Some? then 1 else 0
    {
      hide Find, Rows, EvidenceIds, Earliest, Latest, StagesOf, Unlabelled, SetStage, Storable, Queryable;
      var fingerprint := PrintOf(rule, f);
      var existing := Find(alerts, fingerprint);
      if !Queryable(f) { return false, None; }
      var evidence := Rows(events, EvidenceIds(f));
      if evidence == [] { return true, None; }
      var lastSeen := Latest(evidence);
      if existing < |alerts| {
        alerts := alerts[existing := alerts[existing].(lastSeen := MaxOf(alerts[existing].lastSeen, lastSeen))];
        return true, None;
      }
      if !Storable(f) { return false, None; }
      ghost var before := alerts;
      alerts := alerts + [Alert(fingerprint, runId, logic, Earliest(evidence), lastSeen, Unlabelled(evidence))];
      var stages := StagesOf(f);
      var i := 0;
      while i < |stages|
        invariant i <= |stages| && |alerts| == |before| + 1 && alerts[..|before|] == before
        invariant alerts[|before|] == Alert(fingerprint, runId, logic, Earliest(evidence), lastSeen,
                                            SetStages(Unlabelled(evidence), stages[..i]))
      {
        assert stages[..i + 1][..i] == stages[..i];
        alerts := alerts[existing := alerts[existing].(links := SetStage(alerts[existing].links, stages[i]))];
        i := i + 1;
      }
      assert stages[..i] == stages;
      return true, Some(existing);
    }

    /** The loop over firings, cut short by the fault or by a statement that raises. */
    method RecordFirings(rule: Rule, logic: DetectionLogic, runId: nat, firings: seq<Firing>, fault: Fault)
      returns (survived: bool, created: seq<nat>)
      modifies this`alerts
      ensures survived <==>
        !(fault.AtFiring? && fault.k < |firings|) && !Refused(old(alerts), events, rule, logic, runId, firings)
      ensures survived ==> alerts == RecordAll(old(alerts), events, rule, logic, runId, firings)
      ensures survived ==> created == Between(|old(alerts)|, |alerts|)
    {
      created := [];
      var i := 0;
      while i < |firings|
        invariant i <= |firings| && (fault.AtFiring? ==> i <= fault.k || fault.k >= |firings|)
        invariant alerts == RecordAll(old(alerts), events, rule, logic, runId, firings[..i])
        invariant !Refused(old(alerts), events, rule, logic, runId, firings[..i])
        invariant |old(alerts)| <= |alerts| && created == Between(|old(alerts)|, |alerts|)
      {
        if fault.AtFiring? && fault.k == i { return false, created; }
        assert firings[..i + 1][..i] == firings[..i];
        BetweenStep(|old(alerts)|, |alerts|);
        var written, n := RecordFiring(rule, logic, runId, firings[i]);
        if !written {
          RefusedPrefix(old(alerts), events, rule, logic, runId, firings, i + 1);
          return false, created;
        }
        if n.Some? { created := created + [n.value]; }
        i := i + 1;
      }
      assert firings[..i] == firings;
      survived := true;
    }

    /** The `try` block of a real run, with the rollback of its `except`. */
    method AttemptRun(cidr: Cidr, repr: T.Repr, rule: Rule, logic: DetectionLogic, start: int, end: int, runId: nat,
                      candidates: seq<Event>, truncated: bool, fault: Fault)
      returns (o: Outcome)
      requires Clean() && runId in runs && start < end && LogicOk(logic)
      modifies this`runs, this`alerts, this`committed
      ensures Clean()
      ensures (committed, o) == Attempt(old(committed), runId, events, rule, logic, |candidates|,
                                        EvaluationRaises(cidr, logic, candidates, start, end),
                                        FiringsOf(cidr, repr, logic, candidates, start, end), truncated, fault)
    {
      hide FiringsOf, EvaluationRaises, RecordAll, Refused, LogicOk;
      var raised, firings := Evaluate(cidr, repr, logic, candidates, start, end);
      if !raised && !fault.Stopped? {
        var survived, created := RecordFirings(rule, logic, runId, firings, fault);
        if survived && !fault.AtCommit? {
          runs := runs[runId := runs[runId].(status := Completed, eventsScanned := |candidates|,
                                             alertsCreated := |created|)];
          Commit();
          return Done(runId, |candidates|, created, firings, truncated);
        }
      }
      Rollback();
      if fault.Stopped? { return Raised; }
      runs := runs[runId := runs[runId].(status := Failed, eventsScanned := |candidates|)];
      Commit();
      return Raised;
    }

    /** `execute_rule`. */
    method ExecuteRule(cidr: Cidr, repr: T.Repr, rule: Rule, start: int, end: int, dryRun: bool, fault: Fault)
      returns (o: Outcome)
      requires Clean()
      modifies this`runs, this`alerts, this`committed, this`nextRunId
      ensures Clean()
      ensures (committed, o)
        == Execute(cidr, repr, old(committed), old(nextRunId), events, rule, start, end, dryRun, fault)
      ensures nextRunId == old(nextRunId) + if WritesHeader(rule, start, end, dryRun) then 1 else 0
    {
      hide InWindow, FiringsOf, EvaluationRaises, Ordered, LogicOk;
      if !rule.enabledForExecution { return Skipped; }
      if end <= start { return Raised; }
      if end - start > rule.lookbackSeconds * MICROS { return Raised; }
      var parsed := ParseLogic(rule.structured);
      if parsed.None? { return Raised; }
      var logic := parsed.value;
      var fetched := Take(InWindow(Ordered(events), start, end), rule.maxEventsScanned + 1);
      var truncated := |fetched| > rule.maxEventsScanned;
      var candidates := Take(fetched, rule.maxEventsScanned);
      if dryRun {
        var raised, firings := Evaluate(cidr, repr, logic, candidates, start, end);
        if raised { return Raised; }
        return DryRun(|candidates|, firings, truncated);
      }
      var runId := nextRunId;
      runs := runs[runId := Header(rule, start, end)];
      nextRunId := nextRunId + 1;
      Commit();
      o := AttemptRun(cidr, repr, rule, logic, start, end, runId, candidates, truncated, fault);
    }
  }
}
