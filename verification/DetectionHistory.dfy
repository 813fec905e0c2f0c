/** Detection execution over whole histories: any series of real, dry and failing runs
    of any rules over one event store. */
module DetectionHistory {
  import opened Basics
  import opened Dsl
  import opened Matcher
  import opened Events
  import opened Candidates
  import opened DetectionService
  import opened FieldAccess
  import S = Sequence
  import X = SequenceExact
  import W = SequenceStability
  import T = Threshold

  datatype State = State(tables: Tables, nextRunId: nat)

  datatype Op = Op(rule: Rule, start: int, end: int, dryRun: bool, fault: Fault)

  /** The fixed surroundings of a history: the libraries and the event store. */
  datatype World = World(cidr: Cidr, repr: T.Repr, events: seq<Event>)

  function Perform(w: World, st: State, op: Op): (Tables, Outcome) {
    Execute(w.cidr, w.repr, st.tables, st.nextRunId, w.events, op.rule, op.start, op.end, op.dryRun, op.fault)
  }

  function Step(w: World, st: State, op: Op): State {
    State(Perform(w, st, op).0, st.nextRunId + if WritesHeader(op.rule, op.start, op.end, op.dryRun) then 1 else 0)
  }

  function RunOps(w: World, st: State, ops: seq<Op>): State {
    if ops == [] then st else Step(w, RunOps(w, st, ops[..|ops| - 1]), ops[|ops| - 1])
  }

  const EMPTY := State(Tables(map[], []), 0)

  // ---- What recording does to the alert table ------------------------------

  function Prints(alerts: seq<Alert>): seq<Fingerprint> {
    seq(|alerts|, i requires 0 <= i < |alerts| => alerts[i].fingerprint)
  }

  function RunIds(alerts: seq<Alert>): seq<nat> {
    seq(|alerts|, i requires 0 <= i < |alerts| => alerts[i].runId)
  }

  function CountRun(alerts: seq<Alert>, r: nat): nat { multiset(RunIds(alerts))[r] }

  /** The same alert, seen again no earlier. */
  ghost predicate SameAlert(a: Alert, b: Alert) {
    b == a.(lastSeen := b.lastSeen) && a.lastSeen <= b.lastSeen
  }

  /** `b` extends `a`: old alerts keep everything but a later `last_seen`. */
  ghost predicate Extends(a: seq<Alert>, b: seq<Alert>) {
    |a| <= |b| && forall i :: 0 <= i < |a| ==> SameAlert(a[i], b[i])
  }

  lemma {:induction false} RecordEffect(alerts: seq<Alert>, events: seq<Event>, rule: Rule, logic: DetectionLogic,
                                        runId: nat, f: Firing)
    ensures var r := Record(alerts, events, rule, logic, runId, f);
      && Extends(alerts, r)
      && Prints(r) == Prints(alerts) + (if Rows(events, EvidenceIds(f)) == [] || PrintOf(rule, f) in Prints(alerts)
                                        then [] else [PrintOf(rule, f)])
      && RunIds(r) == RunIds(alerts) + (if |r| == |alerts| then [] else [runId])
  {
    hide Rows, SetStages, Unlabelled, EvidenceIds, PrintOf, StagesOf;
    var r, i := Record(alerts, events, rule, logic, runId, f), Find(alerts, PrintOf(rule, f));
    if i < |alerts| {
      assert Prints(alerts)[i] == PrintOf(rule, f);
      assert Prints(r) == Prints(alerts);
    } else {
      assert PrintOf(rule, f) !in Prints(alerts);
    }
  }

  /** Some firing in `fs` with evidence in the store has this fingerprint. */
  ghost predicate Fired(events: seq<Event>, rule: Rule, fs: seq<Firing>, fp: Fingerprint) {
    exists i :: 0 <= i < |fs| && PrintOf(rule, fs[i]) == fp && Rows(events, EvidenceIds(fs[i])) != []
  }

  lemma {:induction false} FiredStep(events: seq<Event>, rule: Rule, fs: seq<Firing>, fp: Fingerprint)
    requires fs != []
    ensures var n := |fs| - 1;
      Fired(events, rule, fs, fp) <==>
        Fired(events, rule, fs[..n], fp) || (PrintOf(rule, fs[n]) == fp && Rows(events, EvidenceIds(fs[n])) != [])
  {
    var n := |fs| - 1;
    if i :| 0 <= i < n && PrintOf(rule, fs[..n][i]) == fp && Rows(events, EvidenceIds(fs[..n][i])) != [] {
      assert fs[i] == fs[..n][i];
    }
    if i :| 0 <= i < |fs| && PrintOf(rule, fs[i]) == fp && Rows(events, EvidenceIds(fs[i])) != [] {
      if i < n { assert fs[i] == fs[..n][i]; }
    }
  }

  lemma {:induction false} RecordAllPrints(alerts: seq<Alert>, events: seq<Event>, rule: Rule, logic: DetectionLogic,
                                           runId: nat, fs: seq<Firing>, fp: Fingerprint)
    ensures fp in Prints(RecordAll(alerts, events, rule, logic, runId, fs))
      <==> fp in Prints(alerts) || Fired(events, rule, fs, fp)
  {
    if fs != [] {
      var n := |fs| - 1;
      RecordAllPrints(alerts, events, rule, logic, runId, fs[..n], fp);
      RecordEffect(RecordAll(alerts, events, rule, logic, runId, fs[..n]), events, rule, logic, runId, fs[n]);
      FiredStep(events, rule, fs, fp);
    }
  }

  lemma {:induction false} RecordAllEffect(alerts: seq<Alert>, events: seq<Event>, rule: Rule, logic: DetectionLogic,
                                           runId: nat, fs: seq<Firing>)
    ensures var r := RecordAll(alerts, events, rule, logic, runId, fs);
      && Extends(alerts, r)
      && (Distinct(Prints(alerts)) ==> Distinct(Prints(r)))
  {
    if fs != [] {
      var n := |fs| - 1;
      RecordAllEffect(alerts, events, rule, logic, runId, fs[..n]);
      RecordEffect(RecordAll(alerts, events, rule, logic, runId, fs[..n]), events, rule, logic, runId, fs[n]);
    }
  }

  lemma {:induction false} RecordAllRunIds(alerts: seq<Alert>, events: seq<Event>, rule: Rule, logic: DetectionLogic,
                                           runId: nat, fs: seq<Firing>)
    ensures var r := RecordAll(alerts, events, rule, logic, runId, fs);
      && |alerts| <= |r| && |RunIds(r)| == |r|
      && RunIds(r) == RunIds(alerts) + seq(|r| - |alerts|, _ => runId)
      && (forall i :: |alerts| <= i < |r| ==>
           && r[i].fingerprint.ruleId == rule.id && r[i].fingerprint.version == rule.version
           && r[i].logic == logic)
  {
    if fs != [] {
      var n := |fs| - 1;
      RecordAllRunIds(alerts, events, rule, logic, runId, fs[..n]);
      var mid := RecordAll(alerts, events, rule, logic, runId, fs[..n]);
      var r := RecordAll(alerts, events, rule, logic, runId, fs);
      RecordEffect(mid, events, rule, logic, runId, fs[n]);
      if |r| > |mid| {
        assert seq(|r| - |alerts|, _ => runId) == seq(|mid| - |alerts|, _ => runId) + [runId];
      }
    }
  }

  lemma {:induction false} ConstantMultiset(n: nat, x: nat, y: nat)
    ensures multiset(seq(n, _ => x))[y] == if y == x then n else 0
  {
    if n > 0 {
      ConstantMultiset(n - 1, x, y);
      assert seq(n, _ => x) == seq(n - 1, _ => x) + [x];
    }
  }

  lemma {:induction false} CountAfter(alerts: seq<Alert>, events: seq<Event>, rule: Rule, logic: DetectionLogic,
                                      runId: nat,
                   fs: seq<Firing>, r: nat)
    ensures var after := RecordAll(alerts, events, rule, logic, runId, fs);
      && |alerts| <= |after|
      && CountRun(after, r) == CountRun(alerts, r) + if r == runId then |after| - |alerts| else 0
  {
    RecordAllRunIds(alerts, events, rule, logic, runId, fs);
    var after := RecordAll(alerts, events, rule, logic, runId, fs);
    ConstantMultiset(|after| - |alerts|, runId, r);
  }

  // ---- The invariant of every history --------------------------------------

  /** Fingerprints are unique; every run's count is the number of alerts that carry its id,
      and only completed runs have any. */
  ghost predicate Sound(st: State) {
    var t := st.tables;
    && Distinct(Prints(t.alerts))
    && (forall r :: r in t.runs ==> r < st.nextRunId)
    && (forall i :: 0 <= i < |t.alerts| ==> Owned(t, t.alerts[i]))
    && (forall r :: r in t.runs ==> Accounted(t, r))
  }

  ghost predicate Owned(t: Tables, a: Alert) {
    && a.runId in t.runs && t.runs[a.runId].status == Completed
    && t.runs[a.runId].ruleId == a.fingerprint.ruleId && t.runs[a.runId].version == a.fingerprint.version
  }

  ghost predicate Accounted(t: Tables, r: nat)
    requires r in t.runs
  {
    && t.runs[r].alertsCreated == CountRun(t.alerts, r)
    && (t.runs[r].status != Completed ==> CountRun(t.alerts, r) == 0)
  }

  lemma NoAlertsYet(t: Tables, r: nat)
    requires r !in t.runs && forall i :: 0 <= i < |t.alerts| ==> Owned(t, t.alerts[i])
    ensures CountRun(t.alerts, r) == 0
  {
    forall i | 0 <= i < |t.alerts| ensures RunIds(t.alerts)[i] != r { assert Owned(t, t.alerts[i]); }
    assert r !in RunIds(t.alerts);
  }

  function CompletedRun(rule: Rule, start: int, end: int, scanned: nat, created: nat): Run {
    Header(rule, start, end).(status := Completed, eventsScanned := scanned, alertsCreated := created)
  }

  lemma {:induction false} CompletionOwned(t: Tables, events: seq<Event>, rule: Rule, logic: DetectionLogic,
                                           id: nat, run: Run, fs: seq<Firing>)
    requires id !in t.runs && forall i :: 0 <= i < |t.alerts| ==> Owned(t, t.alerts[i])
    requires run.status == Completed && run.ruleId == rule.id && run.version == rule.version
    ensures var alerts := RecordAll(t.alerts, events, rule, logic, id, fs);
      forall i :: 0 <= i < |alerts| ==> Owned(Tables(t.runs[id := run], alerts), alerts[i])
  {
    RecordAllEffect(t.alerts, events, rule, logic, id, fs);
    RecordAllRunIds(t.alerts, events, rule, logic, id, fs);
    var alerts := RecordAll(t.alerts, events, rule, logic, id, fs);
    forall i | 0 <= i < |alerts| ensures Owned(Tables(t.runs[id := run], alerts), alerts[i]) {
      if i < |t.alerts| { assert SameAlert(t.alerts[i], alerts[i]) && Owned(t, t.alerts[i]); }
      else { assert RunIds(alerts)[i] == id; }
    }
  }

  lemma {:induction false} CompletionKeepsSound(st: State, events: seq<Event>, rule: Rule, logic: DetectionLogic,
                             start: int, end: int, scanned: nat, fs: seq<Firing>)
    requires Sound(st)
    ensures var alerts := RecordAll(st.tables.alerts, events, rule, logic, st.nextRunId, fs);
      |st.tables.alerts| <= |alerts|
      && var run := CompletedRun(rule, start, end, scanned, |alerts| - |st.tables.alerts|);
      Sound(State(Tables(st.tables.runs[st.nextRunId := run], alerts), st.nextRunId + 1))
  {
    hide Owned, RecordAll, Prints, RunIds, Extends;
    var t, id := st.tables, st.nextRunId;
    RecordAllEffect(t.alerts, events, rule, logic, id, fs);
    NoAlertsYet(t, id);
    var alerts := RecordAll(t.alerts, events, rule, logic, id, fs);
    var run := CompletedRun(rule, start, end, scanned, |alerts| - |t.alerts|);
    CompletionOwned(t, events, rule, logic, id, run, fs);
    var after := Tables(t.runs[id := run], alerts);
    forall r | r in after.runs ensures Accounted(after, r) {
      CountAfter(t.alerts, events, rule, logic, id, fs, r);
      if r != id { assert Accounted(t, r); }
    }
  }

  lemma FailureKeepsSound(st: State, run: Run)
    requires Sound(st) && run.status != Completed && run.alertsCreated == 0
    ensures Sound(State(st.tables.(runs := st.tables.runs[st.nextRunId := run]), st.nextRunId + 1))
  {
    var t, id := st.tables, st.nextRunId;
    NoAlertsYet(t, id);
    var after := t.(runs := t.runs[id := run]);
    forall i | 0 <= i < |t.alerts| ensures Owned(after, t.alerts[i]) { assert Owned(t, t.alerts[i]); }
    forall r | r in after.runs ensures Accounted(after, r) {
      if r != id { assert Accounted(t, r); }
    }
  }

  /** The candidates of the operation's run, and what its rule reports on them. */
  function CandidatesAt(w: World, op: Op): seq<Event> {
    CandidatesOf(w.events, op.start, op.end, op.rule.maxEventsScanned)
  }

  function FiringsAt(w: World, op: Op): seq<Firing>
    requires ParseLogic(op.rule.structured).Some?
  {
    FiringsOf(w.cidr, w.repr, ParseLogic(op.rule.structured).value, CandidatesAt(w, op), op.start, op.end)
  }

  /** The `try` block of the operation's run ends in an exception. */
  predicate Fails(w: World, st: State, op: Op)
    requires ParseLogic(op.rule.structured).Some?
  {
    var logic := ParseLogic(op.rule.structured).value;
    || EvaluationRaises(w.cidr, logic, CandidatesAt(w, op), op.start, op.end)
    || Strikes(op.fault, |FiringsAt(w, op)|)
    || Refused(st.tables.alerts, w.events, op.rule, logic, st.nextRunId, FiringsAt(w, op))
  }

  /** The header of a run that does not complete, as it is left. */
  function LeftHeader(op: Op, scanned: nat): Run {
    var header := Header(op.rule, op.start, op.end);
    if op.fault.Stopped? then header else header.(status := Failed, eventsScanned := scanned)
  }

  /** The ways a real run that wrote its header can end. */
  lemma PerformForms(w: World, st: State, op: Op)
    requires WritesHeader(op.rule, op.start, op.end, op.dryRun)
    ensures var logic := ParseLogic(op.rule.structured).value;
      var cands := CandidatesAt(w, op);
      var fs := FiringsAt(w, op);
      var alerts := RecordAll(st.tables.alerts, w.events, op.rule, logic, st.nextRunId, fs);
      && |st.tables.alerts| <= |alerts|
      && Perform(w, st, op).0 ==
           if Fails(w, st, op) then
             st.tables.(runs := st.tables.runs[st.nextRunId := LeftHeader(op, |cands|)])
           else
             Tables(st.tables.runs[st.nextRunId :=
               CompletedRun(op.rule, op.start, op.end, |cands|, |alerts| - |st.tables.alerts|)], alerts)
  {
    hide FiringsOf, RecordAll, CandidatesOf, LogicOk, EvaluationRaises;
    var cands := CandidatesAt(w, op);
    var fs := FiringsAt(w, op);
    RecordAllGrows(st.tables.alerts, w.events, op.rule, ParseLogic(op.rule.structured).value, st.nextRunId, fs);
    var id, header := st.nextRunId, Header(op.rule, op.start, op.end);
    var alerts := RecordAll(st.tables.alerts, w.events, op.rule, ParseLogic(op.rule.structured).value, id, fs);
    var failed := LeftHeader(op, |cands|);
    var done := CompletedRun(op.rule, op.start, op.end, |cands|, |alerts| - |st.tables.alerts|);
    assert st.tables.runs[id := header][id := failed] == st.tables.runs[id := failed];
    assert st.tables.runs[id := header][id := done] == st.tables.runs[id := done];
  }

  lemma {:induction false} FormsKeepSound(st: State, next: Tables, events: seq<Event>, rule: Rule,
                                          logic: DetectionLogic,
                       start: int, end: int, scanned: nat, fs: seq<Firing>, left: Run)
    requires Sound(st)
    requires left.status != Completed && left.alertsCreated == 0
    requires var alerts := RecordAll(st.tables.alerts, events, rule, logic, st.nextRunId, fs);
      && |st.tables.alerts| <= |alerts|
      && (|| next == st.tables.(runs := st.tables.runs[st.nextRunId := left])
          || next == Tables(st.tables.runs[st.nextRunId :=
                CompletedRun(rule, start, end, scanned, |alerts| - |st.tables.alerts|)], alerts))
    ensures Sound(State(next, st.nextRunId + 1))
  {
    FailureKeepsSound(st, left);
    CompletionKeepsSound(st, events, rule, logic, start, end, scanned, fs);
  }

  lemma StepKeepsSound(w: World, st: State, op: Op)
    requires Sound(st)
    ensures Sound(Step(w, st, op))
  {
    hide FiringsOf, CandidatesOf, EvaluationRaises, Refused, RecordAll, Sound;
    if WritesHeader(op.rule, op.start, op.end, op.dryRun) {
      var cands := CandidatesAt(w, op);
      var fs := FiringsAt(w, op);
      PerformForms(w, st, op);
      FormsKeepSound(st, Perform(w, st, op).0, w.events, op.rule, ParseLogic(op.rule.structured).value,
                     op.start, op.end, |cands|, fs, LeftHeader(op, |cands|));
    }
  }

  /** Every history from an empty database keeps the invariant. */
  lemma {:induction false} HistorySound(w: World, ops: seq<Op>)
    ensures Sound(RunOps(w, EMPTY, ops))
  {
    if ops != [] {
      HistorySound(w, ops[..|ops| - 1]);
      StepKeepsSound(w, RunOps(w, EMPTY, ops[..|ops| - 1]), ops[|ops| - 1]);
    }
  }

  /** The operation is a real run, under id `r`, that was stopped after its header. */
  ghost predicate StoppedAs(st: State, op: Op, r: nat) {
    WritesHeader(op.rule, op.start, op.end, op.dryRun) && op.fault.Stopped? && st.nextRunId == r
  }

  ghost predicate StoppedBySome(w: World, ops: seq<Op>, r: nat) {
    exists j :: 0 <= j < |ops| && StoppedAs(RunOps(w, EMPTY, ops[..j]), ops[j], r)
  }

  lemma {:induction false} StoppedBySomeStep(w: World, ops: seq<Op>, r: nat)
    requires ops != []
    ensures var n := |ops| - 1;
      StoppedBySome(w, ops, r) <==> StoppedBySome(w, ops[..n], r) || StoppedAs(RunOps(w, EMPTY, ops[..n]), ops[n], r)
  {
    hide StoppedAs, RunOps;
    var n := |ops| - 1;
    assert forall j :: 0 <= j < n ==> ops[..n][..j] == ops[..j];
    if j :| 0 <= j < n && StoppedAs(RunOps(w, EMPTY, ops[..n][..j]), ops[..n][j], r) {
      assert StoppedAs(RunOps(w, EMPTY, ops[..j]), ops[j], r);
    }
    if j :| 0 <= j < |ops| && StoppedAs(RunOps(w, EMPTY, ops[..j]), ops[j], r) {
      if j < n { assert StoppedAs(RunOps(w, EMPTY, ops[..n][..j]), ops[..n][j], r); }
    }
  }

  ghost predicate StillRunning(t: Tables, r: nat) { r in t.runs && t.runs[r].status == Running }

  lemma RunningStep(w: World, st: State, op: Op, r: nat)
    requires Sound(st)
    ensures StillRunning(Step(w, st, op).tables, r) <==> StillRunning(st.tables, r) || StoppedAs(st, op, r)
  {
    hide FiringsOf, CandidatesOf, EvaluationRaises, Refused, RecordAll, Owned, Accounted;
    if WritesHeader(op.rule, op.start, op.end, op.dryRun) { PerformForms(w, st, op); }
  }

  /** In every history a run's header stays `running` exactly when the run was stopped;
      every other run is finalized. */
  lemma {:induction false} RunningExactly(w: World, ops: seq<Op>, r: nat)
    ensures StillRunning(RunOps(w, EMPTY, ops).tables, r) <==> StoppedBySome(w, ops, r)
  {
    if ops != [] {
      var n := |ops| - 1;
      RunningExactly(w, ops[..n], r);
      HistorySound(w, ops[..n]);
      RunningStep(w, RunOps(w, EMPTY, ops[..n]), ops[n], r);
      StoppedBySomeStep(w, ops, r);
      hide StoppedBySome, StoppedAs, Step, Sound, StillRunning;
    }
  }

  /** All or nothing: a run that does not complete leaves the alert table as it was and,
      once its header was written, leaves that header finalized as failed, or as it was if
      the run was stopped. */
  lemma ExecutionIsAtomic(w: World, st: State, op: Op)
    ensures var (t, o) := Perform(w, st, op);
      && (!o.Done? ==> t.alerts == st.tables.alerts)
      && (!WritesHeader(op.rule, op.start, op.end, op.dryRun) ==> t == st.tables && !o.Done?)
      && (WritesHeader(op.rule, op.start, op.end, op.dryRun) && !o.Done? ==>
            && t.runs.Keys == st.tables.runs.Keys + {st.nextRunId}
            && t.runs[st.nextRunId].status == if op.fault.Stopped? then Running else Failed)
      && (o.Done? ==> t.runs[o.runId].status == Completed && t.runs[o.runId].alertsCreated == |o.created|
                      && |t.alerts| == |st.tables.alerts| + |o.created|)
  {
    hide FiringsOf, CandidatesOf, EvaluationRaises, Refused, RecordAll;
    if WritesHeader(op.rule, op.start, op.end, op.dryRun) {
      var cands := CandidatesAt(w, op);
      var fs := FiringsAt(w, op);
      RecordAllGrows(st.tables.alerts, w.events, op.rule, ParseLogic(op.rule.structured).value, st.nextRunId, fs);
    }
  }

  // ---- Firings that cannot be stored ---------------------------------------

  /** A statement for this firing would raise: its evidence is too much to query, or it is
      new and cannot be stored. */
  ghost predicate Blocks(alerts: seq<Alert>, events: seq<Event>, rule: Rule, f: Firing) {
    || !Queryable(f)
    || (Rows(events, EvidenceIds(f)) != [] && PrintOf(rule, f) !in Prints(alerts) && !Storable(f))
  }

  lemma RefusesWhenNew(alerts: seq<Alert>, events: seq<Event>, rule: Rule, f: Firing)
    ensures Refuses(alerts, events, rule, f) <==> Blocks(alerts, events, rule, f)
  {
    var i := Find(alerts, PrintOf(rule, f));
    if i < |alerts| { assert Prints(alerts)[i] == PrintOf(rule, f); }
  }

  lemma {:induction false} RefusedExactly(alerts: seq<Alert>, events: seq<Event>, rule: Rule, logic: DetectionLogic,
                                          runId: nat, fs: seq<Firing>)
    ensures Refused(alerts, events, rule, logic, runId, fs) <==>
      exists i :: 0 <= i < |fs| && Blocks(alerts, events, rule, fs[i])
  {
    hide Prints, Storable, Rows, EvidenceIds, Queryable;
    if fs != [] {
      var n := |fs| - 1;
      var mid := RecordAll(alerts, events, rule, logic, runId, fs[..n]);
      RefusedExactly(alerts, events, rule, logic, runId, fs[..n]);
      RefusesWhenNew(mid, events, rule, fs[n]);
      RecordAllPrints(alerts, events, rule, logic, runId, fs[..n], PrintOf(rule, fs[n]));
      hide Refuses, RecordAll;
      forall i | 0 <= i < n ensures fs[..n][i] == fs[i] { }
    }
  }

  // ---- Replay --------------------------------------------------------------

  lemma StepExtends(w: World, st: State, op: Op)
    ensures Extends(st.tables.alerts, Step(w, st, op).tables.alerts)
  {
    hide FiringsOf, CandidatesOf, EvaluationRaises, Refused, RecordAll;
    if WritesHeader(op.rule, op.start, op.end, op.dryRun) {
      var cands := CandidatesAt(w, op);
      var fs := FiringsAt(w, op);
      RecordAllEffect(st.tables.alerts, w.events, op.rule, ParseLogic(op.rule.structured).value, st.nextRunId, fs);
    }
  }

  lemma {:induction false} RunOpsExtends(w: World, st: State, ops: seq<Op>)
    ensures Extends(st.tables.alerts, RunOps(w, st, ops).tables.alerts)
  {
    if ops != [] {
      var before := RunOps(w, st, ops[..|ops| - 1]);
      RunOpsExtends(w, st, ops[..|ops| - 1]);
      StepExtends(w, before, ops[|ops| - 1]);
      var a, b, c := st.tables.alerts, before.tables.alerts, RunOps(w, st, ops).tables.alerts;
      forall i | 0 <= i < |a| ensures SameAlert(a[i], c[i]) {
        assert SameAlert(a[i], b[i]) && SameAlert(b[i], c[i]);
      }
    }
  }

  lemma ExtendsKeepsPrints(a: seq<Alert>, b: seq<Alert>, fp: Fingerprint)
    requires Extends(a, b) && fp in Prints(a)
    ensures fp in Prints(b)
  {
    var i :| 0 <= i < |a| && Prints(a)[i] == fp;
    assert SameAlert(a[i], b[i]);
    assert Prints(b)[i] == fp;
  }

  lemma {:induction false} RecordNothingNew(alerts: seq<Alert>, events: seq<Event>, rule: Rule, logic: DetectionLogic,
                                            runId: nat, fs: seq<Firing>)
    requires forall fp :: Fired(events, rule, fs, fp) ==> fp in Prints(alerts)
    ensures |RecordAll(alerts, events, rule, logic, runId, fs)| == |alerts|
  {
    hide Record, Rows, PrintOf, EvidenceIds;
    if fs != [] {
      var n := |fs| - 1;
      forall fp | Fired(events, rule, fs[..n], fp) ensures fp in Prints(alerts) {
        var i :| 0 <= i < n && PrintOf(rule, fs[..n][i]) == fp && Rows(events, EvidenceIds(fs[..n][i])) != [];
        assert fs[i] == fs[..n][i];
        assert Fired(events, rule, fs, fp);
      }
      RecordNothingNew(alerts, events, rule, logic, runId, fs[..n]);
      RecordAllEffect(alerts, events, rule, logic, runId, fs[..n]);
      var mid := RecordAll(alerts, events, rule, logic, runId, fs[..n]);
      RecordEffect(mid, events, rule, logic, runId, fs[n]);
      if Rows(events, EvidenceIds(fs[n])) != [] {
        assert Fired(events, rule, fs, PrintOf(rule, fs[n]));
        ExtendsKeepsPrints(alerts, mid, PrintOf(rule, fs[n]));
      }
      assert |Prints(mid)| == |mid|;
      assert |Prints(RecordAll(alerts, events, rule, logic, runId, fs))| == |mid|;
    }
  }

  lemma NothingNewNothingRefused(alerts: seq<Alert>, events: seq<Event>, rule: Rule, logic: DetectionLogic,
                                 runId: nat, fs: seq<Firing>)
    requires forall fp :: Fired(events, rule, fs, fp) ==> fp in Prints(alerts)
    requires forall f :: f in fs ==> Queryable(f)
    ensures !Refused(alerts, events, rule, logic, runId, fs)
  {
    hide Prints, Storable, Rows, Queryable;
    RefusedExactly(alerts, events, rule, logic, runId, fs);
    forall i | 0 <= i < |fs| ensures !Blocks(alerts, events, rule, fs[i]) {
      if Rows(events, EvidenceIds(fs[i])) != [] { assert Fired(events, rule, fs, PrintOf(rule, fs[i])); }
    }
  }

  /** Re-running a window that once completed creates no alert, whatever ran in between,
      and completes unless the database fails it. */
  lemma {:induction false} ReplayCreatesNothing(w: World, st: State, op: Op, between: seq<Op>, again: Op)
    requires Perform(w, st, op).1.Done?
    requires again == op.(fault := again.fault, dryRun := false)
    ensures var later := RunOps(w, Step(w, st, op), between);
      && |Perform(w, later, again).0.alerts| == |later.tables.alerts|
      && (Perform(w, later, again).1.Done? ==> Perform(w, later, again).1.created == [])
      && (Perform(w, later, again).1.Done? <==> !Strikes(again.fault, |FiringsAt(w, op)|))
  {
    hide CandidatesOf, FiringsOf, EvaluationRaises, Refused, RecordAll, Fired, Prints;
    var logic := ParseLogic(op.rule.structured).value;
    var cands := CandidatesAt(w, op);
    var fs := FiringsAt(w, op);
    var first := Step(w, st, op);
    var later := RunOps(w, first, between);
    RecordAllEffect(st.tables.alerts, w.events, op.rule, logic, st.nextRunId, fs);
    RunOpsExtends(w, first, between);
    forall fp | Fired(w.events, op.rule, fs, fp) ensures fp in Prints(later.tables.alerts) {
      RecordAllPrints(st.tables.alerts, w.events, op.rule, logic, st.nextRunId, fs, fp);
      ExtendsKeepsPrints(first.tables.alerts, later.tables.alerts, fp);
    }
    RecordNothingNew(later.tables.alerts, w.events, op.rule, logic, later.nextRunId, fs);
    RefusedExactly(st.tables.alerts, w.events, op.rule, logic, st.nextRunId, fs);
    forall f | f in fs ensures Queryable(f) {
      var i :| 0 <= i < |fs| && fs[i] == f;
      assert !Blocks(st.tables.alerts, w.events, op.rule, fs[i]);
    }
    NothingNewNothingRefused(later.tables.alerts, w.events, op.rule, logic, later.nextRunId, fs);
  }

  // ---- Which alerts there are ----------------------------------------------

  /** The operation is a completed run, and it reports something with this fingerprint. */
  ghost predicate Fires(w: World, st: State, op: Op, fp: Fingerprint) {
    Perform(w, st, op).1.Done? && Fired(w.events, op.rule, FiringsAt(w, op), fp)
  }

  lemma StepPrints(w: World, st: State, op: Op, fp: Fingerprint)
    ensures fp in Prints(Step(w, st, op).tables.alerts) <==>
      fp in Prints(st.tables.alerts) || Fires(w, st, op, fp)
  {
    hide FiringsOf, CandidatesOf, EvaluationRaises, Refused, Fired, Prints, RecordAll;
    if WritesHeader(op.rule, op.start, op.end, op.dryRun) {
      RecordAllPrints(st.tables.alerts, w.events, op.rule, ParseLogic(op.rule.structured).value, st.nextRunId,
                      FiringsAt(w, op), fp);
    }
  }

  ghost predicate FiredBySome(w: World, ops: seq<Op>, fp: Fingerprint) {
    exists j :: 0 <= j < |ops| && Fires(w, RunOps(w, EMPTY, ops[..j]), ops[j], fp)
  }

  lemma {:induction false} FiredBySomeStep(w: World, ops: seq<Op>, fp: Fingerprint)
    requires ops != []
    ensures var n := |ops| - 1;
      FiredBySome(w, ops, fp) <==> FiredBySome(w, ops[..n], fp) || Fires(w, RunOps(w, EMPTY, ops[..n]), ops[n], fp)
  {
    hide Fires, RunOps;
    var n := |ops| - 1;
    assert forall j :: 0 <= j < n ==> ops[..n][..j] == ops[..j];
    if j :| 0 <= j < n && Fires(w, RunOps(w, EMPTY, ops[..n][..j]), ops[..n][j], fp) {
      assert Fires(w, RunOps(w, EMPTY, ops[..j]), ops[j], fp);
    }
    if j :| 0 <= j < |ops| && Fires(w, RunOps(w, EMPTY, ops[..j]), ops[j], fp) {
      if j < n { assert Fires(w, RunOps(w, EMPTY, ops[..n][..j]), ops[..n][j], fp); }
    }
  }

  /** Over any series of overlapping, repeated, dry or failing runs, a fingerprint has an
      alert exactly when some completed run reported it. (`HistorySound` makes that alert
      unique.) */
  lemma {:induction false} AlertedExactly(w: World, ops: seq<Op>, fp: Fingerprint)
    ensures fp in Prints(RunOps(w, EMPTY, ops).tables.alerts) <==> FiredBySome(w, ops, fp)
  {
    hide Fires, Step;
    if ops != [] {
      hide Prints, FiredBySome;
      var n := |ops| - 1;
      AlertedExactly(w, ops[..n], fp);
      StepPrints(w, RunOps(w, EMPTY, ops[..n]), ops[n], fp);
      FiredBySomeStep(w, ops, fp);
    }
  }

  /** All operations on this rule version carry the same logic. */
  ghost predicate Consistent(ops: seq<Op>, rule: Rule, logic: DetectionLogic) {
    forall i :: 0 <= i < |ops| && ops[i].rule.id == rule.id && ops[i].rule.version == rule.version ==>
      ops[i].rule.structured == Some(logic)
  }

  /** The operation is a completed run of this rule version. */
  ghost predicate Completes(w: World, rule: Rule, st: State, op: Op) {
    Perform(w, st, op).1.Done? && op.rule.id == rule.id && op.rule.version == rule.version
  }

  lemma FiringOfSameRule(w: World, rule: Rule, st: State, op: Op, f: Firing)
    requires Fires(w, st, op, PrintOf(rule, f))
    ensures Completes(w, rule, st, op)
  { }

  // ---- One alert per matching event ----------------------------------------

  lemma {:induction false} SingleFiringsMembers(cidr: Cidr, c: Condition, events: seq<Event>, f: Firing)
    ensures f in SingleFirings(cidr, c, events) <==>
      exists e :: e in events && Matches(cidr, e, c) && f == SingleFiring(e.id, MatchEvent(cidr, e, c))
  {
    if events != [] {
      SingleFiringsMembers(cidr, c, events[..|events| - 1], f);
      assert events == events[..|events| - 1] + [events[|events| - 1]];
      hide MatchEvent;
    }
  }

  /** What a single rule reports on this event. */
  function EventFiring(w: World, c: Condition, e: Event): Firing { SingleFiring(e.id, MatchEvent(w.cidr, e, c)) }

  lemma CandidateIsStored(w: World, op: Op)
    requires op.start < op.end
    ensures forall e :: e in CandidatesAt(w, op) ==> e in w.events && op.start <= e.time < op.end
  {
    var a, b := CandidatesAreSlice(w.events, op.start, op.end, op.rule.maxEventsScanned);
    OrderedProperties(w.events);
    SameMembers(Ordered(w.events), w.events);
    CandidatesInWindow(w.events, op.start, op.end, op.rule.maxEventsScanned);
  }

  lemma {:induction false} RowsOfKnownId(events: seq<Event>, ids: set<string>, e: Event)
    requires e in events && e.id in ids
    ensures Rows(events, ids) != []
  {
    if events[0].id !in ids { RowsOfKnownId(events[1..], ids, e); }
  }

  lemma EventFiredExactly(w: World, rule: Rule, c: Condition, st: State, op: Op, e: Event)
    requires UniqueIds(w.events) && e in w.events && Consistent([op], rule, SingleRule(c))
    ensures Fires(w, st, op, PrintOf(rule, EventFiring(w, c, e))) <==>
      Completes(w, rule, st, op) && Matches(w.cidr, e, c) && e in CandidatesAt(w, op)
  {
    hide CandidatesOf, EvaluationRaises, Refused, MatchEvent, Rows;
    if Completes(w, rule, st, op) {
      assert [op][0] == op;
      CandidateIsStored(w, op);
      var fs, f := FiringsAt(w, op), EventFiring(w, c, e);
      SingleFiringsMembers(w.cidr, c, CandidatesAt(w, op), f);
      RowsOfKnownId(w.events, EvidenceIds(f), e);
      if f in fs {
        var i :| 0 <= i < |fs| && fs[i] == f;
        assert PrintOf(op.rule, fs[i]) == PrintOf(rule, f);
      }
    }
  }

  /** Over any series of runs, an event has its alert exactly when it matches and some
      completed run of the rule version had it among its candidates. */
  lemma {:induction false} EventAlertedExactly(w: World, rule: Rule, c: Condition, ops: seq<Op>, e: Event)
    requires UniqueIds(w.events) && e in w.events && Consistent(ops, rule, SingleRule(c))
    ensures PrintOf(rule, EventFiring(w, c, e)) in Prints(RunOps(w, EMPTY, ops).tables.alerts) <==>
      && Matches(w.cidr, e, c)
      && (exists j :: 0 <= j < |ops| && Completes(w, rule, RunOps(w, EMPTY, ops[..j]), ops[j])
                        && e in CandidatesAt(w, ops[j]))
  {
    hide Fires, Completes, CandidatesAt, MatchEvent, Prints;
    var fp := PrintOf(rule, EventFiring(w, c, e));
    AlertedExactly(w, ops, fp);
    forall j | 0 <= j < |ops|
      ensures Fires(w, RunOps(w, EMPTY, ops[..j]), ops[j], fp) <==>
        Completes(w, rule, RunOps(w, EMPTY, ops[..j]), ops[j]) && Matches(w.cidr, e, c) && e in CandidatesAt(w, ops[j])
    {
      assert Consistent([ops[j]], rule, SingleRule(c)) by { assert [ops[j]][0] == ops[j]; }
      EventFiredExactly(w, rule, c, RunOps(w, EMPTY, ops[..j]), ops[j], e);
    }
  }

  // ---- When a run completes ------------------------------------------------

  lemma FaultFreeOutcome(w: World, st: State, op: Op)
    requires WritesHeader(op.rule, op.start, op.end, op.dryRun) && op.fault.NoFault?
    ensures Perform(w, st, op).1.Done? <==> forall f :: f in FiringsAt(w, op) ==>
      !Blocks(st.tables.alerts, w.events, op.rule, f)
  {
    hide FiringsOf, CandidatesOf, EvaluationRaises, Refused, Blocks, RecordAll;
    CandidateIsStored(w, op);
    StoredRulesNeverRaise(w.cidr, op.rule, CandidatesAt(w, op), op.start, op.end);
    RefusedExactly(st.tables.alerts, w.events, op.rule, ParseLogic(op.rule.structured).value, st.nextRunId,
                   FiringsAt(w, op));
    assert forall f :: f in FiringsAt(w, op) <==> exists i :: 0 <= i < |FiringsAt(w, op)| && FiringsAt(w, op)[i] == f;
  }

  /** No alert ever shows a datetime, or a label with a NUL. */
  lemma {:induction false} AlertsAreStorable(w: World, ops: seq<Op>, fp: Fingerprint)
    requires fp in Prints(RunOps(w, EMPTY, ops).tables.alerts)
    ensures Storable(fp.firing)
  {
    if ops != [] {
      hide Storable, Queryable, Prints, FiringsOf, CandidatesOf, EvaluationRaises, Refused, RecordAll;
      var n := |ops| - 1;
      var st, op := RunOps(w, EMPTY, ops[..n]), ops[n];
      StepPrints(w, st, op, fp);
      if fp in Prints(st.tables.alerts) {
        AlertsAreStorable(w, ops[..n], fp);
      } else {
        var fs := FiringsAt(w, op);
        RefusedExactly(st.tables.alerts, w.events, op.rule, ParseLogic(op.rule.structured).value, st.nextRunId, fs);
        var i :| 0 <= i < |fs| && PrintOf(op.rule, fs[i]) == fp && Rows(w.events, EvidenceIds(fs[i])) != [];
        assert !Blocks(st.tables.alerts, w.events, op.rule, fs[i]);
      }
    }
  }

  /** Some candidate matches the single rule `c` on a field that holds a datetime. */
  ghost predicate MatchesOnTime(w: World, c: Condition, op: Op) {
    exists e :: e in CandidatesAt(w, op) && Matches(w.cidr, e, c) && HoldsTime(e, c)
  }

  lemma SingleBlocksExactly(w: World, alerts: seq<Alert>, c: Condition, op: Op)
    requires ParseLogic(op.rule.structured) == Some(SingleRule(c)) && op.start < op.end
    requires forall fp :: fp in Prints(alerts) ==> Storable(fp.firing)
    ensures (exists f :: f in FiringsAt(w, op) && Blocks(alerts, w.events, op.rule, f)) <==> MatchesOnTime(w, c, op)
  {
    hide MatchEvent, Rows, HoldsTime, CandidatesOf, Prints;
    CandidateIsStored(w, op);
    assert JsonCondition(Conditions(SingleRule(c))[0]);
    forall e | e in CandidatesAt(w, op)
      ensures Blocks(alerts, w.events, op.rule, EventFiring(w, c, e)) <==> HoldsTime(e, c)
      ensures Matches(w.cidr, e, c) ==> EventFiring(w, c, e) in FiringsAt(w, op)
    {
      ShowsTimeExactly(w.cidr, e, c);
      RowsOfKnownId(w.events, EvidenceIds(EventFiring(w, c, e)), e);
      SingleFiringsMembers(w.cidr, c, CandidatesAt(w, op), EventFiring(w, c, e));
    }
    hide Blocks;
    if f :| f in FiringsAt(w, op) && Blocks(alerts, w.events, op.rule, f) {
      SingleFiringsMembers(w.cidr, c, CandidatesAt(w, op), f);
    }
  }

  /** Some reported bucket holds more evidence than one statement can query. */
  ghost predicate TooMuchEvidence(w: World, t: ThresholdLogic, op: Op)
    requires T.Duration(t) > 0
  {
    exists m :: m in T.Firings(RowView(w.cidr), w.repr, t, op.start, op.end, CandidatesAt(w, op))
      && |IdSet(m.evidence)| > 65_535
  }

  function IdSet(ids: seq<string>): set<string> { set id | id in ids }

  lemma ThresholdBlocksExactly(w: World, alerts: seq<Alert>, t: ThresholdLogic, op: Op)
    requires ParseLogic(op.rule.structured) == Some(ThresholdRule(t))
    ensures (exists f :: f in FiringsAt(w, op) && Blocks(alerts, w.events, op.rule, f)) <==> TooMuchEvidence(w, t, op)
  {
    hide T.Firings, CandidatesOf, Rows, Prints;
    DurationPositive(t);
    var ms := T.Firings(RowView(w.cidr), w.repr, t, op.start, op.end, CandidatesAt(w, op));
    var fs := ThresholdFirings(ms);
    assert FiringsAt(w, op) == fs;
    forall i | 0 <= i < |ms|
      ensures Blocks(alerts, w.events, op.rule, fs[i]) <==> |IdSet(ms[i].evidence)| > MAX_PARAMETERS
    {
      assert EvidenceIds(fs[i]) == IdSet(ms[i].evidence);
    }
    hide Blocks, IdSet;
    if f :| f in fs && Blocks(alerts, w.events, op.rule, f) {
      var i :| 0 <= i < |fs| && fs[i] == f;
      assert ms[i] in ms;
    }
    if m :| m in ms && |IdSet(m.evidence)| > MAX_PARAMETERS {
      var i :| 0 <= i < |ms| && ms[i] == m;
      assert fs[i] in fs;
    }
  }

  lemma DurationPositive(t: ThresholdLogic)
    requires t.windowSeconds > 0
    ensures T.Duration(t) > 0
  { }

  /** A stage label, which validation bounds in length only, holds a NUL. */
  ghost predicate HasNulLabel(q: SequenceLogic) {
    exists k :: 0 <= k < |q.stages| && q.stages[k].tag.Some? && '\0' in q.stages[k].tag.value
  }

  ghost predicate ReportsSomething(w: World, q: SequenceLogic, op: Op) {
    S.Reported(RowView(w.cidr), Ordered(CandidatesAt(w, op)), q, 0, {}) != []
  }

  lemma DefaultTagIsPlain(stage: Stage, k: nat)
    requires stage.tag.None?
    ensures NoNul(S.StageTag(stage, k))
  {
    if k < 9 {
      assert S.DIGIT_CHARS[k + 1] != '\0';
      var tag := S.StageTag(stage, k);
      assert tag == "stage_" + [S.DIGIT_CHARS[k + 1]];
    }
  }

  lemma NoNulExactly(s: string)
    ensures NoNul(s) <==> '\0' !in s
  { }

  lemma NulLabelIsUsed(q: SequenceLogic)
    ensures HasNulLabel(q) <==> exists tag :: W.TagUsed(q.stages, |q.stages|, tag) && !NoNul(tag)
  {
    hide NoNul;
    forall s ensures NoNul(s) <==> '\0' !in s { NoNulExactly(s); }
    if k :| 0 <= k < |q.stages| && q.stages[k].tag.Some? && '\0' in q.stages[k].tag.value {
      assert S.StageTag(q.stages[k], k) == q.stages[k].tag.value;
      assert W.TagUsed(q.stages, |q.stages|, q.stages[k].tag.value);
    }
    if tag :| W.TagUsed(q.stages, |q.stages|, tag) && !NoNul(tag) {
      var k :| 0 <= k < |q.stages| && S.StageTag(q.stages[k], k) == tag;
      if q.stages[k].tag.None? { DefaultTagIsPlain(q.stages[k], k); }
    }
  }

  lemma ReportIsStorableExactly(view: View, ord: seq<Event>, q: SequenceLogic, s: nat, m: S.SequenceMatch)
    requires S.Staged(q) && s < |ord| && S.MatchAt(view, ord, q, s) == Some(m)
    ensures Storable(SequenceFiring(m.correlation, m.evidence)) <==> !HasNulLabel(q)
  {
    NulLabelIsUsed(q);
    hide S.MatchAt, S.Staged, NoNul, HasNulLabel, W.TagUsed;
    forall tag ensures W.HasTag(m.evidence, tag) <==> W.TagUsed(q.stages, |q.stages|, tag) {
      W.LabelsOfReport(view, ord, q, s, tag);
    }
    forall i | 0 <= i < |m.evidence| ensures W.HasTag(m.evidence, m.evidence[i].tag) { }
    if tag :| W.HasTag(m.evidence, tag) && !NoNul(tag) {
      var i :| 0 <= i < |m.evidence| && m.evidence[i].tag == tag;
    }
  }

  lemma ListedInStages(stages: seq<S.StageEvidence>, i: nat, j: nat)
    requires i < |stages| && j < |stages[i].ids|
    ensures stages[i].ids[j] in StageIds(stages)
  { }

  lemma ListedId(stages: seq<S.StageEvidence>, k: nat, id: string)
    requires k < |stages| && id in stages[k].ids
    ensures id in StageIds(stages)
  {
    var j :| 0 <= j < |stages[k].ids| && stages[k].ids[j] == id;
    ListedInStages(stages, k, j);
  }

  /** At most eight stages of at most a hundred events each. */
  lemma {:induction false} StageIdsFew(stages: seq<S.StageEvidence>)
    requires forall i :: 0 <= i < |stages| ==> |stages[i].ids| <= MAX_PREDICATES
    ensures |StageIds(stages)| <= |stages| * MAX_PREDICATES
  {
    if stages != [] {
      var n := |stages| - 1;
      StageIdsFew(stages[..n]);
      var last := IdSet(stages[n].ids);
      IdSetSize(stages[n].ids);
      StageIdsSplit(stages);
      assert |StageIds(stages)| <= |StageIds(stages[..n])| + |last|;
    } else {
      assert StageIds(stages) == {};
    }
  }

  lemma StageIdsSplit(stages: seq<S.StageEvidence>)
    requires stages != []
    ensures var n := |stages| - 1; StageIds(stages) == StageIds(stages[..n]) + IdSet(stages[n].ids)
  {
    var n := |stages| - 1;
    forall id ensures id in StageIds(stages) <==> id in StageIds(stages[..n]) || id in IdSet(stages[n].ids) {
      if id in StageIds(stages) {
        var i, j :| 0 <= i < |stages| && 0 <= j < |stages[i].ids| && stages[i].ids[j] == id;
        if i < n { ListedInStages(stages[..n], i, j); }
      }
      if id in StageIds(stages[..n]) {
        var i, j :| 0 <= i < n && 0 <= j < |stages[..n][i].ids| && stages[..n][i].ids[j] == id;
        ListedInStages(stages, i, j);
      }
      if id in IdSet(stages[n].ids) { ListedId(stages, n, id); }
    }
  }

  lemma {:induction false} IdSetSize(ids: seq<string>)
    ensures |IdSet(ids)| <= |ids|
  {
    if ids != [] {
      var n := |ids| - 1;
      IdSetSize(ids[..n]);
      assert IdSet(ids) == IdSet(ids[..n]) + {ids[n]} by { assert ids == ids[..n] + [ids[n]]; }
    }
  }

  lemma ReportIsFew(view: View, ord: seq<Event>, q: SequenceLogic, s: nat, m: S.SequenceMatch)
    requires SequenceOk(q) && s < |ord| && S.MatchAt(view, ord, q, s) == Some(m)
    ensures |StageIds(m.evidence)| <= MAX_PARAMETERS
  {
    StagedWhenOk(q);
    assert forall k :: 0 <= k < |q.stages| ==> StageOk(q.stages[k]);
    hide S.MatchAt, StageIds, S.Staged;
    forall i | 0 <= i < |m.evidence| ensures |m.evidence[i].ids| <= MAX_PREDICATES {
      var k := W.EntryOfReport(view, ord, q, s, m.evidence[i]);
      assert StageOk(q.stages[k]);
    }
    ReportSize(view, ord, q, s, m);
    StageIdsFew(m.evidence);
  }

  lemma ReportNamesEvent(view: View, ord: seq<Event>, q: SequenceLogic, s: nat, m: S.SequenceMatch)
    returns (p: nat)
    requires S.Staged(q) && s < |ord| && S.MatchAt(view, ord, q, s) == Some(m)
    ensures p < |ord| && ord[p].id in StageIds(m.evidence)
  {
    ReportSize(view, ord, q, s, m);
    var k := W.EntryOfReport(view, ord, q, s, m.evidence[0]);
    hide S.MatchAt, StageIds;
    ListedInStages(m.evidence, 0, 0);
    var id := m.evidence[0].ids[0];
    assert id in m.evidence[0].ids;
    p :| 0 <= p < |ord| && ord[p].id == id;
  }

  /** A sequence report's evidence is few, and some of it is in the store. */
  lemma ReportHasRows(w: World, op: Op, q: SequenceLogic, s: nat, m: S.SequenceMatch)
    requires SequenceOk(q) && op.start < op.end && s < |Ordered(CandidatesAt(w, op))|
    requires S.MatchAt(RowView(w.cidr), Ordered(CandidatesAt(w, op)), q, s) == Some(m)
    ensures var f := SequenceFiring(m.correlation, m.evidence);
      Queryable(f) && Rows(w.events, EvidenceIds(f)) != []
  {
    hide S.MatchAt, Ordered, CandidatesOf, RowView, StageIds, Rows, SequenceOk, S.Staged;
    var view, ord := RowView(w.cidr), Ordered(CandidatesAt(w, op));
    StagedWhenOk(q);
    CandidateIsStored(w, op);
    OrderedProperties(CandidatesAt(w, op));
    SameMembers(ord, CandidatesAt(w, op));
    ReportIsFew(view, ord, q, s, m);
    var p := ReportNamesEvent(view, ord, q, s, m);
    assert ord[p] in ord;
    RowsOfKnownId(w.events, StageIds(m.evidence), ord[p]);
  }

  lemma ReportSize(view: View, ord: seq<Event>, q: SequenceLogic, s: nat, m: S.SequenceMatch)
    requires S.Staged(q) && s < |ord| && S.MatchAt(view, ord, q, s) == Some(m)
    ensures 0 < |m.evidence| <= |q.stages|
  {
    assert S.Chain(view, ord, q, s).Some?;
    hide S.MatchAt, S.StageTag, S.EvidenceOf, S.Split, S.Chain, W.TagUsed, W.HasTag;
    X.ReportIsAboutTheChain(view, ord, q, s);
    W.EvidenceCompleteExactly(q.stages, X.StageEvents(ord, S.Split(q.stages, S.Chain(view, ord, q, s).value)));
    var tag := S.StageTag(q.stages[0], 0);
    W.LabelsOfReport(view, ord, q, s, tag);
    FirstTagIsUsed(q.stages);
    if m.evidence == [] { NothingHasTag(tag); }
  }

  lemma FirstTagIsUsed(stages: seq<Stage>)
    requires stages != []
    ensures W.TagUsed(stages, |stages|, S.StageTag(stages[0], 0))
  { }

  lemma NothingHasTag(tag: string)
    ensures !W.HasTag([], tag)
  { }

  lemma SequenceBlocksExactly(w: World, alerts: seq<Alert>, q: SequenceLogic, op: Op)
    requires ParseLogic(op.rule.structured) == Some(SequenceRule(q)) && op.start < op.end
    requires forall fp :: fp in Prints(alerts) ==> Storable(fp.firing)
    ensures (exists f :: f in FiringsAt(w, op) && Blocks(alerts, w.events, op.rule, f)) <==>
      HasNulLabel(q) && ReportsSomething(w, q, op)
  {
    hide S.Reported, S.MatchAt, CandidatesOf, Ordered, RowView, Rows, Prints, Storable, Queryable, HasNulLabel;
    var view, ord := RowView(w.cidr), Ordered(CandidatesAt(w, op));
    var ms := S.Reported(view, ord, q, 0, {});
    var fs := SequenceFirings(ms);
    assert FiringsAt(w, op) == fs && SequenceOk(q);
    hide SequenceOk;
    forall i | 0 <= i < |ms| ensures Blocks(alerts, w.events, op.rule, fs[i]) <==> HasNulLabel(q) {
      assert ms[i] in ms;
      var s := W.ReportedMember(view, ord, q, 0, {}, ms[i]);
      StagedWhenOk(q);
      ReportHasRows(w, op, q, s, ms[i]);
      ReportIsStorableExactly(view, ord, q, s, ms[i]);
    }
    hide Blocks;
    if ms != [] { assert fs[0] in fs; }
    if f :| f in fs && Blocks(alerts, w.events, op.rule, f) { var i :| 0 <= i < |fs| && fs[i] == f; }
  }

  /** What makes a run of this operation fail by itself. */
  ghost predicate Hindered(w: World, op: Op)
    requires ParseLogic(op.rule.structured).Some?
  {
    match ParseLogic(op.rule.structured).value
    case SingleRule(c) => MatchesOnTime(w, c, op)
    case ThresholdRule(t) => TooMuchEvidence(w, t, op)
    case SequenceRule(q) => HasNulLabel(q) && ReportsSomething(w, q, op)
  }

  /** In every history, a run that passes the checks and meets no fault completes, except in
      three cases: a single rule matches a candidate on a field that holds a datetime, which
      the explanation then shows; a threshold rule reports more evidence than one query
      takes; or a sequence rule with a NUL in a label reports anything. */
  lemma RunCompletesExactly(w: World, ops: seq<Op>, op: Op)
    requires WritesHeader(op.rule, op.start, op.end, op.dryRun) && op.fault.NoFault?
    ensures Perform(w, RunOps(w, EMPTY, ops), op).1.Done? <==> !Hindered(w, op)
  {
    hide Perform, Prints, Storable, MatchesOnTime, TooMuchEvidence, HasNulLabel, ReportsSomething, Blocks, CandidatesOf;
    var st := RunOps(w, EMPTY, ops);
    FaultFreeOutcome(w, st, op);
    forall fp | fp in Prints(st.tables.alerts) ensures Storable(fp.firing) { AlertsAreStorable(w, ops, fp); }
    match ParseLogic(op.rule.structured).value {
      case SingleRule(c) => SingleBlocksExactly(w, st.tables.alerts, c, op);
      case ThresholdRule(t) => ThresholdBlocksExactly(w, st.tables.alerts, t, op);
      case SequenceRule(q) => SequenceBlocksExactly(w, st.tables.alerts, q, op);
    }
  }

  const HAS_TIMESTAMP := SingleRule(Leaf(Exists, Timestamp, NoValue))

  /** The rule `exists(timestamp)` passes validation and matches every event, and each real
      run of it that has a candidate fails. */
  lemma TimestampRuleAlwaysFails(w: World, ops: seq<Op>, op: Op)
    requires op.rule.structured == Some(HAS_TIMESTAMP)
    requires WritesHeader(op.rule, op.start, op.end, op.dryRun) && CandidatesAt(w, op) != []
    ensures ParseLogic(Some(HAS_TIMESTAMP)).Some?
    ensures Perform(w, RunOps(w, EMPTY, ops), op).1 == Raised
  {
    var c, e := HAS_TIMESTAMP.condition, CandidatesAt(w, op)[0];
    assert Mentions(c, Timestamp) && e in CandidatesAt(w, op) && Matches(w.cidr, e, c);
    assert HoldsTime(e, c) by { assert e.Get(Timestamp) == Some(Time(e.time)); }
    assert MatchesOnTime(w, c, op);
    hide MatchesOnTime, CandidatesOf, FiringsOf, EvaluationRaises, Refused, RecordAll;
    RunCompletesExactly(w, ops, op.(fault := NoFault));
    FaultsDoNotHelp(w, RunOps(w, EMPTY, ops), op);
  }

  lemma FaultsDoNotHelp(w: World, st: State, op: Op)
    requires WritesHeader(op.rule, op.start, op.end, op.dryRun)
    ensures Perform(w, st, op).1.Done? ==> Perform(w, st, op.(fault := NoFault)).1.Done?
    ensures Perform(w, st, op).1.Done? || Perform(w, st, op).1 == Raised
  {
    hide CandidatesOf, FiringsOf, EvaluationRaises, Refused, RecordAll;
  }

  // ---- Rules that make runs fail -------------------------------------------

  /** A scan of no more events than one query takes values cannot fail in this way. */
  lemma SmallScansFit(w: World, t: ThresholdLogic, op: Op)
    requires ThresholdOk(t) && op.rule.maxEventsScanned <= 65_535
    ensures !TooMuchEvidence(w, t, op)
  {
    DurationPositive(t);
    var view, cands := RowView(w.cidr), CandidatesAt(w, op);
    assert |cands| <= op.rule.maxEventsScanned;
    hide T.Firings, CandidatesOf, RowView;
    forall m | m in T.Firings(view, w.repr, t, op.start, op.end, cands) ensures |IdSet(m.evidence)| <= MAX_PARAMETERS {
      T.EvidenceSize(view, w.repr, t, op.start, op.end, cands, m);
      IdSetSize(m.evidence);
    }
  }

  /** A rule that counts all events of a day. */
  const COUNT_ALL := ThresholdLogic(Leaf(Exists, EventId, NoValue), [], 86_400, 1, None)

  lemma {:induction false} UniqueIdSetSize(events: seq<Event>)
    requires UniqueIds(events)
    ensures |IdSet(Ids(events))| == |events|
  {
    if events != [] {
      var n := |events| - 1;
      UniqueIdSetSize(events[..n]);
      assert Ids(events) == Ids(events[..n]) + [events[n].id];
      assert IdSet(Ids(events)) == IdSet(Ids(events[..n])) + {events[n].id};
      assert events[n].id !in IdSet(Ids(events[..n])) by {
        forall i | 0 <= i < n ensures Ids(events[..n])[i] != events[n].id { }
      }
    } else {
      assert IdSet(Ids(events)) == {};
    }
  }

  lemma CandidatesAreUnique(w: World, op: Op)
    requires UniqueIds(w.events) && op.start < op.end
    ensures UniqueIds(CandidatesAt(w, op))
  {
    var a, b := CandidatesAreSlice(w.events, op.start, op.end, op.rule.maxEventsScanned);
    OrderedProperties(w.events);
    SliceIsOrdered(Ordered(w.events), a, b);
  }

  /** Validation lets this rule scan 100000 events; each run that finds more than 65535
      within a day fails. */
  lemma BusyDayFails(w: World, ops: seq<Op>, op: Op)
    requires UniqueIds(w.events) && op.rule.structured == Some(ThresholdRule(COUNT_ALL))
    requires WritesHeader(op.rule, op.start, op.end, op.dryRun) && op.end - op.start <= 86_400 * MICROS
    requires |CandidatesAt(w, op)| > 65_535
    ensures ParseLogic(Some(ThresholdRule(COUNT_ALL))).Some?
    ensures Perform(w, RunOps(w, EMPTY, ops), op).1 == Raised
  {
    var view, cands := RowView(w.cidr), CandidatesAt(w, op);
    CandidateIsStored(w, op);
    CandidatesAreUnique(w, op);
    OrderedProperties(cands);
    SameMembers(Ordered(cands), cands);
    UniqueIdSetSize(Ordered(cands));
    assert T.Duration(COUNT_ALL) == 86_400 * MICROS;
    forall e | e in cands ensures view.hit(e, COUNT_ALL.condition) { assert e.Get(EventId).Some?; }
    hide CandidatesOf, T.Firings, RowView;
    var m := T.FirstBucketFires(view, w.repr, COUNT_ALL, op.start, op.end, cands);
    assert TooMuchEvidence(w, COUNT_ALL, op);
    hide TooMuchEvidence, FiringsOf, EvaluationRaises, Refused, RecordAll, Ordered;
    RunCompletesExactly(w, ops, op.(fault := NoFault));
    FaultsDoNotHelp(w, RunOps(w, EMPTY, ops), op);
  }

  const NUL_LABELLED := SequenceLogic([Stage(Leaf(Exists, EventId, NoValue), Some("a\0b"), 1)], [], 60)

  lemma NulLabelReports(view: View, ord: seq<Event>)
    requires ord != [] && forall e :: view.hit(e, Leaf(Exists, EventId, NoValue))
    ensures S.Reported(view, ord, NUL_LABELLED, 0, {}) != []
  {
    var c := Leaf(Exists, EventId, NoValue);
    assert S.Slots(NUL_LABELLED.stages) == [c] by {
      assert NUL_LABELLED.stages[1..] == [] && S.Repeat(1, c) == [c];
    }
    assert S.Starts(view, NUL_LABELLED, ord[0]) && [c][1..] == [];
    assert S.Chain(view, ord, NUL_LABELLED, 0).Some?;
    assert S.MatchAt(view, ord, NUL_LABELLED, 0).Some?;
    hide S.MatchAt, S.Chain;
  }

  /** Validation takes the label, and each run of the rule that has a candidate fails. */
  lemma NulLabelAlwaysFails(w: World, ops: seq<Op>, op: Op)
    requires op.rule.structured == Some(SequenceRule(NUL_LABELLED))
    requires WritesHeader(op.rule, op.start, op.end, op.dryRun) && CandidatesAt(w, op) != []
    ensures ParseLogic(Some(SequenceRule(NUL_LABELLED))).Some?
    ensures Perform(w, RunOps(w, EMPTY, ops), op).1 == Raised
  {
    var view, cands := RowView(w.cidr), CandidatesAt(w, op);
    OrderedProperties(cands);
    SameMembers(Ordered(cands), cands);
    forall e ensures view.hit(e, Leaf(Exists, EventId, NoValue)) { assert e.Get(EventId).Some?; }
    assert NUL_LABELLED.stages[0].tag.value[1] == '\0';
    assert HasNulLabel(NUL_LABELLED);
    hide CandidatesOf, RowView, Ordered, S.Reported, HasNulLabel;
    NulLabelReports(view, Ordered(cands));
    assert ReportsSomething(w, NUL_LABELLED, op);
    hide ReportsSomething, FiringsOf, EvaluationRaises, Refused, RecordAll;
    RunCompletesExactly(w, ops, op.(fault := NoFault));
    FaultsDoNotHelp(w, RunOps(w, EMPTY, ops), op);
  }

  // ---- One alert per chain, over any series of windows ----------------------

  /** The fingerprint of the chain that starts at position `s` of the full history. */
  ghost function ChainPrint(rule: Rule, m: S.SequenceMatch): Fingerprint {
    PrintOf(rule, SequenceFiring(m.correlation, m.evidence))
  }

  /** The first and last event of the chain from `s` are among the operation's candidates. */
  ghost predicate Holds(w: World, q: SequenceLogic, op: Op, s: nat) {
    W.InCandidates(RowView(w.cidr), w.events, q, op.start, op.end, op.rule.maxEventsScanned, s)
  }

  lemma ChainHasRows(w: World, q: SequenceLogic, s: nat, m: S.SequenceMatch)
    requires S.Staged(q) && W.DistinctTags(q.stages) && s < |Ordered(w.events)|
    requires S.MatchAt(RowView(w.cidr), Ordered(w.events), q, s) == Some(m)
    ensures Rows(w.events, EvidenceIds(SequenceFiring(m.correlation, m.evidence))) != []
  {
    hide S.MatchAt, S.Staged, W.DistinctTags, Ordered, Rows, StageIds;
    var ord := Ordered(w.events);
    W.FirstIdIsStart(RowView(w.cidr), ord, q, s);
    OrderedProperties(w.events);
    SameMembers(ord, w.events);
    assert ord[s] in ord;
    ListedInStages(m.evidence, 0, 0);
    RowsOfKnownId(w.events, StageIds(m.evidence), ord[s]);
  }

  /** Two chains of the history with the same evidence are the same chain. */
  lemma EvidenceNamesChain(w: World, q: SequenceLogic, s: nat, t: nat)
    requires S.Staged(q) && W.DistinctTags(q.stages) && UniqueIds(w.events)
    requires s < |Ordered(w.events)| && t < |Ordered(w.events)|
    requires var view, ord := RowView(w.cidr), Ordered(w.events);
      && S.MatchAt(view, ord, q, s).Some? && S.MatchAt(view, ord, q, t).Some?
      && S.MatchAt(view, ord, q, s).value.evidence == S.MatchAt(view, ord, q, t).value.evidence
    ensures s == t
  {
    OrderedProperties(w.events);
    W.FirstIdIsStart(RowView(w.cidr), Ordered(w.events), q, s);
    W.FirstIdIsStart(RowView(w.cidr), Ordered(w.events), q, t);
  }

  lemma FiredExactly(w: World, rule: Rule, q: SequenceLogic, op: Op, s: nat, m: S.SequenceMatch)
    requires S.Staged(q) && W.DistinctTags(q.stages) && UniqueIds(w.events) && op.start < op.end
    requires s < |Ordered(w.events)| && S.MatchAt(RowView(w.cidr), Ordered(w.events), q, s) == Some(m)
    requires op.rule.id == rule.id && op.rule.version == rule.version
    ensures var view := RowView(w.cidr);
      var ms := W.WindowMatches(view, w.events, q, op.start, op.end, op.rule.maxEventsScanned);
      Fired(w.events, op.rule, SequenceFirings(ms), ChainPrint(rule, m)) <==>
        W.InCandidates(view, w.events, q, op.start, op.end, op.rule.maxEventsScanned, s)
  {
    var view, max := RowView(w.cidr), op.rule.maxEventsScanned;
    var ms := W.WindowMatches(view, w.events, q, op.start, op.end, max);
    var fs := SequenceFirings(ms);
    if Fired(w.events, op.rule, fs, ChainPrint(rule, m)) {
      var i :| 0 <= i < |fs| && PrintOf(op.rule, fs[i]) == ChainPrint(rule, m);
      assert ms[i] in ms;
      var t := W.WindowReportsAreFullMatches(view, w.events, q, op.start, op.end, max, ms[i]);
      EvidenceNamesChain(w, q, s, t);
    }
    if W.InCandidates(view, w.events, q, op.start, op.end, max, s) {
      W.FullMatchesAreReported(view, w.events, q, op.start, op.end, max, m, s);
      var i :| 0 <= i < |ms| && ms[i] == m;
      ChainHasRows(w, q, s, m);
      assert PrintOf(op.rule, fs[i]) == ChainPrint(rule, m);
    }
  }

  lemma ChainFiredExactly(w: World, rule: Rule, q: SequenceLogic, st: State, op: Op, s: nat, m: S.SequenceMatch)
    requires S.Staged(q) && W.DistinctTags(q.stages) && UniqueIds(w.events)
    requires s < |Ordered(w.events)| && S.MatchAt(RowView(w.cidr), Ordered(w.events), q, s) == Some(m)
    requires Consistent([op], rule, SequenceRule(q))
    ensures Fires(w, st, op, ChainPrint(rule, m)) <==> Completes(w, rule, st, op) && Holds(w, q, op, s)
  {
    hide S.MatchAt, CandidatesOf, EvaluationRaises, Refused, S.Staged, W.DistinctTags, RowView, Fired;
    if Completes(w, rule, st, op) {
      assert [op][0] == op;
      FiredExactly(w, rule, q, op, s, m);
    }
    if Fires(w, st, op, ChainPrint(rule, m)) {
      FiringOfSameRule(w, rule, st, op, SequenceFiring(m.correlation, m.evidence));
    }
  }

  /** Over any series of overlapping, repeated, dry or failing runs, a chain of the full
      history has an alert exactly when some completed run of the rule version had its
      first and last event among the candidates. */
  lemma {:induction false} ChainAlertedExactly(w: World, rule: Rule, q: SequenceLogic, ops: seq<Op>, s: nat,
                                               m: S.SequenceMatch)
    requires S.Staged(q) && W.DistinctTags(q.stages) && UniqueIds(w.events)
    requires s < |Ordered(w.events)| && S.MatchAt(RowView(w.cidr), Ordered(w.events), q, s) == Some(m)
    requires Consistent(ops, rule, SequenceRule(q))
    ensures ChainPrint(rule, m) in Prints(RunOps(w, EMPTY, ops).tables.alerts) <==>
      exists j :: 0 <= j < |ops| && Completes(w, rule, RunOps(w, EMPTY, ops[..j]), ops[j]) && Holds(w, q, ops[j], s)
  {
    hide Fires, Completes, Holds, S.MatchAt, S.Staged, W.DistinctTags, Prints;
    var fp := ChainPrint(rule, m);
    AlertedExactly(w, ops, fp);
    forall j | 0 <= j < |ops|
      ensures Fires(w, RunOps(w, EMPTY, ops[..j]), ops[j], fp) <==>
        Completes(w, rule, RunOps(w, EMPTY, ops[..j]), ops[j]) && Holds(w, q, ops[j], s)
    {
      assert Consistent([ops[j]], rule, SequenceRule(q)) by { assert [ops[j]][0] == ops[j]; }
      ChainFiredExactly(w, rule, q, RunOps(w, EMPTY, ops[..j]), ops[j], s, m);
    }
  }
}
