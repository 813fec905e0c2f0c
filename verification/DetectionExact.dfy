/** What a detection run does, told on the columns of the events and the rows of the tables:
    its outcome and run row, what its rule reports, and what each alert of a history says. */
module DetectionExact {
  import opened Basics
  import opened Dsl
  import opened Matcher
  import opened Events
  import opened Candidates
  import opened DetectionService
  import opened DetectionHistory
  import opened AlertHistory
  import opened FieldAccess
  import S = Sequence
  import X = SequenceExact
  import W = SequenceStability
  import T = Threshold

  // ---- What a rule reports -------------------------------------------------

  /** A single rule reports each candidate that matches, with its explanation, in order. */
  lemma {:induction false} SingleReportsExactly(cidr: Cidr, c: Condition, events: seq<Event>) returns (idx: seq<nat>)
    ensures X.Increasing(idx) && forall i: nat :: i in idx <==> i < |events| && MatchEvent(cidr, events[i], c).matched
    ensures var fs := SingleFirings(cidr, c, events);
      |fs| == |idx| && forall k :: 0 <= k < |fs| ==>
        idx[k] < |events| && fs[k] == SingleFiring(events[idx[k]].id, MatchEvent(cidr, events[idx[k]], c))
  {
    hide MatchEvent;
    idx := [];
    if events != [] {
      var n := |events| - 1;
      idx := SingleReportsExactly(cidr, c, events[..n]);
      forall k | 0 <= k < |idx| ensures idx[k] < n { assert idx[k] in idx; }
      assert forall i :: 0 <= i < n ==> events[..n][i] == events[i];
      if MatchEvent(cidr, events[n], c).matched { idx := idx + [n]; }
    }
  }

  lemma CandidatesAreOrdered(w: World, op: Op)
    requires UniqueIds(w.events) && op.start < op.end
    ensures UniqueIds(CandidatesAt(w, op)) && Ordered(CandidatesAt(w, op)) == CandidatesAt(w, op)
  {
    var a, b := CandidatesAreSlice(w.events, op.start, op.end, op.rule.maxEventsScanned);
    OrderedProperties(w.events);
    SliceIsOrdered(Ordered(w.events), a, b);
  }

  /** A threshold rule reports, of its candidates read as rows, exactly the windows and groups
      in which enough of them count. */
  lemma ThresholdReportsExactly(w: World, t: ThresholdLogic, op: Op, f: Firing)
    requires ParseLogic(op.rule.structured) == Some(ThresholdRule(t)) && UniqueIds(w.events) && op.start < op.end
    ensures f in FiringsAt(w, op) <==> exists n: nat, es, m ::
      T.Reports(RowView(w.cidr), t, op.start, op.end, CandidatesAt(w, op), n, es, m)
      && f == ThresholdFiring(m.group, m.evidence)
  {
    ThresholdFiringsAre(w, t, op);
    CandidatesAreOrdered(w, op);
    hide CandidatesAt, FiringsAt, T.Firings, T.Reports, RowView, T.Duration, UniqueIds, ThresholdFirings, ParseLogic;
    var view, cands := RowView(w.cidr), CandidatesAt(w, op);
    var ms := T.Firings(view, w.repr, t, op.start, op.end, cands);
    ThresholdFiringMembers(ms, f);
    forall m
      ensures m in ms <==> exists n: nat, es :: T.Reports(view, t, op.start, op.end, cands, n, es, m)
    {
      T.FiringsExactly(view, w.repr, t, op.start, op.end, cands, m);
    }
  }

  lemma ThresholdFiringsAre(w: World, t: ThresholdLogic, op: Op)
    requires ParseLogic(op.rule.structured) == Some(ThresholdRule(t))
    ensures T.Duration(t) > 0 && t.minCount >= 1
    ensures FiringsAt(w, op)
      == ThresholdFirings(T.Firings(RowView(w.cidr), w.repr, t, op.start, op.end, CandidatesAt(w, op)))
  {
    assert ThresholdOk(t);
    DurationPositive(t);
    hide CandidatesAt, T.Firings, RowView, LogicOk, JsonLogic;
  }

  lemma ThresholdFiringMembers(ms: seq<T.ThresholdMatch>, f: Firing)
    ensures f in ThresholdFirings(ms) <==> exists m :: m in ms && f == ThresholdFiring(m.group, m.evidence)
  {
    if m :| m in ms && f == ThresholdFiring(m.group, m.evidence) {
      var i :| 0 <= i < |ms| && ms[i] == m;
      assert ThresholdFirings(ms)[i] == f;
    }
  }

  lemma SequenceFiringsAre(w: World, q: SequenceLogic, op: Op)
    requires ParseLogic(op.rule.structured) == Some(SequenceRule(q)) && UniqueIds(w.events) && op.start < op.end
    ensures FiringsAt(w, op) == SequenceFirings(S.Reported(RowView(w.cidr), CandidatesAt(w, op), q, 0, {}))
  {
    CandidatesAreOrdered(w, op);
    hide CandidatesAt, S.Reported, RowView, UniqueIds, Ordered, LogicOk, JsonLogic;
  }

  /** A sequence rule reports, of its candidates read as rows, exactly the matches whose
      evidence no earlier candidate starts. */
  lemma SequenceReportsExactly(w: World, q: SequenceLogic, op: Op, f: Firing)
    requires ParseLogic(op.rule.structured) == Some(SequenceRule(q)) && UniqueIds(w.events) && op.start < op.end
    ensures f in FiringsAt(w, op) <==> exists s: nat, m ::
      W.FirstToShow(RowView(w.cidr), CandidatesAt(w, op), q, 0, s, m)
      && f == SequenceFiring(m.correlation, m.evidence)
  {
    SequenceFiringsAre(w, q, op);
    hide CandidatesAt, FiringsAt, S.Reported, W.FirstToShow, RowView, UniqueIds, SequenceFirings, ParseLogic;
    var view, cands := RowView(w.cidr), CandidatesAt(w, op);
    var ms := S.Reported(view, cands, q, 0, {});
    SequenceFiringMembers(ms, f);
    forall m ensures m in ms <==> exists s: nat :: W.FirstToShow(view, cands, q, 0, s, m) {
      W.ReportedExactly(view, cands, q, 0, {}, m);
    }
  }

  lemma SequenceFiringMembers(ms: seq<S.SequenceMatch>, f: Firing)
    ensures f in SequenceFirings(ms) <==> exists m :: m in ms && f == SequenceFiring(m.correlation, m.evidence)
  {
    if m :| m in ms && f == SequenceFiring(m.correlation, m.evidence) {
      var i :| 0 <= i < |ms| && ms[i] == m;
      assert SequenceFirings(ms)[i] == f;
    }
  }

  // ---- Outcomes and run rows -----------------------------------------------

  /** The checks before a run: the rule is enabled, the window runs forward and is no longer
      than the rule looks back, and the rule parses. */
  ghost predicate Admitted(op: Op) {
    && op.rule.enabledForExecution && op.start < op.end
    && op.end - op.start <= op.rule.lookbackSeconds * 1_000_000 && ParseLogic(op.rule.structured).Some?
  }

  /** More events lie in the window than the rule may scan. */
  ghost predicate Truncated(w: World, op: Op) {
    |Within(w.events, op.start, op.end)| > op.rule.maxEventsScanned
  }

  /** Without the checks nothing happens; a dry run only tells what a real one would report. */
  lemma NothingWritten(w: World, st: State, op: Op)
    ensures var (t, o) := Perform(w, st, op);
      && (o == Skipped <==> !op.rule.enabledForExecution)
      && (!Admitted(op) ==> t == st.tables && (o == Skipped || o == Raised))
      && (Admitted(op) && op.dryRun ==>
            t == st.tables && o == DryRun(|CandidatesAt(w, op)|, FiringsAt(w, op), Truncated(w, op)))
      && (Admitted(op) && !op.dryRun <==> WritesHeader(op.rule, op.start, op.end, op.dryRun))
  {
    if Admitted(op) {
      CandidatesInWindow(w.events, op.start, op.end, op.rule.maxEventsScanned);
      var cands := CandidatesAt(w, op);
      forall i | 0 <= i < |cands| ensures op.start <= cands[i].time < op.end { assert cands[i] in cands; }
      StoredRulesNeverRaise(w.cidr, op.rule, cands, op.start, op.end);
      WindowSize(w.events, op.start, op.end);
    }
    hide CandidatesOf, InWindow, FiringsOf, EvaluationRaises, Refused, RecordAll, Within, LogicOk, JsonLogic;
  }

  /** The row and outcome of a real run: how it ended, how many candidates it scanned, and the
      alerts it filed, which are the last ones of the table. */
  lemma RunRowSays(w: World, st: State, op: Op)
    requires Admitted(op) && !op.dryRun
    ensures var (t, o) := Perform(w, st, op);
      var scanned := |CandidatesAt(w, op)|;
      var row := if o.Done? then Run(op.rule.id, op.rule.version, op.start, op.end, Completed, scanned, |o.created|)
                 else if op.fault.Stopped? then Run(op.rule.id, op.rule.version, op.start, op.end, Running, 0, 0)
                 else Run(op.rule.id, op.rule.version, op.start, op.end, Failed, scanned, 0);
      t.runs == st.tables.runs[st.nextRunId := row] && (o.Done? || (o == Raised && t.alerts == st.tables.alerts))
    ensures var (t, o) := Perform(w, st, op);
      o.Done? ==>
        && o == Done(st.nextRunId, |CandidatesAt(w, op)|, o.created, FiringsAt(w, op), Truncated(w, op))
        && |t.alerts| == |st.tables.alerts| + |o.created|
        && forall i :: 0 <= i < |o.created| ==> o.created[i] == |st.tables.alerts| + i
  {
    hide CandidatesOf, InWindow, FiringsOf, EvaluationRaises, Refused, RecordAll, Within, Ordered;
    NothingWritten(w, st, op);
    PerformForms(w, st, op);
    WindowSize(w.events, op.start, op.end);
    hide ParseLogic;
  }

  /** Whether a real run completes, faults included: what its rule reports can be stored, and
      no statement, no commit and no stop of the process gets in its way. */
  lemma RealRunCompletesExactly(w: World, ops: seq<Op>, op: Op)
    requires Admitted(op) && !op.dryRun
    ensures Perform(w, RunOps(w, EMPTY, ops), op).1.Done? <==>
      && !Hindered(w, op)
      && (op.fault.NoFault? || (op.fault.AtFiring? && op.fault.k >= |FiringsAt(w, op)|))
  {
    hide CandidatesOf, FiringsOf, EvaluationRaises, Refused, RecordAll, RunOps, LogicOk, JsonLogic;
    var st, calm := RunOps(w, EMPTY, ops), op.(fault := NoFault);
    NothingWritten(w, st, op);
    RunCompletesExactly(w, ops, calm);
    assert Hindered(w, op) == Hindered(w, calm) && FiringsAt(w, op) == FiringsAt(w, calm);
  }

  // ---- What an alert says --------------------------------------------------

  /** The firing names this event as evidence. */
  ghost predicate Names(f: Firing, id: string) {
    match f
    case SingleFiring(x, _) => id == x
    case ThresholdFiring(_, ids) => id in ids
    case SequenceFiring(_, stages) => exists k :: 0 <= k < |stages| && id in stages[k].ids
  }

  lemma NamesExactly(f: Firing, id: string)
    ensures id in EvidenceIds(f) <==> Names(f, id)
  {
    if f.SequenceFiring? {
      var stages := f.stageEvidence;
      if k :| 0 <= k < |stages| && id in stages[k].ids { ListedId(stages, k, id); }
    }
  }

  /** The label of an event: that of the last stage that lists it, if any does. */
  ghost predicate Labels(f: Firing, id: string, tag: Option<string>) {
    if f.SequenceFiring? && exists k :: 0 <= k < |f.stageEvidence| && id in f.stageEvidence[k].ids then
      exists k :: 0 <= k < |f.stageEvidence| && id in f.stageEvidence[k].ids && tag == Some(f.stageEvidence[k].tag)
        && forall j :: k < j < |f.stageEvidence| ==> id !in f.stageEvidence[j].ids
    else tag == None
  }

  lemma {:induction false} SetStagesLabels(links: map<string, Option<string>>, stages: seq<S.StageEvidence>, id: string)
    requires id in links && links[id] == None
    ensures id in SetStages(links, stages)
    ensures if exists k :: 0 <= k < |stages| && id in stages[k].ids then
        exists k :: 0 <= k < |stages| && id in stages[k].ids && SetStages(links, stages)[id] == Some(stages[k].tag)
          && forall j :: k < j < |stages| ==> id !in stages[j].ids
      else SetStages(links, stages)[id] == None
  {
    if stages != [] {
      var n := |stages| - 1;
      SetStagesLabels(links, stages[..n], id);
      assert forall k :: 0 <= k < n ==> stages[..n][k] == stages[k];
      if id !in stages[n].ids && exists k :: 0 <= k < n && id in stages[k].ids {
        var k :| 0 <= k < n && id in stages[..n][k].ids && SetStages(links, stages[..n])[id] == Some(stages[..n][k].tag)
          && forall j :: k < j < n ==> id !in stages[..n][j].ids;
        assert id in stages[k].ids && forall j :: k < j < |stages| ==> id !in stages[j].ids;
      }
    }
  }

  lemma {:induction false} TimesOfRows(rows: seq<Event>)
    requires rows != []
    ensures forall e :: e in rows ==> Earliest(rows) <= e.time <= Latest(rows)
    ensures exists e, g :: e in rows && g in rows && e.time == Earliest(rows) && g.time == Latest(rows)
  {
    if |rows| > 1 {
      TimesOfRows(rows[1..]);
      assert rows == [rows[0]] + rows[1..];
      var e, g :| e in rows[1..] && g in rows[1..] && e.time == Earliest(rows[1..]) && g.time == Latest(rows[1..]);
      assert e in rows && g in rows && rows[0] in rows;
    } else {
      assert rows[0] in rows;
    }
  }

  /** The alert shows the earliest and the latest time of the stored events that its firing
      names, and links to exactly these, each under its label. */
  ghost predicate Shows(events: seq<Event>, a: Alert) {
    var f := a.fingerprint.firing;
    && (forall e :: e in events && Names(f, e.id) ==> a.firstSeen <= e.time <= a.lastSeen)
    && (exists e, g :: e in events && Names(f, e.id) && g in events && Names(f, g.id)
          && e.time == a.firstSeen && g.time == a.lastSeen)
    && (forall id :: id in a.links <==> exists e :: e in events && e.id == id && Names(f, id))
    && forall id :: id in a.links ==> Labels(f, id, a.links[id])
  }

  lemma LabelsOfLinks(events: seq<Event>, f: Firing, id: string)
    requires id in Unlabelled(Rows(events, EvidenceIds(f)))
    ensures var links := SetStages(Unlabelled(Rows(events, EvidenceIds(f))), StagesOf(f));
      id in links && Labels(f, id, links[id])
  {
    hide Rows, EvidenceIds;
    SetStagesLabels(Unlabelled(Rows(events, EvidenceIds(f))), StagesOf(f), id);
  }

  /** The evidence rows are the stored events that the firing names. */
  lemma NamedRows(events: seq<Event>, f: Firing)
    ensures forall e :: e in Rows(events, EvidenceIds(f)) <==> e in events && Names(f, e.id)
    ensures forall id :: id in Unlabelled(Rows(events, EvidenceIds(f))) <==>
      exists e :: e in events && e.id == id && Names(f, id)
  {
    hide Names, Rows, EvidenceIds, Unlabelled;
    forall e ensures e in Rows(events, EvidenceIds(f)) <==> e in events && Names(f, e.id) {
      NamesExactly(f, e.id);
      RowsHold(events, EvidenceIds(f), e);
    }
    LinksOfRows(events, EvidenceIds(f));
    forall id ensures id in EvidenceIds(f) <==> Names(f, id) { NamesExactly(f, id); }
  }

  lemma DescribedShows(events: seq<Event>, a: Alert)
    requires Describes(events, a)
    ensures Shows(events, a)
  {
    var f := a.fingerprint.firing;
    var rows := Rows(events, EvidenceIds(f));
    hide Rows, EvidenceIds, Names, Labels, Earliest, Latest, SetStages, Unlabelled, StagesOf;
    NamedRows(events, f);
    TimesOfRows(rows);
    forall id | id in a.links ensures Labels(f, id, a.links[id]) { LabelsOfLinks(events, f, id); }
    var e, g :| e in rows && g in rows && e.time == Earliest(rows) && g.time == Latest(rows);
  }

  /** The alert was filed by this real run, for something that its rule reported. */
  ghost predicate FiledBy(w: World, before: seq<Op>, op: Op, a: Alert) {
    && Admitted(op) && !op.dryRun && Perform(w, RunOps(w, EMPTY, before), op).1.Done?
    && a.fingerprint.firing in FiringsAt(w, op)
    && a.fingerprint == Fingerprint(op.rule.id, op.rule.version, a.fingerprint.firing)
    && a.runId == RunOps(w, EMPTY, before).nextRunId && Some(a.logic) == op.rule.structured
  }

  lemma {:induction false} RecordedFrom(alerts: seq<Alert>, events: seq<Event>, rule: Rule, logic: DetectionLogic,
                                        runId: nat, fs: seq<Firing>, i: nat)
    requires |alerts| <= i < |RecordAll(alerts, events, rule, logic, runId, fs)|
    ensures var a := RecordAll(alerts, events, rule, logic, runId, fs)[i];
      a.fingerprint.firing in fs && a.fingerprint == PrintOf(rule, a.fingerprint.firing)
      && a.runId == runId && a.logic == logic
  {
    hide Rows, EvidenceIds, SetStages, Unlabelled, StagesOf, Earliest, Latest;
    if fs != [] {
      var n := |fs| - 1;
      var mid := RecordAll(alerts, events, rule, logic, runId, fs[..n]);
      RecordAllGrows(alerts, events, rule, logic, runId, fs[..n]);
      assert forall f :: f in fs[..n] ==> f in fs;
      assert fs[n] in fs;
      if i < |mid| { RecordedFrom(alerts, events, rule, logic, runId, fs[..n], i); }
    }
  }

  lemma FiledInStep(w: World, before: seq<Op>, op: Op, i: nat)
    requires var st := RunOps(w, EMPTY, before);
      |st.tables.alerts| <= i < |Step(w, st, op).tables.alerts|
    ensures FiledBy(w, before, op, Step(w, RunOps(w, EMPTY, before), op).tables.alerts[i])
  {
    var st := RunOps(w, EMPTY, before);
    NothingWritten(w, st, op);
    hide FiringsOf, CandidatesOf, EvaluationRaises, Refused, RecordAll, LogicOk, JsonLogic, RunOps;
    RecordedFrom(st.tables.alerts, w.events, op.rule, ParseLogic(op.rule.structured).value, st.nextRunId,
                 FiringsAt(w, op), i);
  }

  lemma StepKeepsAlerts(w: World, before: seq<Op>, op: Op)
    ensures var st := RunOps(w, EMPTY, before); st.tables.alerts <= Step(w, st, op).tables.alerts
  {
    hide RunOps, Step, Describes;
    RunDescribes(w, EMPTY, before);
    StepDescribes(w, RunOps(w, EMPTY, before), op);
  }

  lemma {:induction false} AlertsHaveRuns(w: World, ops: seq<Op>, i: nat)
    requires i < |RunOps(w, EMPTY, ops).tables.alerts|
    ensures exists j :: 0 <= j < |ops| && FiledBy(w, ops[..j], ops[j], RunOps(w, EMPTY, ops).tables.alerts[i])
  {
    hide Step, FiledBy;
    var n := |ops| - 1;
    var before, a := RunOps(w, EMPTY, ops[..n]), RunOps(w, EMPTY, ops).tables.alerts[i];
    hide RunOps;
    StepKeepsAlerts(w, ops[..n], ops[n]);
    if i < |before.tables.alerts| {
      AlertsHaveRuns(w, ops[..n], i);
      var j :| 0 <= j < n && FiledBy(w, ops[..n][..j], ops[..n][j], a);
      assert ops[..n][..j] == ops[..j];
    } else {
      FiledInStep(w, ops[..n], ops[n], i);
    }
  }

  /** Behind each alert of a history stands the completed run that filed it, under its id and
      the rule's version and logic; and the alert shows its evidence. */
  lemma AlertsAreFiled(w: World, ops: seq<Op>, i: nat)
    requires i < |RunOps(w, EMPTY, ops).tables.alerts|
    ensures var a := RunOps(w, EMPTY, ops).tables.alerts[i];
      Shows(w.events, a) && exists j :: 0 <= j < |ops| && FiledBy(w, ops[..j], ops[j], a)
  {
    hide RunOps, Shows, Describes, FiledBy;
    AlertsHaveRuns(w, ops, i);
    AlertsAreDescribed(w, ops, i);
    DescribedShows(w.events, RunOps(w, EMPTY, ops).tables.alerts[i]);
  }
}
