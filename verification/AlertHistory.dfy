/** What the alerts of a detection history are: their times and labelled links, and which
    of them threshold runs over several windows share. */
module AlertHistory {
  import opened Basics
  import opened Dsl
  import opened Matcher
  import opened Events
  import opened Candidates
  import opened DetectionService
  import opened DetectionHistory
  import opened FieldAccess
  import S = Sequence
  import W = SequenceStability
  import T = Threshold

  // ---- Stage labels --------------------------------------------------------

  ghost predicate OnlyStage(stages: seq<S.StageEvidence>, id: string, k: nat) {
    k < |stages| && id in stages[k].ids && forall j :: 0 <= j < |stages| && j != k ==> id !in stages[j].ids
  }

  lemma {:induction false} LabelsSet(links: map<string, Option<string>>, stages: seq<S.StageEvidence>, id: string)
    requires id in links
    ensures id in SetStages(links, stages)
    ensures (forall k :: 0 <= k < |stages| ==> id !in stages[k].ids) ==> SetStages(links, stages)[id] == links[id]
    ensures forall k :: 0 <= k < |stages| && OnlyStage(stages, id, k) ==>
      SetStages(links, stages)[id] == Some(stages[k].tag)
  {
    if stages != [] {
      var n := |stages| - 1;
      LabelsSet(links, stages[..n], id);
      forall k | 0 <= k < n && OnlyStage(stages, id, k) ensures OnlyStage(stages[..n], id, k) { }
    }
  }

  /** The UPDATE loop gives every evidence link of a sequence alert the tag of the one
      stage that lists the event: each link is written once, and none is left unlabelled. */
  lemma LinksLabelledOnce(w: World, q: SequenceLogic, s: nat, m: S.SequenceMatch, id: string, k: nat)
    requires S.Staged(q) && W.DistinctTags(q.stages) && UniqueIds(w.events) && s < |Ordered(w.events)|
    requires S.MatchAt(RowView(w.cidr), Ordered(w.events), q, s) == Some(m)
    requires k < |m.evidence| && id in m.evidence[k].ids
    requires id in Unlabelled(Rows(w.events, StageIds(m.evidence)))
    ensures SetStages(Unlabelled(Rows(w.events, StageIds(m.evidence))), m.evidence)[id] == Some(m.evidence[k].tag)
    ensures forall j :: 0 <= j < |m.evidence| && j != k ==> id !in m.evidence[j].ids
  {
    OrderedProperties(w.events);
    var view, ord := RowView(w.cidr), Ordered(w.events);
    W.EvidenceSize(view, ord, q, s);
    forall j | 0 <= j < |m.evidence| && j != k ensures id !in m.evidence[j].ids {
      if j < k { W.StageEvidenceDisjoint(view, ord, q, s, j, k); }
      else { W.StageEvidenceDisjoint(view, ord, q, s, k, j); }
    }
    assert OnlyStage(m.evidence, id, k);
    LabelsSet(Unlabelled(Rows(w.events, StageIds(m.evidence))), m.evidence, id);
  }

  // ---- What the alerts of a history hold -----------------------------------

  /** The alert's times and labelled links are those of its firing's evidence in the store. */
  ghost predicate Describes(events: seq<Event>, a: Alert) {
    var rows := Rows(events, EvidenceIds(a.fingerprint.firing));
    && rows != [] && a.firstSeen == Earliest(rows) && a.lastSeen == Latest(rows)
    && a.links == SetStages(Unlabelled(rows), StagesOf(a.fingerprint.firing))
  }

  ghost predicate AllDescribed(events: seq<Event>, alerts: seq<Alert>) {
    forall i :: 0 <= i < |alerts| ==> Describes(events, alerts[i])
  }

  lemma RecordDescribes(alerts: seq<Alert>, events: seq<Event>, rule: Rule, logic: DetectionLogic, runId: nat,
                        f: Firing)
    requires AllDescribed(events, alerts)
    ensures var r := Record(alerts, events, rule, logic, runId, f); alerts <= r && AllDescribed(events, r)
  {
    hide Rows, SetStages, Unlabelled, EvidenceIds, StagesOf, Earliest, Latest;
    var i := Find(alerts, PrintOf(rule, f));
    if i < |alerts| {
      assert Describes(events, alerts[i]);
      assert Record(alerts, events, rule, logic, runId, f) == alerts;
    }
  }

  lemma {:induction false} RecordAllDescribes(alerts: seq<Alert>, events: seq<Event>, rule: Rule, logic: DetectionLogic,
                                              runId: nat, fs: seq<Firing>)
    requires AllDescribed(events, alerts)
    ensures var r := RecordAll(alerts, events, rule, logic, runId, fs); alerts <= r && AllDescribed(events, r)
  {
    if fs != [] {
      var n := |fs| - 1;
      RecordAllDescribes(alerts, events, rule, logic, runId, fs[..n]);
      RecordDescribes(RecordAll(alerts, events, rule, logic, runId, fs[..n]), events, rule, logic, runId, fs[n]);
      hide Record, AllDescribed;
    }
  }

  lemma StepDescribes(w: World, st: State, op: Op)
    requires AllDescribed(w.events, st.tables.alerts)
    ensures var after := Step(w, st, op).tables.alerts; st.tables.alerts <= after && AllDescribed(w.events, after)
  {
    hide FiringsOf, CandidatesOf, EvaluationRaises, Refused, RecordAll, AllDescribed;
    if WritesHeader(op.rule, op.start, op.end, op.dryRun) {
      RecordAllDescribes(st.tables.alerts, w.events, op.rule, ParseLogic(op.rule.structured).value, st.nextRunId,
                         FiringsAt(w, op));
    }
  }

  lemma {:induction false} RunDescribes(w: World, st: State, ops: seq<Op>)
    requires AllDescribed(w.events, st.tables.alerts)
    ensures var after := RunOps(w, st, ops).tables.alerts; st.tables.alerts <= after && AllDescribed(w.events, after)
  {
    if ops != [] {
      var n := |ops| - 1;
      RunDescribes(w, st, ops[..n]);
      StepDescribes(w, RunOps(w, st, ops[..n]), ops[n]);
      hide Step, AllDescribed;
    }
  }

  /** In every history each alert shows the earliest and latest time of its evidence, and
      links to exactly that evidence under its firing's labels. */
  lemma AlertsAreDescribed(w: World, ops: seq<Op>, i: nat)
    requires i < |RunOps(w, EMPTY, ops).tables.alerts|
    ensures Describes(w.events, RunOps(w, EMPTY, ops).tables.alerts[i])
  {
    hide Describes, RunOps;
    RunDescribes(w, EMPTY, ops);
  }

  /** Once filed, an alert stays where and as it is. */
  lemma AlertsStay(w: World, before: seq<Op>, after: seq<Op>)
    ensures RunOps(w, EMPTY, before).tables.alerts <= RunOps(w, RunOps(w, EMPTY, before), after).tables.alerts
  {
    hide RunOps, Describes;
    RunDescribes(w, EMPTY, before);
    RunDescribes(w, RunOps(w, EMPTY, before), after);
  }

  lemma AlertLinks(w: World, ops: seq<Op>, i: nat)
    requires i < |RunOps(w, EMPTY, ops).tables.alerts|
    ensures var a := RunOps(w, EMPTY, ops).tables.alerts[i]; var f := a.fingerprint.firing;
      a.links == SetStages(Unlabelled(Rows(w.events, EvidenceIds(f))), StagesOf(f))
  {
    hide RunOps, Rows, SetStages, Unlabelled, EvidenceIds, StagesOf;
    AlertsAreDescribed(w, ops, i);
  }

  lemma {:induction false} RowsHold(events: seq<Event>, ids: set<string>, e: Event)
    ensures e in Rows(events, ids) <==> e in events && e.id in ids
  {
    if events != [] {
      RowsHold(events[1..], ids, e);
      assert events == [events[0]] + events[1..];
    }
  }

  lemma LinksOfRows(events: seq<Event>, ids: set<string>)
    ensures forall id :: id in Unlabelled(Rows(events, ids)) <==> id in ids && exists e :: e in events && e.id == id
  {
    forall e ensures e in Rows(events, ids) <==> e in events && e.id in ids { RowsHold(events, ids, e); }
    hide Rows;
  }

  /** The ids that a stage of a reported chain lists are ids of stored events. */
  lemma ListedIsStored(w: World, q: SequenceLogic, s: nat, m: S.SequenceMatch, k: nat, id: string)
    requires S.Staged(q) && W.DistinctTags(q.stages) && s < |Ordered(w.events)|
    requires S.MatchAt(RowView(w.cidr), Ordered(w.events), q, s) == Some(m)
    requires k < |m.evidence| && id in m.evidence[k].ids
    ensures exists e :: e in w.events && e.id == id
  {
    hide S.MatchAt, Ordered, RowView, S.Staged, W.DistinctTags;
    var ord := Ordered(w.events);
    OrderedProperties(w.events);
    SameMembers(ord, w.events);
    var p := W.ListedEvent(RowView(w.cidr), ord, q, s, k, id);
    assert ord[p] in ord;
  }

  /** The alert of a chain links exactly the events that its stages list, each under the
      label of the one stage that lists it. */
  lemma ChainAlertLinks(w: World, q: SequenceLogic, ops: seq<Op>, i: nat, s: nat, m: S.SequenceMatch)
    requires S.Staged(q) && W.DistinctTags(q.stages) && UniqueIds(w.events) && s < |Ordered(w.events)|
    requires S.MatchAt(RowView(w.cidr), Ordered(w.events), q, s) == Some(m)
    requires i < |RunOps(w, EMPTY, ops).tables.alerts|
    requires RunOps(w, EMPTY, ops).tables.alerts[i].fingerprint.firing == SequenceFiring(m.correlation, m.evidence)
    ensures var links := RunOps(w, EMPTY, ops).tables.alerts[i].links;
      && links.Keys == StageIds(m.evidence)
      && forall k, id :: 0 <= k < |m.evidence| && id in m.evidence[k].ids ==> links[id] == Some(m.evidence[k].tag)
  {
    hide RunOps, S.MatchAt, S.Staged, W.DistinctTags, Ordered, RowView, Rows, SetStages, Unlabelled;
    var a := RunOps(w, EMPTY, ops).tables.alerts[i];
    var ids := StageIds(m.evidence);
    AlertLinks(w, ops, i);
    assert EvidenceIds(a.fingerprint.firing) == ids && StagesOf(a.fingerprint.firing) == m.evidence;
    LinksOfRows(w.events, ids);
    hide EvidenceIds, StagesOf;
    forall k, id | 0 <= k < |m.evidence| && id in m.evidence[k].ids
      ensures id in a.links && a.links[id] == Some(m.evidence[k].tag)
    {
      ListedIsStored(w, q, s, m, k, id);
      ListedId(m.evidence, k, id);
      LinksLabelledOnce(w, q, s, m, id, k);
    }
    forall id | id in ids ensures id in a.links {
      var k: nat, j: nat :| k < |m.evidence| && j < |m.evidence[k].ids| && m.evidence[k].ids[j] == id;
      assert id in m.evidence[k].ids;
    }
  }

  // ---- Threshold alerts over several windows --------------------------------

  /** The run looks at the whole bucket: its window holds it, and every stored event in it
      is a candidate. */
  ghost predicate SeesBucket(w: World, t: ThresholdLogic, op: Op, key: T.Key)
    requires T.Duration(t) > 0
  {
    && op.start < op.end && T.HoldsBucket(t, op.start, op.end, key)
    && forall e :: e in w.events && key.start <= e.time < key.start + T.Duration(t) ==> e in CandidatesAt(w, op)
  }

  ghost function BucketReport(w: World, t: ThresholdLogic, op: Op, key: T.Key): Option<T.ThresholdMatch>
    requires T.Duration(t) > 0
  {
    var view := RowView(w.cidr);
    T.BucketMatch(view, t, op.end, key, T.Bucket(view, t, op.start, op.end, CandidatesAt(w, op), key))
  }

  lemma ReportIsFired(w: World, t: ThresholdLogic, op: Op, key: T.Key)
    requires ParseLogic(op.rule.structured) == Some(ThresholdRule(t)) && T.Duration(t) > 0
    requires BucketReport(w, t, op, key).Some?
    ensures var m := BucketReport(w, t, op, key).value; ThresholdFiring(m.group, m.evidence) in FiringsAt(w, op)
  {
    var view, m := RowView(w.cidr), BucketReport(w, t, op, key).value;
    assert ThresholdOk(t);
    hide CandidatesOf, T.Firings, T.Bucket, T.BucketMatch, RowView;
    T.ThresholdExact(view, w.repr, t, op.start, op.end, CandidatesAt(w, op), m);
    assert T.BucketMatch(view, t, op.end, key, T.Bucket(view, t, op.start, op.end, CandidatesAt(w, op), key))
      == Some(m);
    var ms := T.Firings(view, w.repr, t, op.start, op.end, CandidatesAt(w, op));
    var i :| 0 <= i < |ms| && ms[i] == m;
    assert FiringsAt(w, op) == ThresholdFirings(ms) && ThresholdFirings(ms)[i] == ThresholdFiring(m.group, m.evidence);
  }

  /** Two runs of one threshold rule that both look at a whole bucket, so that their starts
      lie on one grid, report the same for it, and so share its alert. */
  lemma BucketAlertIsShared(w: World, t: ThresholdLogic, op1: Op, op2: Op, key: T.Key)
    requires UniqueIds(w.events) && T.Duration(t) > 0
    requires ParseLogic(op1.rule.structured) == Some(ThresholdRule(t))
    requires ParseLogic(op2.rule.structured) == Some(ThresholdRule(t))
    requires SeesBucket(w, t, op1, key) && SeesBucket(w, t, op2, key)
    ensures BucketReport(w, t, op1, key) == BucketReport(w, t, op2, key)
    ensures BucketReport(w, t, op1, key).Some? ==>
      var m := BucketReport(w, t, op1, key).value; var f := ThresholdFiring(m.group, m.evidence);
      f in FiringsAt(w, op1) && f in FiringsAt(w, op2)
  {
    CandidateIsStored(w, op1);
    CandidateIsStored(w, op2);
    CandidatesAreUnique(w, op1);
    CandidatesAreUnique(w, op2);
    hide CandidatesAt, T.Bucket, T.BucketMatch, RowView, T.Duration, FiringsAt;
    T.SharedBucket(RowView(w.cidr), t, key, op1.start, op1.end, CandidatesAt(w, op1),
                   op2.start, op2.end, CandidatesAt(w, op2));
    if BucketReport(w, t, op1, key).Some? {
      ReportIsFired(w, t, op1, key);
      ReportIsFired(w, t, op2, key);
    }
  }

  /** The events that a run's bucket counts. */
  ghost function Counted(w: World, t: ThresholdLogic, op: Op, key: T.Key): set<Event>
    requires T.Duration(t) > 0
  {
    set e | e in CandidatesAt(w, op) && T.InBucket(RowView(w.cidr), t, op.start, op.end, key, e)
  }

  ghost function BucketAt(w: World, t: ThresholdLogic, op: Op, key: T.Key): seq<Event>
    requires T.Duration(t) > 0
  {
    T.Bucket(RowView(w.cidr), t, op.start, op.end, CandidatesAt(w, op), key)
  }

  lemma BucketIsCounted(w: World, t: ThresholdLogic, op: Op, key: T.Key)
    requires T.Duration(t) > 0 && UniqueIds(w.events) && op.start < op.end
    ensures UniqueIds(BucketAt(w, t, op, key))
    ensures forall e :: multiset(BucketAt(w, t, op, key))[e] == if e in Counted(w, t, op, key) then 1 else 0
    ensures forall e :: e in BucketAt(w, t, op, key) <==> e in Counted(w, t, op, key)
    ensures forall e :: e in Counted(w, t, op, key) ==> e in w.events
  {
    var view, cands := RowView(w.cidr), CandidatesAt(w, op);
    CandidatesAreUnique(w, op);
    CandidateIsStored(w, op);
    hide CandidatesAt, T.Bucket, T.InBucket, UniqueIds, RowView;
    T.BucketDescribe(view, t, op.start, op.end, cands, key);
    T.UniqueInBucket(view, t, op.start, op.end, cands, key);
    forall e ensures multiset(cands)[e] == if e in cands then 1 else 0 { T.CountOfUnique(cands, e); }
  }

  /** Buckets that count the same events list the same evidence, and the other way round. */
  lemma SameEvidenceExactly(w: World, t: ThresholdLogic, op1: Op, op2: Op, key1: T.Key, key2: T.Key)
    requires T.Duration(t) > 0 && UniqueIds(w.events) && op1.start < op1.end && op2.start < op2.end
    ensures Ids(Ordered(BucketAt(w, t, op1, key1))) == Ids(Ordered(BucketAt(w, t, op2, key2))) <==>
      Counted(w, t, op1, key1) == Counted(w, t, op2, key2)
    ensures Counted(w, t, op1, key1) == Counted(w, t, op2, key2) ==>
      Ordered(BucketAt(w, t, op1, key1)) == Ordered(BucketAt(w, t, op2, key2))
  {
    hide BucketAt, Counted, Ordered, UniqueIds, Ids;
    BucketIsCounted(w, t, op1, key1);
    BucketIsCounted(w, t, op2, key2);
    var x, y := BucketAt(w, t, op1, key1), BucketAt(w, t, op2, key2);
    OrderedProperties(x);
    OrderedProperties(y);
    SameMembers(Ordered(x), x);
    SameMembers(Ordered(y), y);
    if Counted(w, t, op1, key1) == Counted(w, t, op2, key2) {
      assert multiset(x) == multiset(y);
      OrderedCanonical(x, y);
    }
    if Ids(Ordered(x)) == Ids(Ordered(y)) {
      SameIdsSameEvents(w.events, Ordered(x), Ordered(y));
      assert Counted(w, t, op1, key1) == Counted(w, t, op2, key2);
    }
  }

  lemma SameIdsSameEvents(events: seq<Event>, a: seq<Event>, b: seq<Event>)
    requires UniqueIds(events) && Ids(a) == Ids(b)
    requires (forall e :: e in a ==> e in events) && forall e :: e in b ==> e in events
    ensures a == b
  {
    assert |Ids(a)| == |a| && |Ids(b)| == |b|;
    forall i | 0 <= i < |a| ensures a[i] == b[i] {
      assert Ids(a)[i] == Ids(b)[i] && a[i] in events && b[i] in events;
    }
  }

  lemma FiredBucket(w: World, t: ThresholdLogic, op: Op, f: Firing) returns (key: T.Key)
    requires ParseLogic(op.rule.structured) == Some(ThresholdRule(t)) && T.Duration(t) > 0
    requires f in FiringsAt(w, op)
    ensures BucketReport(w, t, op, key).Some?
    ensures f == ThresholdFiring(key.group, Ids(Ordered(BucketAt(w, t, op, key))))
  {
    var view, cands := RowView(w.cidr), CandidatesAt(w, op);
    assert ThresholdOk(t);
    hide CandidatesOf, T.Firings, T.Bucket, RowView, Ordered;
    var ms := T.Firings(view, w.repr, t, op.start, op.end, cands);
    assert FiringsAt(w, op) == ThresholdFirings(ms);
    var i :| 0 <= i < |ms| && ThresholdFirings(ms)[i] == f;
    T.ThresholdExact(view, w.repr, t, op.start, op.end, cands, ms[i]);
    key :| T.BucketMatch(view, t, op.end, key, T.Bucket(view, t, op.start, op.end, cands, key)) == Some(ms[i]);
  }

  /** Exactly when another run of the rule reports the same for a bucket, and so shares its
      alert: one of that run's own buckets of the group counts the same events. */
  lemma AlertIsSharedExactly(w: World, t: ThresholdLogic, op1: Op, op2: Op, key: T.Key)
    requires UniqueIds(w.events) && T.Duration(t) > 0 && op1.start < op1.end && op2.start < op2.end
    requires ParseLogic(op1.rule.structured) == Some(ThresholdRule(t))
    requires ParseLogic(op2.rule.structured) == Some(ThresholdRule(t))
    requires BucketReport(w, t, op1, key).Some?
    ensures ThresholdFiring(key.group, Ids(Ordered(BucketAt(w, t, op1, key)))) in FiringsAt(w, op1)
    ensures ThresholdFiring(key.group, Ids(Ordered(BucketAt(w, t, op1, key)))) in FiringsAt(w, op2) <==>
      exists k: T.Key :: k.group == key.group && Counted(w, t, op2, k) == Counted(w, t, op1, key)
  {
    hide CandidatesAt, FiringsAt, Counted, Ordered, T.Bucket, RowView;
    var f := ThresholdFiring(key.group, Ids(Ordered(BucketAt(w, t, op1, key))));
    ReportIsFired(w, t, op1, key);
    if f in FiringsAt(w, op2) {
      var k := FiredBucket(w, t, op2, f);
      SameEvidenceExactly(w, t, op1, op2, key, k);
      assert k.group == key.group && Counted(w, t, op2, k) == Counted(w, t, op1, key);
    }
    if k: T.Key :| k.group == key.group && Counted(w, t, op2, k) == Counted(w, t, op1, key) {
      SameEvidenceExactly(w, t, op1, op2, key, k);
      ReportIsFired(w, t, op2, k);
    }
  }

  const AT_0 := Event("e1", 0, map[])
  const AT_10 := Event("e2", 10 * MICROS, map[])
  const AT_20 := Event("e3", 20 * MICROS, map[])
  const BURST := [AT_0, AT_10, AT_20]

  /** At least two events in a minute. */
  const TWO_A_MINUTE := ThresholdLogic(Leaf(Exists, EventId, NoValue), [], 60, 2, None)
  const MINUTE_RULE := Rule(1, 1, true, 60, 10, Some(ThresholdRule(TWO_A_MINUTE)))
  const FROM_0 := Op(MINUTE_RULE, 0, 60 * MICROS, false, NoFault)
  const FROM_5 := Op(MINUTE_RULE, 5 * MICROS, 65 * MICROS, false, NoFault)

  lemma BurstIsOrdered()
    ensures Ordered(BURST) == BURST && UniqueIds(BURST)
    ensures Ordered(BURST[1..]) == BURST[1..]
  {
    assert SortedBy(EventLe, BURST);
    assert BURST[0..3] == BURST && BURST[1..3] == BURST[1..];
    SliceIsOrdered(BURST, 0, 3);
    SliceIsOrdered(BURST, 1, 3);
  }

  lemma BurstCandidates(w: World)
    requires w.events == BURST
    ensures CandidatesAt(w, FROM_0) == BURST && CandidatesAt(w, FROM_5) == BURST[1..]
  {
    BurstIsOrdered();
    hide Ordered;
    var rest := BURST[1..];
    assert rest == [AT_10, AT_20] && rest[1..] == [AT_20] && [AT_20][1..] == [];
    assert InWindow([AT_20], 0, 60 * MICROS) == [AT_20] && InWindow([AT_20], 5 * MICROS, 65 * MICROS) == [AT_20];
    assert InWindow(rest, 0, 60 * MICROS) == rest && InWindow(rest, 5 * MICROS, 65 * MICROS) == rest;
    assert InWindow(BURST, 0, 60 * MICROS) == BURST && InWindow(BURST, 5 * MICROS, 65 * MICROS) == rest;
  }

  lemma MinuteFirings(w: World, op: Op, m: T.ThresholdMatch)
    requires op.rule == MINUTE_RULE && T.Duration(TWO_A_MINUTE) > 0
    requires m in T.Firings(RowView(w.cidr), w.repr, TWO_A_MINUTE, op.start, op.end, CandidatesAt(w, op))
    ensures ParseLogic(op.rule.structured).Some? && ThresholdFiring(m.group, m.evidence) in FiringsAt(w, op)
  {
    hide CandidatesOf, T.Firings, RowView;
    var ms := T.Firings(RowView(w.cidr), w.repr, TWO_A_MINUTE, op.start, op.end, CandidatesAt(w, op));
    var i :| 0 <= i < |ms| && ms[i] == m;
    assert FiringsAt(w, op) == ThresholdFirings(ms) && ThresholdFirings(ms)[i] == ThresholdFiring(m.group, m.evidence);
  }

  /** If all candidates are stored and lie within the rule's minute, the run fires them all. */
  lemma MinuteFires(w: World, before: seq<Op>, op: Op, cands: seq<Event>)
    requires op.rule == MINUTE_RULE && CandidatesAt(w, op) == cands && Ordered(cands) == cands
    requires 2 <= |cands| && forall e :: e in cands ==>
      e in w.events && op.start <= e.time < op.end && e.time < op.start + 60 * MICROS
    requires Perform(w, RunOps(w, EMPTY, before), op).1.Done?
    ensures Fires(w, RunOps(w, EMPTY, before), op, PrintOf(MINUTE_RULE, ThresholdFiring([], Ids(cands))))
  {
    hide RunOps, Perform, CandidatesOf, T.Firings, RowView, Ordered, Rows;
    var t := TWO_A_MINUTE;
    assert T.Duration(t) == 60 * MICROS;
    MatchesAnyEvent(w.cidr);
    var m := T.FirstBucketFires(RowView(w.cidr), w.repr, t, op.start, op.end, cands);
    MinuteFirings(w, op, m);
    hide FiringsAt;
    var f := ThresholdFiring([], Ids(cands));
    assert Ids(cands)[0] == cands[0].id && cands[0] in cands;
    RowsOfKnownId(w.events, EvidenceIds(f), cands[0]);
    var fs := FiringsAt(w, op);
    var i :| 0 <= i < |fs| && fs[i] == f;
    assert PrintOf(op.rule, fs[i]) == PrintOf(MINUTE_RULE, f);
  }

  lemma MatchesAnyEvent(cidr: Cidr)
    ensures forall e :: RowView(cidr).hit(e, Leaf(Exists, EventId, NoValue))
  {
    forall e ensures RowView(cidr).hit(e, Leaf(Exists, EventId, NoValue)) { assert e.Get(EventId).Some?; }
  }

  lemma BurstRuns(w: World, before: seq<Op>)
    ensures Perform(w, RunOps(w, EMPTY, before), FROM_0).1.Done?
    ensures Perform(w, RunOps(w, EMPTY, before), FROM_5).1.Done?
  {
    assert ParseLogic(MINUTE_RULE.structured) == Some(ThresholdRule(TWO_A_MINUTE));
    SmallScansFit(w, TWO_A_MINUTE, FROM_0);
    SmallScansFit(w, TWO_A_MINUTE, FROM_5);
    hide RunOps, Perform, TooMuchEvidence;
    RunCompletesExactly(w, before, FROM_0);
    RunCompletesExactly(w, before, FROM_5);
  }

  /** One burst, two windows that start five seconds apart: two alerts, the evidence of one
      within that of the other. */
  lemma ShiftedWindowFilesTwice(w: World)
    requires w.events == BURST
    ensures var prints := Prints(RunOps(w, EMPTY, [FROM_0, FROM_5]).tables.alerts);
      && PrintOf(MINUTE_RULE, ThresholdFiring([], ["e1", "e2", "e3"])) in prints
      && PrintOf(MINUTE_RULE, ThresholdFiring([], ["e2", "e3"])) in prints
  {
    hide RunOps, Fires, Perform, Prints, CandidatesAt, Ordered, PrintOf;
    var ops := [FROM_0, FROM_5];
    assert ops[..0] == [] && ops[..1] == [FROM_0];
    BurstIsOrdered();
    BurstCandidates(w);
    BurstRuns(w, []);
    BurstRuns(w, [FROM_0]);
    MinuteFires(w, [], FROM_0, BURST);
    MinuteFires(w, [FROM_0], FROM_5, BURST[1..]);
    assert Ids(BURST) == ["e1", "e2", "e3"] && Ids(BURST[1..]) == ["e2", "e3"];
    AlertedExactly(w, ops, PrintOf(MINUTE_RULE, ThresholdFiring([], ["e1", "e2", "e3"])));
    AlertedExactly(w, ops, PrintOf(MINUTE_RULE, ThresholdFiring([], ["e2", "e3"])));
    assert Fires(w, RunOps(w, EMPTY, ops[..0]), ops[0], PrintOf(MINUTE_RULE, ThresholdFiring([], Ids(BURST))));
    assert Fires(w, RunOps(w, EMPTY, ops[..1]), ops[1], PrintOf(MINUTE_RULE, ThresholdFiring([], Ids(BURST[1..]))));
  }
}
