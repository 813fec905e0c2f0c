/** What the two ways of reading a field mean for rules that group or correlate: as
    mappings, events show all twenty fields; as database rows, only five. */
module FieldAccess {
  import opened Basics
  import opened Dsl
  import opened Matcher
  import opened Events
  import S = Sequence
  import T = Threshold

  predicate AllReadable(keys: seq<Field>) { forall i | 0 <= i < |keys| :: Readable(keys[i]) }

  ghost predicate AgreeOn(v: View, w: View, keys: seq<Field>) {
    v.hit == w.hit && forall e, i :: 0 <= i < |keys| ==> v.get(e, keys[i]) == w.get(e, keys[i])
  }

  function MappingView(cidr: Cidr): View { ViewOf(cidr, MappingGet()) }

  function RowView(cidr: Cidr): View { ViewOf(cidr, RowGet()) }

  lemma ReadableAgree(cidr: Cidr, keys: seq<Field>)
    requires AllReadable(keys)
    ensures AgreeOn(MappingView(cidr), RowView(cidr), keys)
  { }

  /** What the two views show of an event: both match as `match_event` does; a mapping shows
      every field, a row its id and time and three columns, and nothing else. */
  lemma ViewsShow(cidr: Cidr, e: Event, c: Condition, f: Field)
    ensures MappingView(cidr).hit(e, c) == RowView(cidr).hit(e, c) == MatchEvent(cidr, e, c).matched
    ensures RaiserOf(cidr)(e, c) == MatchEvent(cidr, e, c).raised
    ensures var stored := if f in e.attrs then Some(e.attrs[f]) else None;
      && MappingView(cidr).get(e, f) == e.Get(f)
      && e.Get(f) == (match f case EventId => Some(Str(e.id)) case Timestamp => Some(Time(e.time)) case _ => stored)
      && RowView(cidr).get(e, f) == match f {
           case EventId => Some(Str(e.id))
           case Timestamp => Some(Time(e.time))
           case SourceIp => stored
           case Username => stored
           case Hostname => stored
           case _ => None
         }
  {
    hide MatchEvent;
  }

  // ---- Sequences -----------------------------------------------------------

  lemma SameReading(v: View, w: View, logic: SequenceLogic, first: Event, e: Event, c: Condition)
    requires AgreeOn(v, w, logic.sharedKeys)
    ensures S.HasKeys(v, e, logic.sharedKeys) == S.HasKeys(w, e, logic.sharedKeys)
    ensures S.SameKeys(v, first, e, logic.sharedKeys) == S.SameKeys(w, first, e, logic.sharedKeys)
    ensures S.Fits(v, logic, first, c, e) == S.Fits(w, logic, first, c, e)
    ensures S.Correlation(v, first, logic.sharedKeys) == S.Correlation(w, first, logic.sharedKeys)
  { }

  lemma {:induction false} SamePick(v: View, w: View, ord: seq<Event>, logic: SequenceLogic, first: Event,
                                    slots: seq<Condition>, cursor: nat)
    requires AgreeOn(v, w, logic.sharedKeys)
    ensures S.Pick(v, ord, logic, first, slots, cursor) == S.Pick(w, ord, logic, first, slots, cursor)
    decreases |ord| - cursor
  {
    if slots != [] && cursor < |ord| {
      SameReading(v, w, logic, first, ord[cursor], slots[0]);
      SamePick(v, w, ord, logic, first, slots[1..], cursor + 1);
      SamePick(v, w, ord, logic, first, slots, cursor + 1);
      hide AgreeOn, S.Fits, S.InSpan;
    }
  }

  lemma AgreeHits(v: View, w: View, keys: seq<Field>)
    requires AgreeOn(v, w, keys)
    ensures v.hit == w.hit
  { }

  lemma SameMatch(v: View, w: View, ord: seq<Event>, logic: SequenceLogic, s: nat)
    requires AgreeOn(v, w, logic.sharedKeys) && s < |ord|
    ensures S.MatchAt(v, ord, logic, s) == S.MatchAt(w, ord, logic, s)
  {
    hide AgreeOn, S.Pick, S.Correlation, S.Split, S.EvidenceOf, S.HasKeys, S.Fits, S.SameKeys;
    assert v.hit == w.hit by { AgreeHits(v, w, logic.sharedKeys); }
    if logic.stages != [] { SameReading(v, w, logic, ord[s], ord[s], logic.stages[0].condition); }
    if S.Slots(logic.stages) != [] { SamePick(v, w, ord, logic, ord[s], S.Slots(logic.stages)[1..], s + 1); }
    SameReading(v, w, logic, ord[s], ord[s], Leaf(Exists, EventId, NoValue));
  }

  lemma {:induction false} SameReports(v: View, w: View, ord: seq<Event>, logic: SequenceLogic, s: nat,
                                       seen: set<seq<S.StageEvidence>>)
    requires AgreeOn(v, w, logic.sharedKeys) && s <= |ord|
    ensures S.Reported(v, ord, logic, s, seen) == S.Reported(w, ord, logic, s, seen)
    decreases |ord| - s
  {
    hide AgreeOn, S.MatchAt;
    if s < |ord| {
      SameMatch(v, w, ord, logic, s);
      var m := S.MatchAt(v, ord, logic, s);
      SameReports(v, w, ord, logic, s + 1, seen);
      if m.Some? { SameReports(v, w, ord, logic, s + 1, seen + {m.value.evidence}); }
    }
  }

  /** A shared key that rows do not show: no event can start a chain. */
  lemma UnreadableNeverStarts(cidr: Cidr, ord: seq<Event>, logic: SequenceLogic, s: nat)
    requires !AllReadable(logic.sharedKeys) && s < |ord|
    ensures S.MatchAt(RowView(cidr), ord, logic, s).None?
  {
    var i :| 0 <= i < |logic.sharedKeys| && !Readable(logic.sharedKeys[i]);
    assert RowView(cidr).get(ord[s], logic.sharedKeys[i]).None?;
    hide S.Pick, S.Split, S.EvidenceOf;
  }

  lemma {:induction false} UnreadableReportsNothing(cidr: Cidr, ord: seq<Event>, logic: SequenceLogic, s: nat,
                                                    seen: set<seq<S.StageEvidence>>)
    requires !AllReadable(logic.sharedKeys) && s <= |ord|
    ensures S.Reported(RowView(cidr), ord, logic, s, seen) == []
    decreases |ord| - s
  {
    if s < |ord| {
      UnreadableNeverStarts(cidr, ord, logic, s);
      hide S.MatchAt;
      UnreadableReportsNothing(cidr, ord, logic, s + 1, seen);
    }
  }

  function SequenceReports(view: View, ord: seq<Event>, logic: SequenceLogic): seq<S.SequenceMatch> {
    S.Reported(view, ord, logic, 0, {})
  }

  /** On given events a sequence rule reports the same on rows as on mappings exactly when
      its shared keys are among the five, or it reports nothing either way. */
  lemma SequenceReadingsAgreeExactly(cidr: Cidr, ord: seq<Event>, logic: SequenceLogic)
    ensures SequenceReports(RowView(cidr), ord, logic) == SequenceReports(MappingView(cidr), ord, logic) <==>
      AllReadable(logic.sharedKeys) || SequenceReports(MappingView(cidr), ord, logic) == []
  {
    if AllReadable(logic.sharedKeys) {
      ReadableAgree(cidr, logic.sharedKeys);
      SameReports(MappingView(cidr), RowView(cidr), ord, logic, 0, {});
    } else {
      UnreadableReportsNothing(cidr, ord, logic, 0, {});
    }
  }

  /** For a rule that some mappings can satisfy, the readings agree on all events exactly
      when its shared keys are among the five. */
  lemma SequenceRulesAgreeExactly(cidr: Cidr, logic: SequenceLogic, example: seq<Event>)
    requires SequenceReports(MappingView(cidr), example, logic) != []
    ensures AllReadable(logic.sharedKeys) <==> forall ord ::
      SequenceReports(RowView(cidr), ord, logic) == SequenceReports(MappingView(cidr), ord, logic)
  {
    SequenceReadingsAgreeExactly(cidr, example, logic);
    forall ord | AllReadable(logic.sharedKeys)
      ensures SequenceReports(RowView(cidr), ord, logic) == SequenceReports(MappingView(cidr), ord, logic)
    {
      SequenceReadingsAgreeExactly(cidr, ord, logic);
    }
  }

  // ---- Thresholds ----------------------------------------------------------

  /** The fields a threshold rule reads besides its condition. */
  function KeysOf(logic: ThresholdLogic): seq<Field> {
    logic.groupBy + if logic.distinctField.Some? then [logic.distinctField.value] else []
  }

  lemma SameBucketKeys(v: View, w: View, logic: ThresholdLogic, start: int, end: int, e: Event)
    requires AgreeOn(v, w, KeysOf(logic)) && T.Duration(logic) > 0
    ensures T.Qualifies(v, logic, start, end, e) == T.Qualifies(w, logic, start, end, e)
    ensures T.HasGroup(v, e, logic.groupBy) == T.HasGroup(w, e, logic.groupBy)
    ensures T.HasGroup(v, e, logic.groupBy) ==> T.KeyOf(v, logic, start, e) == T.KeyOf(w, logic, start, e)
  {
    hide T.BucketStart, T.Duration;
    forall i | 0 <= i < |logic.groupBy| ensures v.get(e, logic.groupBy[i]) == w.get(e, logic.groupBy[i]) {
      assert KeysOf(logic)[i] == logic.groupBy[i];
    }
  }

  lemma {:induction false} SameBuckets(v: View, w: View, logic: ThresholdLogic, start: int, end: int,
                                       events: seq<Event>, key: T.Key)
    requires AgreeOn(v, w, KeysOf(logic)) && T.Duration(logic) > 0
    ensures T.Bucket(v, logic, start, end, events, key) == T.Bucket(w, logic, start, end, events, key)
    ensures T.Keys(v, logic, start, end, events) == T.Keys(w, logic, start, end, events)
  {
    if events != [] {
      var n := |events| - 1;
      SameBuckets(v, w, logic, start, end, events[..n], key);
      SameBucketKeys(v, w, logic, start, end, events[n]);
      hide AgreeOn, T.KeyOf, T.Duration;
    }
  }

  lemma SameBucketMatch(v: View, w: View, logic: ThresholdLogic, end: int, key: T.Key, bucket: seq<Event>)
    requires AgreeOn(v, w, KeysOf(logic))
    ensures T.BucketMatch(v, logic, end, key, bucket) == T.BucketMatch(w, logic, end, key, bucket)
  {
    if logic.distinctField.Some? {
      var f, k := logic.distinctField.value, |logic.groupBy|;
      assert KeysOf(logic)[k] == f;
      assert forall e :: v.get(e, f) == w.get(e, f);
      assert T.Values(v, f, Ordered(bucket)) == T.Values(w, f, Ordered(bucket));
    }
  }

  lemma {:induction false} SameCollected(v: View, w: View, logic: ThresholdLogic, start: int, end: int,
                                         events: seq<Event>, keys: seq<T.Key>)
    requires AgreeOn(v, w, KeysOf(logic)) && T.Duration(logic) > 0
    ensures T.Collect(v, logic, start, end, events, keys) == T.Collect(w, logic, start, end, events, keys)
  {
    if keys != [] {
      var n := |keys| - 1;
      SameCollected(v, w, logic, start, end, events, keys[..n]);
      SameBuckets(v, w, logic, start, end, events, keys[n]);
      SameBucketMatch(v, w, logic, end, keys[n], T.Bucket(v, logic, start, end, events, keys[n]));
      hide AgreeOn, T.BucketMatch, T.Duration;
    }
  }

  lemma SameFirings(v: View, w: View, repr: T.Repr, logic: ThresholdLogic, start: int, end: int, events: seq<Event>)
    requires AgreeOn(v, w, KeysOf(logic)) && T.Duration(logic) > 0
    ensures T.Firings(v, repr, logic, start, end, events) == T.Firings(w, repr, logic, start, end, events)
  {
    SameBuckets(v, w, logic, start, end, events, T.Key(0, []));
    SameCollected(v, w, logic, start, end, events, Sort(T.KeyOrder(repr), T.Keys(v, logic, start, end, events)));
    hide AgreeOn, T.Keys, T.Collect, T.Duration;
  }

  lemma {:induction false} NoGroupNoBucket(view: View, logic: ThresholdLogic, start: int, end: int,
                                           events: seq<Event>, key: T.Key)
    requires T.Duration(logic) > 0 && forall e :: !T.HasGroup(view, e, logic.groupBy)
    ensures T.Bucket(view, logic, start, end, events, key) == []
  {
    if events != [] { NoGroupNoBucket(view, logic, start, end, events[..|events| - 1], key); }
  }

  /** A grouping or counted field that rows do not show: no bucket counts anything. */
  lemma UnreadableNeverCounts(cidr: Cidr, logic: ThresholdLogic, start: int, end: int, events: seq<Event>, key: T.Key)
    requires !AllReadable(KeysOf(logic)) && T.Duration(logic) > 0 && logic.minCount >= 1
    ensures var view := RowView(cidr);
      T.BucketMatch(view, logic, end, key, T.Bucket(view, logic, start, end, events, key)).None?
  {
    hide T.Duration, T.BucketStart;
    var view := RowView(cidr);
    var bucket := T.Bucket(view, logic, start, end, events, key);
    var i :| 0 <= i < |KeysOf(logic)| && !Readable(KeysOf(logic)[i]);
    var f := KeysOf(logic)[i];
    assert forall e :: view.get(e, f).None?;
    if i < |logic.groupBy| {
      forall e ensures !T.HasGroup(view, e, logic.groupBy) { assert logic.groupBy[i] == f; }
      NoGroupNoBucket(view, logic, start, end, events, key);
      T.EmptyBucketIsSilent(view, logic, end, key);
    } else {
      assert T.Values(view, f, Ordered(bucket)) == {};
      assert T.Count(view, logic, Ordered(bucket)) == 0;
    }
  }

  lemma UnreadableFiresNothing(cidr: Cidr, repr: T.Repr, logic: ThresholdLogic, start: int, end: int,
                               events: seq<Event>)
    requires !AllReadable(KeysOf(logic)) && T.Duration(logic) > 0 && logic.minCount >= 1
    ensures T.Firings(RowView(cidr), repr, logic, start, end, events) == []
  {
    var fs := T.Firings(RowView(cidr), repr, logic, start, end, events);
    if fs != [] {
      assert fs[0] in fs;
      T.ThresholdExact(RowView(cidr), repr, logic, start, end, events, fs[0]);
      hide T.BucketMatch, T.Firings, RowView;
      var k :| T.BucketMatch(RowView(cidr), logic, end, k, T.Bucket(RowView(cidr), logic, start, end, events, k))
        == Some(fs[0]);
      UnreadableNeverCounts(cidr, logic, start, end, events, k);
    }
  }

  /** On given events a threshold rule fires the same on rows as on mappings exactly when
      the fields it groups by and counts are among the five, or it fires on neither. */
  lemma ThresholdReadingsAgreeExactly(cidr: Cidr, repr: T.Repr, logic: ThresholdLogic, start: int, end: int,
                                      events: seq<Event>)
    requires T.Duration(logic) > 0 && logic.minCount >= 1
    ensures var rows := T.Firings(RowView(cidr), repr, logic, start, end, events);
      var mappings := T.Firings(MappingView(cidr), repr, logic, start, end, events);
      rows == mappings <==> AllReadable(KeysOf(logic)) || mappings == []
  {
    if AllReadable(KeysOf(logic)) {
      ReadableAgree(cidr, KeysOf(logic));
      SameFirings(MappingView(cidr), RowView(cidr), repr, logic, start, end, events);
    } else {
      UnreadableFiresNothing(cidr, repr, logic, start, end, events);
    }
    hide T.Firings;
  }

  /** For a rule that some mappings can satisfy, the readings agree on all events exactly
      when those fields are among the five. */
  lemma ThresholdRulesAgreeExactly(cidr: Cidr, repr: T.Repr, logic: ThresholdLogic, start: int, end: int,
                                   example: seq<Event>)
    requires T.Duration(logic) > 0 && logic.minCount >= 1
    requires T.Firings(MappingView(cidr), repr, logic, start, end, example) != []
    ensures AllReadable(KeysOf(logic)) <==> forall events ::
      T.Firings(RowView(cidr), repr, logic, start, end, events)
        == T.Firings(MappingView(cidr), repr, logic, start, end, events)
  {
    ThresholdReadingsAgreeExactly(cidr, repr, logic, start, end, example);
    hide T.Firings;
    forall events | AllReadable(KeysOf(logic))
      ensures T.Firings(RowView(cidr), repr, logic, start, end, events)
        == T.Firings(MappingView(cidr), repr, logic, start, end, events)
    {
      ThresholdReadingsAgreeExactly(cidr, repr, logic, start, end, events);
    }
  }

  // ---- A rule that never fires on rows -------------------------------------

  const SSHD_EVENT := Event("e1", 0, map[ProcessName := Str("sshd")])
  const BY_PROCESS := SequenceLogic([Stage(Leaf(Exists, ProcessName, NoValue), None, 1)], [ProcessName], 60)

  /** Correlating by process name is accepted by validation; on a mapping it reports the
      event, on the same event as a row nothing. */
  lemma ProcessCorrelationIsBlind(cidr: Cidr)
    ensures SequenceOk(BY_PROCESS)
    ensures |SequenceReports(MappingView(cidr), [SSHD_EVENT], BY_PROCESS)| == 1
    ensures SequenceReports(RowView(cidr), [SSHD_EVENT], BY_PROCESS) == []
  {
    var view, ord := MappingView(cidr), [SSHD_EVENT];
    assert BY_PROCESS.sharedKeys[0] == ProcessName;
    UnreadableReportsNothing(cidr, ord, BY_PROCESS, 0, {});
    var c := BY_PROCESS.stages[0].condition;
    assert S.Slots(BY_PROCESS.stages) == [c] by {
      assert BY_PROCESS.stages[1..] == [] && S.Repeat(1, c) == [c];
    }
    assert S.Starts(view, BY_PROCESS, ord[0]);
    assert [c][1..] == [];
    var m := S.MatchAt(view, ord, BY_PROCESS, 0);
    assert m.Some?;
    hide S.MatchAt, MappingView, RowView;
    assert S.Reported(view, ord, BY_PROCESS, 1, {m.value.evidence}) == [];
    assert S.Reported(view, ord, BY_PROCESS, 0, {})
      == [m.value] + S.Reported(view, ord, BY_PROCESS, 1, {m.value.evidence});
  }
}
