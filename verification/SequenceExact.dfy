/** What the greedy sequence evaluator is worth: it finds a chain exactly when one
    exists, the earliest one, and its answer does not depend on the window it is
    given beyond the first and last event of the chain. */
module SequenceExact {
  import opened Basics
  import opened Dsl
  import opened Matcher
  import opened Events
  import opened Sequence

  ghost predicate Increasing(idx: seq<nat>) {
    forall i, j :: 0 <= i < j < |idx| ==> idx[i] < idx[j]
  }

  /** Any choice of `min_count` later events per stage, in order, that carry the first
      event's shared keys, satisfy their stage and end within the allowed span. */
  ghost predicate Admissible(view: View, ord: seq<Event>, logic: SequenceLogic, s: nat, sel: seq<seq<nat>>) {
    && s < |ord| && SizedBy(logic.stages, sel)
    && Flat(sel) != [] && Flat(sel)[0] == s && Increasing(Flat(sel)) && InRange(ord, Flat(sel), 0)
    && (forall k | 0 <= k < |logic.sharedKeys| :: view.get(ord[s], logic.sharedKeys[k]).Some?)
    && (forall k, i :: 0 <= k < |sel| && 0 <= i < |sel[k]| ==>
         EventFits(view, ord, logic, s, logic.stages[k].condition, sel[k][i]))
    && ord[Last(Flat(sel))].time - ord[s].time <= logic.maxSpanSeconds * 1_000_000
  }

  /** Event `i` satisfies `c` and has, in every shared key, the value of event `s`. */
  ghost predicate EventFits(view: View, ord: seq<Event>, logic: SequenceLogic, s: nat, c: Condition, i: nat) {
    s < |ord| && i < |ord| && view.hit(ord[i], c)
    && forall k | 0 <= k < |logic.sharedKeys| ::
         view.get(ord[i], logic.sharedKeys[k]) == view.get(ord[s], logic.sharedKeys[k])
  }

  // ---- Slots and stages ----------------------------------------------------

  ghost predicate Pairwise(fact: (Condition, nat) -> bool, cs: seq<Condition>, idx: seq<nat>)
    requires |cs| == |idx|
  {
    forall j :: 0 <= j < |idx| ==> fact(cs[j], idx[j])
  }

  lemma PairwiseConcat(fact: (Condition, nat) -> bool, a: seq<Condition>, b: seq<Condition>, x: seq<nat>, y: seq<nat>)
    requires |a| == |x| && |b| == |y|
    ensures Pairwise(fact, a + b, x + y) <==> Pairwise(fact, a, x) && Pairwise(fact, b, y)
  {
    var cs, idx := a + b, x + y;
    if Pairwise(fact, cs, idx) {
      forall j | 0 <= j < |x| ensures fact(a[j], x[j]) { assert fact(cs[j], idx[j]); }
      forall j | 0 <= j < |y| ensures fact(b[j], y[j]) { assert fact(cs[|x| + j], idx[|x| + j]); }
    }
  }

  ghost predicate Slotwise(stages: seq<Stage>, sel: seq<seq<nat>>, fact: (Condition, nat) -> bool)
    requires |Slots(stages)| == |Flat(sel)|
  {
    Pairwise(fact, Slots(stages), Flat(sel))
  }

  ghost predicate Stagewise(stages: seq<Stage>, sel: seq<seq<nat>>, fact: (Condition, nat) -> bool)
    requires |sel| == |stages|
  {
    forall k, i :: 0 <= k < |sel| && 0 <= i < |sel[k]| ==> fact(stages[k].condition, sel[k][i])
  }

  /** The first stage's slots come first. */
  lemma SlotwiseStep(stages: seq<Stage>, sel: seq<seq<nat>>, fact: (Condition, nat) -> bool)
    requires SizedBy(stages, sel) && stages != [] && |Slots(stages[1..])| == |Flat(sel[1..])|
    ensures |Slots(stages)| == |Flat(sel)|
    ensures Slotwise(stages, sel, fact) <==>
      (forall i :: 0 <= i < |sel[0]| ==> fact(stages[0].condition, sel[0][i])) && Slotwise(stages[1..], sel[1..], fact)
  {
    var c, n := stages[0].condition, |sel[0]|;
    assert Slots(stages) == Repeat(n, c) + Slots(stages[1..]) && Flat(sel) == sel[0] + Flat(sel[1..]);
    hide Slots, Flat;
    PairwiseConcat(fact, Repeat(n, c), Slots(stages[1..]), sel[0], Flat(sel[1..]));
    if Pairwise(fact, Repeat(n, c), sel[0]) {
      forall i | 0 <= i < n ensures fact(c, sel[0][i]) { assert fact(Repeat(n, c)[i], sel[0][i]); }
    }
  }

  lemma StagewiseStep(stages: seq<Stage>, sel: seq<seq<nat>>, fact: (Condition, nat) -> bool)
    requires |sel| == |stages| && stages != []
    ensures Stagewise(stages, sel, fact) <==>
      (forall i :: 0 <= i < |sel[0]| ==> fact(stages[0].condition, sel[0][i])) && Stagewise(stages[1..], sel[1..], fact)
  {
    var rest, tail := stages[1..], sel[1..];
    if Stagewise(stages, sel, fact) {
      forall k, i | 0 <= k < |tail| && 0 <= i < |tail[k]| ensures fact(rest[k].condition, tail[k][i]) {
        assert sel[k + 1] == tail[k] && stages[k + 1] == rest[k];
      }
    }
    if Stagewise(rest, tail, fact) {
      forall k, i | 1 <= k < |sel| && 0 <= i < |sel[k]| ensures fact(stages[k].condition, sel[k][i]) {
        assert sel[k] == tail[k - 1] && stages[k] == rest[k - 1];
      }
    }
  }

  /** A fact holds stage by stage exactly when it holds slot by slot. */
  lemma {:induction false} SlotwiseIsStagewise(stages: seq<Stage>, sel: seq<seq<nat>>, fact: (Condition, nat) -> bool)
    requires SizedBy(stages, sel)
    ensures |Slots(stages)| == |Flat(sel)|
    ensures Slotwise(stages, sel, fact) <==> Stagewise(stages, sel, fact)
  {
    if stages != [] {
      SlotwiseIsStagewise(stages[1..], sel[1..], fact);
      SlotwiseStep(stages, sel, fact);
      StagewiseStep(stages, sel, fact);
      hide Slotwise, Stagewise;
    }
  }

  ghost predicate IsChain(view: View, ord: seq<Event>, logic: SequenceLogic, s: nat,
                          slots: seq<Condition>, idx: seq<nat>, cursor: nat) {
    && s < |ord| && |idx| == |slots| && InRange(ord, idx, cursor) && Increasing(idx)
    && forall j :: 0 <= j < |idx| ==>
         EventFits(view, ord, logic, s, slots[j], idx[j]) && InSpan(logic, ord[s], ord[idx[j]])
  }

  lemma KeysCarryOver(view: View, first: Event, e: Event, keys: seq<Field>)
    requires HasKeys(view, first, keys) && SameKeys(view, first, e, keys)
    ensures HasKeys(view, e, keys)
  {
    forall i | 0 <= i < |keys| ensures view.get(e, keys[i]).Some? { assert view.get(first, keys[i]).Some?; }
  }

  /** Whatever the scan picks is a chain. */
  lemma {:induction false} PickIsChain(view: View, ord: seq<Event>, logic: SequenceLogic, s: nat,
                                       slots: seq<Condition>, cursor: nat)
    requires s < |ord| && Pick(view, ord, logic, ord[s], slots, cursor).Some?
    ensures IsChain(view, ord, logic, s, slots, Pick(view, ord, logic, ord[s], slots, cursor).value, cursor)
    decreases |ord| - cursor
  {
    if slots != [] {
      if InSpan(logic, ord[s], ord[cursor]) && Fits(view, logic, ord[s], slots[0], ord[cursor]) {
        PickIsChain(view, ord, logic, s, slots[1..], cursor + 1);
        var tail := Pick(view, ord, logic, ord[s], slots[1..], cursor + 1).value;
        forall j | 0 <= j < |tail| + 1
          ensures EventFits(view, ord, logic, s, slots[j], ([cursor] + tail)[j])
          ensures InSpan(logic, ord[s], ord[([cursor] + tail)[j]])
        {
          if j > 0 { assert slots[j] == slots[1..][j - 1]; }
        }
      } else {
        PickIsChain(view, ord, logic, s, slots, cursor + 1);
      }
    }
  }

  /** The exchange argument: the scan succeeds whenever any chain exists, and its
      picks are at or before that chain's, position by position. */
  lemma {:induction false} PickIsEarliest(view: View, ord: seq<Event>, logic: SequenceLogic, s: nat,
                                          slots: seq<Condition>, idx: seq<nat>, cursor: nat)
    requires s < |ord| && HasKeys(view, ord[s], logic.sharedKeys)
    requires IsChain(view, ord, logic, s, slots, idx, cursor)
    ensures Pick(view, ord, logic, ord[s], slots, cursor).Some?
    ensures var p := Pick(view, ord, logic, ord[s], slots, cursor).value;
      forall j :: 0 <= j < |idx| ==> p[j] <= idx[j]
    decreases |ord| - cursor
  {
    if slots != [] {
      assert cursor <= idx[0] < |ord|;
      if InSpan(logic, ord[s], ord[cursor]) && Fits(view, logic, ord[s], slots[0], ord[cursor]) {
        assert IsChain(view, ord, logic, s, slots[1..], idx[1..], cursor + 1);
        PickIsEarliest(view, ord, logic, s, slots[1..], idx[1..], cursor + 1);
        var tail := Pick(view, ord, logic, ord[s], slots[1..], cursor + 1).value;
        forall j | 0 <= j < |idx| ensures ([cursor] + tail)[j] <= idx[j] {
          if j > 0 { assert tail[j - 1] <= idx[1..][j - 1]; }
        }
      } else {
        KeysCarryOver(view, ord[s], ord[idx[0]], logic.sharedKeys);
        assert idx[0] != cursor;
        PickIsEarliest(view, ord, logic, s, slots, idx, cursor + 1);
      }
    }
  }

  // ---- Exactness -----------------------------------------------------------

  lemma SpanOfAll(ord: seq<Event>, logic: SequenceLogic, s: nat, idx: seq<nat>)
    requires SortedBy(EventLe, ord) && s < |ord| && idx != []
    requires Increasing(idx) && InRange(ord, idx, 0) && InSpan(logic, ord[s], ord[Last(idx)])
    ensures forall j :: 0 <= j < |idx| ==> InSpan(logic, ord[s], ord[idx[j]])
  {
    forall j | 0 <= j < |idx| ensures InSpan(logic, ord[s], ord[idx[j]]) {
      assert idx[j] <= Last(idx);
      TimesAscend(ord, idx[j], Last(idx));
    }
  }

  /** Slot by slot, an admissible choice is a starting event followed by a chain. */
  lemma {:induction false} AdmissibleSlots(view: View, ord: seq<Event>, logic: SequenceLogic, s: nat,
                                           sel: seq<seq<nat>>)
    requires Staged(logic) && SortedBy(EventLe, ord) && Admissible(view, ord, logic, s, sel)
    ensures |Slots(logic.stages)| == |Flat(sel)| && Flat(sel)[0] == s && Starts(view, logic, ord[s])
    ensures IsChain(view, ord, logic, s, Slots(logic.stages)[1..], Flat(sel)[1..], s + 1)
  {
    var idx, slots := Flat(sel), Slots(logic.stages);
    SpanOfAll(ord, logic, s, idx);
    var fact := (c: Condition, i: nat) => EventFits(view, ord, logic, s, c, i);
    SlotwiseIsStagewise(logic.stages, sel, fact);
    assert slots[0] == logic.stages[0].condition;
    forall j | 0 <= j < |idx| ensures EventFits(view, ord, logic, s, slots[j], idx[j]) {
      assert fact(slots[j], idx[j]);
    }
    hide Slots, Flat, InSpan, SameKeys, HasKeys;
    forall j | 0 <= j < |idx[1..]|
      ensures EventFits(view, ord, logic, s, slots[1..][j], idx[1..][j]) && InSpan(logic, ord[s], ord[idx[1..][j]])
    {
      assert EventFits(view, ord, logic, s, slots[j + 1], idx[j + 1]);
    }
  }

  lemma {:induction false} GreedyChainIsEarliest(view: View, ord: seq<Event>, logic: SequenceLogic, s: nat,
                                                 sel: seq<seq<nat>>)
    requires Staged(logic) && SortedBy(EventLe, ord) && Admissible(view, ord, logic, s, sel)
    ensures Chain(view, ord, logic, s).Some?
    ensures var c := Chain(view, ord, logic, s).value;
      |c| == |Flat(sel)| && forall j :: 0 <= j < |c| ==> c[j] <= Flat(sel)[j]
  {
    AdmissibleSlots(view, ord, logic, s, sel);
    hide Admissible, Slots, Flat, IsChain;
    PickIsEarliest(view, ord, logic, s, Slots(logic.stages)[1..], Flat(sel)[1..], s + 1);
    var p := Pick(view, ord, logic, ord[s], Slots(logic.stages)[1..], s + 1).value;
    forall j | 0 <= j < |p| + 1 ensures ([s] + p)[j] <= Flat(sel)[j] {
      if j > 0 { assert p[j - 1] <= Flat(sel)[1..][j - 1]; }
    }
  }

  function StageEvents(ord: seq<Event>, sel: seq<seq<nat>>): seq<seq<Event>>
    requires forall k :: 0 <= k < |sel| ==> InRange(ord, sel[k], 0)
  {
    seq(|sel|, k requires 0 <= k < |sel| => At(ord, sel[k]))
  }

  lemma {:induction false} PartInRange(ord: seq<Event>, sel: seq<seq<nat>>, k: nat)
    requires InRange(ord, Flat(sel), 0) && k < |sel|
    ensures InRange(ord, sel[k], 0)
  {
    assert Flat(sel) == sel[0] + Flat(sel[1..]);
    if k == 0 {
      forall i | 0 <= i < |sel[0]| ensures 0 <= sel[0][i] < |ord| { assert Flat(sel)[i] == sel[0][i]; }
    } else {
      forall i | 0 <= i < |Flat(sel[1..])| ensures 0 <= Flat(sel[1..])[i] < |ord| {
        assert Flat(sel)[|sel[0]| + i] == Flat(sel[1..])[i];
      }
      PartInRange(ord, sel[1..], k - 1);
    }
  }

  lemma {:induction false} FlatStageEvents(ord: seq<Event>, sel: seq<seq<nat>>)
    requires InRange(ord, Flat(sel), 0) && forall k :: 0 <= k < |sel| ==> InRange(ord, sel[k], 0)
    ensures Flat(StageEvents(ord, sel)) == At(ord, Flat(sel))
  {
    if sel != [] {
      assert Flat(sel) == sel[0] + Flat(sel[1..]);
      forall i | 0 <= i < |Flat(sel[1..])| ensures 0 <= Flat(sel[1..])[i] < |ord| {
        assert Flat(sel)[|sel[0]| + i] == Flat(sel[1..])[i];
      }
      FlatStageEvents(ord, sel[1..]);
      AtAppend(ord, sel[0], Flat(sel[1..]));
      assert StageEvents(ord, sel)[1..] == StageEvents(ord, sel[1..]);
    }
  }

  lemma ChainFitsSlots(view: View, ord: seq<Event>, logic: SequenceLogic, s: nat)
    requires Staged(logic) && s < |ord| && Chain(view, ord, logic, s).Some?
    ensures var c := Chain(view, ord, logic, s).value;
      && c[0] == s && Increasing(c) && InSpan(logic, ord[s], ord[Last(c)]) && HasKeys(view, ord[s], logic.sharedKeys)
      && forall j :: 0 <= j < |c| ==> EventFits(view, ord, logic, s, Slots(logic.stages)[j], c[j])
  {
    var slots := Slots(logic.stages);
    PickIsChain(view, ord, logic, s, slots[1..], s + 1);
    var c := Chain(view, ord, logic, s).value;
    assert slots[0] == logic.stages[0].condition;
    forall j | 0 <= j < |c| ensures EventFits(view, ord, logic, s, slots[j], c[j]) {
      if j > 0 { assert slots[j] == slots[1..][j - 1] && c[j] == c[1..][j - 1]; }
    }
  }

  /** The reported chain is itself an admissible choice. */
  lemma GreedyIsAdmissible(view: View, ord: seq<Event>, logic: SequenceLogic, s: nat)
    requires Staged(logic) && s < |ord| && Chain(view, ord, logic, s).Some?
    ensures var c := Chain(view, ord, logic, s).value;
      Admissible(view, ord, logic, s, Split(logic.stages, c)) && Flat(Split(logic.stages, c)) == c
  {
    ChainFitsSlots(view, ord, logic, s);
    hide Chain, Split, Slots, EventFits, HasKeys, InSpan, Increasing;
    var c := Chain(view, ord, logic, s).value;
    var sel := Split(logic.stages, c);
    var fact := (x: Condition, i: nat) => EventFits(view, ord, logic, s, x, i);
    assert forall j :: 0 <= j < |c| ==> fact(Slots(logic.stages)[j], c[j]);
    SlotwiseIsStagewise(logic.stages, sel, fact);
    forall k, i | 0 <= k < |sel| && 0 <= i < |sel[k]|
      ensures EventFits(view, ord, logic, s, logic.stages[k].condition, sel[k][i])
    {
      assert fact(logic.stages[k].condition, sel[k][i]);
    }
  }

  /** All events of a chain have one value in each shared key, and none lies further from the
      first than the allowed span. */
  lemma ChainCorrelates(view: View, ord: seq<Event>, logic: SequenceLogic, s: nat, j: nat, f: Field)
    requires Staged(logic) && SortedBy(EventLe, ord) && s < |ord| && Chain(view, ord, logic, s).Some?
    requires j < |Chain(view, ord, logic, s).value| && f in logic.sharedKeys
    ensures var e := ord[Chain(view, ord, logic, s).value[j]];
      && view.get(e, f).Some? && view.get(e, f) == view.get(ord[s], f)
      && 0 <= e.time - ord[s].time <= logic.maxSpanSeconds * 1_000_000
  {
    ChainFitsSlots(view, ord, logic, s);
    var c := Chain(view, ord, logic, s).value;
    SpanOfAll(ord, logic, s, c);
    TimesAscend(ord, s, c[j]);
    assert EventFits(view, ord, logic, s, Slots(logic.stages)[j], c[j]) && InSpan(logic, ord[s], ord[c[j]]);
    hide Chain, Slots;
    var k :| 0 <= k < |logic.sharedKeys| && logic.sharedKeys[k] == f;
  }

  lemma {:induction false} SplitAt(stages: seq<Stage>, ord: seq<Event>, c: seq<nat>)
    requires |c| == |Slots(stages)| && InRange(ord, c, 0)
    ensures forall k :: 0 <= k < |Split(stages, c)| ==> InRange(ord, Split(stages, c)[k], 0)
    ensures Split(stages, At(ord, c)) == StageEvents(ord, Split(stages, c))
  {
    var sel := Split(stages, c);
    forall k | 0 <= k < |sel| ensures InRange(ord, sel[k], 0) { PartInRange(ord, sel, k); }
    FlatStageEvents(ord, sel);
    SplitFlat(stages, StageEvents(ord, sel));
  }

  /** What is reported is that choice: its span, and each stage's events under its tag. */
  lemma ReportIsAboutTheChain(view: View, ord: seq<Event>, logic: SequenceLogic, s: nat)
    requires Staged(logic) && s < |ord| && Chain(view, ord, logic, s).Some?
    ensures var c := Chain(view, ord, logic, s).value; var sel := Split(logic.stages, c);
      && (forall k :: 0 <= k < |sel| ==> InRange(ord, sel[k], 0))
      && MatchAt(view, ord, logic, s) == Some(SequenceMatch(
           Correlation(view, ord[s], logic.sharedKeys), ord[Last(c)].time - ord[s].time,
           EvidenceOf(logic.stages, StageEvents(ord, sel))))
  {
    hide Chain, Split, EvidenceOf, Slots, StageEvents;
    SplitAt(logic.stages, ord, Chain(view, ord, logic, s).value);
  }

  /** Every admissible choice is matched by the evaluator, which never ends later. */
  lemma {:induction false} GreedyIsEarliest(view: View, ord: seq<Event>, logic: SequenceLogic, s: nat,
                                            sel: seq<seq<nat>>)
    requires Staged(logic) && SortedBy(EventLe, ord) && Admissible(view, ord, logic, s, sel)
    ensures Chain(view, ord, logic, s).Some? && MatchAt(view, ord, logic, s).Some?
    ensures var c := Chain(view, ord, logic, s).value;
      |c| == |Flat(sel)| && forall j :: 0 <= j < |c| ==> c[j] <= Flat(sel)[j]
    ensures MatchAt(view, ord, logic, s).value.span <= ord[Last(Flat(sel))].time - ord[s].time
  {
    GreedyChainIsEarliest(view, ord, logic, s, sel);
    hide Chain, MatchAt;
    ReportIsAboutTheChain(view, ord, logic, s);
    TimesAscend(ord, Last(Chain(view, ord, logic, s).value), Last(Flat(sel)));
  }

  /** A chain is reported for a first event exactly when some admissible choice exists. */
  lemma GreedyIsExact(view: View, ord: seq<Event>, logic: SequenceLogic, s: nat)
    requires Staged(logic) && SortedBy(EventLe, ord) && s < |ord|
    ensures MatchAt(view, ord, logic, s).Some? <==> exists sel :: Admissible(view, ord, logic, s, sel)
  {
    hide Admissible, Chain;
    if MatchAt(view, ord, logic, s).Some? {
      assert Chain(view, ord, logic, s).Some?;
      GreedyIsAdmissible(view, ord, logic, s);
    }
    if sel :| Admissible(view, ord, logic, s, sel) {
      GreedyIsEarliest(view, ord, logic, s, sel);
    }
  }

  // ---- When an evaluation raises -------------------------------------------

  /** Some choice of events among the positions `from` to `to` fills the slots. */
  ghost predicate Fillable(view: View, ord: seq<Event>, logic: SequenceLogic, s: nat,
                           slots: seq<Condition>, from: nat, to: nat) {
    exists idx :: IsChain(view, ord, logic, s, slots, idx, from) && Before(idx, to)
  }

  ghost predicate Before(idx: seq<nat>, to: nat) { forall i :: 0 <= i < |idx| ==> idx[i] < to }

  lemma FillableByPick(view: View, ord: seq<Event>, logic: SequenceLogic, s: nat,
                       slots: seq<Condition>, from: nat, to: nat)
    requires s < |ord| && HasKeys(view, ord[s], logic.sharedKeys)
    ensures Fillable(view, ord, logic, s, slots, from, to) <==>
      var p := Pick(view, ord, logic, ord[s], slots, from); p.Some? && Before(p.value, to)
  {
    var p := Pick(view, ord, logic, ord[s], slots, from);
    if idx :| IsChain(view, ord, logic, s, slots, idx, from) && Before(idx, to) {
      PickIsEarliest(view, ord, logic, s, slots, idx, from);
    }
    if p.Some? && Before(p.value, to) { PickIsChain(view, ord, logic, s, slots, from); }
  }

  lemma BeforePrepend(x: nat, r: Option<seq<nat>>, to: nat)
    requires x < to
    ensures Prepend([x], r).Some? && Before(Prepend([x], r).value, to) <==> r.Some? && Before(r.value, to)
  {
    if r.Some? {
      var v := [x] + r.value;
      if Before(v, to) { forall i | 0 <= i < |r.value| ensures r.value[i] < to { assert v[i + 1] < to; } }
    }
  }

  /** An event that fits the first slot takes it; any other event is passed over. */
  lemma FillableStep(view: View, ord: seq<Event>, logic: SequenceLogic, s: nat,
                     slots: seq<Condition>, from: nat, to: nat)
    requires s < |ord| && HasKeys(view, ord[s], logic.sharedKeys) && slots != [] && from < to && from < |ord|
    ensures Fillable(view, ord, logic, s, slots, from, to) <==>
      if InSpan(logic, ord[s], ord[from]) && Fits(view, logic, ord[s], slots[0], ord[from])
      then Fillable(view, ord, logic, s, slots[1..], from + 1, to)
      else Fillable(view, ord, logic, s, slots, from + 1, to)
  {
    FillableByPick(view, ord, logic, s, slots, from, to);
    FillableByPick(view, ord, logic, s, slots, from + 1, to);
    FillableByPick(view, ord, logic, s, slots[1..], from + 1, to);
    hide Fillable;
    BeforePrepend(from, Pick(view, ord, logic, ord[s], slots[1..], from + 1), to);
  }

  lemma FillableNothing(view: View, ord: seq<Event>, logic: SequenceLogic, s: nat,
                        slots: seq<Condition>, from: nat, to: nat)
    requires s < |ord|
    ensures slots == [] ==> Fillable(view, ord, logic, s, slots, from, to)
    ensures slots != [] && to <= from ==> !Fillable(view, ord, logic, s, slots, from, to)
  {
    if slots == [] { assert IsChain(view, ord, logic, s, slots, [], from) && Before([], to); }
    forall idx: seq<nat> | idx != [] && to <= from && InRange(ord, idx, from) ensures !Before(idx, to) {
      assert from <= idx[0];
    }
  }

  /** Matching raises on event `i`, which is in span and carries the shared keys, for the
      first slot that the events before it cannot fill. */
  ghost predicate RaisesAt(view: View, bad: Hit, ord: seq<Event>, logic: SequenceLogic, s: nat,
                           slots: seq<Condition>, from: nat, i: nat, j: nat) {
    && s < |ord| && from <= i < |ord| && j < |slots|
    && ord[i].time - ord[s].time <= logic.maxSpanSeconds * 1_000_000
    && (forall k | 0 <= k < |logic.sharedKeys| ::
          view.get(ord[i], logic.sharedKeys[k]) == view.get(ord[s], logic.sharedKeys[k]))
    && bad(ord[i], slots[j])
    && Fillable(view, ord, logic, s, slots[..j], from, i)
    && !Fillable(view, ord, logic, s, slots[..j + 1], from, i)
  }

  /** One event further on: the same event and slot, counted from the remaining slots. */
  lemma RaisesAtStep(view: View, bad: Hit, ord: seq<Event>, logic: SequenceLogic, s: nat,
                     slots: seq<Condition>, from: nat, i: nat, j: nat)
    requires s < |ord| && HasKeys(view, ord[s], logic.sharedKeys) && slots != [] && from < i < |ord|
    ensures var took := InSpan(logic, ord[s], ord[from]) && Fits(view, logic, ord[s], slots[0], ord[from]);
      RaisesAt(view, bad, ord, logic, s, slots, from, i, j) <==>
        if took then j > 0 && RaisesAt(view, bad, ord, logic, s, slots[1..], from + 1, i, j - 1)
        else RaisesAt(view, bad, ord, logic, s, slots, from + 1, i, j)
  {
    if j < |slots| {
      FillableStep(view, ord, logic, s, slots[..j + 1], from, i);
      assert slots[..j + 1][0] == slots[0];
      if j > 0 {
        FillableStep(view, ord, logic, s, slots[..j], from, i);
        assert slots[..j][0] == slots[0];
        assert slots[..j][1..] == slots[1..][..j - 1];
      } else {
        FillableNothing(view, ord, logic, s, slots[..0], from, i);
        FillableNothing(view, ord, logic, s, slots[..0], from + 1, i);
      }
      assert slots[..j + 1][1..] == slots[1..][..j];
      FillableNothing(view, ord, logic, s, slots[1..][..0], from + 1, i);
      hide Fillable, InSpan, Fits, SameKeys;
    }
  }

  /** At the scan's own position only the first slot is open. */
  lemma RaisesHere(view: View, bad: Hit, ord: seq<Event>, logic: SequenceLogic, s: nat,
                   slots: seq<Condition>, from: nat, j: nat)
    requires s < |ord| && slots != [] && from < |ord|
    ensures RaisesAt(view, bad, ord, logic, s, slots, from, from, j) <==>
      j == 0 && InSpan(logic, ord[s], ord[from]) && SameKeys(view, ord[s], ord[from], logic.sharedKeys)
      && bad(ord[from], slots[0])
  {
    if j < |slots| {
      FillableNothing(view, ord, logic, s, slots[..j], from, from);
      FillableNothing(view, ord, logic, s, slots[..j + 1], from, from);
    }
  }

  lemma NothingRaisesOutOfSpan(view: View, bad: Hit, ord: seq<Event>, logic: SequenceLogic, s: nat,
                               slots: seq<Condition>, from: nat, i: nat, j: nat)
    requires SortedBy(EventLe, ord) && s < |ord| && from < |ord| && !InSpan(logic, ord[s], ord[from])
    ensures !RaisesAt(view, bad, ord, logic, s, slots, from, i, j)
  {
    if from <= i < |ord| { TimesAscend(ord, from, i); }
  }

  /** The scan raises exactly when matching raises on some event in span, with equal keys,
      for the first slot that the events before it cannot fill. */
  lemma {:induction false} PickRaisesExactly(view: View, bad: Hit, ord: seq<Event>, logic: SequenceLogic, s: nat,
                                             slots: seq<Condition>, from: nat)
    requires SortedBy(EventLe, ord) && s < |ord| && HasKeys(view, ord[s], logic.sharedKeys)
    ensures PickRaises(view, bad, ord, logic, ord[s], slots, from) <==>
      exists i: nat, j: nat :: RaisesAt(view, bad, ord, logic, s, slots, from, i, j)
    decreases |ord| - from
  {
    if slots == [] || from >= |ord| {
    } else if !InSpan(logic, ord[s], ord[from]) {
      forall i: nat, j: nat ensures !RaisesAt(view, bad, ord, logic, s, slots, from, i, j) {
        NothingRaisesOutOfSpan(view, bad, ord, logic, s, slots, from, i, j);
      }
    } else {
      RaisesLater(view, bad, ord, logic, s, slots, from);
    }
  }

  lemma {:induction false} RaisesLater(view: View, bad: Hit, ord: seq<Event>, logic: SequenceLogic, s: nat,
                                       slots: seq<Condition>, from: nat)
    requires SortedBy(EventLe, ord) && s < |ord| && HasKeys(view, ord[s], logic.sharedKeys)
    requires slots != [] && from < |ord| && InSpan(logic, ord[s], ord[from])
    ensures PickRaises(view, bad, ord, logic, ord[s], slots, from) <==>
      exists i: nat, j: nat :: RaisesAt(view, bad, ord, logic, s, slots, from, i, j)
    decreases |ord| - from, 0
  {
    var same := SameKeys(view, ord[s], ord[from], logic.sharedKeys);
    if same { KeysCarryOver(view, ord[s], ord[from], logic.sharedKeys); }
    RaisesHere(view, bad, ord, logic, s, slots, from, 0);
    var took := Fits(view, logic, ord[s], slots[0], ord[from]);
    var left := if took then slots[1..] else slots;
    if same && bad(ord[from], slots[0]) {
      assert RaisesAt(view, bad, ord, logic, s, slots, from, from, 0);
    } else {
      var next := from + 1;
      PickRaisesExactly(view, bad, ord, logic, s, left, next);
      hide InSpan, SameKeys, HasKeys;
      assert PickRaises(view, bad, ord, logic, ord[s], slots, from)
        == PickRaises(view, bad, ord, logic, ord[s], left, next);
      hide PickRaises, Fits;
      if i: nat, j: nat :| RaisesAt(view, bad, ord, logic, s, slots, from, i, j) {
        if i == from { RaisesHere(view, bad, ord, logic, s, slots, from, j); }
        RaisesAtStep(view, bad, ord, logic, s, slots, from, i, j);
        assert RaisesAt(view, bad, ord, logic, s, left, next, i, if took then j - 1 else j);
      }
      if i: nat, j: nat :| RaisesAt(view, bad, ord, logic, s, left, next, i, j) {
        assert from < i < |ord|;
        var k := if took then j + 1 else j;
        RaisesAtStep(view, bad, ord, logic, s, slots, from, i, k);
        assert RaisesAt(view, bad, ord, logic, s, slots, from, i, k);
      }
    }
  }

  ghost predicate RaisesAfter(view: View, bad: Hit, ord: seq<Event>, logic: SequenceLogic, s: nat,
                              slots: seq<Condition>, from: nat) {
    exists i: nat, j: nat :: RaisesAt(view, bad, ord, logic, s, slots, from, i, j)
  }

  /** Matching raises on event `s` and the first stage, or event `s` starts a chain and
      matching raises on a later event within its span and with its keys, for the first
      slot that the events in between cannot fill. */
  ghost predicate Stops(view: View, bad: Hit, ord: seq<Event>, logic: SequenceLogic, s: nat)
    requires Staged(logic)
  {
    s < |ord| &&
    (|| bad(ord[s], logic.stages[0].condition)
     || (Starts(view, logic, ord[s]) && RaisesAfter(view, bad, ord, logic, s, Slots(logic.stages)[1..], s + 1)))
  }

  lemma StopsExactly(view: View, bad: Hit, ord: seq<Event>, logic: SequenceLogic, s: nat)
    requires Staged(logic) && SortedBy(EventLe, ord) && s < |ord|
    ensures StartRaises(view, bad, ord, logic, s) <==> Stops(view, bad, ord, logic, s)
  {
    var slots := Slots(logic.stages);
    assert slots != [] && slots[0] == logic.stages[0].condition;
    if Starts(view, logic, ord[s]) { PickRaisesExactly(view, bad, ord, logic, s, slots[1..], s + 1); }
  }

  /** The whole evaluation raises exactly when some event stops it. */
  lemma EvaluationRaisesExactly(view: View, bad: Hit, ord: seq<Event>, logic: SequenceLogic)
    requires Staged(logic) && SortedBy(EventLe, ord)
    ensures EvaluationRaises(view, bad, ord, logic) <==> exists s: nat :: Stops(view, bad, ord, logic, s)
  {
    forall s: nat | s < |ord| ensures StartRaises(view, bad, ord, logic, s) <==> Stops(view, bad, ord, logic, s) {
      StopsExactly(view, bad, ord, logic, s);
    }
    if s: nat :| Stops(view, bad, ord, logic, s) { assert s < |ord|; }
    hide StartRaises, Stops;
  }
}
