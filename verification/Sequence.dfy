/** Ordered multi-stage correlation (backend/detection/sequence.py): the greedy
    evaluator, and its exactness against "some admissible choice of events exists". */
module Sequence {
  import opened Basics
  import opened Dsl
  import opened Matcher
  import opened Events

  datatype StageEvidence = StageEvidence(tag: string, ids: seq<string>)

  datatype SequenceMatch = SequenceMatch(
    correlation: seq<Option<Value>>, span: int, evidence: seq<StageEvidence>)

  /** The part of `SequenceOk` the loops rely on. */
  ghost predicate Staged(logic: SequenceLogic) {
    && logic.stages != [] && logic.maxSpanSeconds > 0
    && forall k :: 0 <= k < |logic.stages| ==> logic.stages[k].minCount >= 1
  }

  function MaxSpan(logic: SequenceLogic): int { logic.maxSpanSeconds * MICROS }

  // ---- Which events may extend a chain -------------------------------------

  function Correlation(view: View, first: Event, keys: seq<Field>): seq<Option<Value>> {
    seq(|keys|, i requires 0 <= i < |keys| => view.get(first, keys[i]))
  }

  predicate HasKeys(view: View, e: Event, keys: seq<Field>) {
    forall i | 0 <= i < |keys| :: view.get(e, keys[i]).Some?
  }

  predicate SameKeys(view: View, first: Event, e: Event, keys: seq<Field>) {
    forall i | 0 <= i < |keys| :: view.get(e, keys[i]) == view.get(first, keys[i])
  }

  predicate InSpan(logic: SequenceLogic, first: Event, e: Event) {
    e.time - first.time <= MaxSpan(logic)
  }

  predicate Fits(view: View, logic: SequenceLogic, first: Event, c: Condition, e: Event) {
    SameKeys(view, first, e, logic.sharedKeys) && HasKeys(view, e, logic.sharedKeys) && view.hit(e, c)
  }

  predicate Starts(view: View, logic: SequenceLogic, e: Event) {
    logic.stages != [] && view.hit(e, logic.stages[0].condition) && HasKeys(view, e, logic.sharedKeys)
  }

  // ---- The greedy choice as a function -------------------------------------

  /** One slot per required event: stage conditions repeated `min_count` times. */
  function Repeat(n: nat, c: Condition): seq<Condition> { seq(n, _ => c) }

  function Slots(stages: seq<Stage>): seq<Condition> {
    if stages == [] then [] else Repeat(stages[0].minCount, stages[0].condition) + Slots(stages[1..])
  }

  function Prepend(p: seq<nat>, r: Option<seq<nat>>): Option<seq<nat>> {
    if r.None? then None else Some(p + r.value)
  }

  ghost predicate InRange(ord: seq<Event>, idx: seq<nat>, from: nat) {
    forall i :: 0 <= i < |idx| ==> from <= idx[i] < |ord|
  }

  /** Fill the slots in order, each with the earliest event at or after `cursor`. */
  function Pick(view: View, ord: seq<Event>, logic: SequenceLogic, first: Event,
                slots: seq<Condition>, cursor: nat): (r: Option<seq<nat>>)
    ensures r.Some? ==> |r.value| == |slots| && InRange(ord, r.value, cursor)
    decreases |ord| - cursor
  {
    if slots == [] then Some([])
    else if cursor >= |ord| then None
    else if InSpan(logic, first, ord[cursor]) && Fits(view, logic, first, slots[0], ord[cursor]) then
      Prepend([cursor], Pick(view, ord, logic, first, slots[1..], cursor + 1))
    else Pick(view, ord, logic, first, slots, cursor + 1)
  }

  /** The scan for these slots meets a pair on which matching raises, before it has filled
      them or left the span. */
  function PickRaises(view: View, bad: Hit, ord: seq<Event>, logic: SequenceLogic, first: Event,
                      slots: seq<Condition>, cursor: nat): bool
    decreases |ord| - cursor
  {
    if slots == [] || cursor >= |ord| || !InSpan(logic, first, ord[cursor]) then false
    else if !SameKeys(view, first, ord[cursor], logic.sharedKeys) || !HasKeys(view, ord[cursor], logic.sharedKeys)
    then
      PickRaises(view, bad, ord, logic, first, slots, cursor + 1)
    else
      bad(ord[cursor], slots[0]) ||
      PickRaises(view, bad, ord, logic, first,
                 if view.hit(ord[cursor], slots[0]) then slots[1..] else slots, cursor + 1)
  }

  /** The pass of the outer loop that starts at `s` raises. */
  predicate StartRaises(view: View, bad: Hit, ord: seq<Event>, logic: SequenceLogic, s: nat)
    requires s < |ord|
  {
    Slots(logic.stages) != [] &&
    (|| bad(ord[s], Slots(logic.stages)[0])
     || (Starts(view, logic, ord[s]) && PickRaises(view, bad, ord, logic, ord[s], Slots(logic.stages)[1..], s + 1)))
  }

  /** Some pass raises, and with it the whole evaluation. */
  predicate EvaluationRaises(view: View, bad: Hit, ord: seq<Event>, logic: SequenceLogic) {
    exists s | 0 <= s < |ord| :: StartRaises(view, bad, ord, logic, s)
  }

  /** Positions of the chain the evaluator builds from start position `s`. */
  function Chain(view: View, ord: seq<Event>, logic: SequenceLogic, s: nat): (r: Option<seq<nat>>)
    requires s < |ord|
    ensures r.Some? ==> r.value != [] && |r.value| == |Slots(logic.stages)| && InRange(ord, r.value, s)
  {
    if !Starts(view, logic, ord[s]) || Slots(logic.stages) == [] then None
    else Prepend([s], Pick(view, ord, logic, ord[s], Slots(logic.stages)[1..], s + 1))
  }

  // ---- Evidence ------------------------------------------------------------

  function Last<X>(s: seq<X>): X
    requires s != []
  {
    s[|s| - 1]
  }

  function Flat<X>(parts: seq<seq<X>>): seq<X> {
    if parts == [] then [] else parts[0] + Flat(parts[1..])
  }

  /** Cut a chain back into its stages. */
  function Split<X>(stages: seq<Stage>, items: seq<X>): (parts: seq<seq<X>>)
    requires |items| == |Slots(stages)|
    ensures Flat(parts) == items && SizedBy(stages, parts)
  {
    if stages == [] then []
    else [items[..stages[0].minCount]] + Split(stages[1..], items[stages[0].minCount..])
  }

  ghost predicate SizedBy<X>(stages: seq<Stage>, parts: seq<seq<X>>) {
    |parts| == |stages| && forall k :: 0 <= k < |parts| ==> |parts[k]| == stages[k].minCount
  }

  function At(ord: seq<Event>, idx: seq<nat>): seq<Event>
    requires InRange(ord, idx, 0)
  {
    seq(|idx|, i requires 0 <= i < |idx| => ord[idx[i]])
  }

  const DIGIT_CHARS := "0123456789"

  /** `f"stage_{index + 1}"`; a rule has at most eight stages. */
  function StageTag(stage: Stage, index: nat): string {
    if stage.tag.Some? then stage.tag.value
    else if index < 9 then "stage_" + [DIGIT_CHARS[index + 1]] else "stage_"
  }

  /** Dictionary assignment on an insertion-ordered dictionary. */
  function Put(d: seq<StageEvidence>, tag: string, ids: seq<string>): seq<StageEvidence> {
    if d == [] then [StageEvidence(tag, ids)]
    else if d[0].tag == tag then [StageEvidence(tag, ids)] + d[1..]
    else [d[0]] + Put(d[1..], tag, ids)
  }

  function EvidenceOf(stages: seq<Stage>, picked: seq<seq<Event>>): seq<StageEvidence>
    requires |picked| <= |stages|
    decreases |picked|
  {
    if picked == [] then []
    else
      var k := |picked| - 1;
      Put(EvidenceOf(stages, picked[..k]), StageTag(stages[k], k), Ids(picked[k]))
  }

  /** What the evaluator reports for the chain starting at `s`. */
  function MatchAt(view: View, ord: seq<Event>, logic: SequenceLogic, s: nat): Option<SequenceMatch>
    requires s < |ord|
  {
    var chain := Chain(view, ord, logic, s);
    if chain.None? then None
    else
      var picked := At(ord, chain.value);
      Some(SequenceMatch(
        Correlation(view, ord[s], logic.sharedKeys), picked[|picked| - 1].time - ord[s].time,
        EvidenceOf(logic.stages, Split(logic.stages, picked))))
  }

  /** Matches of the starts from `s` on, skipping evidence already in `seen`. */
  function Reported(view: View, ord: seq<Event>, logic: SequenceLogic, s: nat,
                    seen: set<seq<StageEvidence>>): seq<SequenceMatch>
    requires s <= |ord|
    decreases |ord| - s
  {
    if s == |ord| then []
    else
      var m := MatchAt(view, ord, logic, s);
      if m.None? || m.value.evidence in seen then Reported(view, ord, logic, s + 1, seen)
      else [m.value] + Reported(view, ord, logic, s + 1, seen + {m.value.evidence})
  }

  // ---- The evaluator -------------------------------------------------------

  lemma {:induction false} PickOutOfSpan(view: View, ord: seq<Event>, logic: SequenceLogic, first: Event,
                                         slots: seq<Condition>, cursor: nat)
    requires SortedBy(EventLe, ord) && slots != []
    requires cursor < |ord| ==> !InSpan(logic, first, ord[cursor])
    ensures Pick(view, ord, logic, first, slots, cursor).None?
    decreases |ord| - cursor
  {
    if cursor + 1 < |ord| {
      TimesAscend(ord, cursor, cursor + 1);
    }
    if cursor < |ord| {
      PickOutOfSpan(view, ord, logic, first, slots, cursor + 1);
    }
  }

  lemma RepeatStep(n: nat, c: Condition, rest: seq<Condition>)
    requires n > 0
    ensures (Repeat(n, c) + rest)[0] == c
    ensures (Repeat(n, c) + rest)[1..] == Repeat(n - 1, c) + rest
  { }

  /** One step of the scan: take the event at `cursor` or pass over it. */
  lemma PickStep(view: View, ord: seq<Event>, logic: SequenceLogic, first: Event,
                 n: nat, c: Condition, rest: seq<Condition>, cursor: nat)
    requires n > 0 && cursor < |ord|
    ensures Pick(view, ord, logic, first, Repeat(n, c) + rest, cursor) ==
      if InSpan(logic, first, ord[cursor]) && Fits(view, logic, first, c, ord[cursor])
      then Prepend([cursor], Pick(view, ord, logic, first, Repeat(n - 1, c) + rest, cursor + 1))
      else Pick(view, ord, logic, first, Repeat(n, c) + rest, cursor + 1)
  {
    RepeatStep(n, c, rest);
  }

  lemma PickRaisesStep(view: View, bad: Hit, ord: seq<Event>, logic: SequenceLogic, first: Event,
                       n: nat, c: Condition, rest: seq<Condition>, cursor: nat)
    requires n > 0
    ensures PickRaises(view, bad, ord, logic, first, Repeat(n, c) + rest, cursor) ==
      if cursor >= |ord| || !InSpan(logic, first, ord[cursor]) then false
      else if !SameKeys(view, first, ord[cursor], logic.sharedKeys) || !HasKeys(view, ord[cursor], logic.sharedKeys)
      then
        PickRaises(view, bad, ord, logic, first, Repeat(n, c) + rest, cursor + 1)
      else if bad(ord[cursor], c) then true
      else
        PickRaises(view, bad, ord, logic, first,
                   Repeat(if view.hit(ord[cursor], c) then n - 1 else n, c) + rest, cursor + 1)
  {
    hide InSpan, SameKeys, HasKeys;
    RepeatStep(n, c, rest);
  }

  lemma {:induction false} PickNothing(view: View, bad: Hit, ord: seq<Event>, logic: SequenceLogic, first: Event,
                                       cursor: nat)
    ensures Pick(view, ord, logic, first, [], cursor) == Some([])
    ensures !PickRaises(view, bad, ord, logic, first, [], cursor)
  { }

  lemma AtAppend(ord: seq<Event>, a: seq<nat>, b: seq<nat>)
    requires InRange(ord, a, 0) && InRange(ord, b, 0)
    ensures At(ord, a + b) == At(ord, a) + At(ord, b)
  { }

  lemma PrependTwice(a: seq<nat>, b: seq<nat>, r: Option<seq<nat>>)
    ensures Prepend(a, Prepend(b, r)) == Prepend(a + b, r)
    ensures Prepend([], r) == r
  {
    if r.Some? { assert a + (b + r.value) == (a + b) + r.value && [] + r.value == r.value; }
  }

  /** The loop that fills one stage, up to `need` events, from `start` on. */
  method FillStage(view: View, bad: Hit, ord: seq<Event>, logic: SequenceLogic, first: Event, c: Condition, need: nat,
                   have: seq<Event>, start: nat, ghost rest: seq<Condition>)
    returns (raised: bool, got: seq<Event>, cursor: nat, ghost idx: seq<nat>)
    requires SortedBy(EventLe, ord) && |have| <= need
    ensures PickRaises(view, bad, ord, logic, first, Repeat(need - |have|, c) + rest, start)
      == (raised || (|got| == need && PickRaises(view, bad, ord, logic, first, rest, cursor)))
    ensures |got| <= need && InRange(ord, idx, start) && got == have + At(ord, idx)
    ensures forall i :: 0 <= i < |idx| ==> InSpan(logic, first, ord[idx[i]])
    ensures !raised ==>
      Pick(view, ord, logic, first, Repeat(need - |have|, c) + rest, start)
        == if |got| < need then None else Prepend(idx, Pick(view, ord, logic, first, rest, cursor))
  {
    hide Pick, PickRaises, InSpan, SameKeys, HasKeys;
    raised, got, cursor, idx := false, have, start, [];
    ghost var raises := PickRaises(view, bad, ord, logic, first, Repeat(need - |have|, c) + rest, start);
    ghost var before := Pick(view, ord, logic, first, Repeat(need - |have|, c) + rest, start);
    PrependTwice([], [], before);
    while cursor < |ord| && |got| < need
      invariant start <= cursor && |got| <= need && InRange(ord, idx, start) && got == have + At(ord, idx)
      invariant forall i :: 0 <= i < |idx| ==> InSpan(logic, first, ord[idx[i]])
      invariant raises == PickRaises(view, bad, ord, logic, first, Repeat(need - |got|, c) + rest, cursor)
      invariant before == Prepend(idx, Pick(view, ord, logic, first, Repeat(need - |got|, c) + rest, cursor))
      decreases |ord| - cursor
    {
      var candidate := ord[cursor];
      ghost var left := need - |got|;
      ghost var position := cursor;
      PickStep(view, ord, logic, first, left, c, rest, position);
      PickRaisesStep(view, bad, ord, logic, first, left, c, rest, position);
      cursor := cursor + 1;
      if !InSpan(logic, first, candidate) {
        PickOutOfSpan(view, ord, logic, first, Repeat(left, c) + rest, position);
        return;
      }
      if !SameKeys(view, first, candidate, logic.sharedKeys) { continue; }
      if !HasKeys(view, candidate, logic.sharedKeys) { continue; }
      if bad(candidate, c) {
        raised := true;
        return;
      }
      if view.hit(candidate, c) {
        PrependTwice(idx, [position], Pick(view, ord, logic, first, Repeat(left - 1, c) + rest, cursor));
        AtAppend(ord, idx, [position]);
        got := got + [candidate];
        idx := idx + [position];
      }
    }
    if |got| == need {
      assert Repeat(need - |got|, c) + rest == rest;
    } else {
      PickOutOfSpan(view, ord, logic, first, Repeat(need - |got|, c) + rest, cursor);
      PickRaisesStep(view, bad, ord, logic, first, need - |got|, c, rest, cursor);
    }
  }

  lemma {:induction false} FlatAppend<X>(parts: seq<seq<X>>, s: seq<X>)
    ensures Flat(parts + [s]) == Flat(parts) + s
  {
    if parts == [] {
      assert Flat([s]) == s + Flat([s][1..]);
    } else {
      FlatAppend(parts[1..], s);
      assert (parts + [s])[1..] == parts[1..] + [s];
    }
  }

  lemma {:induction false} FlatLength<X>(stages: seq<Stage>, parts: seq<seq<X>>)
    requires SizedBy(stages, parts)
    ensures |Flat(parts)| == |Slots(stages)|
  {
    if stages != [] { FlatLength(stages[1..], parts[1..]); }
  }

  lemma {:induction false} SplitFlat<X>(stages: seq<Stage>, parts: seq<seq<X>>)
    requires SizedBy(stages, parts) && |Flat(parts)| == |Slots(stages)|
    ensures Split(stages, Flat(parts)) == parts
  {
    if stages != [] {
      assert Flat(parts)[..stages[0].minCount] == parts[0];
      assert Flat(parts)[stages[0].minCount..] == Flat(parts[1..]);
      FlatLength(stages[1..], parts[1..]);
      SplitFlat(stages[1..], parts[1..]);
    }
  }

  lemma {:induction false} SlotIsOfStage(stages: seq<Stage>, j: nat) returns (k: nat)
    requires j < |Slots(stages)|
    ensures k < |stages| && Slots(stages)[j] == stages[k].condition
  {
    if j < stages[0].minCount {
      k := 0;
    } else {
      k := SlotIsOfStage(stages[1..], j - stages[0].minCount);
      k := k + 1;
    }
  }

  lemma {:induction false} PickRaisesAt(view: View, bad: Hit, ord: seq<Event>, logic: SequenceLogic, first: Event,
                                        slots: seq<Condition>, cursor: nat) returns (i: nat, j: nat)
    requires PickRaises(view, bad, ord, logic, first, slots, cursor)
    ensures cursor <= i < |ord| && j < |slots| && bad(ord[i], slots[j])
    decreases |ord| - cursor
  {
    i, j := cursor, 0;
    if !SameKeys(view, first, ord[cursor], logic.sharedKeys) || !HasKeys(view, ord[cursor], logic.sharedKeys) {
      i, j := PickRaisesAt(view, bad, ord, logic, first, slots, cursor + 1);
    } else if !bad(ord[cursor], slots[0]) {
      if view.hit(ord[cursor], slots[0]) {
        i, j := PickRaisesAt(view, bad, ord, logic, first, slots[1..], cursor + 1);
        j := j + 1;
      } else {
        i, j := PickRaisesAt(view, bad, ord, logic, first, slots, cursor + 1);
      }
    }
  }

  /** Behind an evaluation that raises stands an event and a stage on which matching does. */
  lemma RaisesAtSomeStage(view: View, bad: Hit, ord: seq<Event>, logic: SequenceLogic) returns (i: nat, k: nat)
    requires EvaluationRaises(view, bad, ord, logic)
    ensures i < |ord| && k < |logic.stages| && bad(ord[i], logic.stages[k].condition)
  {
    var s :| 0 <= s < |ord| && StartRaises(view, bad, ord, logic, s);
    var slots := Slots(logic.stages);
    var j := 0;
    i := s;
    if !bad(ord[s], slots[0]) {
      i, j := PickRaisesAt(view, bad, ord, logic, ord[s], slots[1..], s + 1);
      j := j + 1;
    }
    k := SlotIsOfStage(logic.stages, j);
  }

  /** `evaluate_sequence`: either some pass raises, or these are the reports. */
  method EvaluateSequence(cidr: Cidr, get: Access, events: seq<Event>, logic: SequenceLogic)
    returns (raised: bool, results: seq<SequenceMatch>)
    requires SequenceOk(logic)
    ensures raised <==> EvaluationRaises(ViewOf(cidr, get), RaiserOf(cidr), Ordered(events), logic)
    ensures !raised ==> results == Reported(ViewOf(cidr, get), Ordered(events), logic, 0, {})
  {
    hide MatchAt, StartRaises, EventLe, ViewOf, RaiserOf;
    var view, bad := ViewOf(cidr, get), RaiserOf(cidr);
    var ord := Ordered(events);
    OrderedProperties(events);
    assert Staged(logic) by { assert forall k :: 0 <= k < |logic.stages| ==> StageOk(logic.stages[k]); }
    results := [];
    var seen: set<seq<StageEvidence>> := {};
    var startIndex := 0;
    while startIndex < |ord|
      invariant startIndex <= |ord|
      invariant results + Reported(view, ord, logic, startIndex, seen) == Reported(view, ord, logic, 0, {})
      invariant forall s :: 0 <= s < startIndex ==> !StartRaises(view, bad, ord, logic, s)
    {
      var boom, m := EvaluateStart(view, bad, ord, logic, startIndex);
      if boom { return true, []; }
      if m.Some? && m.value.evidence !in seen {
        ghost var later := Reported(view, ord, logic, startIndex + 1, seen + {m.value.evidence});
        assert results + ([m.value] + later) == (results + [m.value]) + later;
        seen := seen + {m.value.evidence};
        results := results + [m.value];
      }
      startIndex := startIndex + 1;
    }
    raised := false;
  }

  lemma {:induction false} LastOfFlat<X>(parts: seq<seq<X>>)
    requires parts != [] && Last(parts) != []
    ensures Flat(parts) != [] && Last(Flat(parts)) == Last(Last(parts))
  {
    assert parts == parts[..|parts| - 1] + [Last(parts)];
    FlatAppend(parts[..|parts| - 1], Last(parts));
  }

  /** Stage lists that flatten to the chain's events are what `MatchAt` reports. */
  lemma {:induction false} MatchFromStages(view: View, ord: seq<Event>, logic: SequenceLogic, s: nat,
                        picked: seq<nat>, selected: seq<seq<Event>>)
    requires s < |ord| && Chain(view, ord, logic, s) == Some(picked)
    requires Flat(selected) == At(ord, picked) && SizedBy(logic.stages, selected)
    requires selected != [] && Last(selected) != []
    ensures MatchAt(view, ord, logic, s) == Some(SequenceMatch(
      Correlation(view, ord[s], logic.sharedKeys), Last(Last(selected)).time - ord[s].time,
      EvidenceOf(logic.stages, selected)))
  {
    hide Chain, Slots, EvidenceOf, Correlation, StageTag;
    SplitFlat(logic.stages, selected);
    LastOfFlat(selected);
  }

  /** The first `k` stages are filled by `selected`, at positions `picked`. */
  ghost predicate Filled(ord: seq<Event>, logic: SequenceLogic, first: Event, k: nat,
                         picked: seq<nat>, selected: seq<seq<Event>>) {
    && k <= |logic.stages| && SizedBy(logic.stages[..k], selected)
    && InRange(ord, picked, 0) && Flat(selected) == At(ord, picked)
    && selected != [] && Last(selected) != [] && InSpan(logic, first, Last(Last(selected)))
  }

  lemma FilledStep(ord: seq<Event>, logic: SequenceLogic, first: Event, k: nat,
                   picked: seq<nat>, selected: seq<seq<Event>>, idx: seq<nat>, got: seq<Event>)
    requires Filled(ord, logic, first, k, picked, selected) && k < |logic.stages|
    requires InRange(ord, idx, 0) && got == At(ord, idx) && |got| == logic.stages[k].minCount && got != []
    requires forall i :: 0 <= i < |idx| ==> InSpan(logic, first, ord[idx[i]])
    ensures Filled(ord, logic, first, k + 1, picked + idx, selected + [got])
  {
    FlatAppend(selected, got);
    AtAppend(ord, picked, idx);
    assert Last(got) == ord[Last(idx)];
  }

  lemma FirstFilled(ord: seq<Event>, logic: SequenceLogic, s: nat, more: seq<nat>, got: seq<Event>)
    requires Staged(logic) && s < |ord| && InRange(ord, more, 0)
    requires got == [ord[s]] + At(ord, more) && |got| == logic.stages[0].minCount
    requires forall i :: 0 <= i < |more| ==> InSpan(logic, ord[s], ord[more[i]])
    ensures Filled(ord, logic, ord[s], 1, [s] + more, [got])
  {
    AtAppend(ord, [s], more);
    assert Flat([got]) == got + Flat([got][1..]);
    if more != [] { assert Last(got) == ord[Last(more)]; }
  }

  /** The greedy chain is what the stage loops compute, position by position. */
  lemma {:induction false} ChainUnfolds(view: View, bad: Hit, ord: seq<Event>, logic: SequenceLogic, s: nat)
    requires Staged(logic) && s < |ord|
    ensures StartRaises(view, bad, ord, logic, s) ==
      (|| bad(ord[s], logic.stages[0].condition)
       || (Starts(view, logic, ord[s]) && PickRaises(view, bad, ord, logic, ord[s],
             Repeat(logic.stages[0].minCount - 1, logic.stages[0].condition) + Slots(logic.stages[1..]), s + 1)))
    ensures Chain(view, ord, logic, s) == if !Starts(view, logic, ord[s]) then None else
      Prepend([s], Pick(view, ord, logic, ord[s],
        Repeat(logic.stages[0].minCount - 1, logic.stages[0].condition) + Slots(logic.stages[1..]), s + 1))
  {
    RepeatStep(logic.stages[0].minCount, logic.stages[0].condition, Slots(logic.stages[1..]));
  }

  /** A greedy choice, cut into the events of its stages. */
  function StagesChosen(ord: seq<Event>, stages: seq<Stage>, chain: Option<seq<nat>>): Option<seq<seq<Event>>>
    requires chain.Some? ==> InRange(ord, chain.value, 0) && |chain.value| == |Slots(stages)|
  {
    if chain.None? then None else Some(Split(stages, At(ord, chain.value)))
  }

  lemma ChosenAreSelected(ord: seq<Event>, logic: SequenceLogic, first: Event, picked: seq<nat>,
                          selected: seq<seq<Event>>)
    requires Filled(ord, logic, first, |logic.stages|, picked, selected)
    ensures |picked| == |Slots(logic.stages)| && InRange(ord, picked, 0)
    ensures Split(logic.stages, At(ord, picked)) == selected
  {
    assert logic.stages[..|logic.stages|] == logic.stages;
    FlatLength(logic.stages, selected);
    SplitFlat(logic.stages, selected);
  }

  /** The loop over the stages after the first; `None` when a stage stays unfilled. */
  method FillStages(view: View, bad: Hit, ord: seq<Event>, logic: SequenceLogic, first: Event, firstEvents: seq<Event>,
                    start: nat, ghost begun: seq<nat>)
    returns (raised: bool, result: Option<seq<seq<Event>>>, ghost picked: seq<nat>)
    requires Staged(logic) && SortedBy(EventLe, ord)
    requires Filled(ord, logic, first, 1, begun, [firstEvents]) && |begun| == logic.stages[0].minCount
    ensures raised == PickRaises(view, bad, ord, logic, first, Slots(logic.stages[1..]), start)
    ensures !raised ==>
      result == StagesChosen(ord, logic.stages,
                             Prepend(begun, Pick(view, ord, logic, first, Slots(logic.stages[1..]), start)))
    ensures !raised ==>
      Prepend(begun, Pick(view, ord, logic, first, Slots(logic.stages[1..]), start))
        == if result.None? then None else Some(picked)
    ensures !raised && result.Some? ==> Filled(ord, logic, first, |logic.stages|, picked, result.value)
  {
    hide Pick, PickRaises, Split, At, InSpan, Flat;
    raised, result, picked := false, None, begun;
    var selected := [firstEvents];
    var cursor := start;
    ghost var chain := Prepend(begun, Pick(view, ord, logic, first, Slots(logic.stages[1..]), start));
    ghost var raises := PickRaises(view, bad, ord, logic, first, Slots(logic.stages[1..]), start);
    var k := 1;
    while k < |logic.stages|
      invariant 1 <= k <= |logic.stages| && Filled(ord, logic, first, k, picked, selected)
      invariant chain == Prepend(picked, Pick(view, ord, logic, first, Slots(logic.stages[k..]), cursor))
      invariant raises == PickRaises(view, bad, ord, logic, first, Slots(logic.stages[k..]), cursor)
    {
      var stage := logic.stages[k];
      assert logic.stages[k..][1..] == logic.stages[k + 1..];
      ghost var more := Slots(logic.stages[k + 1..]);
      var boom, stageEvents, next, idx :=
        FillStage(view, bad, ord, logic, first, stage.condition, stage.minCount, [], cursor, more);
      if boom || |stageEvents| < stage.minCount { return boom, None, picked; }
      FilledStep(ord, logic, first, k, picked, selected, idx, stageEvents);
      PrependTwice(picked, idx, Pick(view, ord, logic, first, more, next));
      selected := selected + [stageEvents];
      picked := picked + idx;
      cursor := next;
      k := k + 1;
    }
    assert logic.stages[k..] == [] && picked + [] == picked;
    PickNothing(view, bad, ord, logic, first, cursor);
    ChosenAreSelected(ord, logic, first, picked, selected);
    result := Some(selected);
  }

  /** One pass of the outer loop: the chain from `startIndex`, if every stage fills. */
  method EvaluateStart(view: View, bad: Hit, ord: seq<Event>, logic: SequenceLogic, startIndex: nat)
    returns (raised: bool, m: Option<SequenceMatch>)
    requires Staged(logic) && SortedBy(EventLe, ord) && startIndex < |ord|
    ensures raised == StartRaises(view, bad, ord, logic, startIndex)
    ensures !raised ==> m == MatchAt(view, ord, logic, startIndex)
  {
    var first := ord[startIndex];
    var firstStage := logic.stages[0];
    ChainUnfolds(view, bad, ord, logic, startIndex);
    hide Pick, PickRaises, StartRaises, Chain, Split, EvidenceOf, Correlation, At, Filled;
    if bad(first, firstStage.condition) { return true, None; }
    if !view.hit(first, firstStage.condition) { return false, None; }
    if !HasKeys(view, first, logic.sharedKeys) { return false, None; }
    ghost var rest := Slots(logic.stages[1..]);
    var boom, firstEvents, cursor, more :=
      FillStage(view, bad, ord, logic, first, firstStage.condition, firstStage.minCount, [first], startIndex + 1, rest);
    if boom || |firstEvents| < firstStage.minCount { return boom, None; }
    PrependTwice([startIndex], more, Pick(view, ord, logic, first, rest, cursor));
    FirstFilled(ord, logic, startIndex, more, firstEvents);
    var blast, result, picked := FillStages(view, bad, ord, logic, first, firstEvents, cursor, [startIndex] + more);
    if blast || result.None? { return blast, None; }
    raised := false;
    m := BuildMatch(view, ord, logic, startIndex, result.value, picked);
  }

  /** The tail of the outer loop body: span check and evidence dictionary. */
  method BuildMatch(view: View, ord: seq<Event>, logic: SequenceLogic, startIndex: nat,
                    selected: seq<seq<Event>>, ghost picked: seq<nat>)
    returns (m: Option<SequenceMatch>)
    requires startIndex < |ord| && Chain(view, ord, logic, startIndex) == Some(picked)
    requires Filled(ord, logic, ord[startIndex], |logic.stages|, picked, selected)
    ensures m == MatchAt(view, ord, logic, startIndex)
  {
    var first, last := ord[startIndex], Last<Event>(Last(selected));
    // The final span check cannot fire: every picked event was checked when it was picked.
    if last.time - first.time > MaxSpan(logic) {
      assert false;
    }
    assert logic.stages[..|logic.stages|] == logic.stages;
    MatchFromStages(view, ord, logic, startIndex, picked, selected);
    m := Some(SequenceMatch(Correlation(view, first, logic.sharedKeys), last.time - first.time,
                            EvidenceOf(logic.stages, selected)));
  }
}
