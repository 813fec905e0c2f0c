/** Evidence bookkeeping of sequence matches, and their independence of the window
    over which a rule happens to be executed. */
module SequenceStability {
  import opened Basics
  import opened Dsl
  import opened Matcher
  import opened Events
  import opened Candidates
  import opened Sequence
  import opened SequenceExact

  // ---- Stage tags ----------------------------------------------------------

  /** The effective tags of the first `n` stages differ. */
  ghost predicate TagsDiffer(stages: seq<Stage>, n: nat)
    requires n <= |stages|
  {
    forall i, j :: 0 <= i < j < n ==> StageTag(stages[i], i) != StageTag(stages[j], j)
  }

  ghost predicate DistinctTags(stages: seq<Stage>) { TagsDiffer(stages, |stages|) }

  ghost predicate HasTag(d: seq<StageEvidence>, tag: string) {
    exists i :: 0 <= i < |d| && d[i].tag == tag
  }

  lemma {:induction false} PutEffect(d: seq<StageEvidence>, tag: string, ids: seq<string>, other: string)
    ensures !HasTag(d, tag) ==> Put(d, tag, ids) == d + [StageEvidence(tag, ids)]
    ensures HasTag(d, tag) ==> |Put(d, tag, ids)| == |d|
    ensures HasTag(Put(d, tag, ids), other) <==> other == tag || HasTag(d, other)
  {
    if d == [] {
      ConsTag(StageEvidence(tag, ids), [], other);
      assert Put(d, tag, ids) == [StageEvidence(tag, ids)] + [];
    } else if d[0].tag == tag {
      ConsTag(d[0], d[1..], other);
      ConsTag(StageEvidence(tag, ids), d[1..], other);
      ConsTag(d[0], d[1..], tag);
      assert d == [d[0]] + d[1..];
    } else {
      PutEffect(d[1..], tag, ids, other);
      var e := Put(d[1..], tag, ids);
      ConsTag(d[0], d[1..], tag);
      ConsTag(d[0], d[1..], other);
      ConsTag(d[0], e, other);
      assert d == [d[0]] + d[1..];
    }
  }

  lemma ConsTag(x: StageEvidence, d: seq<StageEvidence>, tag: string)
    ensures HasTag([x] + d, tag) <==> x.tag == tag || HasTag(d, tag)
  {
    var e := [x] + d;
    if i :| 0 <= i < |d| && d[i].tag == tag { assert e[i + 1].tag == tag; }
    if x.tag == tag { assert e[0].tag == tag; }
    if i :| 0 <= i < |e| && e[i].tag == tag { if i > 0 { assert d[i - 1].tag == tag; } }
  }

  /** One of the first `n` stages has this effective tag. */
  ghost predicate TagUsed(stages: seq<Stage>, n: nat, tag: string)
    requires n <= |stages|
  {
    exists k :: 0 <= k < n && StageTag(stages[k], k) == tag
  }

  lemma TagUsedStep(stages: seq<Stage>, n: nat, tag: string)
    requires n < |stages|
    ensures TagUsed(stages, n + 1, tag) <==> TagUsed(stages, n, tag) || StageTag(stages[n], n) == tag
  {
    hide StageTag;
  }

  lemma {:induction false} EvidenceTags(stages: seq<Stage>, parts: seq<seq<Event>>, tag: string)
    requires |parts| <= |stages|
    ensures HasTag(EvidenceOf(stages, parts), tag) <==> TagUsed(stages, |parts|, tag)
    decreases |parts|
  {
    if parts != [] {
      hide HasTag, TagUsed, StageTag;
      var n := |parts| - 1;
      EvidenceTags(stages, parts[..n], tag);
      PutEffect(EvidenceOf(stages, parts[..n]), StageTag(stages[n], n), Ids(parts[n]), tag);
      TagUsedStep(stages, n, tag);
    }
  }

  lemma TagsDifferStep(stages: seq<Stage>, n: nat)
    requires n < |stages|
    ensures TagsDiffer(stages, n + 1) <==> TagsDiffer(stages, n) && !TagUsed(stages, n, StageTag(stages[n], n))
  {
    hide StageTag;
  }

  /** One entry per stage, in order. */
  function Labelled(stages: seq<Stage>, parts: seq<seq<Event>>): (e: seq<StageEvidence>)
    requires |parts| <= |stages|
    ensures |e| == |parts|
    decreases |parts|
  {
    if parts == [] then []
    else
      var n := |parts| - 1;
      Labelled(stages, parts[..n]) + [StageEvidence(StageTag(stages[n], n), Ids(parts[n]))]
  }

  lemma {:induction false} LabelledAt(stages: seq<Stage>, parts: seq<seq<Event>>, k: nat)
    requires |parts| <= |stages| && k < |parts|
    ensures Labelled(stages, parts)[k] == StageEvidence(StageTag(stages[k], k), Ids(parts[k]))
    decreases |parts|
  {
    hide StageTag, Ids;
    if k < |parts| - 1 { LabelledAt(stages, parts[..|parts| - 1], k); }
  }

  lemma UnfoldEvidence(stages: seq<Stage>, parts: seq<seq<Event>>)
    requires 0 < |parts| <= |stages|
    ensures var n := |parts| - 1; var tag, ids := StageTag(stages[n], n), Ids(parts[n]);
      && EvidenceOf(stages, parts) == Put(EvidenceOf(stages, parts[..n]), tag, ids)
      && Labelled(stages, parts) == Labelled(stages, parts[..n]) + [StageEvidence(tag, ids)]
  { }

  lemma {:induction false} EvidenceIsLabelled(stages: seq<Stage>, parts: seq<seq<Event>>)
    requires |parts| <= |stages|
    ensures |EvidenceOf(stages, parts)| <= |parts|
    ensures |EvidenceOf(stages, parts)| == |parts| <==> TagsDiffer(stages, |parts|)
    ensures TagsDiffer(stages, |parts|) ==> EvidenceOf(stages, parts) == Labelled(stages, parts)
    decreases |parts|
  {
    if parts != [] {
      hide HasTag, TagUsed, StageTag, TagsDiffer, Put, Ids, EvidenceOf, Labelled;
      var n := |parts| - 1;
      var d, tag := EvidenceOf(stages, parts[..n]), StageTag(stages[n], n);
      EvidenceIsLabelled(stages, parts[..n]);
      EvidenceTags(stages, parts[..n], tag);
      PutEffect(d, tag, Ids(parts[n]), "");
      TagsDifferStep(stages, n);
      UnfoldEvidence(stages, parts);
    }
  }

  /** Every stage keeps its own evidence exactly when the effective tags differ; with a
      clash the later stage overwrites the earlier one's entry. */
  lemma {:induction false} EvidenceCompleteExactly(stages: seq<Stage>, parts: seq<seq<Event>>)
    requires |parts| <= |stages|
    ensures var e := EvidenceOf(stages, parts);
      && |e| <= |parts|
      && (|e| == |parts| <==> TagsDiffer(stages, |parts|))
      && (|e| == |parts| ==>
           forall k :: 0 <= k < |parts| ==> e[k] == StageEvidence(StageTag(stages[k], k), Ids(parts[k])))
  {
    hide EvidenceOf, Labelled, StageTag, TagsDiffer, Ids;
    EvidenceIsLabelled(stages, parts);
    forall k | 0 <= k < |parts|
      ensures Labelled(stages, parts)[k] == StageEvidence(StageTag(stages[k], k), Ids(parts[k]))
    {
      LabelledAt(stages, parts, k);
    }
  }

  const LOGIN := Event("e1", 0, map[])
  const LOGOUT := Event("e2", 1, map[])
  const ANY_EVENT := Leaf(Exists, EventId, NoValue)

  /** Two stages under one label, which validation accepts. */
  const TWO_OF_A_KIND := SequenceLogic([Stage(ANY_EVENT, Some("auth"), 1), Stage(ANY_EVENT, Some("auth"), 1)], [], 60)

  lemma TwoOfAKindChain(view: View)
    requires forall e :: view.hit(e, ANY_EVENT)
    ensures Chain(view, [LOGIN, LOGOUT], TWO_OF_A_KIND, 0) == Some([0, 1])
  {
    var stages, ord, q := TWO_OF_A_KIND.stages, [LOGIN, LOGOUT], TWO_OF_A_KIND;
    assert Slots(stages) == [ANY_EVENT, ANY_EVENT] by {
      assert Repeat(1, ANY_EVENT) == [ANY_EVENT] && stages[1..] == [stages[1]] && stages[1..][1..] == [];
      assert Slots([stages[1]]) == [ANY_EVENT];
    }
    assert [ANY_EVENT, ANY_EVENT][1..] == [ANY_EVENT] && [ANY_EVENT][1..] == [];
    assert Fits(view, q, LOGIN, ANY_EVENT, ord[1]) && InSpan(q, LOGIN, ord[1]);
    assert Pick(view, ord, q, LOGIN, [ANY_EVENT], 1) == Prepend([1], Pick(view, ord, q, LOGIN, [], 2));
    assert Starts(view, q, ord[0]);
    var one: seq<nat> := [1];
    assert one + [] == one && [0] + one == [0, 1];
  }

  lemma TwoOfAKindEvidence()
    ensures |Slots(TWO_OF_A_KIND.stages)| == 2
    ensures EvidenceOf(TWO_OF_A_KIND.stages, Split(TWO_OF_A_KIND.stages, [LOGIN, LOGOUT]))
      == [StageEvidence("auth", ["e2"])]
  {
    var ord, stages := [LOGIN, LOGOUT], TWO_OF_A_KIND.stages;
    assert stages[1..] == [stages[1]] && [stages[1]][1..] == [];
    assert |Slots([stages[1]])| == 1;
    assert ord[..1] == [LOGIN] && ord[1..] == [LOGOUT] && [LOGOUT][..1] == [LOGOUT] && [LOGOUT][1..] == [];
    assert Split([stages[1]], [LOGOUT]) == [[LOGOUT]];
    assert Split(stages, ord) == [[LOGIN], [LOGOUT]];
    hide Split;
    var parts := [[LOGIN], [LOGOUT]];
    assert parts[..1] == [[LOGIN]] && parts[..1][..0] == [];
    assert EvidenceOf(stages, parts[..1]) == [StageEvidence("auth", Ids([LOGIN]))];
    assert Ids([LOGOUT]) == ["e2"];
  }

  /** A concrete loss: both events are found, and the report names only the second. */
  lemma SharedLabelLosesEvidence(cidr: Cidr, get: Access)
    ensures SequenceOk(TWO_OF_A_KIND)
    ensures var m := MatchAt(ViewOf(cidr, get), [LOGIN, LOGOUT], TWO_OF_A_KIND, 0);
      m.Some? && m.value.evidence == [StageEvidence("auth", ["e2"])]
  {
    TwoOfAKindChain(ViewOf(cidr, get));
    TwoOfAKindEvidence();
    hide Chain, Split, EvidenceOf, ViewOf, Slots;
    assert At([LOGIN, LOGOUT], [0, 1]) == [LOGIN, LOGOUT];
  }

  lemma {:induction false} PartsDisjoint<X>(parts: seq<seq<X>>, j: nat, k: nat)
    requires Distinct(Flat(parts)) && j < k < |parts|
    ensures forall x :: x in parts[j] ==> x !in parts[k]
  {
    var head, rest := parts[0], Flat(parts[1..]);
    assert Flat(parts) == head + rest;
    if j == 0 {
      FlatMember(parts[1..], k - 1);
      forall x | x in head ensures x !in rest {
        var i :| 0 <= i < |head| && head[i] == x;
        forall l | 0 <= l < |rest| ensures rest[l] != x {
          assert Flat(parts)[i] != Flat(parts)[|head| + l];
        }
      }
    } else {
      forall a, b | 0 <= a < b < |rest| ensures rest[a] != rest[b] {
        assert Flat(parts)[|head| + a] != Flat(parts)[|head| + b];
      }
      PartsDisjoint(parts[1..], j - 1, k - 1);
    }
  }

  lemma {:induction false} FlatMember<X>(parts: seq<seq<X>>, k: nat)
    requires k < |parts|
    ensures forall x :: x in parts[k] ==> x in Flat(parts)
  {
    if k > 0 { FlatMember(parts[1..], k - 1); }
  }

  lemma EvidenceSize(view: View, ord: seq<Event>, logic: SequenceLogic, s: nat)
    requires Staged(logic) && DistinctTags(logic.stages) && s < |ord| && MatchAt(view, ord, logic, s).Some?
    ensures |MatchAt(view, ord, logic, s).value.evidence| == |logic.stages|
  {
    ReportIsAboutTheChain(view, ord, logic, s);
    EvidenceCompleteExactly(logic.stages, StageEvents(ord, Split(logic.stages, Chain(view, ord, logic, s).value)));
  }

  lemma IdsDisjoint(ord: seq<Event>, a: seq<nat>, b: seq<nat>)
    requires UniqueIds(ord) && InRange(ord, a, 0) && InRange(ord, b, 0)
    requires forall x :: x in a ==> x !in b
    ensures forall id :: id in Ids(At(ord, a)) ==> id !in Ids(At(ord, b))
  {
    forall id | id in Ids(At(ord, a)) ensures id !in Ids(At(ord, b)) {
      var i :| 0 <= i < |a| && Ids(At(ord, a))[i] == id;
      forall j | 0 <= j < |b| ensures Ids(At(ord, b))[j] != id {
        assert a[i] in a && b[j] in b;
        assert a[i] != b[j];
      }
    }
  }

  lemma ChainAscends(view: View, ord: seq<Event>, logic: SequenceLogic, s: nat)
    requires Staged(logic) && s < |ord| && Chain(view, ord, logic, s).Some?
    ensures Increasing(Chain(view, ord, logic, s).value)
  {
    GreedyIsAdmissible(view, ord, logic, s);
  }

  lemma MatchHasChain(view: View, ord: seq<Event>, logic: SequenceLogic, s: nat)
    requires s < |ord| && MatchAt(view, ord, logic, s).Some?
    ensures Chain(view, ord, logic, s).Some?
  {
    hide Chain, Split, EvidenceOf, Correlation, At;
  }

  lemma Distinctly(idx: seq<nat>)
    requires Increasing(idx)
    ensures Distinct(idx)
  { }

  lemma StagesPickApart(view: View, ord: seq<Event>, logic: SequenceLogic, s: nat, j: nat, k: nat)
    requires Staged(logic) && UniqueIds(ord) && s < |ord| && Chain(view, ord, logic, s).Some?
    requires j < k < |logic.stages|
    ensures var sel := Split(logic.stages, Chain(view, ord, logic, s).value);
      && InRange(ord, sel[j], 0) && InRange(ord, sel[k], 0)
      && forall id :: id in Ids(At(ord, sel[j])) ==> id !in Ids(At(ord, sel[k]))
  {
    hide Split, Chain, UniqueIds, At, Ids, Increasing;
    ChainAscends(view, ord, logic, s);
    var c := Chain(view, ord, logic, s).value;
    var sel := Split(logic.stages, c);
    Distinctly(c);
    PartsDisjoint(sel, j, k);
    PartInRange(ord, sel, j);
    PartInRange(ord, sel, k);
    IdsDisjoint(ord, sel[j], sel[k]);
  }

  /** No event is evidence for two stages of one match. */
  lemma StageEvidenceDisjoint(view: View, ord: seq<Event>, logic: SequenceLogic, s: nat, j: nat, k: nat)
    requires Staged(logic) && DistinctTags(logic.stages) && UniqueIds(ord) && s < |ord|
    requires MatchAt(view, ord, logic, s).Some? && j < k < |logic.stages|
    ensures var ev := MatchAt(view, ord, logic, s).value.evidence;
      |ev| == |logic.stages| && forall x :: x in ev[j].ids ==> x !in ev[k].ids
  {
    hide MatchAt, StageTag, EvidenceOf, Split, Chain, UniqueIds, At, Ids, Correlation, Slots, Staged;
    MatchHasChain(view, ord, logic, s);
    ReportIsAboutTheChain(view, ord, logic, s);
    StagesPickApart(view, ord, logic, s, j, k);
    EvidenceCompleteExactly(logic.stages, StageEvents(ord, Split(logic.stages, Chain(view, ord, logic, s).value)));
  }

  lemma IdOfPick(ord: seq<Event>, idx: seq<nat>, id: string) returns (p: nat)
    requires InRange(ord, idx, 0) && id in Ids(At(ord, idx))
    ensures p < |ord| && ord[p].id == id
  {
    var i :| 0 <= i < |idx| && Ids(At(ord, idx))[i] == id;
    p := idx[i];
  }

  /** Every id that a report lists is the id of one of the events. */
  lemma ListedEvent(view: View, ord: seq<Event>, logic: SequenceLogic, s: nat, k: nat, id: string) returns (p: nat)
    requires Staged(logic) && DistinctTags(logic.stages) && s < |ord| && MatchAt(view, ord, logic, s).Some?
    requires var e := MatchAt(view, ord, logic, s).value.evidence; k < |e| && id in e[k].ids
    ensures p < |ord| && ord[p].id == id
  {
    assert Chain(view, ord, logic, s).Some?;
    hide MatchAt, StageTag, EvidenceOf, Split, Chain;
    ReportIsAboutTheChain(view, ord, logic, s);
    var sel := Split(logic.stages, Chain(view, ord, logic, s).value);
    EvidenceCompleteExactly(logic.stages, StageEvents(ord, sel));
    p := IdOfPick(ord, sel[k], id);
  }

  // ---- Evidence of any report, labels shared or not -------------------------

  /** The labels of stages that have none of their own. */
  const DEFAULT_LABELS := [
    "stage_1", "stage_2", "stage_3", "stage_4", "stage_5", "stage_6", "stage_7", "stage_8"]

  /** The label of stage `k` in a report. */
  function LabelOf(stages: seq<Stage>, k: nat): string
    requires k < |stages| <= 8
  {
    if stages[k].tag.Some? then stages[k].tag.value else DEFAULT_LABELS[k]
  }

  lemma TagIsLabel(stages: seq<Stage>, k: nat)
    requires k < |stages| <= 8
    ensures StageTag(stages[k], k) == LabelOf(stages, k)
  { }

  ghost predicate TagsApart(d: seq<StageEvidence>) {
    forall i, j :: 0 <= i < j < |d| ==> d[i].tag != d[j].tag
  }

  lemma {:induction false} PutMembers(d: seq<StageEvidence>, tag: string, ids: seq<string>)
    requires TagsApart(d)
    ensures TagsApart(Put(d, tag, ids))
    ensures forall x :: x in Put(d, tag, ids) <==> x == StageEvidence(tag, ids) || (x in d && x.tag != tag)
  {
    if d != [] {
      assert d == [d[0]] + d[1..];
      if d[0].tag != tag {
        PutMembers(d[1..], tag, ids);
        assert forall i :: 0 < i < |d| ==> d[i].tag != d[0].tag;
        assert forall x :: x in d[1..] ==> x.tag != d[0].tag;
        var t := Put(d[1..], tag, ids);
        assert forall x :: x in t ==> x.tag != d[0].tag;
      } else {
        assert forall i :: 0 < i < |d| ==> d[i].tag != tag;
        assert forall x :: x in d[1..] ==> x.tag != tag;
      }
    }
  }

  /** Stage `k` is the last of the first `n` with its label. */
  ghost predicate LastOfLabel(stages: seq<Stage>, k: nat, n: nat)
    requires n <= |stages|
  {
    k < n && forall j :: k < j < n ==> StageTag(stages[j], j) != StageTag(stages[k], k)
  }

  /** `x` lists the events of stage `k`, the last one with its label. */
  ghost predicate Lists(stages: seq<Stage>, parts: seq<seq<Event>>, k: nat, x: StageEvidence)
    requires |parts| <= |stages|
  {
    LastOfLabel(stages, k, |parts|) && x == StageEvidence(StageTag(stages[k], k), Ids(parts[k]))
  }

  lemma ListsStep(stages: seq<Stage>, parts: seq<seq<Event>>, k: nat, x: StageEvidence)
    requires 0 < |parts| <= |stages|
    ensures var n := |parts| - 1; var tag := StageTag(stages[n], n);
      Lists(stages, parts, k, x) <==>
        if k == n then x == StageEvidence(tag, Ids(parts[n])) else Lists(stages, parts[..n], k, x) && x.tag != tag
  {
    hide StageTag, Ids;
  }

  /** The dictionary lists, once for each label, the events of the last stage that has it. */
  lemma {:induction false} EvidenceMembers(stages: seq<Stage>, parts: seq<seq<Event>>)
    requires |parts| <= |stages|
    ensures TagsApart(EvidenceOf(stages, parts))
    ensures forall x :: x in EvidenceOf(stages, parts) <==> exists k: nat :: Lists(stages, parts, k, x)
    decreases |parts|
  {
    hide StageTag, Ids, Put, TagsApart;
    if parts != [] {
      var n := |parts| - 1;
      EvidenceMembers(stages, parts[..n]);
      var tag, ids := StageTag(stages[n], n), Ids(parts[n]);
      PutMembers(EvidenceOf(stages, parts[..n]), tag, ids);
      forall x, k: nat
        ensures Lists(stages, parts, k, x) <==>
          if k == n then x == StageEvidence(tag, ids) else Lists(stages, parts[..n], k, x) && x.tag != tag
      {
        ListsStep(stages, parts, k, x);
      }
      hide Lists;
      assert Lists(stages, parts, n, StageEvidence(tag, ids));
    } else {
      NoTags();
    }
  }

  lemma NoTags()
    ensures TagsApart([])
  { }

  /** What a report says, on the events themselves: the first event's values of the shared
      keys; the time to the last event; and under each label the ids of the events of the
      last stage that has it, in order, and nothing else. */
  lemma ReportSays(view: View, ord: seq<Event>, logic: SequenceLogic, s: nat, m: SequenceMatch)
    requires Staged(logic) && |logic.stages| <= 8 && s < |ord| && MatchAt(view, ord, logic, s) == Some(m)
    ensures var c := Chain(view, ord, logic, s).value; var sel := Split(logic.stages, c);
      && |m.correlation| == |logic.sharedKeys|
      && (forall i :: 0 <= i < |m.correlation| ==> m.correlation[i] == view.get(ord[s], logic.sharedKeys[i]))
      && m.span == ord[c[|c| - 1]].time - ord[s].time
      && TagsApart(m.evidence)
      && forall x :: x in m.evidence <==> exists k: nat :: Shows(ord, logic.stages, sel, k, x)
  {
    hide MatchAt, StageTag, EvidenceOf, Split, Chain, Shows, Lists, Staged, Slots, TagsApart;
    MatchHasChain(view, ord, logic, s);
    ReportIsAboutTheChain(view, ord, logic, s);
    var sel := Split(logic.stages, Chain(view, ord, logic, s).value);
    EvidenceMembers(logic.stages, StageEvents(ord, sel));
    forall x, k: nat ensures Shows(ord, logic.stages, sel, k, x) <==> Lists(logic.stages, StageEvents(ord, sel), k, x) {
      ShowsTheStage(ord, logic.stages, sel, k, x);
    }
  }

  /** The entry lists the events of stage `k`, the last one with its label. */
  ghost predicate Shows(ord: seq<Event>, stages: seq<Stage>, sel: seq<seq<nat>>, k: nat, x: StageEvidence)
    requires |sel| == |stages| <= 8
  {
    && k < |stages| && x.tag == LabelOf(stages, k) && (forall j :: k < j < |stages| ==> LabelOf(stages, j) != x.tag)
    && |x.ids| == |sel[k]| && forall i :: 0 <= i < |x.ids| ==> sel[k][i] < |ord| && x.ids[i] == ord[sel[k][i]].id
  }

  lemma ShowsTheStage(ord: seq<Event>, stages: seq<Stage>, sel: seq<seq<nat>>, k: nat, x: StageEvidence)
    requires |sel| == |stages| <= 8 && forall j :: 0 <= j < |sel| ==> InRange(ord, sel[j], 0)
    ensures Shows(ord, stages, sel, k, x) <==> Lists(stages, StageEvents(ord, sel), k, x)
  {
    forall j: nat | j < |stages| ensures StageTag(stages[j], j) == LabelOf(stages, j) { TagIsLabel(stages, j); }
    hide StageTag, LabelOf;
    if k < |stages| {
      var ids := Ids(StageEvents(ord, sel)[k]);
      assert |ids| == |sel[k]| && forall i :: 0 <= i < |ids| ==> ids[i] == ord[sel[k][i]].id;
      if Shows(ord, stages, sel, k, x) { assert x.ids == ids; }
    }
  }

  lemma {:induction false} PutHolds(d: seq<StageEvidence>, tag: string, ids: seq<string>)
    ensures forall x :: x in Put(d, tag, ids) ==> x in d || x == StageEvidence(tag, ids)
  {
    if d != [] && d[0].tag != tag {
      PutHolds(d[1..], tag, ids);
      assert d == [d[0]] + d[1..];
    }
  }

  /** Every entry lists the events of some stage. */
  lemma {:induction false} EntryIsStage(stages: seq<Stage>, parts: seq<seq<Event>>, x: StageEvidence) returns (k: nat)
    requires |parts| <= |stages| && x in EvidenceOf(stages, parts)
    ensures k < |parts| && x.ids == Ids(parts[k])
    decreases |parts|
  {
    k := |parts| - 1;
    PutHolds(EvidenceOf(stages, parts[..k]), StageTag(stages[k], k), Ids(parts[k]));
    if x != StageEvidence(StageTag(stages[k], k), Ids(parts[k])) { k := EntryIsStage(stages, parts[..k], x); }
  }

  /** An entry of a report lists as many ids as some stage requires, all of given events. */
  lemma EntryOfReport(view: View, ord: seq<Event>, logic: SequenceLogic, s: nat, x: StageEvidence) returns (k: nat)
    requires Staged(logic) && s < |ord| && MatchAt(view, ord, logic, s).Some?
    requires x in MatchAt(view, ord, logic, s).value.evidence
    ensures k < |logic.stages| && |x.ids| == logic.stages[k].minCount
    ensures forall id :: id in x.ids ==> exists p :: 0 <= p < |ord| && ord[p].id == id
  {
    assert Chain(view, ord, logic, s).Some?;
    hide MatchAt, StageTag, EvidenceOf, Chain;
    ReportIsAboutTheChain(view, ord, logic, s);
    var sel := Split(logic.stages, Chain(view, ord, logic, s).value);
    k := EntryIsStage(logic.stages, StageEvents(ord, sel), x);
    forall id | id in x.ids ensures exists p :: 0 <= p < |ord| && ord[p].id == id {
      var p := IdOfPick(ord, sel[k], id);
    }
  }

  /** A report's labels are the effective labels of the stages. */
  lemma LabelsOfReport(view: View, ord: seq<Event>, logic: SequenceLogic, s: nat, tag: string)
    requires Staged(logic) && s < |ord| && MatchAt(view, ord, logic, s).Some?
    ensures HasTag(MatchAt(view, ord, logic, s).value.evidence, tag) <==> TagUsed(logic.stages, |logic.stages|, tag)
  {
    assert Chain(view, ord, logic, s).Some?;
    hide MatchAt, StageTag, EvidenceOf, Chain, HasTag, TagUsed;
    ReportIsAboutTheChain(view, ord, logic, s);
    EvidenceTags(logic.stages, StageEvents(ord, Split(logic.stages, Chain(view, ord, logic, s).value)), tag);
  }

  lemma {:induction false} ReportedMember(view: View, ord: seq<Event>, logic: SequenceLogic, s: nat,
                                          seen: set<seq<StageEvidence>>, m: SequenceMatch) returns (t: nat)
    requires s <= |ord| && m in Reported(view, ord, logic, s, seen)
    ensures s <= t < |ord| && MatchAt(view, ord, logic, t) == Some(m)
    decreases |ord| - s
  {
    hide MatchAt;
    t := s;
    var x := MatchAt(view, ord, logic, s);
    if x.None? || x.value.evidence in seen {
      t := ReportedMember(view, ord, logic, s + 1, seen, m);
    } else if x != Some(m) {
      t := ReportedMember(view, ord, logic, s + 1, seen + {x.value.evidence}, m);
    }
  }

  /** The first start from `s` on with this evidence has this match. */
  ghost predicate FirstToShow(view: View, ord: seq<Event>, logic: SequenceLogic, s: nat, t: nat, m: SequenceMatch) {
    && s <= t < |ord| && MatchAt(view, ord, logic, t) == Some(m)
    && forall u :: s <= u < t && MatchAt(view, ord, logic, u).Some? ==>
         MatchAt(view, ord, logic, u).value.evidence != m.evidence
  }

  lemma FirstToShowStep(view: View, ord: seq<Event>, logic: SequenceLogic, s: nat, t: nat, m: SequenceMatch)
    requires s < |ord|
    ensures var x := MatchAt(view, ord, logic, s);
      FirstToShow(view, ord, logic, s, t, m) <==>
        if t == s then x == Some(m)
        else FirstToShow(view, ord, logic, s + 1, t, m) && (x.Some? ==> x.value.evidence != m.evidence)
  {
    hide MatchAt;
  }

  /** Exactly the matches are reported whose evidence is not in `seen` and no earlier start's. */
  lemma {:induction false} ReportedExactly(view: View, ord: seq<Event>, logic: SequenceLogic, s: nat,
                                           seen: set<seq<StageEvidence>>, m: SequenceMatch)
    requires s <= |ord|
    ensures m in Reported(view, ord, logic, s, seen) <==>
      m.evidence !in seen && exists t: nat :: FirstToShow(view, ord, logic, s, t, m)
    decreases |ord| - s
  {
    hide MatchAt, FirstToShow;
    if s < |ord| {
      var x, next := MatchAt(view, ord, logic, s), s + 1;
      forall t: nat
        ensures FirstToShow(view, ord, logic, s, t, m) <==>
          if t == s then x == Some(m)
          else FirstToShow(view, ord, logic, next, t, m) && (x.Some? ==> x.value.evidence != m.evidence)
      {
        FirstToShowStep(view, ord, logic, s, t, m);
      }
      NotBefore(view, ord, logic, s, m);
      assert FirstToShow(view, ord, logic, s, s, m) <==> x == Some(m);
      assert (exists t: nat :: FirstToShow(view, ord, logic, s, t, m)) <==>
        x == Some(m) ||
        ((exists t: nat :: FirstToShow(view, ord, logic, next, t, m)) && (x.Some? ==> x.value.evidence != m.evidence))
      by {
        if t: nat :| FirstToShow(view, ord, logic, s, t, m) {
          if t != s { assert FirstToShow(view, ord, logic, next, t, m); }
        }
        if t: nat :| FirstToShow(view, ord, logic, next, t, m) {
          if x.Some? ==> x.value.evidence != m.evidence { assert FirstToShow(view, ord, logic, s, t, m); }
        }
      }
      if x.None? || x.value.evidence in seen {
        ReportedExactly(view, ord, logic, s + 1, seen, m);
        assert Reported(view, ord, logic, s, seen) == Reported(view, ord, logic, s + 1, seen);
      } else {
        var later := seen + {x.value.evidence};
        ReportedExactly(view, ord, logic, s + 1, later, m);
        var rest := Reported(view, ord, logic, s + 1, later);
        assert Reported(view, ord, logic, s, seen) == [x.value] + rest;
        assert m in Reported(view, ord, logic, s, seen) <==> m == x.value || m in rest;
      }
    } else {
      forall t: nat ensures !FirstToShow(view, ord, logic, s, t, m) { NotAfter(view, ord, logic, s, t, m); }
    }
  }

  lemma NotBefore(view: View, ord: seq<Event>, logic: SequenceLogic, s: nat, m: SequenceMatch)
    ensures !FirstToShow(view, ord, logic, s + 1, s, m)
  { }

  lemma NotAfter(view: View, ord: seq<Event>, logic: SequenceLogic, s: nat, t: nat, m: SequenceMatch)
    requires s >= |ord|
    ensures !FirstToShow(view, ord, logic, s, t, m)
  { }

  /** No two reports have the same evidence. */
  lemma {:induction false} ReportsDiffer(view: View, ord: seq<Event>, logic: SequenceLogic, s: nat,
                                         seen: set<seq<StageEvidence>>)
    requires s <= |ord|
    ensures var ms := Reported(view, ord, logic, s, seen);
      && (forall m :: m in ms ==> m.evidence !in seen)
      && forall i, j :: 0 <= i < j < |ms| ==> ms[i].evidence != ms[j].evidence
    decreases |ord| - s
  {
    hide MatchAt;
    if s < |ord| {
      var x := MatchAt(view, ord, logic, s);
      if x.None? || x.value.evidence in seen {
        ReportsDiffer(view, ord, logic, s + 1, seen);
        assert Reported(view, ord, logic, s, seen) == Reported(view, ord, logic, s + 1, seen);
      } else {
        var later := seen + {x.value.evidence};
        ReportsDiffer(view, ord, logic, s + 1, later);
        var ms, rest := Reported(view, ord, logic, s, seen), Reported(view, ord, logic, s + 1, later);
        assert ms == [x.value] + rest;
        forall m | m in ms ensures m.evidence !in seen { assert m == x.value || m in rest; }
        assert forall j :: 1 <= j < |ms| ==> ms[j] == rest[j - 1] && ms[j] in rest;
      }
    }
  }

  // ---- One report per chain ------------------------------------------------

  function AllMatches(view: View, ord: seq<Event>, logic: SequenceLogic, s: nat): seq<SequenceMatch>
    requires s <= |ord|
    decreases |ord| - s
  {
    if s == |ord| then []
    else
      var m := MatchAt(view, ord, logic, s);
      (if m.Some? then [m.value] else []) + AllMatches(view, ord, logic, s + 1)
  }

  /** With distinct tags the first evidence entry names the chain's first event. */
  lemma FirstIdIsStart(view: View, ord: seq<Event>, logic: SequenceLogic, s: nat)
    requires Staged(logic) && DistinctTags(logic.stages) && s < |ord|
    requires MatchAt(view, ord, logic, s).Some?
    ensures var ev := MatchAt(view, ord, logic, s).value.evidence;
      ev != [] && ev[0].ids != [] && ev[0].ids[0] == ord[s].id
  {
    ReportIsAboutTheChain(view, ord, logic, s);
    var c := Chain(view, ord, logic, s).value;
    var sel := Split(logic.stages, c);
    EvidenceCompleteExactly(logic.stages, StageEvents(ord, sel));
    assert Flat(sel) == sel[0] + Flat(sel[1..]);
    assert sel[0][0] == c[0] == s;
  }

  ghost predicate ReportedBefore(view: View, ord: seq<Event>, logic: SequenceLogic, s: nat, ev: seq<StageEvidence>)
    requires s <= |ord|
  {
    exists t :: 0 <= t < s && MatchAt(view, ord, logic, t).Some? && MatchAt(view, ord, logic, t).value.evidence == ev
  }

  /** The identity check rejects nothing: over distinct events and tags, two starts
      never yield the same evidence. */
  lemma {:induction false} NothingIsDeduplicated(view: View, ord: seq<Event>, logic: SequenceLogic, s: nat,
                                                 seen: set<seq<StageEvidence>>)
    requires Staged(logic) && DistinctTags(logic.stages) && UniqueIds(ord) && s <= |ord|
    requires forall ev :: ev in seen ==> ReportedBefore(view, ord, logic, s, ev)
    ensures Reported(view, ord, logic, s, seen) == AllMatches(view, ord, logic, s)
    decreases |ord| - s
  {
    hide MatchAt;
    if s < |ord| {
      var m := MatchAt(view, ord, logic, s);
      if m.Some? {
        FirstIdIsStart(view, ord, logic, s);
        if m.value.evidence in seen {
          var t :| 0 <= t < s && MatchAt(view, ord, logic, t).Some?
                   && MatchAt(view, ord, logic, t).value.evidence == m.value.evidence;
          FirstIdIsStart(view, ord, logic, t);
          assert false;
        }
        assert ReportedBefore(view, ord, logic, s + 1, m.value.evidence);
        NothingIsDeduplicated(view, ord, logic, s + 1, seen + {m.value.evidence});
      } else {
        NothingIsDeduplicated(view, ord, logic, s + 1, seen);
      }
    }
  }

  lemma {:induction false} AllMatchesMembers(view: View, ord: seq<Event>, logic: SequenceLogic, s: nat,
                                             m: SequenceMatch)
    requires s <= |ord|
    ensures m in AllMatches(view, ord, logic, s) <==>
      exists t :: s <= t < |ord| && MatchAt(view, ord, logic, t) == Some(m)
    decreases |ord| - s
  {
    hide MatchAt;
    if s < |ord| { AllMatchesMembers(view, ord, logic, s + 1, m); }
  }

  // ---- Windows -------------------------------------------------------------

  function Shift(idx: seq<nat>, d: nat): seq<nat>
    requires forall i :: 0 <= i < |idx| ==> d <= idx[i]
  {
    seq(|idx|, i requires 0 <= i < |idx| => idx[i] - d)
  }

  ghost predicate Below(idx: seq<nat>, b: nat) { forall i :: 0 <= i < |idx| ==> idx[i] < b }

  /** What the scan of a slice picks, in terms of what the scan of the whole picks. */
  ghost function Cut(r: Option<seq<nat>>, a: nat, b: nat): Option<seq<nat>>
    requires r.Some? ==> forall i :: 0 <= i < |r.value| ==> a <= r.value[i]
  {
    if r.Some? && Below(r.value, b) then Some(Shift(r.value, a)) else None
  }

  lemma {:induction false} PickOfSlice(view: View, ord: seq<Event>, logic: SequenceLogic, first: Event,
                                       slots: seq<Condition>, cursor: nat, a: nat, b: nat)
    requires a <= cursor <= b <= |ord|
    ensures Pick(view, ord[a..b], logic, first, slots, cursor - a)
      == Cut(Pick(view, ord, logic, first, slots, cursor), a, b)
    decreases b - cursor
  {
    var whole := Pick(view, ord, logic, first, slots, cursor);
    if slots == [] {
      assert Shift([], a) == [];
    } else if cursor == b {
      if whole.Some? { assert whole.value[0] >= b; }
    } else {
      assert ord[a..b][cursor - a] == ord[cursor];
      if InSpan(logic, first, ord[cursor]) && Fits(view, logic, first, slots[0], ord[cursor]) {
        PickOfSlice(view, ord, logic, first, slots[1..], cursor + 1, a, b);
        CutPrepend(cursor, Pick(view, ord, logic, first, slots[1..], cursor + 1), a, b);
      } else {
        PickOfSlice(view, ord, logic, first, slots, cursor + 1, a, b);
      }
    }
  }

  lemma CutPrepend(x: nat, r: Option<seq<nat>>, a: nat, b: nat)
    requires a <= x < b && (r.Some? ==> forall i :: 0 <= i < |r.value| ==> a <= r.value[i])
    ensures (Prepend([x], r).Some? ==> forall i :: 0 <= i < |Prepend([x], r).value| ==> a <= Prepend([x], r).value[i])
    ensures Cut(Prepend([x], r), a, b) == Prepend([x - a], Cut(r, a, b))
  {
    if r.Some? {
      var v := [x] + r.value;
      if Below(r.value, b) {
        assert Below(v, b);
        assert Shift(v, a) == [x - a] + Shift(r.value, a);
      } else {
        var i :| 0 <= i < |r.value| && r.value[i] >= b;
        assert v[i + 1] >= b;
      }
    }
  }

  lemma ChainOfSlice(view: View, ord: seq<Event>, logic: SequenceLogic, s: nat, a: nat, b: nat)
    requires a <= s < b <= |ord|
    ensures Chain(view, ord[a..b], logic, s - a) == Cut(Chain(view, ord, logic, s), a, b)
  {
    assert ord[a..b][s - a] == ord[s];
    if Starts(view, logic, ord[s]) && Slots(logic.stages) != [] {
      var slots := Slots(logic.stages)[1..];
      PickOfSlice(view, ord, logic, ord[s], slots, s + 1, a, b);
      CutPrepend(s, Pick(view, ord, logic, ord[s], slots, s + 1), a, b);
    }
  }

  lemma SliceEvents(ord: seq<Event>, c: seq<nat>, a: nat, b: nat)
    requires a <= b <= |ord| && InRange(ord, c, a) && Below(c, b)
    ensures InRange(ord[a..b], Shift(c, a), 0)
    ensures At(ord[a..b], Shift(c, a)) == At(ord, c)
  { }

  /** A slice reports, for a start inside it, exactly the full history's match, evidence
      and span included, provided the chain also ends inside it; otherwise nothing. */
  lemma MatchOfSlice(view: View, ord: seq<Event>, logic: SequenceLogic, s: nat, a: nat, b: nat)
    requires Staged(logic) && a <= s < b <= |ord|
    ensures MatchAt(view, ord[a..b], logic, s - a) ==
      var c := Chain(view, ord, logic, s);
      if c.Some? && Last(c.value) < b then MatchAt(view, ord, logic, s) else None
  {
    hide Chain, At, Split, EvidenceOf, Slots;
    ChainOfSlice(view, ord, logic, s, a, b);
    var c := Chain(view, ord, logic, s);
    if c.Some? {
      ChainAscends(view, ord, logic, s);
      if Last(c.value) < b {
        assert Below(c.value, b);
        SliceEvents(ord, c.value, a, b);
      }
    }
  }

  /** The reports of the evaluator on a bounded window, as a function of the store. */
  function WindowMatches(view: View, store: seq<Event>, logic: SequenceLogic,
                         start: int, end: int, maxScanned: nat): seq<SequenceMatch> {
    Reported(view, Ordered(CandidatesOf(store, start, end, maxScanned)), logic, 0, {})
  }

  /** The chain from `s` in the full history starts and ends among the candidates. */
  ghost predicate InCandidates(view: View, store: seq<Event>, logic: SequenceLogic,
                               start: int, end: int, maxScanned: nat, s: nat) {
    && s < |Ordered(store)| && Chain(view, Ordered(store), logic, s).Some?
    && var ord := Ordered(store); var c := Chain(view, ord, logic, s).value;
       ord[s] in CandidatesOf(store, start, end, maxScanned)
       && ord[Last(c)] in CandidatesOf(store, start, end, maxScanned)
  }

  lemma {:induction false} WindowReportsAreStable(view: View, store: seq<Event>, logic: SequenceLogic,
                               start: int, end: int, maxScanned: nat, a: nat, b: nat)
    requires Staged(logic) && DistinctTags(logic.stages) && UniqueIds(store)
    requires a <= b <= |Ordered(store)| && CandidatesOf(store, start, end, maxScanned) == Ordered(store)[a..b]
    ensures WindowMatches(view, store, logic, start, end, maxScanned)
      == AllMatches(view, Ordered(store)[a..b], logic, 0)
  {
    OrderedProperties(store);
    SliceIsOrdered(Ordered(store), a, b);
    NothingIsDeduplicated(view, Ordered(store)[a..b], logic, 0, {});
  }

  lemma InSliceExactly(view: View, store: seq<Event>, logic: SequenceLogic,
                       start: int, end: int, maxScanned: nat, a: nat, b: nat, s: nat)
    requires Staged(logic) && UniqueIds(store) && s < |Ordered(store)|
    requires a <= b <= |Ordered(store)| && CandidatesOf(store, start, end, maxScanned) == Ordered(store)[a..b]
    ensures InCandidates(view, store, logic, start, end, maxScanned, s) <==>
      var c := Chain(view, Ordered(store), logic, s); c.Some? && a <= s && Last(c.value) < b
  {
    OrderedProperties(store);
    var ord := Ordered(store);
    var c := Chain(view, ord, logic, s);
    if c.Some? {
      MemberOfSlice(ord, a, b, s);
      MemberOfSlice(ord, a, b, Last(c.value));
      assert s <= Last(c.value);
    }
  }

  lemma WindowReportsAreFullMatches(view: View, store: seq<Event>, logic: SequenceLogic,
                                    start: int, end: int, maxScanned: nat, m: SequenceMatch) returns (s: nat)
    requires Staged(logic) && DistinctTags(logic.stages) && UniqueIds(store) && start < end
    requires m in WindowMatches(view, store, logic, start, end, maxScanned)
    ensures s < |Ordered(store)| && MatchAt(view, Ordered(store), logic, s) == Some(m)
    ensures InCandidates(view, store, logic, start, end, maxScanned, s)
  {
    hide MatchAt, InCandidates, WindowMatches, CandidatesOf;
    var ord := Ordered(store);
    var a, b := CandidatesAreSlice(store, start, end, maxScanned);
    WindowReportsAreStable(view, store, logic, start, end, maxScanned, a, b);
    AllMatchesMembers(view, ord[a..b], logic, 0, m);
    var t :| 0 <= t < |ord[a..b]| && MatchAt(view, ord[a..b], logic, t) == Some(m);
    s := a + t;
    MatchOfSlice(view, ord, logic, s, a, b);
    InSliceExactly(view, store, logic, start, end, maxScanned, a, b, s);
  }

  lemma FullMatchesAreReported(view: View, store: seq<Event>, logic: SequenceLogic,
                               start: int, end: int, maxScanned: nat, m: SequenceMatch, s: nat)
    requires Staged(logic) && DistinctTags(logic.stages) && UniqueIds(store) && start < end
    requires s < |Ordered(store)| && MatchAt(view, Ordered(store), logic, s) == Some(m)
    requires InCandidates(view, store, logic, start, end, maxScanned, s)
    ensures m in WindowMatches(view, store, logic, start, end, maxScanned)
  {
    var ord := Ordered(store);
    var a, b := CandidatesAreSlice(store, start, end, maxScanned);
    WindowReportsAreStable(view, store, logic, start, end, maxScanned, a, b);
    InSliceExactly(view, store, logic, start, end, maxScanned, a, b, s);
    MatchOfSlice(view, ord, logic, s, a, b);
    assert MatchAt(view, ord[a..b], logic, s - a) == Some(m);
    AllMatchesMembers(view, ord[a..b], logic, 0, m);
  }

  /** Window stability: a window cut to `max_events_scanned` reports exactly the matches
      of the full history whose first and last events it contains. */
  lemma WindowStability(view: View, store: seq<Event>, logic: SequenceLogic,
                        start: int, end: int, maxScanned: nat, m: SequenceMatch)
    requires Staged(logic) && DistinctTags(logic.stages) && UniqueIds(store) && start < end
    ensures m in WindowMatches(view, store, logic, start, end, maxScanned) <==>
      exists s :: 0 <= s < |Ordered(store)| && MatchAt(view, Ordered(store), logic, s) == Some(m)
        && InCandidates(view, store, logic, start, end, maxScanned, s)
  {
    if m in WindowMatches(view, store, logic, start, end, maxScanned) {
      var s := WindowReportsAreFullMatches(view, store, logic, start, end, maxScanned, m);
    }
    if s :| 0 <= s < |Ordered(store)| && MatchAt(view, Ordered(store), logic, s) == Some(m)
            && InCandidates(view, store, logic, start, end, maxScanned, s) {
      FullMatchesAreReported(view, store, logic, start, end, maxScanned, m, s);
    }
  }
}
