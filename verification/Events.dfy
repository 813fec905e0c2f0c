/** Event-time ordering: the `(timestamp, event_id)` key both correlation
    evaluators and the candidate query sort by. */
module Events {
  import opened Basics
  import opened Dsl

  predicate EventLe(a: Event, b: Event) {
    a.time < b.time || (a.time == b.time && StrLe(a.id, b.id))
  }

  /** `event_id` is a unique column (db/models/event.py). */
  ghost predicate UniqueIds(events: seq<Event>) {
    forall i, j :: 0 <= i < j < |events| ==> events[i].id != events[j].id
  }

  function Ids(events: seq<Event>): seq<string> {
    seq(|events|, i requires 0 <= i < |events| => events[i].id)
  }

  function Ordered(events: seq<Event>): seq<Event> { Sort(EventLe, events) }

  lemma EventLePreorder()
    ensures TotalPreorder(EventLe)
  {
    forall x: Event, y: Event ensures EventLe(x, y) || EventLe(y, x) { StrLeTotal(x.id, y.id); }
    forall x: Event, y: Event, z: Event | EventLe(x, y) && EventLe(y, z) ensures EventLe(x, z) {
      if x.time == y.time == z.time { StrLeTransitive(x.id, y.id, z.id); }
    }
  }

  lemma UniqueIdsNoTies(events: seq<Event>)
    requires UniqueIds(events)
    ensures NoTies(EventLe, events) && Distinct(events)
  {
    forall x, y | x in events && y in events && EventLe(x, y) && EventLe(y, x) ensures x == y {
      StrLeAntisymmetric(x.id, y.id);
      var i :| 0 <= i < |events| && events[i] == x;
      var j :| 0 <= j < |events| && events[j] == y;
      assert i == j;
    }
  }

  lemma UniqueIdsPermute(a: seq<Event>, b: seq<Event>)
    requires UniqueIds(a) && multiset(a) == multiset(b)
    ensures UniqueIds(b)
  {
    UniqueIdsNoTies(a);
    DistinctByMultiset(a, b);
    SameMembers(a, b);
    forall i, j | 0 <= i < j < |b| ensures b[i].id != b[j].id {
      assert b[i] in a && b[j] in a && b[i] != b[j];
    }
  }

  /** Sorting loses and invents nothing, keeps ids unique, and orders by event time. */
  lemma OrderedProperties(events: seq<Event>)
    ensures multiset(Ordered(events)) == multiset(events) && |Ordered(events)| == |events|
    ensures SortedBy(EventLe, Ordered(events))
    ensures UniqueIds(events) ==> UniqueIds(Ordered(events))
  {
    EventLePreorder();
    SortIsPermutation(EventLe, events);
    SortIsSorted(EventLe, events);
    if UniqueIds(events) { UniqueIdsPermute(events, Ordered(events)); }
  }

  /** It ascends in time and, at one time, in the text of the ids. */
  lemma OrderedByTimeThenId(events: seq<Event>, i: nat, j: nat)
    requires i < j < |Ordered(events)|
    ensures var a, b := Ordered(events)[i], Ordered(events)[j];
      a.time < b.time || (a.time == b.time && StrLe(a.id, b.id))
  {
    OrderedProperties(events);
  }

  lemma OrderedCanonical(a: seq<Event>, b: seq<Event>)
    requires UniqueIds(a) && multiset(a) == multiset(b)
    ensures Ordered(a) == Ordered(b)
  {
    EventLePreorder();
    UniqueIdsNoTies(a);
    SortCanonical(EventLe, a, b);
  }

  lemma TimesAscend(ord: seq<Event>, i: nat, j: nat)
    requires SortedBy(EventLe, ord) && i <= j < |ord|
    ensures ord[i].time <= ord[j].time
  {
    if i < j { assert EventLe(ord[i], ord[j]); }
  }
}
