/** The bounded candidate query of a detection run (backend/detection/service.py). */
module Candidates {
  import opened Basics
  import opened Dsl
  import opened Events

  /** `WHERE start <= timestamp < end ORDER BY timestamp, event_id`. */
  function InWindow(ord: seq<Event>, start: int, end: int): seq<Event> {
    if ord == [] then []
    else (if start <= ord[0].time < end then [ord[0]] else []) + InWindow(ord[1..], start, end)
  }

  function CountBefore(ord: seq<Event>, t: int): nat {
    if ord == [] then 0 else (if ord[0].time < t then 1 else 0) + CountBefore(ord[1..], t)
  }

  lemma {:induction false} CountBeforeSplits(ord: seq<Event>, t: int)
    requires SortedBy(EventLe, ord)
    ensures CountBefore(ord, t) <= |ord|
    ensures forall i :: 0 <= i < |ord| ==> (ord[i].time < t <==> i < CountBefore(ord, t))
  {
    if ord != [] {
      CountBeforeSplits(ord[1..], t);
      forall i | 0 < i < |ord| ensures ord[0].time <= ord[i].time { TimesAscend(ord, 0, i); }
      forall i | 0 <= i < |ord| ensures ord[i].time < t <==> i < CountBefore(ord, t) {
        if i > 0 { assert ord[i] == ord[1..][i - 1]; }
        if ord[0].time >= t && |ord| > 1 { assert ord[1..][0].time >= t; }
      }
    }
  }

  /** Over sorted events a time window is a contiguous slice. */
  lemma {:induction false} WindowIsSlice(ord: seq<Event>, start: int, end: int)
    requires SortedBy(EventLe, ord) && start <= end
    ensures CountBefore(ord, start) <= CountBefore(ord, end) <= |ord|
    ensures InWindow(ord, start, end) == ord[CountBefore(ord, start)..CountBefore(ord, end)]
  {
    if ord != [] {
      var tail := ord[1..];
      WindowIsSlice(tail, start, end);
      CountBeforeSplits(ord, start);
      CountBeforeSplits(ord, end);
      var a, b := CountBefore(ord, start), CountBefore(ord, end);
      var a1, b1 := CountBefore(tail, start), CountBefore(tail, end);
      if a > 0 {
        assert ord[a..b] == tail[a1..b1];
      } else if b > 0 {
        assert a1 == 0 by {
          CountBeforeSplits(tail, start);
          if |tail| > 0 { assert ord[1] == tail[0]; TimesAscend(ord, 0, 1); }
        }
        assert ord[0..b] == [ord[0]] + tail[0..b1];
      } else {
        assert a1 == 0 && b1 == 0 by {
          CountBeforeSplits(tail, start); CountBeforeSplits(tail, end);
          if |tail| > 0 { assert ord[1] == tail[0]; TimesAscend(ord, 0, 1); }
        }
      }
    }
  }

  function Take<X>(s: seq<X>, n: nat): seq<X> { if n < |s| then s[..n] else s }

  /** `list(db.scalars(query.limit(max + 1)))[:max]`. */
  function CandidatesOf(store: seq<Event>, start: int, end: int, maxScanned: nat): seq<Event> {
    Take(Take(InWindow(Ordered(store), start, end), maxScanned + 1), maxScanned)
  }

  lemma {:induction false} InWindowTimes(ord: seq<Event>, start: int, end: int)
    ensures forall e :: e in InWindow(ord, start, end) ==> start <= e.time < end
  {
    if ord != [] { InWindowTimes(ord[1..], start, end); }
  }

  lemma CandidatesInWindow(store: seq<Event>, start: int, end: int, maxScanned: nat)
    ensures forall e :: e in CandidatesOf(store, start, end, maxScanned) ==> start <= e.time < end
  {
    InWindowTimes(Ordered(store), start, end);
  }

  lemma CandidatesAreSlice(store: seq<Event>, start: int, end: int, maxScanned: nat) returns (a: nat, b: nat)
    requires start < end
    ensures a <= b <= |Ordered(store)| && CandidatesOf(store, start, end, maxScanned) == Ordered(store)[a..b]
  {
    OrderedProperties(store);
    var ord := Ordered(store);
    WindowIsSlice(ord, start, end);
    a := CountBefore(ord, start);
    b := if a + maxScanned < CountBefore(ord, end) then a + maxScanned else CountBefore(ord, end);
    assert ord[a..CountBefore(ord, end)][..b - a] == ord[a..b];
    var w := InWindow(ord, start, end);
    if maxScanned < |w| { assert Take(w, maxScanned + 1)[..maxScanned] == w[..maxScanned]; }
  }

  // ---- Which events the query takes ----------------------------------------

  /** Where the stored events of the window are. */
  function Within(store: seq<Event>, start: int, end: int): set<nat> {
    set i: nat | i < |store| && start <= store[i].time < end
  }

  lemma {:induction false} WindowCounts(events: seq<Event>, start: int, end: int)
    ensures |InWindow(events, start, end)| == |Within(events, start, end)|
  {
    if events == [] {
      assert Within(events, start, end) == {};
    } else {
      var n := |events| - 1;
      WindowCounts(events[..n], start, end);
      assert events == events[..n] + [events[n]];
      WindowAppend(events[..n], events[n], start, end);
      var last: set<nat> := if start <= events[n].time < end then {n} else {};
      assert Within(events, start, end) == Within(events[..n], start, end) + last;
    }
  }

  lemma {:induction false} WindowAppend(events: seq<Event>, e: Event, start: int, end: int)
    ensures InWindow(events + [e], start, end)
      == InWindow(events, start, end) + if start <= e.time < end then [e] else []
  {
    if events == [] {
      assert [] + [e] == [e] && [e][1..] == [];
    } else {
      WindowAppend(events[1..], e, start, end);
      assert (events + [e])[1..] == events[1..] + [e];
    }
  }

  lemma {:induction false} WindowMultiset(events: seq<Event>, start: int, end: int)
    ensures forall e ::
      multiset(InWindow(events, start, end))[e] == (if start <= e.time < end then multiset(events)[e] else 0)
  {
    if events != [] {
      WindowMultiset(events[1..], start, end);
      assert events == [events[0]] + events[1..];
    }
  }

  /** Sorting changes nothing in how many events a window holds. */
  lemma WindowSize(store: seq<Event>, start: int, end: int)
    ensures |InWindow(Ordered(store), start, end)| == |Within(store, start, end)|
  {
    OrderedProperties(store);
    WindowMultiset(store, start, end);
    WindowMultiset(Ordered(store), start, end);
    WindowCounts(store, start, end);
    var a, b := InWindow(store, start, end), InWindow(Ordered(store), start, end);
    assert multiset(a) == multiset(b);
    assert |multiset(a)| == |a| && |multiset(b)| == |b|;
  }

  lemma CandidatesArePrefix(store: seq<Event>, start: int, end: int, maxScanned: nat)
    ensures var w := InWindow(Ordered(store), start, end);
      CandidatesOf(store, start, end, maxScanned) == if maxScanned < |w| then w[..maxScanned] else w
  {
    var w := InWindow(Ordered(store), start, end);
    if maxScanned + 1 < |w| { assert w[..maxScanned + 1][..maxScanned] == w[..maxScanned]; }
  }

  lemma WindowMembers(store: seq<Event>, start: int, end: int)
    ensures forall e :: e in InWindow(Ordered(store), start, end) <==> e in store && start <= e.time < end
  {
    var ord, w := Ordered(store), InWindow(Ordered(store), start, end);
    OrderedProperties(store);
    SameMembers(ord, store);
    WindowMultiset(ord, start, end);
    hide InWindow, Ordered;
    forall e ensures e in w <==> e in store && start <= e.time < end {
      assert e in w <==> multiset(w)[e] > 0;
      assert e in ord <==> multiset(ord)[e] > 0;
    }
  }

  /** In order, and no event twice. */
  ghost predicate Ascends(events: seq<Event>) {
    forall i, j :: 0 <= i < j < |events| ==> EventLe(events[i], events[j]) && events[i] != events[j]
  }

  lemma WindowAscends(store: seq<Event>, start: int, end: int)
    requires UniqueIds(store) && start < end
    ensures Ascends(InWindow(Ordered(store), start, end))
  {
    var ord := Ordered(store);
    OrderedProperties(store);
    WindowIsSlice(ord, start, end);
    hide Ordered, InWindow, EventLe;
    SliceAscends(ord, CountBefore(ord, start), CountBefore(ord, end));
  }

  lemma SliceAscends(ord: seq<Event>, a: nat, b: nat)
    requires SortedBy(EventLe, ord) && UniqueIds(ord) && a <= b <= |ord|
    ensures Ascends(ord[a..b])
  {
    hide EventLe;
    forall i, j | 0 <= i < j < b - a ensures EventLe(ord[a..b][i], ord[a..b][j]) && ord[a..b][i] != ord[a..b][j] {
      assert ord[a + i].id != ord[a + j].id;
    }
  }

  /** The members outside a prefix come after those in it. */
  lemma PrefixIsEarliest(w: seq<Event>, n: nat)
    requires Ascends(w) && n <= |w|
    ensures Ascends(w[..n]) && forall e :: e in w[..n] ==> e in w
    ensures forall c, e :: c in w[..n] && e in w && e !in w[..n] ==> EventLe(c, e)
    ensures (exists e :: e in w && e !in w[..n]) <==> n < |w|
  {
    hide EventLe;
    forall k | 0 <= k < n ensures w[k] in w[..n] { assert w[..n][k] == w[k]; }
    forall c, e | c in w[..n] && e in w && e !in w[..n] ensures EventLe(c, e) {
      var i :| 0 <= i < n && w[..n][i] == c;
      var j :| 0 <= j < |w| && w[j] == e;
    }
    if n < |w| { assert w[n] in w && forall i :: 0 <= i < n ==> w[..n][i] != w[n]; } else { assert w[..n] == w; }
  }

  /** The candidates are the earliest events of the window, as many as there are or as may
      be scanned: an event of the window that is not among them comes after each of them. */
  lemma CandidatesAreEarliest(store: seq<Event>, start: int, end: int, maxScanned: nat)
    requires UniqueIds(store) && start < end
    ensures var cands, n := CandidatesOf(store, start, end, maxScanned), |Within(store, start, end)|;
      && |cands| == (if n < maxScanned then n else maxScanned)
      && (forall e :: e in cands ==> e in store && start <= e.time < end)
      && (forall i, j :: 0 <= i < j < |cands| ==>
            cands[i].time < cands[j].time || (cands[i].time == cands[j].time && StrLe(cands[i].id, cands[j].id)))
      && (forall c, e :: c in cands && e in store && start <= e.time < end && e !in cands ==>
            c.time < e.time || (c.time == e.time && StrLe(c.id, e.id)))
      && ((exists e :: e in store && start <= e.time < end && e !in cands) <==> n > maxScanned)
  {
    var w := InWindow(Ordered(store), start, end);
    WindowSize(store, start, end);
    CandidatesArePrefix(store, start, end, maxScanned);
    WindowMembers(store, start, end);
    WindowAscends(store, start, end);
    hide InWindow, CandidatesOf, Within, Ordered, StrLe;
    PrefixIsEarliest(w, if maxScanned < |w| then maxScanned else |w|);
    assert w[..|w|] == w;
  }

  lemma SliceIsOrdered(ord: seq<Event>, a: nat, b: nat)
    requires SortedBy(EventLe, ord) && UniqueIds(ord) && a <= b <= |ord|
    ensures UniqueIds(ord[a..b]) && Ordered(ord[a..b]) == ord[a..b]
  {
    var part := ord[a..b];
    assert UniqueIds(part) by {
      forall i, j | 0 <= i < j < |part| ensures part[i].id != part[j].id {
        assert ord[a + i].id != ord[a + j].id;
      }
    }
    assert SortedBy(EventLe, part) by {
      forall i, j | 0 <= i < j < |part| ensures EventLe(part[i], part[j]) {
        assert EventLe(ord[a + i], ord[a + j]);
      }
    }
    OrderedProperties(part);
    EventLePreorder();
    UniqueIdsNoTies(Ordered(part));
    SortedUnique(EventLe, Ordered(part), part);
  }

  lemma MemberOfSlice(ord: seq<Event>, a: nat, b: nat, i: nat)
    requires UniqueIds(ord) && a <= b <= |ord| && i < |ord|
    ensures ord[i] in ord[a..b] <==> a <= i < b
  {
    if ord[i] in ord[a..b] {
      var j :| 0 <= j < b - a && ord[a..b][j] == ord[i];
      assert ord[a + j].id == ord[i].id;
    }
    if a <= i < b { assert ord[a..b][i - a] == ord[i]; }
  }
}
