/** Tumbling-window thresholds (backend/detection/threshold.py). */
module Threshold {
  import opened Basics
  import opened Dsl
  import opened Matcher
  import opened Events

  /** A bucket: its window start and the values of the grouping fields. */
  datatype Key = Key(start: int, group: seq<Value>)

  datatype ThresholdMatch = ThresholdMatch(
    group: seq<Value>, count: nat, windowStart: int, windowEnd: int, evidence: seq<string>)

  /** `repr(...)` of a group, by which equal-start buckets are ordered. */
  type Repr = seq<Value> -> string

  ghost predicate Injective(repr: Repr) {
    forall a, b :: repr(a) == repr(b) ==> a == b
  }

  function Duration(logic: ThresholdLogic): int { logic.windowSeconds * MICROS }

  predicate HasGroup(view: View, e: Event, keys: seq<Field>) {
    forall i | 0 <= i < |keys| :: view.get(e, keys[i]).Some?
  }

  function GroupOf(view: View, e: Event, keys: seq<Field>): seq<Value>
    requires HasGroup(view, e, keys)
  {
    seq(|keys|, i requires 0 <= i < |keys| => view.get(e, keys[i]).value)
  }

  predicate Qualifies(view: View, logic: ThresholdLogic, start: int, end: int, e: Event) {
    start <= e.time < end && view.hit(e, logic.condition) && HasGroup(view, e, logic.groupBy)
  }

  /** Start of the tumbling window an event falls in. */
  function BucketStart(logic: ThresholdLogic, start: int, t: int): int
    requires Duration(logic) > 0
  {
    start + ((t - start) / Duration(logic)) * Duration(logic)
  }

  function KeyOf(view: View, logic: ThresholdLogic, start: int, e: Event): Key
    requires Duration(logic) > 0 && HasGroup(view, e, logic.groupBy)
  {
    Key(BucketStart(logic, start, e.time), GroupOf(view, e, logic.groupBy))
  }

  predicate InBucket(view: View, logic: ThresholdLogic, start: int, end: int, key: Key, e: Event)
    requires Duration(logic) > 0
  {
    Qualifies(view, logic, start, end, e) && KeyOf(view, logic, start, e) == key
  }

  // ---- The dictionary as a function of the events read so far --------------

  function Bucket(view: View, logic: ThresholdLogic, start: int, end: int, events: seq<Event>, key: Key): seq<Event>
    requires Duration(logic) > 0
  {
    if events == [] then []
    else
      var n := |events| - 1;
      var before := Bucket(view, logic, start, end, events[..n], key);
      if InBucket(view, logic, start, end, key, events[n]) then before + [events[n]] else before
  }

  /** Bucket keys in order of first insertion. */
  function Keys(view: View, logic: ThresholdLogic, start: int, end: int, events: seq<Event>): seq<Key>
    requires Duration(logic) > 0
  {
    if events == [] then []
    else
      var n := |events| - 1;
      var before := Keys(view, logic, start, end, events[..n]);
      if Qualifies(view, logic, start, end, events[n]) && KeyOf(view, logic, start, events[n]) !in before
      then before + [KeyOf(view, logic, start, events[n])] else before
  }

  function KeyOrder(repr: Repr): (Key, Key) -> bool {
    (a: Key, b: Key) => a.start < b.start || (a.start == b.start && StrLe(repr(a.group), repr(b.group)))
  }

  function Values(view: View, f: Field, events: seq<Event>): set<Value> {
    set e | e in events && view.get(e, f).Some? :: view.get(e, f).value
  }

  /** Events, or distinct non-null values of the counted field. */
  function Count(view: View, logic: ThresholdLogic, events: seq<Event>): nat {
    if logic.distinctField.Some? then |Values(view, logic.distinctField.value, events)| else |events|
  }

  function Min(a: int, b: int): int { if b < a then b else a }

  /** The report for one bucket, if it reaches `min_count`. */
  function BucketMatch(view: View, logic: ThresholdLogic, end: int, key: Key, bucket: seq<Event>)
    : Option<ThresholdMatch>
  {
    var ordered := Ordered(bucket);
    if Count(view, logic, ordered) < logic.minCount then None
    else Some(ThresholdMatch(key.group, Count(view, logic, ordered), key.start,
                             Min(key.start + Duration(logic), end), Ids(ordered)))
  }

  function Collect(view: View, logic: ThresholdLogic, start: int, end: int, events: seq<Event>,
                   keys: seq<Key>): seq<ThresholdMatch>
    requires Duration(logic) > 0
  {
    if keys == [] then []
    else
      var n := |keys| - 1;
      var before := Collect(view, logic, start, end, events, keys[..n]);
      var m := BucketMatch(view, logic, end, keys[n], Bucket(view, logic, start, end, events, keys[n]));
      if m.Some? then before + [m.value] else before
  }

  function Firings(view: View, repr: Repr, logic: ThresholdLogic, start: int, end: int, events: seq<Event>)
    : seq<ThresholdMatch>
    requires Duration(logic) > 0
  {
    Collect(view, logic, start, end, events, Sort(KeyOrder(repr), Keys(view, logic, start, end, events)))
  }

  lemma {:induction false} KeysDescribe(view: View, logic: ThresholdLogic, start: int, end: int, events: seq<Event>,
                                        key: Key)
    requires Duration(logic) > 0
    ensures key in Keys(view, logic, start, end, events) <==>
      exists i :: 0 <= i < |events| && InBucket(view, logic, start, end, key, events[i])
    ensures key in Keys(view, logic, start, end, events) <==> Bucket(view, logic, start, end, events, key) != []
    ensures Distinct(Keys(view, logic, start, end, events))
  {
    if events != [] {
      var n := |events| - 1;
      KeysDescribe(view, logic, start, end, events[..n], key);
      assert forall i :: 0 <= i < n ==> events[..n][i] == events[i];
      if i :| 0 <= i < n && InBucket(view, logic, start, end, key, events[..n][i]) {
        assert InBucket(view, logic, start, end, key, events[i]);
      }
      if i :| 0 <= i < n && InBucket(view, logic, start, end, key, events[i]) {
        assert InBucket(view, logic, start, end, key, events[..n][i]);
      }
    }
  }

  lemma {:induction false} BucketDescribe(view: View, logic: ThresholdLogic, start: int, end: int,
                                          events: seq<Event>, key: Key)
    requires Duration(logic) > 0
    ensures forall e ::
      multiset(Bucket(view, logic, start, end, events, key))[e] ==
      (if InBucket(view, logic, start, end, key, e) then multiset(events)[e] else 0)
    ensures forall e :: e in Bucket(view, logic, start, end, events, key) <==>
      e in events && InBucket(view, logic, start, end, key, e)
  {
    if events != [] {
      var n := |events| - 1;
      BucketDescribe(view, logic, start, end, events[..n], key);
      assert events == events[..n] + [events[n]];
    }
  }

  /** Matching raises on some event of the run window. */
  predicate EvaluationRaises(bad: Hit, logic: ThresholdLogic, start: int, end: int, events: seq<Event>) {
    exists i | 0 <= i < |events| :: start <= events[i].time < end && bad(events[i], logic.condition)
  }

  lemma RaisesOnSome(cidr: Cidr, logic: ThresholdLogic, start: int, end: int, events: seq<Event>)
    ensures EvaluationRaises(RaiserOf(cidr), logic, start, end, events) <==>
      exists i :: 0 <= i < |events| && start <= events[i].time < end
                  && MatchEvent(cidr, events[i], logic.condition).raised
  {
    hide MatchEvent;
  }

  /** The dictionary after reading `events`, with its keys in order of first insertion. */
  ghost predicate Tallied(view: View, logic: ThresholdLogic, start: int, end: int, events: seq<Event>,
                          buckets: map<Key, seq<Event>>, inserted: seq<Key>)
    requires Duration(logic) > 0
  {
    && inserted == Keys(view, logic, start, end, events)
    && buckets.Keys == (set k | k in inserted)
    && forall k :: k in buckets ==> buckets[k] == Bucket(view, logic, start, end, events, k)
  }

  /** The first loop of `evaluate_threshold`: fill the bucket dictionary. */
  method FillBuckets(view: View, bad: Hit, events: seq<Event>, logic: ThresholdLogic, start: int, end: int)
    returns (raised: bool, buckets: map<Key, seq<Event>>, inserted: seq<Key>)
    requires Duration(logic) > 0
    ensures raised <==> EvaluationRaises(bad, logic, start, end, events)
    ensures !raised ==> Tallied(view, logic, start, end, events, buckets, inserted)
  {
    hide KeyOf, Duration;
    raised, buckets, inserted := false, map[], [];
    var i := 0;
    while i < |events|
      invariant i <= |events| && !raised
      invariant forall j :: 0 <= j < i && start <= events[j].time < end ==> !bad(events[j], logic.condition)
      invariant Tallied(view, logic, start, end, events[..i], buckets, inserted)
    {
      var event := events[i];
      assert events[..i + 1][..i] == events[..i];
      ghost var read := events[..i];
      i := i + 1;
      if event.time < start || event.time >= end { continue; }
      if bad(event, logic.condition) { return true, buckets, inserted; }
      if !view.hit(event, logic.condition) { continue; }
      if !HasGroup(view, event, logic.groupBy) { continue; }
      var key := KeyOf(view, logic, start, event);
      KeysDescribe(view, logic, start, end, read, key);
      if key !in buckets {
        buckets := buckets[key := []];
        inserted := inserted + [key];
      }
      buckets := buckets[key := buckets[key] + [event]];
    }
    assert events[..i] == events;
  }

  /** `evaluate_threshold`: the second loop visits the buckets in `(start, repr(group))` order. */
  method EvaluateThreshold(cidr: Cidr, get: Access, repr: Repr, events: seq<Event>, logic: ThresholdLogic,
                           start: int, end: int)
    returns (raised: bool, matches: seq<ThresholdMatch>)
    requires ThresholdOk(logic) && start < end
    ensures raised <==> EvaluationRaises(RaiserOf(cidr), logic, start, end, events)
    ensures raised <==> exists i :: 0 <= i < |events| && start <= events[i].time < end
                                    && MatchEvent(cidr, events[i], logic.condition).raised
    ensures !raised ==> matches == Firings(ViewOf(cidr, get), repr, logic, start, end, events)
  {
    RaisesOnSome(cidr, logic, start, end, events);
    hide ViewOf, RaiserOf, BucketMatch, EvaluationRaises, Keys, Bucket, MatchEvent;
    var view := ViewOf(cidr, get);
    var buckets, inserted;
    raised, buckets, inserted := FillBuckets(view, RaiserOf(cidr), events, logic, start, end);
    matches := [];
    if raised { return; }
    var keys := Sort(KeyOrder(repr), inserted);
    SortIsPermutation(KeyOrder(repr), inserted);
    SameMembers(keys, inserted);
    var j := 0;
    while j < |keys|
      invariant j <= |keys|
      invariant matches == Collect(view, logic, start, end, events, keys[..j])
    {
      assert keys[..j + 1][..j] == keys[..j];
      assert keys[j] in keys;
      var m := BucketMatch(view, logic, end, keys[j], buckets[keys[j]]);
      if m.Some? { matches := matches + [m.value]; }
      j := j + 1;
    }
    assert keys[..j] == keys;
  }

  // ---- Exactness -----------------------------------------------------------

  lemma {:induction false} CollectMembers(view: View, logic: ThresholdLogic, start: int, end: int,
                                          events: seq<Event>, keys: seq<Key>, m: ThresholdMatch)
    requires Duration(logic) > 0
    ensures m in Collect(view, logic, start, end, events, keys) <==>
      exists i :: 0 <= i < |keys|
        && BucketMatch(view, logic, end, keys[i], Bucket(view, logic, start, end, events, keys[i])) == Some(m)
  {
    if keys != [] {
      var n := |keys| - 1;
      CollectMembers(view, logic, start, end, events, keys[..n], m);
      assert forall i :: 0 <= i < n ==> keys[..n][i] == keys[i];
    }
  }

  lemma EmptyBucketIsSilent(view: View, logic: ThresholdLogic, end: int, key: Key)
    requires logic.minCount >= 1
    ensures BucketMatch(view, logic, end, key, []) == None
  {
    assert Ordered([]) == [];
    assert forall f :: Values(view, f, []) == {};
    assert Count(view, logic, []) == 0;
  }

  /** A match is reported exactly when some bucket of qualifying events reaches the
      threshold, and it is that bucket's report. */
  lemma {:induction false} ThresholdExact(view: View, repr: Repr, logic: ThresholdLogic, start: int, end: int,
                       events: seq<Event>, m: ThresholdMatch)
    requires Duration(logic) > 0 && logic.minCount >= 1
    ensures m in Firings(view, repr, logic, start, end, events) <==>
      exists k :: BucketMatch(view, logic, end, k, Bucket(view, logic, start, end, events, k)) == Some(m)
  {
    var keys := Keys(view, logic, start, end, events);
    SortIsPermutation(KeyOrder(repr), keys);
    SameMembers(Sort(KeyOrder(repr), keys), keys);
    CollectMembers(view, logic, start, end, events, Sort(KeyOrder(repr), keys), m);
    if k :| BucketMatch(view, logic, end, k, Bucket(view, logic, start, end, events, k)) == Some(m) {
      EmptyBucketIsSilent(view, logic, end, k);
      KeysDescribe(view, logic, start, end, events, k);
      var sorted := Sort(KeyOrder(repr), keys);
      assert k in sorted;
      var i :| 0 <= i < |sorted| && sorted[i] == k;
    }
  }

  lemma BucketBounds(logic: ThresholdLogic, start: int, t: int)
    requires Duration(logic) > 0 && start <= t
    ensures start <= BucketStart(logic, start, t) <= t < BucketStart(logic, start, t) + Duration(logic)
  {
    var d, x := Duration(logic), t - start;
    DivBounds(x, d);
  }

  lemma DivBounds(x: nat, d: int)
    requires d > 0
    ensures 0 <= (x / d) * d <= x < (x / d) * d + d
  {
    assert x == (x / d) * d + x % d;
  }

  /** The buckets partition the qualifying events, and every event lies inside the
      window its bucket reports. */
  lemma {:induction false} BucketsPartition(view: View, logic: ThresholdLogic, start: int, end: int,
                                            events: seq<Event>, e: Event)
    requires Duration(logic) > 0 && start < end && e in events
    ensures Qualifies(view, logic, start, end, e) <==>
      exists k :: k in Keys(view, logic, start, end, events) && e in Bucket(view, logic, start, end, events, k)
    ensures forall k :: e in Bucket(view, logic, start, end, events, k) ==>
      && InBucket(view, logic, start, end, k, e)
      && k.start <= e.time < Min(k.start + Duration(logic), end)
      && multiset(Bucket(view, logic, start, end, events, k))[e] == multiset(events)[e]
  {
    forall k | e in Bucket(view, logic, start, end, events, k)
      ensures InBucket(view, logic, start, end, k, e)
      ensures k.start <= e.time < Min(k.start + Duration(logic), end)
      ensures multiset(Bucket(view, logic, start, end, events, k))[e] == multiset(events)[e]
    {
      BucketDescribe(view, logic, start, end, events, k);
      BucketBounds(logic, start, e.time);
    }
    if Qualifies(view, logic, start, end, e) {
      var k := KeyOf(view, logic, start, e);
      BucketDescribe(view, logic, start, end, events, k);
      KeysDescribe(view, logic, start, end, events, k);
      assert multiset(Bucket(view, logic, start, end, events, k))[e] > 0;
    }
  }

  // ---- Order freedom -------------------------------------------------------

  lemma KeyOrderPreorder(repr: Repr)
    ensures TotalPreorder(KeyOrder(repr))
  {
    var le := KeyOrder(repr);
    forall x: Key, y: Key ensures le(x, y) || le(y, x) { StrLeTotal(repr(x.group), repr(y.group)); }
    forall x: Key, y: Key, z: Key | le(x, y) && le(y, z) ensures le(x, z) {
      if x.start == y.start == z.start { StrLeTransitive(repr(x.group), repr(y.group), repr(z.group)); }
    }
  }

  lemma KeyOrderNoTies(repr: Repr, keys: seq<Key>)
    requires Injective(repr)
    ensures NoTies(KeyOrder(repr), keys)
  {
    var le := KeyOrder(repr);
    forall x, y | x in keys && y in keys && le(x, y) && le(y, x) ensures x == y {
      StrLeAntisymmetric(repr(x.group), repr(y.group));
    }
  }

  lemma {:induction false} DistinctSameMembers<T>(a: seq<T>, b: seq<T>)
    requires Distinct(a) && Distinct(b) && forall x :: x in a <==> x in b
    ensures multiset(a) == multiset(b)
  {
    forall x ensures multiset(a)[x] == multiset(b)[x] {
      DistinctCount(a, x);
      DistinctCount(b, x);
      assert x in a <==> multiset(a)[x] > 0;
      assert x in b <==> multiset(b)[x] > 0;
    }
  }

  lemma BucketsHoldTheSame(view: View, logic: ThresholdLogic, start: int, end: int, a: seq<Event>, b: seq<Event>,
                           key: Key)
    requires Duration(logic) > 0 && multiset(a) == multiset(b)
    ensures multiset(Bucket(view, logic, start, end, a, key)) == multiset(Bucket(view, logic, start, end, b, key))
  {
    hide Bucket, InBucket, Duration;
    BucketDescribe(view, logic, start, end, a, key);
    BucketDescribe(view, logic, start, end, b, key);
  }

  lemma KeysHoldTheSame(view: View, logic: ThresholdLogic, start: int, end: int, a: seq<Event>, b: seq<Event>,
                        key: Key)
    requires Duration(logic) > 0 && multiset(a) == multiset(b)
    ensures key in Keys(view, logic, start, end, a) <==> key in Keys(view, logic, start, end, b)
  {
    hide Bucket, InBucket, Keys, Duration;
    KeysDescribe(view, logic, start, end, a, key);
    KeysDescribe(view, logic, start, end, b, key);
    BucketsHoldTheSame(view, logic, start, end, a, b, key);
    SameMembers(Bucket(view, logic, start, end, a, key), Bucket(view, logic, start, end, b, key));
  }

  lemma {:induction false} KeysPermute(view: View, logic: ThresholdLogic, start: int, end: int, a: seq<Event>,
                                       b: seq<Event>)
    requires Duration(logic) > 0 && multiset(a) == multiset(b)
    ensures multiset(Keys(view, logic, start, end, a)) == multiset(Keys(view, logic, start, end, b))
  {
    hide Bucket, InBucket, Keys, Duration, Distinct;
    forall k ensures k in Keys(view, logic, start, end, a) <==> k in Keys(view, logic, start, end, b) {
      KeysHoldTheSame(view, logic, start, end, a, b, k);
    }
    KeysDescribe(view, logic, start, end, a, Key(0, []));
    KeysDescribe(view, logic, start, end, b, Key(0, []));
    DistinctSameMembers(Keys(view, logic, start, end, a), Keys(view, logic, start, end, b));
  }

  lemma {:induction false} UniqueInBucket(view: View, logic: ThresholdLogic, start: int, end: int,
                                          events: seq<Event>, key: Key)
    requires Duration(logic) > 0 && UniqueIds(events)
    ensures UniqueIds(Bucket(view, logic, start, end, events, key))
    ensures forall e :: e in Bucket(view, logic, start, end, events, key) ==> e in events
  {
    if events != [] {
      var n := |events| - 1;
      UniqueInBucket(view, logic, start, end, events[..n], key);
      assert forall e :: e in events[..n] ==> e in events && e.id != events[n].id;
    }
  }

  lemma {:induction false} BucketsPermute(view: View, logic: ThresholdLogic, start: int, end: int, a: seq<Event>,
                                          b: seq<Event>, key: Key)
    requires Duration(logic) > 0 && multiset(a) == multiset(b) && UniqueIds(a)
    ensures Ordered(Bucket(view, logic, start, end, a, key)) == Ordered(Bucket(view, logic, start, end, b, key))
  {
    BucketsHoldTheSame(view, logic, start, end, a, b, key);
    UniqueInBucket(view, logic, start, end, a, key);
    OrderedCanonical(Bucket(view, logic, start, end, a, key), Bucket(view, logic, start, end, b, key));
  }

  lemma {:induction false} CollectPermutes(view: View, logic: ThresholdLogic, start: int, end: int,
                                           a: seq<Event>, b: seq<Event>, keys: seq<Key>)
    requires Duration(logic) > 0 && multiset(a) == multiset(b) && UniqueIds(a)
    ensures Collect(view, logic, start, end, a, keys) == Collect(view, logic, start, end, b, keys)
  {
    if keys != [] {
      var n := |keys| - 1;
      CollectPermutes(view, logic, start, end, a, b, keys[..n]);
      BucketsPermute(view, logic, start, end, a, b, keys[n]);
    }
  }

  /** The order in which events arrive does not matter, down to the order of the report. */
  lemma ThresholdOrderFree(view: View, repr: Repr, logic: ThresholdLogic, start: int, end: int,
                           a: seq<Event>, b: seq<Event>)
    requires Duration(logic) > 0 && Injective(repr) && UniqueIds(a) && multiset(a) == multiset(b)
    ensures Firings(view, repr, logic, start, end, a) == Firings(view, repr, logic, start, end, b)
  {
    KeysPermute(view, logic, start, end, a, b);
    KeyOrderPreorder(repr);
    KeyOrderNoTies(repr, Keys(view, logic, start, end, a));
    SortCanonical(KeyOrder(repr), Keys(view, logic, start, end, a), Keys(view, logic, start, end, b));
    CollectPermutes(view, logic, start, end, a, b, Sort(KeyOrder(repr), Keys(view, logic, start, end, a)));
  }

  // ---- Bursts --------------------------------------------------------------

  /** All evidence of a firing lies within less than one window length. */
  lemma {:induction false} EvidenceSpan(view: View, logic: ThresholdLogic, start: int, end: int, events: seq<Event>,
                                        key: Key,
                     e: Event, f: Event)
    requires Duration(logic) > 0 && start < end
    requires e in Bucket(view, logic, start, end, events, key) && f in Bucket(view, logic, start, end, events, key)
    ensures f.time - e.time < Duration(logic)
  {
    BucketDescribe(view, logic, start, end, events, key);
    BucketBounds(logic, start, e.time);
    BucketBounds(logic, start, f.time);
  }

  /** Times at most one window length apart fall in the same or the next bucket. */
  lemma NeighbouringBuckets(logic: ThresholdLogic, start: int, t: int, u: int)
    requires Duration(logic) > 0 && start <= t <= u <= t + Duration(logic)
    ensures BucketStart(logic, start, u) == BucketStart(logic, start, t)
      || BucketStart(logic, start, u) == BucketStart(logic, start, t) + Duration(logic)
  {
    var d := Duration(logic);
    QuotientStep(t - start, u - start, d);
  }

  lemma QuotientStep(x: nat, y: nat, d: int)
    requires d > 0 && x <= y <= x + d
    ensures (y / d) * d == (x / d) * d || (y / d) * d == (x / d) * d + d
  {
    var p, q := x / d, y / d;
    DivBounds(x, d);
    DivBounds(y, d);
    if q < p { MulLess(q, p, d); }
    if q > p + 1 { MulLess(p + 1, q, d); Expand(p, d); }
    if q == p + 1 { Expand(p, d); }
  }

  lemma {:induction false} MulLess(a: int, b: int, d: int)
    requires a < b && d > 0
    ensures a * d + d <= b * d
    decreases b - a
  {
    Expand(b - 1, d);
    if a < b - 1 { MulLess(a, b - 1, d); }
  }

  lemma Expand(p: int, d: int)
    ensures (p + 1) * d == p * d + d
  { }

  lemma {:induction false} BurstInBucket(view: View, logic: ThresholdLogic, start: int, end: int,
                                         events: seq<Event>, key: Key, part: set<Event>)
    requires Duration(logic) > 0
    requires forall e :: e in part ==> e in events && InBucket(view, logic, start, end, key, e)
    ensures |part| <= |Bucket(view, logic, start, end, events, key)|
  {
    if events == [] {
      assert part == {};
    } else {
      var n := |events| - 1;
      assert events == events[..n] + [events[n]];
      BurstInBucket(view, logic, start, end, events[..n], key, part - {events[n]});
      if events[n] in part { assert part == (part - {events[n]}) + {events[n]}; }
      else { assert part - {events[n]} == part; }
    }
  }

  /** Burst guarantee: 2 * min_count - 1 qualifying events of one group within one
      window length always fire, wherever the tumbling boundary falls. */
  lemma BurstFires(view: View, repr: Repr, logic: ThresholdLogic, start: int, end: int,
                   events: seq<Event>, burst: set<Event>, first: Event, group: seq<Value>)
    requires Duration(logic) > 0 && start < end && logic.minCount >= 1 && logic.distinctField.None?
    requires |burst| >= 2 * logic.minCount - 1 && first in burst
    requires forall e :: e in burst ==>
      && e in events && Qualifies(view, logic, start, end, e) && GroupOf(view, e, logic.groupBy) == group
      && first.time <= e.time <= first.time + Duration(logic)
    ensures exists m :: m in Firings(view, repr, logic, start, end, events) && m.group == group
  {
    hide BucketStart, Duration;
    var b := BucketStart(logic, start, first.time);
    var here, next := Key(b, group), Key(b + Duration(logic), group);
    var left := set e | e in burst && KeyOf(view, logic, start, e) == here;
    var right := burst - left;
    forall e | e in right ensures KeyOf(view, logic, start, e) == next {
      NeighbouringBuckets(logic, start, first.time, e.time);
    }
    assert burst == left + right && |burst| == |left| + |right|;
    BurstInBucket(view, logic, start, end, events, here, left);
    BurstInBucket(view, logic, start, end, events, next, right);
    var key := if |left| >= logic.minCount then here else next;
    var bucket := Bucket(view, logic, start, end, events, key);
    OrderedProperties(bucket);
    var m := BucketMatch(view, logic, end, key, bucket).value;
    ThresholdExact(view, repr, logic, start, end, events, m);
    assert m in Firings(view, repr, logic, start, end, events);
  }

  function Copies(n: nat, mark: char, t: int): seq<Event> {
    seq(n, i requires 0 <= i < n => Event([mark] + seq(i, _ => '+'), t, map[]))
  }

  lemma CopiesAt(n: nat, mark: char, t: int)
    ensures |Copies(n, mark, t)| == n && forall i :: 0 <= i < n ==> Copies(n, mark, t)[i].time == t
  { }

  /** `n` events just before the first inner boundary and `n` events on it. */
  function Straddling(logic: ThresholdLogic, start: int, n: nat): seq<Event> {
    Copies(n, 'a', start + Duration(logic) - 1) + Copies(n, 'b', start + Duration(logic))
  }

  lemma StraddlingIds(logic: ThresholdLogic, start: int, n: nat)
    ensures UniqueIds(Straddling(logic, start, n))
  {
    var es := Straddling(logic, start, n);
    forall i, j | 0 <= i < j < |es| ensures es[i].id != es[j].id {
      if j < n || i >= n { assert |es[i].id| != |es[j].id|; }
      else { assert es[i].id[0] == 'a' && es[j].id[0] == 'b'; }
    }
  }

  lemma {:induction false} BucketOfConcat(view: View, logic: ThresholdLogic, start: int, end: int,
                                          a: seq<Event>, b: seq<Event>, key: Key)
    requires Duration(logic) > 0
    ensures Bucket(view, logic, start, end, a + b, key)
      == Bucket(view, logic, start, end, a, key) + Bucket(view, logic, start, end, b, key)
  {
    if b == [] {
      assert a + b == a;
    } else {
      var n := |b| - 1;
      BucketOfConcat(view, logic, start, end, a, b[..n], key);
      assert (a + b)[..|a + b| - 1] == a + b[..n];
    }
  }

  /** A bucket holds at most what it is filled from, and nothing of other windows. */
  lemma {:induction false} BucketOfOneTime(view: View, logic: ThresholdLogic, start: int, end: int,
                                           es: seq<Event>, key: Key, t: int)
    requires Duration(logic) > 0 && forall i :: 0 <= i < |es| ==> es[i].time == t
    ensures |Bucket(view, logic, start, end, es, key)| <= if BucketStart(logic, start, t) == key.start then |es| else 0
  {
    hide BucketStart;
    if es != [] { BucketOfOneTime(view, logic, start, end, es[..|es| - 1], key, t); }
  }

  lemma FirstQuotients(d: int)
    requires d > 0
    ensures (d - 1) / d * d == 0 && d / d * d == d
  { }

  lemma BoundaryBuckets(logic: ThresholdLogic, start: int)
    requires Duration(logic) > 0
    ensures BucketStart(logic, start, start + Duration(logic) - 1) == start
    ensures BucketStart(logic, start, start + Duration(logic)) == start + Duration(logic)
  {
    FirstQuotients(Duration(logic));
    hide Duration;
  }

  lemma {:induction false} StraddlingBuckets(view: View, logic: ThresholdLogic, start: int, end: int, n: nat, key: Key)
    requires Duration(logic) > 0
    ensures |Bucket(view, logic, start, end, Straddling(logic, start, n), key)| <= n
  {
    hide BucketStart, Duration, Bucket, Copies;
    var d := Duration(logic);
    BoundaryBuckets(logic, start);
    CopiesAt(n, 'a', start + d - 1);
    CopiesAt(n, 'b', start + d);
    var a, b := Copies(n, 'a', start + d - 1), Copies(n, 'b', start + d);
    BucketOfConcat(view, logic, start, end, a, b, key);
    BucketOfOneTime(view, logic, start, end, a, key, start + d - 1);
    BucketOfOneTime(view, logic, start, end, b, key, start + d);
  }

  lemma SmallBucketIsSilent(view: View, logic: ThresholdLogic, end: int, key: Key, bucket: seq<Event>)
    requires logic.distinctField.None? && |bucket| < logic.minCount
    ensures BucketMatch(view, logic, end, key, bucket).None?
  {
    OrderedProperties(bucket);
  }

  lemma StraddlingIsSilent(view: View, repr: Repr, logic: ThresholdLogic, start: int, end: int)
    requires Duration(logic) > 0 && logic.minCount >= 1 && logic.distinctField.None?
    ensures Firings(view, repr, logic, start, end, Straddling(logic, start, logic.minCount - 1)) == []
  {
    hide BucketMatch, Straddling, Duration;
    var es := Straddling(logic, start, logic.minCount - 1);
    var fs := Firings(view, repr, logic, start, end, es);
    if fs != [] {
      assert fs[0] in fs;
      ThresholdExact(view, repr, logic, start, end, es, fs[0]);
      var k :| BucketMatch(view, logic, end, k, Bucket(view, logic, start, end, es, k)) == Some(fs[0]);
      StraddlingBuckets(view, logic, start, end, logic.minCount - 1, k);
      SmallBucketIsSilent(view, logic, end, k, Bucket(view, logic, start, end, es, k));
    }
  }

  /** The burst bound cannot be lowered: one event less, even within a microsecond, can
      fall half into one window and half into the next and fire nothing. */
  lemma BurstBoundIsTight(view: View, repr: Repr, logic: ThresholdLogic, start: int, end: int)
    requires Duration(logic) > 0 && logic.minCount >= 1 && logic.distinctField.None? && logic.groupBy == []
    requires start + Duration(logic) < end && forall e :: view.hit(e, logic.condition)
    ensures var es := Straddling(logic, start, logic.minCount - 1);
      && |es| == 2 * logic.minCount - 2 && UniqueIds(es)
      && (forall e :: e in es ==> Qualifies(view, logic, start, end, e))
      && (forall e, f :: e in es && f in es ==> f.time - e.time <= 1)
      && Firings(view, repr, logic, start, end, es) == []
  {
    hide Duration, Firings, Copies, UniqueIds;
    var n, d := logic.minCount - 1, Duration(logic);
    StraddlingIds(logic, start, n);
    StraddlingIsSilent(view, repr, logic, start, end);
    CopiesAt(n, 'a', start + d - 1);
    CopiesAt(n, 'b', start + d);
  }

  // ---- One bucket, seen from two runs --------------------------------------

  /** With `b` on the grid of `start`, a time falls in the window from `b` exactly when it
      lies in it. */
  lemma TumbleIs(logic: ThresholdLogic, start: int, b: int, t: int)
    requires Duration(logic) > 0 && start <= b && start <= t && (b - start) % Duration(logic) == 0
    ensures BucketStart(logic, start, t) == b <==> b <= t < b + Duration(logic)
  {
    var d := Duration(logic);
    DivBounds(t - start, d);
    if b <= t < b + d { GridIs(t - start, b - start, d); }
  }

  lemma GridIs(x: nat, y: nat, d: int)
    requires d > 0 && y % d == 0 && y <= x < y + d
    ensures (x / d) * d == y
  {
    var q := y / d;
    assert y == q * d;
    DivBounds(x, d);
    if x / d < q { MulLess(x / d, q, d); } else if q < x / d { MulLess(q, x / d, d); }
  }

  /** The window from `start` to `end` holds the whole bucket of this key. */
  predicate HoldsBucket(logic: ThresholdLogic, start: int, end: int, key: Key)
    requires Duration(logic) > 0
  {
    start <= key.start && key.start + Duration(logic) <= end && (key.start - start) % Duration(logic) == 0
  }

  lemma InHeldBucket(view: View, logic: ThresholdLogic, start: int, end: int, key: Key, e: Event)
    requires Duration(logic) > 0 && HoldsBucket(logic, start, end, key)
    ensures InBucket(view, logic, start, end, key, e) <==>
      && key.start <= e.time < key.start + Duration(logic) && view.hit(e, logic.condition)
      && HasGroup(view, e, logic.groupBy) && GroupOf(view, e, logic.groupBy) == key.group
  {
    if start <= e.time { TumbleIs(logic, start, key.start, e.time); }
    hide BucketStart, Duration;
  }

  lemma {:induction false} CountOfUnique(events: seq<Event>, e: Event)
    requires UniqueIds(events)
    ensures multiset(events)[e] == if e in events then 1 else 0
  {
    UniqueIdsNoTies(events);
    DistinctCount(events, e);
  }

  /** Two windows that hold the same bucket, over events that agree in it, report the same
      for it: their starts lie on one grid. */
  lemma SharedBucket(view: View, logic: ThresholdLogic, key: Key, start1: int, end1: int, events1: seq<Event>,
                     start2: int, end2: int, events2: seq<Event>)
    requires Duration(logic) > 0 && UniqueIds(events1) && UniqueIds(events2)
    requires HoldsBucket(logic, start1, end1, key) && HoldsBucket(logic, start2, end2, key)
    requires forall e: Event :: key.start <= e.time < key.start + Duration(logic) ==> (e in events1 <==> e in events2)
    ensures BucketMatch(view, logic, end1, key, Bucket(view, logic, start1, end1, events1, key))
      == BucketMatch(view, logic, end2, key, Bucket(view, logic, start2, end2, events2, key))
  {
    var x := Bucket(view, logic, start1, end1, events1, key);
    var y := Bucket(view, logic, start2, end2, events2, key);
    BucketDescribe(view, logic, start1, end1, events1, key);
    BucketDescribe(view, logic, start2, end2, events2, key);
    UniqueInBucket(view, logic, start1, end1, events1, key);
    forall e ensures multiset(x)[e] == multiset(y)[e] {
      InHeldBucket(view, logic, start1, end1, key, e);
      InHeldBucket(view, logic, start2, end2, key, e);
      CountOfUnique(events1, e);
      CountOfUnique(events2, e);
    }
    hide Bucket, UniqueIds, InBucket;
    assert multiset(x) == multiset(y);
    OrderedCanonical(x, y);
  }

  // ---- What a firing says --------------------------------------------------

  /** `t` lies in the `n`-th window from `start` on. */
  predicate InTumble(logic: ThresholdLogic, start: int, n: nat, t: int) {
    start + n * (logic.windowSeconds * 1_000_000) <= t < start + (n + 1) * (logic.windowSeconds * 1_000_000)
  }

  /** The event matches in the `n`-th window and has these values in the grouping fields. */
  ghost predicate Counts(view: View, logic: ThresholdLogic, start: int, end: int, n: nat, group: seq<Value>, e: Event) {
    && start <= e.time < end && InTumble(logic, start, n, e.time) && view.hit(e, logic.condition)
    && |group| == |logic.groupBy|
    && forall i | 0 <= i < |group| :: view.get(e, logic.groupBy[i]) == Some(group[i])
  }

  /** The firing reports the events `es`, which are those that count in window `n`, in order. */
  ghost predicate Reports(view: View, logic: ThresholdLogic, start: int, end: int, events: seq<Event>, n: nat,
                          es: seq<Event>, m: ThresholdMatch)
  {
    && (forall e ::
          multiset(es)[e] == if Counts(view, logic, start, end, n, m.group, e) then multiset(events)[e] else 0)
    && (forall i, j :: 0 <= i < j < |es| ==>
          es[i].time < es[j].time || (es[i].time == es[j].time && StrLe(es[i].id, es[j].id)))
    && m.windowStart == start + n * (logic.windowSeconds * 1_000_000)
    && m.windowEnd == Min(m.windowStart + logic.windowSeconds * 1_000_000, end)
    && |m.evidence| == |es| && (forall i :: 0 <= i < |es| ==> m.evidence[i] == es[i].id)
    && m.count == (match logic.distinctField
                   case None => |es|
                   case Some(f) => |set e | e in es && view.get(e, f).Some? :: view.get(e, f).value|)
    && m.count >= logic.minCount
  }

  lemma OnGrid(n: nat, d: int)
    requires d > 0
    ensures (n * d) % d == 0 && n * d >= 0
  {
    var q := (n * d) / d;
    DivBounds(n * d, d);
    if q < n { MulLess(q, n, d); } else if n < q { MulLess(n, q, d); }
  }

  lemma GroupIs(view: View, keys: seq<Field>, group: seq<Value>, e: Event)
    ensures HasGroup(view, e, keys) && GroupOf(view, e, keys) == group <==>
      |group| == |keys| && forall i | 0 <= i < |group| :: view.get(e, keys[i]) == Some(group[i])
  {
    if HasGroup(view, e, keys) {
      var g := GroupOf(view, e, keys);
      assert |g| == |keys| && forall i :: 0 <= i < |keys| ==> view.get(e, keys[i]) == Some(g[i]);
      if |group| == |keys| && forall i | 0 <= i < |group| :: view.get(e, keys[i]) == Some(group[i]) {
        assert g == group;
      }
    }
  }

  /** The bucket of window `n` and this group holds the events that count for it. */
  lemma InBucketExactly(view: View, logic: ThresholdLogic, start: int, end: int, n: nat, group: seq<Value>, e: Event)
    requires Duration(logic) > 0
    ensures InBucket(view, logic, start, end, Key(start + n * Duration(logic), group), e) <==>
      Counts(view, logic, start, end, n, group, e)
  {
    var d := Duration(logic);
    OnGrid(n, d);
    Expand(n, d);
    GroupIs(view, logic.groupBy, group, e);
    if start <= e.time { TumbleIs(logic, start, start + n * d, e.time); }
    hide BucketStart, HasGroup, GroupOf;
  }

  /** Two qualifying events share a bucket exactly when they lie in one window from `start`
      on and agree in every grouping field. */
  lemma SameBucketExactly(view: View, logic: ThresholdLogic, start: int, end: int, e: Event, f: Event)
    requires Duration(logic) > 0 && start <= e.time < end && start <= f.time < end
    requires view.hit(e, logic.condition) && view.hit(f, logic.condition)
    requires forall i :: 0 <= i < |logic.groupBy| ==>
      view.get(e, logic.groupBy[i]).Some? && view.get(f, logic.groupBy[i]).Some?
    ensures (exists key :: InBucket(view, logic, start, end, key, e) && InBucket(view, logic, start, end, key, f)) <==>
      && (exists n: nat :: InTumble(logic, start, n, e.time) && InTumble(logic, start, n, f.time))
      && forall i :: 0 <= i < |logic.groupBy| ==> view.get(e, logic.groupBy[i]) == view.get(f, logic.groupBy[i])
  {
    var d := Duration(logic);
    var group := GroupOf(view, e, logic.groupBy);
    GroupIs(view, logic.groupBy, group, e);
    if key :| InBucket(view, logic, start, end, key, e) && InBucket(view, logic, start, end, key, f) {
      var n := WindowOf(view, logic, start, end, key, e);
      InBucketExactly(view, logic, start, end, n, key.group, e);
      InBucketExactly(view, logic, start, end, n, key.group, f);
    }
    if n: nat :| InTumble(logic, start, n, e.time) && InTumble(logic, start, n, f.time) {
      if forall i :: 0 <= i < |logic.groupBy| ==> view.get(e, logic.groupBy[i]) == view.get(f, logic.groupBy[i]) {
        InBucketExactly(view, logic, start, end, n, group, e);
        InBucketExactly(view, logic, start, end, n, group, f);
        hide InBucket, InTumble, Duration;
        assert Counts(view, logic, start, end, n, group, e) && Counts(view, logic, start, end, n, group, f);
      }
    }
  }

  /** The window of a bucket that holds something. */
  lemma WindowOf(view: View, logic: ThresholdLogic, start: int, end: int, key: Key, e: Event) returns (n: nat)
    requires Duration(logic) > 0 && InBucket(view, logic, start, end, key, e)
    ensures key == Key(start + n * Duration(logic), key.group)
  {
    n := (e.time - start) / Duration(logic);
  }

  lemma OrderedOnce(a: seq<Event>, b: seq<Event>)
    requires UniqueIds(a) && multiset(a) == multiset(b) && SortedBy(EventLe, b)
    ensures Ordered(a) == b
  {
    OrderedProperties(a);
    EventLePreorder();
    UniqueIdsNoTies(Ordered(a));
    SortedUnique(EventLe, Ordered(a), b);
  }

  lemma BucketCounts(view: View, logic: ThresholdLogic, start: int, end: int, events: seq<Event>, n: nat,
                     group: seq<Value>)
    requires Duration(logic) > 0
    ensures var bucket := Bucket(view, logic, start, end, events, Key(start + n * Duration(logic), group));
      forall e ::
        multiset(bucket)[e] == (if Counts(view, logic, start, end, n, group, e) then multiset(events)[e] else 0)
  {
    BucketDescribe(view, logic, start, end, events, Key(start + n * Duration(logic), group));
    forall e ensures InBucket(view, logic, start, end, Key(start + n * Duration(logic), group), e) <==>
      Counts(view, logic, start, end, n, group, e)
    {
      InBucketExactly(view, logic, start, end, n, group, e);
    }
  }

  lemma ReportOfBucket(view: View, logic: ThresholdLogic, start: int, end: int, events: seq<Event>, n: nat,
                       m: ThresholdMatch, bucket: seq<Event>)
    requires Duration(logic) > 0
    requires forall e ::
      multiset(bucket)[e] == (if Counts(view, logic, start, end, n, m.group, e) then multiset(events)[e] else 0)
    requires BucketMatch(view, logic, end, Key(start + n * Duration(logic), m.group), bucket) == Some(m)
    ensures Reports(view, logic, start, end, events, n, Ordered(bucket), m)
  {
    OrderedProperties(bucket);
    hide Ordered, Counts, StrLe;
    assert multiset(Ordered(bucket)) == multiset(bucket);
  }

  lemma BucketOfReport(view: View, logic: ThresholdLogic, start: int, end: int, events: seq<Event>, n: nat,
                       m: ThresholdMatch, bucket: seq<Event>, es: seq<Event>)
    requires Duration(logic) > 0 && UniqueIds(bucket) && Reports(view, logic, start, end, events, n, es, m)
    requires forall e ::
      multiset(bucket)[e] == (if Counts(view, logic, start, end, n, m.group, e) then multiset(events)[e] else 0)
    ensures BucketMatch(view, logic, end, Key(start + n * Duration(logic), m.group), bucket) == Some(m)
  {
    hide Ordered, Counts, StrLe, UniqueIds;
    assert multiset(es) == multiset(bucket);
    OrderedOnce(bucket, es);
    assert Ids(es) == m.evidence;
  }

  /** A bucket's report is that of the events that count for it. */
  lemma BucketReports(view: View, logic: ThresholdLogic, start: int, end: int, events: seq<Event>, n: nat,
                      m: ThresholdMatch)
    requires Duration(logic) > 0 && UniqueIds(events)
    ensures var key := Key(start + n * Duration(logic), m.group);
      BucketMatch(view, logic, end, key, Bucket(view, logic, start, end, events, key)) == Some(m) <==>
        exists es :: Reports(view, logic, start, end, events, n, es, m)
  {
    var key := Key(start + n * Duration(logic), m.group);
    var bucket := Bucket(view, logic, start, end, events, key);
    BucketCounts(view, logic, start, end, events, n, m.group);
    UniqueInBucket(view, logic, start, end, events, key);
    hide Bucket, Counts, UniqueIds, BucketMatch, Reports;
    if BucketMatch(view, logic, end, key, bucket) == Some(m) {
      ReportOfBucket(view, logic, start, end, events, n, m, bucket);
    }
    if es :| Reports(view, logic, start, end, events, n, es, m) {
      BucketOfReport(view, logic, start, end, events, n, m, bucket, es);
    }
  }

  /** Exactly what is reported: for each window from `start` on and each combination of
      values of the grouping fields, the events of the run window that match there, in
      order of time and id, if they (or their values of the counted field) are enough. */
  lemma FiringsExactly(view: View, repr: Repr, logic: ThresholdLogic, start: int, end: int, events: seq<Event>,
                       m: ThresholdMatch)
    requires Duration(logic) > 0 && logic.minCount >= 1 && UniqueIds(events)
    ensures m in Firings(view, repr, logic, start, end, events) <==>
      exists n: nat, es :: Reports(view, logic, start, end, events, n, es, m)
  {
    hide Firings, BucketMatch, Bucket, Reports, UniqueIds;
    ThresholdExact(view, repr, logic, start, end, events, m);
    if m in Firings(view, repr, logic, start, end, events) {
      var k :| BucketMatch(view, logic, end, k, Bucket(view, logic, start, end, events, k)) == Some(m);
      MatchNamesKey(view, logic, end, k, Bucket(view, logic, start, end, events, k));
      EmptyBucketIsSilent(view, logic, end, k);
      var n := BucketWindow(view, logic, start, end, events, k);
      BucketReports(view, logic, start, end, events, n, m);
    }
    if n: nat, es :| Reports(view, logic, start, end, events, n, es, m) {
      BucketReports(view, logic, start, end, events, n, m);
    }
  }

  lemma BucketWindow(view: View, logic: ThresholdLogic, start: int, end: int, events: seq<Event>, key: Key)
    returns (n: nat)
    requires Duration(logic) > 0 && Bucket(view, logic, start, end, events, key) != []
    ensures key == Key(start + n * Duration(logic), key.group)
  {
    var bucket := Bucket(view, logic, start, end, events, key);
    BucketDescribe(view, logic, start, end, events, key);
    assert bucket[0] in bucket;
    n := WindowOf(view, logic, start, end, key, bucket[0]);
  }

  lemma MatchNamesKey(view: View, logic: ThresholdLogic, end: int, key: Key, bucket: seq<Event>)
    requires BucketMatch(view, logic, end, key, bucket).Some?
    ensures var m := BucketMatch(view, logic, end, key, bucket).value; key == Key(m.windowStart, m.group)
  { }

  lemma {:induction false} CollectAscends(view: View, repr: Repr, logic: ThresholdLogic, start: int, end: int,
                                          events: seq<Event>, keys: seq<Key>)
    requires Duration(logic) > 0 && SortedBy(KeyOrder(repr), keys) && Distinct(keys)
    ensures var ms := Collect(view, logic, start, end, events, keys);
      && (forall m :: m in ms ==> Key(m.windowStart, m.group) in keys)
      && forall i, j :: 0 <= i < j < |ms| ==> Precedes(repr, ms[i], ms[j])
  {
    if keys != [] {
      var n := |keys| - 1;
      CollectAscends(view, repr, logic, start, end, events, keys[..n]);
      var bucket := Bucket(view, logic, start, end, events, keys[n]);
      hide Bucket, BucketMatch, StrLe;
      if BucketMatch(view, logic, end, keys[n], bucket).Some? { MatchNamesKey(view, logic, end, keys[n], bucket); }
      forall k | k in keys[..n] ensures KeyOrder(repr)(k, keys[n]) && k != keys[n] {
        var i :| 0 <= i < n && keys[i] == k;
      }
    }
  }

  /** Earlier windows come first, and within a window the groups by their `repr`. */
  ghost predicate Precedes(repr: Repr, m: ThresholdMatch, k: ThresholdMatch) {
    || m.windowStart < k.windowStart
    || (m.windowStart == k.windowStart && m.group != k.group && StrLe(repr(m.group), repr(k.group)))
  }

  /** The reports come in that order, one for each window and group. */
  lemma FiringsAscend(view: View, repr: Repr, logic: ThresholdLogic, start: int, end: int, events: seq<Event>,
                      i: nat, j: nat)
    requires Duration(logic) > 0 && i < j < |Firings(view, repr, logic, start, end, events)|
    ensures var ms := Firings(view, repr, logic, start, end, events); Precedes(repr, ms[i], ms[j])
  {
    hide Keys, KeyOrder, Collect, Sort, Bucket, InBucket, Precedes;
    SortedKeys(view, repr, logic, start, end, events);
    var keys := Sort(KeyOrder(repr), Keys(view, logic, start, end, events));
    CollectAscends(view, repr, logic, start, end, events, keys);
    assert Firings(view, repr, logic, start, end, events) == Collect(view, logic, start, end, events, keys);
  }

  lemma SortedKeys(view: View, repr: Repr, logic: ThresholdLogic, start: int, end: int, events: seq<Event>)
    requires Duration(logic) > 0
    ensures var keys := Sort(KeyOrder(repr), Keys(view, logic, start, end, events));
      SortedBy(KeyOrder(repr), keys) && Distinct(keys)
  {
    hide Keys, KeyOrder, Bucket, InBucket, Sort, Distinct, SortedBy;
    var keys, le := Keys(view, logic, start, end, events), KeyOrder(repr);
    KeyOrderPreorder(repr);
    SortIsSorted(le, keys);
    SortIsPermutation(le, keys);
    KeysDescribe(view, logic, start, end, events, Key(0, []));
    DistinctByMultiset(keys, Sort(le, keys));
  }

  /** Without grouping, events that all match within the first window are one bucket. */
  lemma {:induction false} FirstBucketIsAll(view: View, logic: ThresholdLogic, start: int, end: int, events: seq<Event>)
    requires Duration(logic) > 0 && logic.groupBy == []
    requires forall e :: e in events ==>
      start <= e.time < end && e.time < start + Duration(logic) && view.hit(e, logic.condition)
    ensures Bucket(view, logic, start, end, events, Key(start, [])) == events
  {
    if events != [] {
      var n := |events| - 1;
      FirstBucketIsAll(view, logic, start, end, events[..n]);
      TumbleIs(logic, start, start, events[n].time);
      hide BucketStart, Duration;
      assert GroupOf(view, events[n], []) == [];
      assert events[n] in events && events == events[..n] + [events[n]];
    }
  }

  /** So they are reported together, if there are enough of them. */
  lemma FirstBucketFires(view: View, repr: Repr, logic: ThresholdLogic, start: int, end: int, events: seq<Event>)
    returns (m: ThresholdMatch)
    requires Duration(logic) > 0 && logic.groupBy == [] && logic.distinctField.None? && 1 <= logic.minCount <= |events|
    requires forall e :: e in events ==>
      start <= e.time < end && e.time < start + Duration(logic) && view.hit(e, logic.condition)
    ensures m in Firings(view, repr, logic, start, end, events)
    ensures m.group == [] && m.evidence == Ids(Ordered(events))
  {
    FirstBucketIsAll(view, logic, start, end, events);
    OrderedProperties(events);
    SameMembers(Ordered(events), events);
    var key := Key(start, []);
    m := BucketMatch(view, logic, end, key, events).value;
    hide Firings, Bucket, Ordered;
    ThresholdExact(view, repr, logic, start, end, events, m);
  }

  lemma {:induction false} BucketSize(view: View, logic: ThresholdLogic, start: int, end: int, events: seq<Event>,
                                      key: Key)
    requires Duration(logic) > 0
    ensures |Bucket(view, logic, start, end, events, key)| <= |events|
  {
    if events != [] { BucketSize(view, logic, start, end, events[..|events| - 1], key); }
  }

  /** A report never lists more than the events that were looked at. */
  lemma EvidenceSize(view: View, repr: Repr, logic: ThresholdLogic, start: int, end: int, events: seq<Event>,
                     m: ThresholdMatch)
    requires Duration(logic) > 0 && logic.minCount >= 1 && m in Firings(view, repr, logic, start, end, events)
    ensures |m.evidence| <= |events|
  {
    hide Firings, Bucket, Ordered;
    ThresholdExact(view, repr, logic, start, end, events, m);
    var k :| BucketMatch(view, logic, end, k, Bucket(view, logic, start, end, events, k)) == Some(m);
    var bucket := Bucket(view, logic, start, end, events, k);
    BucketSize(view, logic, start, end, events, k);
    OrderedProperties(bucket);
    SameMembers(Ordered(bucket), bucket);
  }
}
