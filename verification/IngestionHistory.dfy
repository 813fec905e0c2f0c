/** Ingestion over whole histories: what is stored after any interleaving of successful,
    failed and dry runs, and when a stored offset may be carried to another window. */
module IngestionHistory {
  import opened Basics
  import opened Ingestion

  datatype Op = Op(request: Request, dryRun: bool, weather: Weather)

  ghost function RunOps(cfg: Config, db: Db, ops: seq<Op>): Db {
    if ops == [] then db
    else
      var op := ops[|ops| - 1];
      RunOnce(cfg, RunOps(cfg, db, ops[..|ops| - 1]), op.request, op.dryRun, op.weather).0
  }

  const EMPTY := Db([], None, [])

  // ---- Records from a start time on ----------------------------------------

  ghost predicate SortedRecords(rs: seq<SourceRecord>) {
    forall i, j :: 0 <= i < j < |rs| ==> RecordLe(rs[i], rs[j])
  }

  lemma RecordLePreorder()
    ensures TotalPreorder(RecordLe)
  {
    forall x: SourceRecord, y: SourceRecord ensures RecordLe(x, y) || RecordLe(y, x) {
      StrLeTotal(x.recordId, y.recordId);
    }
    forall x: SourceRecord, y: SourceRecord, z: SourceRecord | RecordLe(x, y) && RecordLe(y, z) ensures RecordLe(x, z) {
      if x.time == y.time == z.time { StrLeTransitive(x.recordId, y.recordId, z.recordId); }
    }
  }

  /** The adapter's stream holds exactly the given records, in time and id order. */
  lemma FixtureIsSorted(records: seq<SourceRecord>)
    ensures SortedRecords(FixtureRecords(records))
    ensures multiset(FixtureRecords(records)) == multiset(records)
  {
    RecordLePreorder();
    SortIsSorted(RecordLe, records);
    SortIsPermutation(RecordLe, records);
  }

  /** The stream ascends in time and, at one time, in the text of the record ids; records that
      tie stay in the given order. */
  lemma FixtureByTimeThenId(records: seq<SourceRecord>, i: nat, j: nat, x: SourceRecord)
    requires i < j < |FixtureRecords(records)|
    ensures var a, b := FixtureRecords(records)[i], FixtureRecords(records)[j];
      a.time < b.time || (a.time == b.time && StrLe(a.recordId, b.recordId))
    ensures Ties(RecordLe, x, FixtureRecords(records)) == Ties(RecordLe, x, records)
  {
    FixtureIsSorted(records);
    RecordLePreorder();
    SortIsStable(RecordLe, x, records);
  }

  function Least(a: int, b: int): int { if a < b then a else b }

  /** Position of the first record at or after `t`. */
  ghost function FirstAt(rs: seq<SourceRecord>, t: int): nat {
    if rs == [] then 0 else (if rs[0].time < t then 1 else 0) + FirstAt(rs[1..], t)
  }

  lemma {:induction false} FirstAtSplits(rs: seq<SourceRecord>, t: int)
    requires SortedRecords(rs)
    ensures FirstAt(rs, t) <= |rs|
    ensures forall i :: 0 <= i < |rs| ==> (rs[i].time < t <==> i < FirstAt(rs, t))
  {
    if rs != [] {
      FirstAtSplits(rs[1..], t);
      forall i | 0 < i < |rs| ensures rs[0].time <= rs[i].time { assert RecordLe(rs[0], rs[i]); }
      forall i | 0 <= i < |rs| ensures rs[i].time < t <==> i < FirstAt(rs, t) {
        if i > 0 { assert rs[i] == rs[1..][i - 1]; }
        if rs[0].time >= t && |rs| > 1 { assert rs[1..][0].time >= t; }
      }
    }
  }

  ghost function From(rs: seq<SourceRecord>, start: int): seq<SourceRecord>
    requires SortedRecords(rs)
  {
    FirstAtSplits(rs, start);
    rs[FirstAt(rs, start)..]
  }

  lemma {:induction false} FirstAtMonotone(rs: seq<SourceRecord>, t: int, u: int)
    requires SortedRecords(rs) && t <= u
    ensures FirstAt(rs, t) <= FirstAt(rs, u) <= |rs|
  {
    FirstAtSplits(rs, t);
    FirstAtSplits(rs, u);
    if FirstAt(rs, u) < |rs| { assert rs[FirstAt(rs, u)].time >= u; }
  }

  /** A window's records are the contiguous block between its two bounds. */
  lemma {:induction false} MatchingIsBlock(rs: seq<SourceRecord>, start: int, end: int)
    requires SortedRecords(rs) && start <= end
    ensures FirstAt(rs, start) <= FirstAt(rs, end) <= |rs|
    ensures Matching(rs, start, end) == rs[FirstAt(rs, start)..FirstAt(rs, end)]
  {
    FirstAtMonotone(rs, start, end);
    if rs != [] {
      var tail := rs[1..];
      MatchingIsBlock(tail, start, end);
      FirstAtSplits(rs, start);
      FirstAtSplits(rs, end);
      FirstAtSplits(tail, start);
      FirstAtSplits(tail, end);
      var a, b, a1, b1 := FirstAt(rs, start), FirstAt(rs, end), FirstAt(tail, start), FirstAt(tail, end);
      if a > 0 {
        assert rs[a..b] == tail[a1..b1];
      } else {
        if |tail| > 0 { assert rs[1] == tail[0] && RecordLe(rs[0], rs[1]); }
        if b > 0 { assert rs[0..b] == [rs[0]] + tail[0..b1]; }
      }
    }
  }

  /** A page is the block of records that follows the first `offset` ones. */
  lemma PageIsNextBlock(rs: seq<SourceRecord>, q: Request, checkpoint: Option<int>)
    requires SortedRecords(rs) && RequestOk(q)
    ensures var all := From(rs, q.start); var o := CheckpointOffset(checkpoint);
      var page := FetchRecords(rs, q.start, q.end, q.limit, checkpoint);
      && page.nextOffset == o + |page.records|
      && (o <= |all| ==> page.nextOffset <= |all| && page.records == all[o..page.nextOffset])
      && (o > |all| ==> page.records == [])
  {
    MatchingIsBlock(rs, q.start, q.end);
    var all, m, o := From(rs, q.start), Matching(rs, q.start, q.end), CheckpointOffset(checkpoint);
    assert m == all[..|m|];
    var page := Slice(m, o, q.limit);
    if o < |m| { assert page == all[o..o + |page|]; }
    else if o <= |all| { assert page == all[o..o]; }
  }

  /** A page is full unless it is the last one of its window. */
  lemma {:induction false} PageSize(rs: seq<SourceRecord>, q: Request, checkpoint: Option<int>)
    requires SortedRecords(rs) && RequestOk(q)
    ensures var n := |Matching(rs, q.start, q.end)|; var o := CheckpointOffset(checkpoint);
      o <= n ==> |FetchRecords(rs, q.start, q.end, q.limit, checkpoint).records| == Least(n - o, q.limit)
    ensures |Matching(rs, q.start, q.end)| <= |From(rs, q.start)|
  {
    MatchingIsBlock(rs, q.start, q.end);
  }

  /** The page order check of the adapter contract never refuses a fixture page. */
  lemma PageIsOrdered(rs: seq<SourceRecord>, q: Request, checkpoint: Option<int>)
    requires SortedRecords(rs) && RequestOk(q)
    ensures SortedRecords(FetchRecords(rs, q.start, q.end, q.limit, checkpoint).records)
  {
    PageIsNextBlock(rs, q, checkpoint);
    FirstAtSplits(rs, q.start);
    var page := FetchRecords(rs, q.start, q.end, q.limit, checkpoint);
    var o, a := CheckpointOffset(checkpoint), FirstAt(rs, q.start);
    forall i, j | 0 <= i < j < |page.records| ensures RecordLe(page.records[i], page.records[j]) {
      assert page.records[i] == rs[a + o + i] && page.records[j] == rs[a + o + j];
    }
  }

  // ---- Run accounting ------------------------------------------------------

  /** Every finished run accounts for every fetched record, and a real run's normalized
      records are either stored or counted as duplicates. */
  lemma RunConservation(cfg: Config, db: Db, q: Request, dryRun: bool, w: Weather)
    ensures var (after, r) := RunOnce(cfg, db, q, dryRun, w);
      r.Ok? ==>
        && r.row.fetched == r.row.normalized + r.row.failed
        && r.row.persisted == |after.events| - |db.events|
        && (!dryRun ==> r.row.normalized == r.row.persisted + r.row.duplicate)
        && (!dryRun ==> (r.row.failed > 0 <==> r.row.status == Partial))
        && (dryRun ==> after.events == db.events && after.checkpoint == db.checkpoint)
  {
    var page := FetchRecords(cfg.records, q.start, q.end, q.limit, EffectiveCheckpoint(db, q));
    PersistSize(db.events, Normalizable(cfg.normalizer, page.records));
  }

  function Sum(ns: seq<nat>): nat { if ns == [] then 0 else ns[0] + Sum(ns[1..]) }

  lemma {:induction false} SumAppend(ns: seq<nat>, n: nat)
    ensures Sum(ns + [n]) == Sum(ns) + n
  {
    if ns == [] {
      assert [n][1..] == [];
    } else {
      SumAppend(ns[1..], n);
      assert (ns + [n])[1..] == ns[1..] + [n];
    }
  }

  /** Only normalized records warn, each as often as its normalization does. */
  lemma {:induction false} WarningsAdd(n: Normalizer, rs: seq<SourceRecord>)
    ensures var ns := Normalizable(n, rs);
      Warnings(n, rs) == Sum(seq(|ns|, i requires 0 <= i < |ns| => n.warnings(ns[i])))
  {
    if rs != [] {
      var k := |rs| - 1;
      WarningsAdd(n, rs[..k]);
      var before, after := Normalizable(n, rs[..k]), Normalizable(n, rs);
      var ws := seq(|before|, i requires 0 <= i < |before| => n.warnings(before[i]));
      if n.accepts(rs[k]) {
        SumAppend(ws, n.warnings(rs[k]));
        assert seq(|after|, i requires 0 <= i < |after| => n.warnings(after[i])) == ws + [n.warnings(rs[k])];
      }
    }
  }

  /** Where a run starts to read: at the offset that the request brings, else at the stored one. */
  function StartsAt(db: Db, q: Request): Option<int> { if q.checkpoint.Some? then q.checkpoint else db.checkpoint }

  /** What a finished run records and leaves: it reads on from its start offset, a negative
      one counting as zero, and a real run stores where it stopped. */
  lemma FinishedRunSays(cfg: Config, db: Db, q: Request, dryRun: bool, w: Weather)
    requires RunOnce(cfg, db, q, dryRun, w).1.Ok?
    ensures var (after, r) := RunOnce(cfg, db, q, dryRun, w); var from := StartsAt(db, q);
      var records := FetchRecords(cfg.records, q.start, q.end, q.limit, from).records;
      && r.row.before == from && r.row.fetched == |records| && r.advanced == !dryRun
      && r.row.after == Some((if from.Some? && from.value > 0 then from.value else 0) + |records|)
      && r.row.normalized == |Normalizable(cfg.normalizer, records)|
      && r.row.warnings == Warnings(cfg.normalizer, records)
      && r.row.status == (if dryRun then DryRun else if r.row.failed == 0 then Succeeded else Partial)
      && after.checkpoint == (if dryRun then db.checkpoint else r.row.after)
      && after.runs == db.runs + [r.row]
      && after.events == (if dryRun then db.events else Persist(db.events, Normalizable(cfg.normalizer, records)))
  { }

  /** A run fails exactly when no attempt delivers, the commit breaks, or (a real run) its rows
      break the constraints of their table; it then leaves at most a record of the failure. */
  lemma FailedRunSays(cfg: Config, db: Db, q: Request, dryRun: bool, w: Weather)
    ensures var (after, r) := RunOnce(cfg, db, q, dryRun, w);
      var records := FetchRecords(cfg.records, q.start, q.end, q.limit, StartsAt(db, q)).records;
      && (r.Error? <==>
            || !(exists k :: 0 <= k < cfg.retries && AttemptAt(w, k).Delivers?
                   && forall j :: 0 <= j < k ==> AttemptAt(w, j).Transient?)
            || w.commitFails
            || (!dryRun && !Allowed(cfg, Persist(db.events, Normalizable(cfg.normalizer, records)))))
      && (r.Error? ==> after.events == db.events && after.checkpoint == db.checkpoint)
      && (r.Error? && w.recordFails ==> after.runs == db.runs)
      && (r.Error? && !w.recordFails ==>
            after.runs == db.runs + [RunRow(FailedRun, 0, 0, 0, 0, 0, 0, StartsAt(db, q), None)])
  {
    DeliversExactly(w, 0, cfg.retries);
    hide FetchDelivers, Allowed, Persist, Normalizable, FetchRecords;
  }

  /** The row is that of the first record with its key. */
  ghost predicate FirstOfKey(row: EventRow, rs: seq<SourceRecord>) {
    exists j :: 0 <= j < |rs| && row == RowOf(rs[j]) && forall l :: 0 <= l < j ==> DedupKey(rs[l]) != DedupKey(rs[j])
  }

  lemma FirstOfKeyGrows(row: EventRow, rs: seq<SourceRecord>, r: SourceRecord)
    ensures FirstOfKey(row, rs) ==> FirstOfKey(row, rs + [r])
    ensures row == RowOf(r) && DedupKey(r) !in KeysIn(rs) ==> FirstOfKey(row, rs + [r])
  {
    hide DedupKey, RowOf;
    var more := rs + [r];
    assert more[|rs|] == r && forall i :: 0 <= i < |rs| ==> more[i] == rs[i];
    assert forall i :: 0 <= i < |rs| ==> DedupKey(rs[i]) in KeysIn(rs);
    if FirstOfKey(row, rs) {
      var j :| 0 <= j < |rs| && row == RowOf(rs[j]) && forall l :: 0 <= l < j ==> DedupKey(rs[l]) != DedupKey(rs[j]);
      assert row == RowOf(more[j]);
    }
  }

  /** Storing records adds, in order, the row of the first record of each key that is new. */
  lemma {:induction false} PersistsFirstOfKey(events: seq<EventRow>, rs: seq<SourceRecord>)
    ensures var rows := Persist(events, rs);
      && |events| <= |rows| && rows[..|events|] == events
      && (forall i :: |events| <= i < |rows| ==>
            rows[i].dedupKey !in KeySet(events) && FirstOfKey(rows[i], rs))
      && KeySet(rows) == KeySet(events) + KeysIn(rs)
  {
    PersistSize(events, rs);
    PersistKeys(events, rs);
    if rs != [] {
      var n := |rs| - 1;
      var before, rows := Persist(events, rs[..n]), Persist(events, rs);
      PersistsFirstOfKey(events, rs[..n]);
      assert rows == if DedupKey(rs[n]) in KeySet(before) then before else before + [RowOf(rs[n])];
      assert RowOf(rs[n]).dedupKey == DedupKey(rs[n]);
      hide DedupKey, KeySet, Persist, FirstOfKey, KeysIn, RowOf;
      assert rs[..n] + [rs[n]] == rs;
      forall i | |events| <= i < |rows| ensures rows[i].dedupKey !in KeySet(events) && FirstOfKey(rows[i], rs) {
        FirstOfKeyGrows(rows[i], rs[..n], rs[n]);
      }
    }
  }

  /** The keys in full: the event id leaves the index out, and no index reads as a dash. */
  lemma KeysSpelled(t: int)
    ensures RowOf(SourceRecord("p", "s", "r", Some("i"), t)).dedupKey == "p:s:i:r"
    ensures RowOf(SourceRecord("p", "s", "r", Some("i"), t)).eventId == "p:s:r"
    ensures RowOf(SourceRecord("p", "s", "r", None, t)).dedupKey == "p:s:-:r"
    ensures RowOf(SourceRecord("p", "s", "r", Some(""), t)).dedupKey == "p:s:-:r"
  { }

  lemma {:induction false} SeenMeansSkipped(events: seq<EventRow>, rs: seq<SourceRecord>)
    ensures CountSeen(KeySet(events), rs) == |rs| - (|Persist(events, rs)| - |events|)
  {
    if rs != [] {
      var k := |rs| - 1;
      SeenMeansSkipped(events, rs[..k]);
      PersistKeys(events, rs[..k]);
    }
  }

  /** A dry run reports the duplicate count that the real run from the same rows would. */
  lemma DryRunFidelity(cfg: Config, db: Db, q: Request, w: Weather, w2: Weather)
    requires RunOnce(cfg, db, q, true, w).1.Ok? && RunOnce(cfg, db, q, false, w2).1.Ok?
    ensures var dry, real_ := RunOnce(cfg, db, q, true, w).1.row, RunOnce(cfg, db, q, false, w2).1.row;
      && dry.duplicate == real_.duplicate && dry.fetched == real_.fetched && dry.normalized == real_.normalized
      && dry.failed == real_.failed && dry.warnings == real_.warnings && dry.after == real_.after
  {
    var page := FetchRecords(cfg.records, q.start, q.end, q.limit, EffectiveCheckpoint(db, q));
    SeenMeansSkipped(db.events, Normalizable(cfg.normalizer, page.records));
  }

  // ---- Exactly once --------------------------------------------------------

  ghost predicate DistinctKeys(rs: seq<SourceRecord>) {
    forall i, j :: 0 <= i < j < |rs| ==> DedupKey(rs[i]) != DedupKey(rs[j])
  }

  ghost predicate DistinctEventIds(rs: seq<SourceRecord>) {
    forall i, j :: 0 <= i < j < |rs| ==> EventId(rs[i]) != EventId(rs[j])
  }

  function RowsFor(rs: seq<SourceRecord>): seq<EventRow> {
    seq(|rs|, i requires 0 <= i < |rs| => RowOf(rs[i]))
  }

  lemma LastIsFresh(events: seq<EventRow>, rs: seq<SourceRecord>)
    requires rs != [] && DistinctKeys(rs) && DedupKey(rs[|rs| - 1]) !in KeySet(events)
    ensures DedupKey(rs[|rs| - 1]) !in KeySet(Persist(events, rs[..|rs| - 1]))
  {
    hide DedupKey, KeySet;
    PersistKeys(events, rs[..|rs| - 1]);
  }

  lemma {:induction false} PersistFresh(events: seq<EventRow>, rs: seq<SourceRecord>)
    requires DistinctKeys(rs) && forall i :: 0 <= i < |rs| ==> DedupKey(rs[i]) !in KeySet(events)
    ensures Persist(events, rs) == events + RowsFor(rs)
  {
    hide DedupKey, RowOf;
    if rs != [] {
      var k := |rs| - 1;
      PersistFresh(events, rs[..k]);
      LastIsFresh(events, rs);
      assert RowsFor(rs) == RowsFor(rs[..k]) + [RowOf(rs[k])];
      hide RowsFor, KeySet;
    } else {
      assert RowsFor(rs) == [];
    }
  }

  lemma {:induction false} NormalizableConcat(n: Normalizer, a: seq<SourceRecord>, b: seq<SourceRecord>)
    ensures Normalizable(n, a + b) == Normalizable(n, a) + Normalizable(n, b)
  {
    if b == [] {
      assert a + b == a;
    } else {
      var k := |b| - 1;
      NormalizableConcat(n, a, b[..k]);
      assert (a + b)[..|a + b| - 1] == a + b[..k];
    }
  }

  lemma {:induction false} NormalizableKeeps(n: Normalizer, rs: seq<SourceRecord>)
    ensures forall r :: r in Normalizable(n, rs) <==> r in rs && n.accepts(r)
    ensures DistinctKeys(rs) ==> DistinctKeys(Normalizable(n, rs))
  {
    hide DedupKey;
    if rs != [] {
      var k := |rs| - 1;
      NormalizableKeeps(n, rs[..k]);
      assert rs == rs[..k] + [rs[k]];
      var before := Normalizable(n, rs[..k]);
      forall i | 0 <= i < |before|
        ensures DistinctKeys(rs) ==> DedupKey(before[i]) != DedupKey(rs[k])
      {
        assert before[i] in rs[..k];
        var j :| 0 <= j < k && rs[j] == before[i];
      }
    }
  }

  /** The stored rows are, in order, the rows of the normalizable records that precede the
      stored offset in the stream of records from `start` on. */
  ghost predicate Synced(cfg: Config, start: int, db: Db)
    requires SortedRecords(cfg.records)
  {
    var all, o := From(cfg.records, start), CheckpointOffset(db.checkpoint);
    o <= |all| && db.events == RowsFor(Normalizable(cfg.normalizer, all[..o]))
  }

  ghost predicate SourceOk(cfg: Config) { SortedRecords(cfg.records) && DistinctKeys(cfg.records) }

  lemma FromKeepsDistinct(cfg: Config, start: int)
    requires SourceOk(cfg)
    ensures DistinctKeys(From(cfg.records, start))
  {
    FirstAtSplits(cfg.records, start);
    var a, all := FirstAt(cfg.records, start), From(cfg.records, start);
    forall i, j | 0 <= i < j < |all| ensures DedupKey(all[i]) != DedupKey(all[j]) {
      assert all[i] == cfg.records[a + i] && all[j] == cfg.records[a + j];
    }
  }

  lemma TailIsFresh(done: seq<SourceRecord>, block: seq<SourceRecord>)
    requires DistinctKeys(done + block)
    ensures DistinctKeys(block) && forall i :: 0 <= i < |block| ==> DedupKey(block[i]) !in KeySet(RowsFor(done))
  {
    var both := done + block;
    forall i, j | 0 <= i < j < |block| ensures DedupKey(block[i]) != DedupKey(block[j]) {
      assert both[|done| + i] == block[i] && both[|done| + j] == block[j];
    }
    forall i | 0 <= i < |block| ensures DedupKey(block[i]) !in KeySet(RowsFor(done)) {
      forall j | 0 <= j < |done| ensures RowsFor(done)[j].dedupKey != DedupKey(block[i]) {
        assert both[j] == done[j] && both[|done| + i] == block[i];
      }
    }
  }

  /** These records can all be rows of the table together. */
  ghost predicate Takes(cfg: Config, rs: seq<SourceRecord>) {
    DistinctEventIds(rs) && forall i :: 0 <= i < |rs| ==> cfg.fits(rs[i])
  }

  /** The table allows the rows exactly when no two records share an id and each fits. */
  lemma RowsAreAllowedExactly(cfg: Config, rs: seq<SourceRecord>)
    ensures Allowed(cfg, RowsFor(rs)) <==> Takes(cfg, rs)
  {
    hide EventId, DedupKey;
    forall i | 0 <= i < |rs| ensures RowsFor(rs)[i].eventId == EventId(rs[i]) && RowsFor(rs)[i].record == rs[i] { }
  }

  lemma RowsForConcat(a: seq<SourceRecord>, b: seq<SourceRecord>)
    ensures RowsFor(a + b) == RowsFor(a) + RowsFor(b)
  { }

  lemma PrefixStaysDistinct(all: seq<SourceRecord>, p: nat)
    requires DistinctKeys(all) && p <= |all|
    ensures DistinctKeys(all[..p])
  {
    hide DedupKey;
  }

  /** Persisting the next block extends the stored rows by exactly its normalizable records. */
  lemma {:induction false} NextBlockPersists(cfg: Config, all: seq<SourceRecord>, o: nat, p: nat)
    requires DistinctKeys(all) && o <= p <= |all|
    ensures var n := cfg.normalizer;
      && Persist(RowsFor(Normalizable(n, all[..o])), Normalizable(n, all[o..p])) == RowsFor(Normalizable(n, all[..p]))
      && (Allowed(cfg, RowsFor(Normalizable(n, all[..p]))) <==> Takes(cfg, Normalizable(n, all[..p])))
  {
    var n := cfg.normalizer;
    var done, block := Normalizable(n, all[..o]), Normalizable(n, all[o..p]);
    hide DistinctKeys, Takes, Normalizable, Persist, Allowed, DedupKey, KeySet, RowsFor, RowOf;
    assert all[..p] == all[..o] + all[o..p];
    NormalizableConcat(n, all[..o], all[o..p]);
    PrefixStaysDistinct(all, p);
    NormalizableKeeps(n, all[..p]);
    TailIsFresh(done, block);
    PersistFresh(RowsFor(done), block);
    RowsForConcat(done, block);
    RowsAreAllowedExactly(cfg, done + block);
  }

  /** The normalizable ones of the first `o` records can all be stored. */
  ghost predicate Storable(cfg: Config, start: int, o: nat)
    requires SortedRecords(cfg.records)
  {
    var all := From(cfg.records, start);
    o <= |all| && Takes(cfg, Normalizable(cfg.normalizer, all[..o]))
  }

  /** One run without an explicit checkpoint keeps the stored rows in step with the offset.
      A real one succeeds exactly when the source delivers, the database commits, and the
      normalizable records up to the end of its page can all be stored: no two share an
      `event_id`, and each fits its columns. */
  lemma {:induction false} RunKeepsSynced(cfg: Config, db: Db, q: Request, dryRun: bool, w: Weather)
    requires SourceOk(cfg) && RequestOk(q) && q.checkpoint.None? && Synced(cfg, q.start, db)
    ensures Synced(cfg, q.start, RunOnce(cfg, db, q, dryRun, w).0)
    ensures var next := FetchRecords(cfg.records, q.start, q.end, q.limit, db.checkpoint).nextOffset;
      var (after, r) := RunOnce(cfg, db, q, dryRun, w);
      && (r.Ok? <==> FetchDelivers(w, 0, cfg.retries) && !w.commitFails && (dryRun || Storable(cfg, q.start, next)))
      && (r.Ok? && !dryRun ==> after.checkpoint == Some(next))
      && (!r.Ok? || dryRun ==> after.checkpoint == db.checkpoint && after.events == db.events)
  {
    PageIsNextBlock(cfg.records, q, db.checkpoint);
    FromKeepsDistinct(cfg, q.start);
    var page := FetchRecords(cfg.records, q.start, q.end, q.limit, db.checkpoint);
    NextBlockPersists(cfg, From(cfg.records, q.start), CheckpointOffset(db.checkpoint), page.nextOffset);
  }

  /** The requests the sync endpoint sends: no explicit checkpoint, a common start. */
  ghost predicate SharedStart(ops: seq<Op>, start: int) {
    forall i :: 0 <= i < |ops| ==>
      RequestOk(ops[i].request) && ops[i].request.checkpoint.None? && ops[i].request.start == start
  }

  /** Exactly once: after any interleaving of successful, failed and dry runs over windows
      that share their start, whatever their ends and page limits. */
  lemma {:induction false} ExactlyOnce(cfg: Config, start: int, ops: seq<Op>)
    requires SourceOk(cfg) && SharedStart(ops, start)
    ensures Synced(cfg, start, RunOps(cfg, EMPTY, ops))
  {
    if ops != [] {
      var k := |ops| - 1;
      ExactlyOnce(cfg, start, ops[..k]);
      RunKeepsSynced(cfg, RunOps(cfg, EMPTY, ops[..k]), ops[k].request, ops[k].dryRun, ops[k].weather);
    } else {
      assert RowsFor(Normalizable(cfg.normalizer, From(cfg.records, start)[..0])) == [];
    }
  }

  // ---- Draining ------------------------------------------------------------

  /** A real run that neither the source nor the database fails. */
  ghost predicate Undisturbed(cfg: Config, op: Op) {
    !op.dryRun && FetchDelivers(op.weather, 0, cfg.retries) && !op.weather.commitFails
  }

  ghost function CleanRuns(cfg: Config, ops: seq<Op>): nat {
    if ops == [] then 0
    else CleanRuns(cfg, ops[..|ops| - 1]) + if Undisturbed(cfg, ops[|ops| - 1]) then 1 else 0
  }

  /** Where `s` full pages of `l` records end in a window of `n` records. */
  function Reached(n: nat, s: nat, l: nat): (o: nat)
    ensures o <= n
  {
    Least(n, s * l)
  }

  lemma OffsetStep(n: nat, s: nat, l: nat)
    ensures Reached(n, s, l) + Least(n - Reached(n, s, l), l) == Reached(n, s + 1, l)
  {
    assert (s + 1) * l == s * l + l;
  }

  /** Where the first `s` pages of the request's window end. */
  ghost function PageEnd(cfg: Config, q: Request, s: nat): nat {
    Reached(|Matching(cfg.records, q.start, q.end)|, s, q.limit)
  }

  /** How many of the first `s` pages commit before one of them holds a record that does not
      fit, or an `event_id` twice over, or one that an earlier page stored. */
  ghost function PagesThrough(cfg: Config, q: Request, s: nat): (t: nat)
    requires SortedRecords(cfg.records)
    ensures t <= s
  {
    if s == 0 || Storable(cfg, q.start, PageEnd(cfg, q, s)) then s else PagesThrough(cfg, q, s - 1)
  }

  lemma {:induction false} NormalizablePrefix(n: Normalizer, rs: seq<SourceRecord>, o: nat)
    requires o <= |rs|
    ensures Normalizable(n, rs[..o]) <= Normalizable(n, rs)
  {
    assert rs == rs[..o] + rs[o..];
    NormalizableConcat(n, rs[..o], rs[o..]);
  }

  lemma StorableShrinks(cfg: Config, start: int, o: nat, p: nat)
    requires SortedRecords(cfg.records) && o <= p && Storable(cfg, start, p)
    ensures Storable(cfg, start, o)
  {
    hide EventId;
    var all := From(cfg.records, start);
    assert all[..p][..o] == all[..o];
    NormalizablePrefix(cfg.normalizer, all[..p], o);
  }

  lemma PageEndGrows(cfg: Config, q: Request, s: nat, t: nat)
    requires s <= t
    ensures PageEnd(cfg, q, s) <= PageEnd(cfg, q, t)
  {
    MulGrows(s, t, q.limit);
  }

  /** After the last page that gets through, the next one does not. */
  lemma {:induction false} NextPageIsStuck(cfg: Config, q: Request, s: nat)
    requires SortedRecords(cfg.records)
    ensures var t := PagesThrough(cfg, q, s);
      t < s ==> !Storable(cfg, q.start, PageEnd(cfg, q, t + 1))
  {
    if s > 0 && !Storable(cfg, q.start, PageEnd(cfg, q, s)) { NextPageIsStuck(cfg, q, s - 1); }
  }

  lemma PagesThroughStep(cfg: Config, q: Request, s: nat)
    requires SortedRecords(cfg.records)
    ensures var t := PagesThrough(cfg, q, s);
      PagesThrough(cfg, q, s + 1) == if Storable(cfg, q.start, PageEnd(cfg, q, t + 1)) then t + 1 else t
  {
    hide Storable, PageEnd;
    NextPageIsStuck(cfg, q, s);
    var t := PagesThrough(cfg, q, s);
    if t < s && Storable(cfg, q.start, PageEnd(cfg, q, s + 1)) {
      PageEndGrows(cfg, q, t + 1, s + 1);
      StorableShrinks(cfg, q.start, PageEnd(cfg, q, t + 1), PageEnd(cfg, q, s + 1));
    }
  }

  lemma OffsetMoves(cfg: Config, q: Request, db: Db, op: Op, s: nat)
    requires SourceOk(cfg) && RequestOk(q) && q.checkpoint.None? && op.request == q && Synced(cfg, q.start, db)
    requires CheckpointOffset(db.checkpoint) == PageEnd(cfg, q, PagesThrough(cfg, q, s))
    ensures CheckpointOffset(RunOnce(cfg, db, q, op.dryRun, op.weather).0.checkpoint)
      == PageEnd(cfg, q, PagesThrough(cfg, q, s + if Undisturbed(cfg, op) then 1 else 0))
  {
    hide Reached, Synced, Matching, Storable, PagesThrough, RunOnce;
    RunKeepsSynced(cfg, db, q, op.dryRun, op.weather);
    PageIsNextBlock(cfg.records, q, db.checkpoint);
    PageSize(cfg.records, q, db.checkpoint);
    OffsetStep(|Matching(cfg.records, q.start, q.end)|, PagesThrough(cfg, q, s), q.limit);
    PagesThroughStep(cfg, q, s);
  }

  /** The stored offset is where the pages that got through end. */
  ghost predicate OffsetFits(cfg: Config, q: Request, ops: seq<Op>)
    requires SortedRecords(cfg.records)
  {
    CheckpointOffset(RunOps(cfg, EMPTY, ops).checkpoint) == PageEnd(cfg, q, PagesThrough(cfg, q, CleanRuns(cfg, ops)))
  }

  lemma OffsetFitsNext(cfg: Config, q: Request, ops: seq<Op>)
    requires SourceOk(cfg) && RequestOk(q) && q.checkpoint.None? && ops != [] && ops[|ops| - 1].request == q
    requires Synced(cfg, q.start, RunOps(cfg, EMPTY, ops[..|ops| - 1])) && OffsetFits(cfg, q, ops[..|ops| - 1])
    ensures OffsetFits(cfg, q, ops)
  {
    hide Synced, SourceOk, RequestOk, SortedRecords, RunOnce, PageEnd, PagesThrough, Undisturbed;
    var before := ops[..|ops| - 1];
    OffsetMoves(cfg, q, RunOps(cfg, EMPTY, before), ops[|ops| - 1], CleanRuns(cfg, before));
  }

  /** Each undisturbed run of one request moves the offset by a full page until the window
      is drained or a page cannot commit; nothing else moves it. */
  lemma {:induction false} OffsetAfter(cfg: Config, q: Request, ops: seq<Op>)
    requires SourceOk(cfg) && RequestOk(q) && q.checkpoint.None?
    requires forall i :: 0 <= i < |ops| ==> ops[i].request == q
    ensures OffsetFits(cfg, q, ops)
  {
    if ops != [] {
      var k := |ops| - 1;
      OffsetAfter(cfg, q, ops[..k]);
      ExactlyOnce(cfg, q.start, ops[..k]);
      OffsetFitsNext(cfg, q, ops);
      hide OffsetFits;
    }
  }

  /** Whatever the requests, committed rows meet the constraints. */
  lemma {:induction false} CommittedRowsAreAllowed(cfg: Config, ops: seq<Op>)
    ensures Allowed(cfg, RunOps(cfg, EMPTY, ops).events)
  {
    if ops != [] { CommittedRowsAreAllowed(cfg, ops[..|ops| - 1]); }
  }

  /** After `ceil(n / limit)` undisturbed runs the whole window is stored, each record once,
      exactly when no two of its normalizable records share an `event_id` and each fits. */
  lemma {:induction false} DrainsExactly(cfg: Config, q: Request, ops: seq<Op>)
    requires SourceOk(cfg) && RequestOk(q) && q.checkpoint.None?
    requires forall i :: 0 <= i < |ops| ==> ops[i].request == q
    requires var n := |Matching(cfg.records, q.start, q.end)|;
      CleanRuns(cfg, ops) >= (n + q.limit - 1) / q.limit
    ensures var window := Normalizable(cfg.normalizer, Matching(cfg.records, q.start, q.end));
      RunOps(cfg, EMPTY, ops).events == RowsFor(window) <==> Takes(cfg, window)
  {
    var m, s := Matching(cfg.records, q.start, q.end), CleanRuns(cfg, ops);
    EnoughRuns(|m|, s, q.limit);
    OffsetAfter(cfg, q, ops);
    ExactlyOnce(cfg, q.start, ops);
    MatchingIsBlock(cfg.records, q.start, q.end);
    assert m == From(cfg.records, q.start)[..|m|];
    hide RunOps, Matching, From, CleanRuns, Takes, Allowed;
    CommittedRowsAreAllowed(cfg, ops);
    RowsAreAllowedExactly(cfg, Normalizable(cfg.normalizer, m));
  }

  lemma EnoughRuns(n: nat, s: nat, d: nat)
    requires d > 0 && s >= (n + d - 1) / d
    ensures s * d >= n
  {
    var x := n + d - 1;
    var c := x / d;
    assert x == c * d + x % d;
    MulGrows(c, s, d);
  }

  lemma MulGrows(a: nat, b: nat, d: nat)
    requires a <= b
    ensures a * d <= b * d
  { }

  // ---- No duplicates, whatever the requests ---------------------------------

  ghost predicate UniqueKeys(events: seq<EventRow>) {
    forall i, j :: 0 <= i < j < |events| ==> events[i].dedupKey != events[j].dedupKey
  }

  lemma {:induction false} PersistKeepsUnique(events: seq<EventRow>, rs: seq<SourceRecord>)
    requires UniqueKeys(events)
    ensures UniqueKeys(Persist(events, rs))
  {
    if rs != [] {
      PersistKeepsUnique(events, rs[..|rs| - 1]);
    }
  }

  /** Any requests at all, with rewound or invented checkpoints: no key is stored twice. */
  lemma {:induction false} NeverTwice(cfg: Config, ops: seq<Op>)
    ensures UniqueKeys(RunOps(cfg, EMPTY, ops).events)
  {
    if ops != [] {
      var k := |ops| - 1; var op := ops[k];
      NeverTwice(cfg, ops[..k]);
      var db := RunOps(cfg, EMPTY, ops[..k]);
      var page := FetchRecords(cfg.records, op.request.start, op.request.end, op.request.limit,
                               EffectiveCheckpoint(db, op.request));
      PersistKeepsUnique(db.events, Normalizable(cfg.normalizer, page.records));
    }
  }

  // ---- Pages that cannot commit --------------------------------------------------

  /** Under a synced offset whose next page cannot commit, nothing is ever stored again by
      this request: every real run fails, and the offset stays. */
  lemma {:induction false} UnstorablePageBlocks(cfg: Config, db: Db, q: Request, ops: seq<Op>)
    requires SourceOk(cfg) && RequestOk(q) && q.checkpoint.None? && Synced(cfg, q.start, db)
    requires forall i :: 0 <= i < |ops| ==> ops[i].request == q
    requires !Storable(cfg, q.start, FetchRecords(cfg.records, q.start, q.end, q.limit, db.checkpoint).nextOffset)
    ensures RunOps(cfg, db, ops).events == db.events && RunOps(cfg, db, ops).checkpoint == db.checkpoint
  {
    if ops != [] {
      var k := |ops| - 1;
      hide Synced, SourceOk, RequestOk, RunOnce, FetchRecords, Storable;
      UnstorablePageBlocks(cfg, db, q, ops[..k]);
      var before := RunOps(cfg, db, ops[..k]);
      SyncedReads(cfg, q.start, db, before);
      RunKeepsSynced(cfg, before, q, ops[k].dryRun, ops[k].weather);
    }
  }

  lemma SyncedReads(cfg: Config, start: int, db: Db, other: Db)
    requires SortedRecords(cfg.records) && Synced(cfg, start, db)
    requires other.events == db.events && other.checkpoint == db.checkpoint
    ensures Synced(cfg, start, other)
  { }

  /** One record id under two indexes: different keys, the same `event_id`. */
  const UNDER_X := SourceRecord("p", "s", "a", Some("x"), 0)
  const UNDER_Y := SourceRecord("p", "s", "a", Some("y"), 10)
  const TWO_INDEXES := Config([UNDER_X, UNDER_Y], Normalizer(_ => true, _ => 0), _ => true, 1)
  const ONE_BY_ONE := Request(0, 20, 1, None)

  lemma TwoIndexesRead()
    ensures SourceOk(TWO_INDEXES) && From(TWO_INDEXES.records, 0) == TWO_INDEXES.records
    ensures Normalizable(TWO_INDEXES.normalizer, TWO_INDEXES.records) == TWO_INDEXES.records
    ensures Matching(TWO_INDEXES.records, 0, 20) == TWO_INDEXES.records
  {
    var rs, n := TWO_INDEXES.records, TWO_INDEXES.normalizer;
    assert DedupKey(UNDER_X)[4] == 'x' && DedupKey(UNDER_Y)[4] == 'y';
    assert RecordLe(UNDER_X, UNDER_Y);
    assert rs[1..] == [UNDER_Y] && rs[..1] == [UNDER_X];
    assert [UNDER_Y][1..] == [] && [UNDER_X][..0] == [];
    assert Matching([UNDER_Y], 0, 20) == [UNDER_Y];
    assert Normalizable(n, [UNDER_X]) == [UNDER_X];
    FirstAtSplits(rs, 0);
  }

  lemma TwoIndexesPages()
    ensures FetchRecords(TWO_INDEXES.records, 0, 20, 1, None) == Page([UNDER_X], 1)
    ensures FetchRecords(TWO_INDEXES.records, 0, 20, 1, Some(1)) == Page([UNDER_Y], 2)
  {
    TwoIndexesRead();
    hide Matching;
    var rs := TWO_INDEXES.records;
    assert rs[..1] == [UNDER_X] && rs[1..] == [UNDER_Y] && rs[0..1] == [UNDER_X];
  }

  lemma OnlyTheFirstIsStorable()
    ensures SourceOk(TWO_INDEXES) && Storable(TWO_INDEXES, 0, 1) && !Storable(TWO_INDEXES, 0, 2)
    ensures Normalizable(TWO_INDEXES.normalizer, From(TWO_INDEXES.records, 0)[..1]) == [UNDER_X]
    ensures Synced(TWO_INDEXES, 0, EMPTY)
  {
    TwoIndexesRead();
    hide SourceOk, From, Normalizable;
    var rs, n := TWO_INDEXES.records, TWO_INDEXES.normalizer;
    assert rs[..1] == [UNDER_X] && rs[..2] == rs && rs[..0] == [];
    OneAccepted(n, UNDER_X);
    assert EventId(UNDER_X) == EventId(UNDER_Y);
    assert RowsFor(Normalizable(n, [])) == [] by { NormalizableSize(n, []); }
  }

  lemma OneAccepted(n: Normalizer, r: SourceRecord)
    requires n.accepts(r)
    ensures Normalizable(n, [r]) == [r]
  {
    assert [r][..0] == [];
  }

  /** A concrete block: the first page stores one record, and no run of the request ever
      stores the second. */
  lemma TwoIndexesBlock(ops: seq<Op>)
    requires forall i :: 0 <= i < |ops| ==> ops[i].request == ONE_BY_ONE
    ensures RunOnce(TWO_INDEXES, EMPTY, ONE_BY_ONE, false, CLEAR).1.Ok?
    ensures var first := RunOnce(TWO_INDEXES, EMPTY, ONE_BY_ONE, false, CLEAR).0;
      && first.events == RowsFor([UNDER_X])
      && RunOps(TWO_INDEXES, first, ops).events == first.events
      && RunOps(TWO_INDEXES, first, ops).checkpoint == Some(1)
  {
    hide FetchRecords, SourceOk, Storable, RunOnce, RunOps, Normalizable, From, RowsFor;
    TwoIndexesPages();
    OnlyTheFirstIsStorable();
    RunKeepsSynced(TWO_INDEXES, EMPTY, ONE_BY_ONE, false, CLEAR);
    UnstorablePageBlocks(TWO_INDEXES, RunOnce(TWO_INDEXES, EMPTY, ONE_BY_ONE, false, CLEAR).0, ONE_BY_ONE, ops);
  }

  /** A record id of 300 characters: the column for `event_id` takes 255. */
  const LONG := SourceRecord("p", "s", seq(300, _ => 'a'), None, 0)
  const LONG_SOURCE := Config([LONG], Normalizer(_ => true, _ => 0), r => |EventId(r)| <= 255, 1)

  lemma LongIdRead()
    ensures SourceOk(LONG_SOURCE) && Matching(LONG_SOURCE.records, 0, 20) == [LONG] && DistinctEventIds([LONG])
    ensures From(LONG_SOURCE.records, 0) == [LONG]
    ensures FetchRecords(LONG_SOURCE.records, 0, 20, 1, None) == Page([LONG], 1)
  {
    assert [LONG][1..] == [] && [LONG][..1] == [LONG];
    FirstAtSplits([LONG], 0);
  }

  lemma LongIdDoesNotFit()
    ensures !Storable(LONG_SOURCE, 0, 1) && Synced(LONG_SOURCE, 0, EMPTY)
  {
    LongIdRead();
    OneAccepted(LONG_SOURCE.normalizer, LONG);
    assert [LONG][..1] == [LONG] && [LONG][..0] == [];
    assert |EventId(LONG)| == 304 && !LONG_SOURCE.fits([LONG][0]);
    hide From;
    assert RowsFor(Normalizable(LONG_SOURCE.normalizer, [])) == [];
  }

  /** The normalizer accepts the record, no ids collide, and no run ever stores it. */
  lemma LongIdBlocks(ops: seq<Op>)
    requires forall i :: 0 <= i < |ops| ==> ops[i].request == ONE_BY_ONE
    ensures Matching(LONG_SOURCE.records, 0, 20) == [LONG] && LONG_SOURCE.normalizer.accepts(LONG)
    ensures DistinctEventIds([LONG])
    ensures RunOps(LONG_SOURCE, EMPTY, ops).events == [] && RunOps(LONG_SOURCE, EMPTY, ops).checkpoint == None
  {
    hide SourceOk, From, FetchRecords, Storable, RunOps, Synced, Matching, DistinctEventIds;
    LongIdRead();
    LongIdDoesNotFit();
    UnstorablePageBlocks(LONG_SOURCE, EMPTY, ONE_BY_ONE, ops);
  }

  // ---- Moving the window ---------------------------------------------------

  /** The offset counts records from the window's start, but is stored per source. After
      moving the start, the first `o` records of the new stream are skipped; they were all
      read before only if this holds. */
  ghost predicate Carries(rs: seq<SourceRecord>, start: int, next: int, o: nat)
    requires SortedRecords(rs)
  {
    var old_, new_ := From(rs, start), From(rs, next);
    o <= |old_| && forall i :: 0 <= i < o && i < |new_| ==> new_[i] in old_[..o]
  }

  lemma PositionsDiffer(rs: seq<SourceRecord>, i: nat, j: nat)
    requires DistinctKeys(rs) && i < |rs| && j < |rs| && rs[i] == rs[j]
    ensures i == j
  {
    assert DedupKey(rs[i]) == DedupKey(rs[j]);
  }

  /** Membership of the new stream's record `i` among the first `o` of the old one. */
  lemma {:induction false} ReadBefore(rs: seq<SourceRecord>, start: int, next: int, o: nat, i: nat)
    requires SortedRecords(rs) && DistinctKeys(rs) && o <= |From(rs, start)| && i < |From(rs, next)|
    ensures From(rs, next)[i] in From(rs, start)[..o] <==>
      FirstAt(rs, start) <= FirstAt(rs, next) + i < FirstAt(rs, start) + o
  {
    FirstAtSplits(rs, start);
    FirstAtSplits(rs, next);
    var a, b := FirstAt(rs, start), FirstAt(rs, next);
    var old_, new_ := From(rs, start), From(rs, next);
    if new_[i] in old_[..o] {
      var k :| 0 <= k < o && old_[..o][k] == new_[i];
      PositionsDiffer(rs, a + k, b + i);
    }
    if a <= b + i < a + o { assert old_[..o][b + i - a] == new_[i]; }
  }

  /** Exactly when a start may move under a stored offset: no record lies between the two
      starts, nothing was read yet, or (moving forward) the old stream was read out or
      nothing is left at or after the new start. */
  lemma {:induction false} CarriesExactly(rs: seq<SourceRecord>, start: int, next: int, o: nat)
    requires SortedRecords(rs) && DistinctKeys(rs) && o <= |From(rs, start)|
    ensures Carries(rs, start, next, o) <==>
      || FirstAt(rs, start) == FirstAt(rs, next)
      || o == 0
      || (start < next && (o == |From(rs, start)| || FirstAt(rs, next) == |rs|))
  {
    FirstAtSplits(rs, start);
    FirstAtSplits(rs, next);
    if start <= next { FirstAtMonotone(rs, start, next); } else { FirstAtMonotone(rs, next, start); }
    var new_ := From(rs, next);
    forall i | 0 <= i < |new_|
      ensures new_[i] in From(rs, start)[..o] <==>
        FirstAt(rs, start) <= FirstAt(rs, next) + i < FirstAt(rs, start) + o
    {
      ReadBefore(rs, start, next, o, i);
    }
    if o > 0 && new_ != [] {
      var last := Least(o, |new_|) - 1;
      assert Carries(rs, start, next, o) ==> new_[0] in From(rs, start)[..o] && new_[last] in From(rs, start)[..o];
    }
  }

  /** Under a synced offset, a record that a moved window skips is stored exactly when it
      can be normalized and was read before. So no normalizable record is lost exactly
      when the skipped ones among them were read, and none is when the offset carries. */
  lemma SkippedAreStored(cfg: Config, start: int, next: int, db: Db)
    requires SourceOk(cfg) && Synced(cfg, start, db)
    ensures var o, new_ := CheckpointOffset(db.checkpoint), From(cfg.records, next);
      && (forall i :: 0 <= i < o && i < |new_| ==> (DedupKey(new_[i]) in KeySet(db.events) <==>
            cfg.normalizer.accepts(new_[i]) && new_[i] in From(cfg.records, start)[..o]))
      && (Carries(cfg.records, start, next, o) ==> forall i :: 0 <= i < o && i < |new_| ==>
            (cfg.normalizer.accepts(new_[i]) <==> DedupKey(new_[i]) in KeySet(db.events)))
  {
    var o, new_ := CheckpointOffset(db.checkpoint), From(cfg.records, next);
    forall i | 0 <= i < |new_|
      ensures DedupKey(new_[i]) in KeySet(db.events) <==>
        cfg.normalizer.accepts(new_[i]) && new_[i] in From(cfg.records, start)[..o]
    {
      StoredMeansRead(cfg, start, next, o, i);
    }
  }

  lemma KeyOfRows(rs: seq<SourceRecord>, key: string)
    ensures key in KeySet(RowsFor(rs)) <==> exists j :: 0 <= j < |rs| && DedupKey(rs[j]) == key
  {
    hide DedupKey;
    if key in KeySet(RowsFor(rs)) {
      var j :| 0 <= j < |rs| && RowsFor(rs)[j].dedupKey == key;
    }
    if j :| 0 <= j < |rs| && DedupKey(rs[j]) == key { assert RowsFor(rs)[j].dedupKey == key; }
  }

  lemma StoredMeansRead(cfg: Config, start: int, next: int, o: nat, i: nat)
    requires SourceOk(cfg) && o <= |From(cfg.records, start)| && i < |From(cfg.records, next)|
    ensures var read := From(cfg.records, start)[..o];
      var x := From(cfg.records, next)[i];
      DedupKey(x) in KeySet(RowsFor(Normalizable(cfg.normalizer, read))) <==> cfg.normalizer.accepts(x) && x in read
  {
    hide DedupKey, KeySet, RowsFor, Normalizable;
    var rs, read := cfg.records, From(cfg.records, start)[..o];
    var ns, x := Normalizable(cfg.normalizer, read), From(cfg.records, next)[i];
    NormalizableKeeps(cfg.normalizer, read);
    KeyOfRows(ns, DedupKey(x));
    FirstAtSplits(rs, start);
    FirstAtSplits(rs, next);
    if j :| 0 <= j < |ns| && DedupKey(ns[j]) == DedupKey(x) {
      assert ns[j] in read;
      var k :| 0 <= k < o && read[k] == ns[j];
      SameKeySameRecord(rs, FirstAt(rs, start) + k, FirstAt(rs, next) + i);
    }
    if x in read && cfg.normalizer.accepts(x) { assert x in ns; }
  }

  lemma SameKeySameRecord(rs: seq<SourceRecord>, i: nat, j: nat)
    requires DistinctKeys(rs) && i < |rs| && j < |rs| && DedupKey(rs[i]) == DedupKey(rs[j])
    ensures rs[i] == rs[j]
  { }

  const EARLY := SourceRecord("p", "s", "a", None, 0)
  const LATE := SourceRecord("p", "s", "b", None, 10)

  /** A source of two records that every normalizer step accepts. */
  const TWO_RECORDS := Config([EARLY, LATE], Normalizer(_ => true, _ => 0), _ => true, 1)
  const CLEAR := Weather([], false, false)

  lemma FirstWindow()
    ensures RunOnce(TWO_RECORDS, EMPTY, Request(0, 5, 10, None), false, CLEAR).1.Ok?
    ensures var db := RunOnce(TWO_RECORDS, EMPTY, Request(0, 5, 10, None), false, CLEAR).0;
      db.events == [RowOf(EARLY)] && db.checkpoint == Some(1)
  {
    assert FetchRecords([EARLY, LATE], 0, 5, 10, None) == Page([EARLY], 1) by {
      assert [EARLY, LATE][1..] == [LATE] && [LATE][1..] == [];
      assert Matching([LATE], 0, 5) == [] && Matching([EARLY, LATE], 0, 5) == [EARLY];
    }
    OneAccepted(TWO_RECORDS.normalizer, EARLY);
    assert [EARLY][..0] == [] && Persist([], [EARLY]) == [RowOf(EARLY)];
    hide FetchRecords, Normalizable, Persist, RowOf, KeySet, Warnings;
  }

  lemma SecondWindow(db: Db)
    requires db.events == [RowOf(EARLY)] && db.checkpoint == Some(1)
    ensures RunOnce(TWO_RECORDS, db, Request(5, 15, 10, None), false, CLEAR).1.Ok?
    ensures RunOnce(TWO_RECORDS, db, Request(5, 15, 10, None), false, CLEAR).0.events == [RowOf(EARLY)]
    ensures Matching([EARLY, LATE], 5, 15) == [LATE]
  {
    assert [EARLY, LATE][1..] == [LATE] && [LATE][1..] == [];
    assert Matching([LATE], 5, 15) == [LATE] && Matching([EARLY, LATE], 5, 15) == [LATE];
    assert FetchRecords([EARLY, LATE], 5, 15, 10, Some(1)) == Page([], 1);
  }

  /** A concrete loss: two clean runs over two adjacent windows of one source, and the
      second window's only record is skipped and never stored. */
  lemma MovedWindowLosesRecords()
    ensures var first := RunOnce(TWO_RECORDS, EMPTY, Request(0, 5, 10, None), false, CLEAR);
      var second := RunOnce(TWO_RECORDS, first.0, Request(5, 15, 10, None), false, CLEAR);
      && SourceOk(TWO_RECORDS) && first.1.Ok? && second.1.Ok?
      && Matching(TWO_RECORDS.records, 5, 15) == [LATE] && DedupKey(LATE) !in KeySet(second.0.events)
  {
    KeysDiffer(EARLY, LATE);
    FirstWindow();
    SecondWindow(RunOnce(TWO_RECORDS, EMPTY, Request(0, 5, 10, None), false, CLEAR).0);
  }

  lemma KeysDiffer(r1: SourceRecord, r2: SourceRecord)
    requires r1 == SourceRecord("p", "s", "a", None, 0) && r2 == SourceRecord("p", "s", "b", None, 10)
    ensures DedupKey(r1) != DedupKey(r2) && EventId(r1) != EventId(r2) && RecordLe(r1, r2)
  {
    assert DedupKey(r1)[6] == 'a' && DedupKey(r2)[6] == 'b';
    assert EventId(r1)[4] == 'a' && EventId(r2)[4] == 'b';
  }

  // ---- Key injectivity -----------------------------------------------------

  ghost predicate NoColon(s: string) { ':' !in s }

  lemma ColonFirst(a: string, x: string)
    requires NoColon(a)
    ensures (a + ":" + x)[0] == ':' <==> a == ""
  {
    if a != "" { assert (a + ":" + x)[0] == a[0] && a[0] in a; }
  }

  lemma {:induction false} SplitAtColon(a: string, x: string, b: string, y: string)
    requires NoColon(a) && NoColon(b) && a + ":" + x == b + ":" + y
    ensures a == b && x == y
  {
    if a == "" || b == "" {
      ColonFirst(a, x);
      ColonFirst(b, y);
      assert (a + ":" + x)[1..] == x && (b + ":" + y)[1..] == y;
    } else {
      assert (a + ":" + x)[0] == a[0] && (b + ":" + y)[0] == b[0];
      assert (a + ":" + x)[1..] == a[1..] + ":" + x && (b + ":" + y)[1..] == b[1..] + ":" + y;
      SplitAtColon(a[1..], x, b[1..], y);
      assert a == [a[0]] + a[1..] && b == [b[0]] + b[1..];
    }
  }

  ghost predicate PlainParts(r: SourceRecord) {
    NoColon(r.provider) && NoColon(r.sourceName) && NoColon(IndexText(r)) && r.sourceIndex != Some("-")
  }

  /** The dedup key identifies provider, source, index and record id, as long as the first
      three hold no colon and no index is a lone dash. */
  lemma DedupKeyInjective(r: SourceRecord, s: SourceRecord)
    requires PlainParts(r) && PlainParts(s) && DedupKey(r) == DedupKey(s)
    ensures r.provider == s.provider && r.sourceName == s.sourceName && r.recordId == s.recordId
    ensures r.sourceIndex == s.sourceIndex || {r.sourceIndex, s.sourceIndex} == {None, Some("")}
  {
    var r2, s2 := IndexText(r) + ":" + r.recordId, IndexText(s) + ":" + s.recordId;
    var r1, s1 := r.sourceName + ":" + r2, s.sourceName + ":" + s2;
    assert DedupKey(r) == r.provider + ":" + r1 && DedupKey(s) == s.provider + ":" + s1;
    SplitAtColon(r.provider, r1, s.provider, s1);
    SplitAtColon(r.sourceName, r2, s.sourceName, s2);
    SplitAtColon(IndexText(r), r.recordId, IndexText(s), s.recordId);
  }
}
