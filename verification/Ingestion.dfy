/** Checkpointed ingestion: source records and their keys (backend/ingestion/dto.py), the
    offset-paged fixture adapter (backend/ingestion/adapters/fixture.py) and the run
    coordinator (backend/ingestion/orchestrator.py). */
module Ingestion {
  import opened Basics

  datatype SourceRecord = SourceRecord(
    provider: string, sourceName: string, recordId: string, sourceIndex: Option<string>, time: int)

  /** `source_index or "-"`: a missing and an empty index read the same. */
  function IndexText(r: SourceRecord): string {
    if r.sourceIndex.Some? && r.sourceIndex.value != "" then r.sourceIndex.value else "-"
  }

  function DedupKey(r: SourceRecord): string {
    r.provider + ":" + (r.sourceName + ":" + (IndexText(r) + ":" + r.recordId))
  }

  /** The normalizer's `event_id`, which leaves the index out. */
  function EventId(r: SourceRecord): string {
    r.provider + ":" + (r.sourceName + ":" + r.recordId)
  }

  // ---- The fixture adapter -------------------------------------------------

  predicate RecordLe(a: SourceRecord, b: SourceRecord) {
    a.time < b.time || (a.time == b.time && StrLe(a.recordId, b.recordId))
  }

  /** The adapter sorts its records once, when it is made. */
  function FixtureRecords(records: seq<SourceRecord>): seq<SourceRecord> { Sort(RecordLe, records) }

  /** A request; its checkpoint is the `offset` value of an explicit restart state. */
  datatype Request = Request(start: int, end: int, limit: nat, checkpoint: Option<int>)

  predicate RequestOk(q: Request) { q.start < q.end && 0 < q.limit <= 1000 }

  datatype Page = Page(records: seq<SourceRecord>, nextOffset: nat)

  function Matching(records: seq<SourceRecord>, start: int, end: int): seq<SourceRecord> {
    if records == [] then []
    else (if start <= records[0].time < end then [records[0]] else []) + Matching(records[1..], start, end)
  }

  /** `_checkpoint_offset`: no checkpoint or a negative offset restarts at the beginning. */
  function CheckpointOffset(checkpoint: Option<int>): nat {
    if checkpoint.Some? && checkpoint.value >= 0 then checkpoint.value else 0
  }

  /** Python slicing, which clips both bounds. */
  function Slice<X>(s: seq<X>, a: nat, n: nat): seq<X> {
    if a >= |s| then [] else if a + n < |s| then s[a..a + n] else s[a..]
  }

  function FetchRecords(records: seq<SourceRecord>, start: int, end: int, limit: nat, checkpoint: Option<int>): Page {
    var offset := CheckpointOffset(checkpoint);
    var page := Slice(Matching(records, start, end), offset, limit);
    Page(page, offset + |page|)
  }

  // ---- The coordinator -----------------------------------------------------

  /** Field mapping is abstract: it may reject a record and may warn. */
  datatype Normalizer = Normalizer(accepts: SourceRecord -> bool, warnings: SourceRecord -> nat)

  /** An event row: its two keys, and the record that its other columns are mapped from. */
  datatype EventRow = EventRow(eventId: string, dedupKey: string, record: SourceRecord)

  datatype RunStatus = DryRun | Partial | Succeeded | FailedRun

  datatype RunRow = RunRow(status: RunStatus, fetched: nat, normalized: nat, persisted: nat, duplicate: nat,
                           failed: nat, warnings: nat, before: Option<int>, after: Option<int>)

  /** The rows one adapter's runs touch; `checkpoint` is its stored offset. */
  datatype Db = Db(events: seq<EventRow>, checkpoint: Option<int>, runs: seq<RunRow>)

  datatype Attempt = Delivers | Transient | Fatal

  /** What the surroundings do to a run: the adapter's successive attempts, and whether
      the commit of the run, or of its failure record, breaks. */
  datatype Weather = Weather(attempts: seq<Attempt>, commitFails: bool, recordFails: bool)

  function AttemptAt(w: Weather, i: nat): Attempt { if i < |w.attempts| then w.attempts[i] else Delivers }

  /** The fetch outcome within the allowed number of attempts, from attempt `i` on. */
  function FetchDelivers(w: Weather, i: nat, retries: nat): bool
    decreases retries - i
  {
    i < retries && (AttemptAt(w, i).Delivers? || (AttemptAt(w, i).Transient? && FetchDelivers(w, i + 1, retries)))
  }

  /** A fetch delivers exactly when some allowed attempt does, and all before it failed only
      for the moment. */
  lemma {:induction false} DeliversExactly(w: Weather, i: nat, retries: nat)
    ensures FetchDelivers(w, i, retries) <==> exists k ::
      i <= k < retries && AttemptAt(w, k).Delivers? && forall j :: i <= j < k ==> AttemptAt(w, j).Transient?
    decreases retries - i
  {
    if i < retries {
      DeliversExactly(w, i + 1, retries);
      if k :| i <= k < retries && AttemptAt(w, k).Delivers? && forall j :: i <= j < k ==> AttemptAt(w, j).Transient? {
        if k > i { assert AttemptAt(w, i).Transient?; }
      }
    }
  }

  function Normalizable(n: Normalizer, rs: seq<SourceRecord>): seq<SourceRecord> {
    if rs == [] then []
    else
      var k := |rs| - 1;
      if n.accepts(rs[k]) then Normalizable(n, rs[..k]) + [rs[k]] else Normalizable(n, rs[..k])
  }

  function Warnings(n: Normalizer, rs: seq<SourceRecord>): nat {
    if rs == [] then 0
    else Warnings(n, rs[..|rs| - 1]) + if n.accepts(rs[|rs| - 1]) then n.warnings(rs[|rs| - 1]) else 0
  }

  function RowOf(r: SourceRecord): EventRow { EventRow(EventId(r), DedupKey(r), r) }

  function KeySet(events: seq<EventRow>): set<string> { set i | 0 <= i < |events| :: events[i].dedupKey }

  /** Rows added for normalized records, skipping keys already present or just added. */
  function Persist(events: seq<EventRow>, rs: seq<SourceRecord>): seq<EventRow> {
    if rs == [] then events
    else
      var before := Persist(events, rs[..|rs| - 1]);
      var r := rs[|rs| - 1];
      if DedupKey(r) in KeySet(before) then before else before + [RowOf(r)]
  }

  /** The dry run's count: keys present, or seen earlier in the page. */
  function CountSeen(seen: set<string>, rs: seq<SourceRecord>): nat {
    if rs == [] then 0
    else
      var k := |rs| - 1;
      CountSeen(seen, rs[..k]) +
        if DedupKey(rs[k]) in seen + KeysIn(rs[..k]) then 1 else 0
  }

  function KeysIn(rs: seq<SourceRecord>): set<string> { set i | 0 <= i < |rs| :: DedupKey(rs[i]) }

  /** The unique constraint on `events.event_id`. */
  ghost predicate UniqueEventIds(events: seq<EventRow>) {
    forall i, j :: 0 <= i < j < |events| ==> events[i].eventId != events[j].eventId
  }

  /** `fits` says of which records the columns of `events` take the mapped values: most are
      bounded, and neither record nor normalizer bounds what goes into them. */
  datatype Config = Config(records: seq<SourceRecord>, normalizer: Normalizer, fits: SourceRecord -> bool, retries: nat)

  predicate AllFit(fits: SourceRecord -> bool, events: seq<EventRow>) {
    forall i | 0 <= i < |events| :: fits(events[i].record)
  }

  /** The rows meet the constraints of their table. */
  ghost predicate Allowed(cfg: Config, events: seq<EventRow>) { UniqueEventIds(events) && AllFit(cfg.fits, events) }

  datatype RunResult = Ok(row: RunRow, advanced: bool) | Error

  function EffectiveCheckpoint(db: Db, q: Request): Option<int> {
    if q.checkpoint.Some? then q.checkpoint else db.checkpoint
  }

  function FailedRow(db: Db, q: Request): RunRow {
    RunRow(FailedRun, 0, 0, 0, 0, 0, 0, EffectiveCheckpoint(db, q), None)
  }

  function AfterFailure(db: Db, q: Request, w: Weather): Db {
    if w.recordFails then db else db.(runs := db.runs + [FailedRow(db, q)])
  }

  /** One `run` as a function of the committed rows. */
  ghost function RunOnce(cfg: Config, db: Db, q: Request, dryRun: bool, w: Weather): (Db, RunResult) {
    var before := EffectiveCheckpoint(db, q);
    if !FetchDelivers(w, 0, cfg.retries) then (AfterFailure(db, q, w), Error)
    else
      var page := FetchRecords(cfg.records, q.start, q.end, q.limit, before);
      var ns := Normalizable(cfg.normalizer, page.records);
      var failed := |page.records| - |ns|;
      NormalizableSize(cfg.normalizer, page.records);
      if dryRun then
        var row := RunRow(DryRun, |page.records|, |ns|, 0, CountSeen(KeySet(db.events), ns), failed,
                          Warnings(cfg.normalizer, page.records), before, Some(page.nextOffset));
        if w.commitFails then (AfterFailure(db, q, w), Error)
        else (db.(runs := db.runs + [row]), Ok(row, false))
      else
        var events := Persist(db.events, ns);
        PersistSize(db.events, ns);
        var added := |events| - |db.events|;
        var row := RunRow(if failed > 0 then Partial else Succeeded, |page.records|, |ns|, added, |ns| - added,
                          failed, Warnings(cfg.normalizer, page.records), before, Some(page.nextOffset));
        if w.commitFails || !Allowed(cfg, events) then (AfterFailure(db, q, w), Error)
        else (Db(events, Some(page.nextOffset), db.runs + [row]), Ok(row, true))
  }

  lemma {:induction false} NormalizableSize(n: Normalizer, rs: seq<SourceRecord>)
    ensures |Normalizable(n, rs)| <= |rs|
  {
    if rs != [] { NormalizableSize(n, rs[..|rs| - 1]); }
  }

  lemma {:induction false} PersistSize(events: seq<EventRow>, rs: seq<SourceRecord>)
    ensures |events| <= |Persist(events, rs)| <= |events| + |rs|
    ensures Persist(events, rs)[..|events|] == events
  {
    if rs != [] { PersistSize(events, rs[..|rs| - 1]); }
  }

  lemma KeySetAppend(events: seq<EventRow>, row: EventRow)
    ensures KeySet(events + [row]) == KeySet(events) + {row.dedupKey}
  {
    var more := events + [row];
    assert more[|events|] == row;
    forall k | k in KeySet(events) ensures k in KeySet(more) {
      var i :| 0 <= i < |events| && events[i].dedupKey == k;
      assert more[i] == events[i];
    }
  }

  lemma KeysInAppend(rs: seq<SourceRecord>, r: SourceRecord)
    ensures KeysIn(rs + [r]) == KeysIn(rs) + {DedupKey(r)}
  {
    var more := rs + [r];
    assert more[|rs|] == r;
    forall k | k in KeysIn(rs) ensures k in KeysIn(more) {
      var i :| 0 <= i < |rs| && DedupKey(rs[i]) == k;
      assert more[i] == rs[i];
    }
  }

  lemma {:induction false} PersistKeys(events: seq<EventRow>, rs: seq<SourceRecord>)
    ensures KeySet(Persist(events, rs)) == KeySet(events) + KeysIn(rs)
  {
    if rs != [] {
      var k := |rs| - 1;
      PersistKeys(events, rs[..k]);
      KeysInAppend(rs[..k], rs[k]);
      KeySetAppend(Persist(events, rs[..k]), RowOf(rs[k]));
      assert rs == rs[..k] + [rs[k]];
    }
  }

  /** Session and adapter of one configured source. */
  class Orchestrator {
    const cfg: Config
    var events: seq<EventRow>
    var checkpoint: Option<int>
    var runs: seq<RunRow>
    var committed: Db

    ghost predicate Clean() reads this { committed == Db(events, checkpoint, runs) }

    constructor (cfg: Config, db: Db)
      ensures this.cfg == cfg && Clean() && committed == db
    {
      this.cfg := cfg;
      events, checkpoint, runs, committed := db.events, db.checkpoint, db.runs, db;
    }

    method Rollback()
      modifies this`events, this`checkpoint, this`runs
      ensures Clean() && committed == old(committed)
    {
      events, checkpoint, runs := committed.events, committed.checkpoint, committed.runs;
    }

    /** The commit, refused when it fails, when `event_id` would repeat, or when a column
        cannot take its value. */
    method Commit(fails: bool) returns (ok: bool)
      modifies this`committed
      ensures ok <==> !fails && Allowed(cfg, events)
      ensures if ok then committed == Db(events, checkpoint, runs) else committed == old(committed)
    {
      var unique := HasUniqueEventIds(events);
      ok := !fails && unique && AllFit(cfg.fits, events);
      if ok { committed := Db(events, checkpoint, runs); }
    }

    /** `_fetch_with_retries`: at most `retries` attempts, linear backoff in between. The last
        call is the first attempt that is not transient, or the last one allowed. */
    method FetchWithRetries(w: Weather, backoff: real) returns (ok: bool, calls: nat, sleeps: seq<real>)
      requires cfg.retries >= 1
      ensures ok <==> FetchDelivers(w, 0, cfg.retries)
      ensures 1 <= calls <= cfg.retries && |sleeps| == calls - 1
      ensures ok <==> AttemptAt(w, calls - 1).Delivers?
      ensures !ok ==> AttemptAt(w, calls - 1).Fatal? || calls == cfg.retries
      ensures forall i :: 0 <= i < |sleeps| ==> sleeps[i] == backoff * ((i + 1) as real) && AttemptAt(w, i).Transient?
    {
      calls, sleeps := 0, [];
      while true
        invariant calls < cfg.retries && |sleeps| == calls
        invariant forall i :: 0 <= i < |sleeps| ==>
          sleeps[i] == backoff * ((i + 1) as real) && AttemptAt(w, i).Transient?
        invariant FetchDelivers(w, 0, cfg.retries) == FetchDelivers(w, calls, cfg.retries)
        decreases cfg.retries - calls
      {
        var a := AttemptAt(w, calls);
        calls := calls + 1;
        if a.Delivers? { return true, calls, sleeps; }
        if a.Fatal? || calls == cfg.retries { return false, calls, sleeps; }
        sleeps := sleeps + [backoff * (calls as real)];
      }
    }

    /** `_normalize_records`, with its counters. */
    method NormalizeRecords(records: seq<SourceRecord>)
      returns (ns: seq<SourceRecord>, failed: nat, normalized: nat, warnings: nat)
      ensures ns == Normalizable(cfg.normalizer, records)
      ensures failed + normalized == |records| && normalized == |ns|
      ensures warnings == Warnings(cfg.normalizer, records)
    {
      ns, failed, normalized, warnings := [], 0, 0, 0;
      for i := 0 to |records|
        invariant ns == Normalizable(cfg.normalizer, records[..i])
        invariant failed + normalized == i && normalized == |ns|
        invariant warnings == Warnings(cfg.normalizer, records[..i])
      {
        assert records[..i + 1][..i] == records[..i];
        if !cfg.normalizer.accepts(records[i]) { failed := failed + 1; continue; }
        normalized := normalized + 1;
        warnings := warnings + cfg.normalizer.warnings(records[i]);
        ns := ns + [records[i]];
      }
      assert records[..|records|] == records;
    }

    /** The dry-run loop: count only. */
    method CountDuplicates(ns: seq<SourceRecord>) returns (duplicate: nat)
      ensures duplicate == CountSeen(KeySet(events), ns)
    {
      duplicate := 0;
      var seen := KeySet(events);
      for i := 0 to |ns|
        invariant seen == KeySet(events) + KeysIn(ns[..i])
        invariant duplicate == CountSeen(KeySet(events), ns[..i])
      {
        assert ns[..i + 1][..i] == ns[..i];
        KeysInAppend(ns[..i], ns[i]);
        assert ns[..i + 1] == ns[..i] + [ns[i]];
        if DedupKey(ns[i]) in seen { duplicate := duplicate + 1; }
        seen := seen + {DedupKey(ns[i])};
      }
      assert ns[..|ns|] == ns;
    }

    /** The real loop: add rows for keys not yet known. */
    method PersistEvents(ns: seq<SourceRecord>) returns (persisted: nat, duplicate: nat)
      modifies this`events
      ensures events == Persist(old(events), ns)
      ensures persisted == |events| - |old(events)| && persisted + duplicate == |ns|
    {
      persisted, duplicate := 0, 0;
      var known := KeySet(events);
      for i := 0 to |ns|
        invariant events == Persist(old(events), ns[..i])
        invariant known == KeySet(events)
        invariant persisted == |events| - |old(events)| && persisted + duplicate == i
      {
        assert ns[..i + 1][..i] == ns[..i];
        if DedupKey(ns[i]) in known { duplicate := duplicate + 1; continue; }
        KeySetAppend(events, RowOf(ns[i]));
        events := events + [RowOf(ns[i])];
        known := known + {DedupKey(ns[i])};
        persisted := persisted + 1;
      }
      assert ns[..|ns|] == ns;
    }

    /** `_record_failed_run`, after a rollback. */
    method RecordFailedRun(q: Request, w: Weather)
      requires Clean()
      modifies this`runs, this`committed
      ensures Clean() && committed == AfterFailure(old(committed), q, w)
    {
      if w.recordFails { return; }
      runs := runs + [FailedRow(committed, q)];
      committed := Db(events, checkpoint, runs);
    }

    /** `IngestionOrchestrator.run`. */
    method Run(q: Request, dryRun: bool, w: Weather, backoff: real) returns (result: RunResult)
      requires Clean() && RequestOk(q) && cfg.retries >= 1 && Allowed(cfg, events)
      modifies this`events, this`checkpoint, this`runs, this`committed
      ensures Clean()
      ensures (committed, result) == RunOnce(cfg, old(committed), q, dryRun, w)
    {
      hide FetchDelivers, Warnings, CountSeen, Normalizable, Persist, KeySet, UniqueEventIds, AllFit;
      var before := if q.checkpoint.Some? then q.checkpoint else checkpoint;
      var fetched, _, _ := FetchWithRetries(w, backoff);
      if !fetched {
        Rollback();
        RecordFailedRun(q, w);
        return Error;
      }
      var page := FetchRecords(cfg.records, q.start, q.end, q.limit, before);
      var ns, failed, normalized, warnings := NormalizeRecords(page.records);
      var row;
      if dryRun {
        var duplicate := CountDuplicates(ns);
        row := RunRow(DryRun, |page.records|, normalized, 0, duplicate, failed, warnings, before,
                      Some(page.nextOffset));
      } else {
        var persisted, duplicate := PersistEvents(ns);
        checkpoint := Some(page.nextOffset);
        row := RunRow(if failed > 0 then Partial else Succeeded, |page.records|, normalized, persisted, duplicate,
                      failed, warnings, before, Some(page.nextOffset));
      }
      runs := runs + [row];
      var ok := Commit(w.commitFails);
      if !ok {
        Rollback();
        RecordFailedRun(q, w);
        return Error;
      }
      return Ok(row, !dryRun);
    }
  }

  method HasUniqueEventIds(events: seq<EventRow>) returns (unique: bool)
    ensures unique <==> UniqueEventIds(events)
  {
    var seen: set<string> := {};
    for i := 0 to |events|
      invariant seen == set j | 0 <= j < i :: events[j].eventId
      invariant UniqueEventIds(events[..i])
    {
      if events[i].eventId in seen {
        var j :| 0 <= j < i && events[j].eventId == events[i].eventId;
        return false;
      }
      seen := seen + {events[i].eventId};
    }
    assert events[..|events|] == events;
    unique := true;
  }
}
