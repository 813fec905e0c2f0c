/** Actor-scoped idempotency keys (backend/reliability/idempotency.py). Digests are taken
    as injective, so keys and canonical payloads stand for their own digests. */
module Idempotency {
  import opened Basics

  const MAX_OPERATION := 100
  const MAX_KEY := 128

  datatype Scope = Scope(actor: nat, operation: string, key: string)

  datatype Row = Row(id: nat, request: string, completed: bool, status: nat, body: Option<string>, expiresAt: int)

  datatype Conflict = BadKey | DifferentRequest | InProgress

  datatype BeginResult =
    | Reserved(scope: Scope, id: nat)
    | Replay(status: nat, body: string)
    | Refused(conflict: Conflict)
    | Broken

  /** First half of `begin`: what the lookup decides. `Proceed` carries the expired row to
      delete, if one was found. */
  datatype Lookup = Stop(result: BeginResult) | Proceed(expired: Option<nat>)

  function Clip(operation: string): string {
    if |operation| > MAX_OPERATION then operation[..MAX_OPERATION] else operation
  }

  function LookUp(rows: map<Scope, Row>, s: Scope, request: string, now: int): Lookup {
    if s.key == "" || |s.key| > MAX_KEY then Stop(Refused(BadKey))
    else if s !in rows then Proceed(None)
    else
      var row := rows[s];
      if row.expiresAt <= now then Proceed(Some(row.id))
      else if row.request != request then Stop(Refused(DifferentRequest))
      else if row.completed && row.body.Some? then
        Stop(Replay(if row.status != 0 then row.status else 200, row.body.value))
      else Stop(Refused(InProgress))
  }

  /** The expired row seen by the lookup is deleted if it is still the one stored. */
  function DeleteExpired(rows: map<Scope, Row>, s: Scope, expired: Option<nat>): map<Scope, Row> {
    if expired.Some? && s in rows && rows[s].id == expired.value then rows - {s} else rows
  }

  /** Second half: delete, insert under the clipped operation name, and commit, unless the
      unique constraint refuses the insert and everything rolls back. */
  function Reserve(rows: map<Scope, Row>, s: Scope, request: string, expired: Option<nat>, id: nat, now: int,
                  retention: int): (map<Scope, Row>, BeginResult)
  {
    var kept := DeleteExpired(rows, s, expired);
    var at := s.(operation := Clip(s.operation));
    if at in kept then (rows, Refused(InProgress))
    else (kept[at := Row(id, request, false, 0, None, now + retention)], Reserved(at, id))
  }

  predicate Holds(rows: map<Scope, Row>, s: Scope, id: nat) { s in rows && rows[s].id == id }

  /** `complete` on a reservation that is still stored; error responses are not cached. */
  function Completed(rows: map<Scope, Row>, s: Scope, id: nat, status: nat, body: string): map<Scope, Row> {
    if status >= 400 || !Holds(rows, s, id) then rows
    else rows[s := rows[s].(completed := true, status := status, body := Some(body))]
  }

  function Abandoned(rows: map<Scope, Row>, s: Scope, id: nat): map<Scope, Row> {
    if Holds(rows, s, id) then rows - {s} else rows
  }

  /** An answer below 400 is stored with its status in the reservation it answers; an error, or
      an answer to a reservation that is gone or not its own, changes nothing. */
  lemma CompletionSays(rows: map<Scope, Row>, s: Scope, id: nat, status: nat, body: string)
    ensures var after := Completed(rows, s, id, status, body);
      && (status < 400 && s in rows && rows[s].id == id ==>
            after == rows[s := Row(id, rows[s].request, true, status, Some(body), rows[s].expiresAt)])
      && (status >= 400 || s !in rows || rows[s].id != id ==> after == rows)
    ensures s in rows && rows[s].id == id ==> Abandoned(rows, s, id) == map t | t in rows && t != s :: rows[t]
  { }

  // ---- The service ---------------------------------------------------------

  class IdempotencyService {
    var rows: map<Scope, Row>
    var nextId: nat
    const retention: int

    /** `retention_hours` is raised to at least one hour. */
    constructor (retentionHours: int)
      ensures rows == map[] && nextId == 0
      ensures retention >= 3600 && (retentionHours >= 1 ==> retention == retentionHours * 3600)
    {
      rows, nextId := map[], 0;
      retention := (if retentionHours < 1 then 1 else retentionHours) * 3600;
    }

    /** `begin`, reading the clock once to check expiry and once to stamp the reservation.
        When the database `fails` to take the reservation, nothing of it stays. */
    method Begin(actor: nat, operation: string, key: string, payload: string, checkedAt: int, stampedAt: int,
                 fails: bool)
      returns (r: BeginResult)
      requires checkedAt <= stampedAt
      modifies this`rows, this`nextId
      ensures var s := Scope(actor, operation, key);
        (rows, r) == match LookUp(old(rows), s, payload, checkedAt)
          case Stop(result) => (old(rows), result)
          case Proceed(expired) =>
            if fails then (old(rows), Broken)
            else Reserve(old(rows), s, payload, expired, old(nextId), stampedAt, retention)
      ensures nextId == old(nextId) + if r.Reserved? then 1 else 0
    {
      if key == "" || |key| > MAX_KEY { return Refused(BadKey); }
      var s := Scope(actor, operation, key);
      var working := rows;
      if s in rows {
        var existing := rows[s];
        if existing.expiresAt <= checkedAt {
          working := working - {s};
        } else if existing.request != payload {
          return Refused(DifferentRequest);
        } else if existing.completed && existing.body.Some? {
          return Replay(if existing.status != 0 then existing.status else 200, existing.body.value);
        } else {
          return Refused(InProgress);
        }
      }
      if fails { return Broken; }
      var at := Scope(actor, Clip(operation), key);
      if at in working { return Refused(InProgress); }
      rows := working[at := Row(nextId, payload, false, 0, None, stampedAt + retention)];
      r := Reserved(at, nextId);
      nextId := nextId + 1;
    }

    method Complete(s: Scope, id: nat, status: nat, body: string)
      modifies this`rows
      ensures rows == Completed(old(rows), s, id, status, body)
    {
      if status >= 400 { return; }
      if s in rows && rows[s].id == id {
        rows := rows[s := rows[s].(completed := true, status := status, body := Some(body))];
      }
    }

    method Abandon(s: Scope, id: nat)
      modifies this`rows
      ensures rows == Abandoned(old(rows), s, id)
    {
      if s in rows && rows[s].id == id { rows := rows - {s}; }
    }
  }

  // ---- Every interleaving --------------------------------------------------

  /** Many clients run `begin` in two separate steps, with completions and abandonments in
      between; each step carries its clock reading. */
  datatype Step =
    | DoLookup(client: nat, scope: Scope, request: string, now: int)
    | DoInsert(client: nat, now: int)
    | DoComplete(scope: Scope, id: nat, status: nat, body: string, now: int)
    | DoAbandon(scope: Scope, id: nat, now: int)

  datatype Pending = Pending(scope: Scope, request: string, expired: Option<nat>)

  datatype Entry =
    | Granted(scope: Scope, id: nat, request: string, at: int)
    | Gone(id: nat)
    | Answered(id: nat, status: nat, body: string)
    | Replayed(scope: Scope, request: string, status: nat, body: string)

  datatype State = State(rows: map<Scope, Row>, nextId: nat, pending: map<nat, Pending>, clock: int, log: seq<Entry>)

  function Init(clock: int): State { State(map[], 0, map[], clock, []) }

  function Do(st: State, x: Step, retention: int): State {
    match x
    case DoLookup(c, s, request, now) =>
      (match LookUp(st.rows, s, request, now)
       case Proceed(expired) => st.(pending := st.pending[c := Pending(s, request, expired)], clock := now)
       case Stop(Replay(status, body)) =>
         st.(pending := st.pending - {c}, clock := now, log := st.log + [Replayed(s, request, status, body)])
       case Stop(_) => st.(pending := st.pending - {c}, clock := now))
    case DoInsert(c, now) =>
      if c !in st.pending then st.(clock := now)
      else
        var p := st.pending[c];
        var (rows, r) := Reserve(st.rows, p.scope, p.request, p.expired, st.nextId, now, retention);
        if r.Reserved? then
          State(rows, st.nextId + 1, st.pending - {c}, now, st.log + [Granted(r.scope, st.nextId, p.request, now)])
        else st.(pending := st.pending - {c}, clock := now)
    case DoComplete(s, id, status, body, now) =>
      if status < 400 && Holds(st.rows, s, id) then
        st.(rows := Completed(st.rows, s, id, status, body), clock := now, log := st.log + [Answered(id, status, body)])
      else st.(clock := now)
    case DoAbandon(s, id, now) =>
      if Holds(st.rows, s, id) then
        st.(rows := Abandoned(st.rows, s, id), clock := now, log := st.log + [Gone(id)])
      else st.(clock := now)
  }

  function Run(start: int, xs: seq<Step>, retention: int): State {
    if xs == [] then Init(start) else Do(Run(start, xs[..|xs| - 1], retention), xs[|xs| - 1], retention)
  }

  /** The clock never runs backwards. */
  ghost predicate Clocked(start: int, xs: seq<Step>) {
    forall i :: 0 <= i < |xs| ==> start <= xs[i].now && forall j :: i < j < |xs| ==> xs[i].now <= xs[j].now
  }

  // ---- The invariant -------------------------------------------------------

  /** A grant that no longer holds its row was abandoned, or its retention has passed. */
  ghost predicate Settled(st: State, g: Entry, retention: int)
    requires g.Granted?
  {
    Holds(st.rows, g.scope, g.id) || Gone(g.id) in st.log || g.at + retention <= st.clock
  }

  ghost predicate RowBacked(st: State, s: Scope, retention: int)
    requires s in st.rows
  {
    var row := st.rows[s];
    && row.id < st.nextId
    && Granted(s, row.id, row.request, row.expiresAt - retention) in st.log
    && (row.completed ==> row.body.Some? && row.status < 400 && Answered(row.id, row.status, row.body.value) in st.log)
  }

  /** The row a pending lookup wants to delete had expired when it was seen. */
  ghost predicate PendingOk(st: State, p: Pending, retention: int) {
    p.expired.Some? ==>
      && p.expired.value < st.nextId
      && forall i :: 0 <= i < |st.log| && st.log[i].Granted? && st.log[i].id == p.expired.value ==>
           st.log[i].at + retention <= st.clock
  }

  ghost predicate GrantOk(st: State, g: Entry, retention: int) {
    g.Granted? ==> g.id < st.nextId && g.at <= st.clock && Settled(st, g, retention)
  }

  /** Two grants of one scope: the first was abandoned in between, or had run out. */
  ghost predicate Apart(log: seq<Entry>, i: nat, j: nat, retention: int)
    requires i < j < |log| && log[i].Granted? && log[j].Granted?
  {
    Gone(log[i].id) in log[..j] || log[j].at >= log[i].at + retention
  }

  ghost predicate Inv(st: State, retention: int) {
    && (forall s :: s in st.rows ==> RowBacked(st, s, retention))
    && (forall c :: c in st.pending ==> PendingOk(st, st.pending[c], retention))
    && (forall i :: 0 <= i < |st.log| ==> GrantOk(st, st.log[i], retention))
    && IdsDiffer(st.log)
  }

  ghost predicate IdsDiffer(log: seq<Entry>) {
    forall i, j :: 0 <= i < j < |log| && log[i].Granted? && log[j].Granted? ==> log[i].id != log[j].id
  }

  ghost predicate AllApart(log: seq<Entry>, retention: int) {
    forall i, j :: 0 <= i < j < |log| && log[i].Granted? && log[j].Granted? && log[i].scope == log[j].scope ==>
      Apart(log, i, j, retention)
  }

  /** Every replay hands out an answer given earlier to a grant of the same scope and request. */
  ghost predicate ReplayFaithful(log: seq<Entry>, k: nat)
    requires k < |log|
  {
    log[k].Replayed? ==>
      exists i, j :: 0 <= i < k && 0 <= j < k && log[i].Granted? && log[j].Answered? && log[i].id == log[j].id
        && log[i].scope == log[k].scope && log[i].request == log[k].request
        && log[j].body == log[k].body && log[k].status == if log[j].status != 0 then log[j].status else 200
  }

  ghost predicate AllFaithful(log: seq<Entry>) { forall k :: 0 <= k < |log| ==> ReplayFaithful(log, k) }

  lemma AppendKeepsApart(log: seq<Entry>, e: Entry, retention: int)
    requires AllApart(log, retention)
    requires e.Granted? ==> forall i :: 0 <= i < |log| && log[i].Granted? && log[i].scope == e.scope ==>
      Gone(log[i].id) in log || e.at >= log[i].at + retention
    ensures AllApart(log + [e], retention)
  {
    var more := log + [e];
    forall i, j | 0 <= i < j < |more| && more[i].Granted? && more[j].Granted? && more[i].scope == more[j].scope
      ensures Apart(more, i, j, retention)
    {
      assert more[..j] == log[..j];
      if j < |log| { assert Apart(log, i, j, retention); } else { assert log[..j] == log; }
    }
  }

  lemma AppendKeepsFaithful(log: seq<Entry>, e: Entry)
    requires AllFaithful(log) && (e.Replayed? ==> ReplayFaithful(log + [e], |log|))
    ensures AllFaithful(log + [e])
  {
    var more := log + [e];
    forall k | 0 <= k < |more| ensures ReplayFaithful(more, k) {
      if k < |log| && log[k].Replayed? {
        assert ReplayFaithful(log, k);
        var i, j :| 0 <= i < k && 0 <= j < k && log[i].Granted? && log[j].Answered? && log[i].id == log[j].id
          && log[i].scope == log[k].scope && log[i].request == log[k].request
          && log[j].body == log[k].body && log[k].status == if log[j].status != 0 then log[j].status else 200;
        assert more[i] == log[i] && more[j] == log[j] && more[k] == log[k];
      }
    }
  }

  ghost predicate Good(st: State, retention: int) {
    Inv(st, retention) && AllApart(st.log, retention) && AllFaithful(st.log)
  }

  function Maybe(e: Option<Entry>): seq<Entry> { if e.Some? then [e.value] else [] }

  /** A step appends at most one entry, a grant only under the next id. */
  ghost predicate Follows(st: State, after: State, e: Option<Entry>) {
    && after.log == st.log + Maybe(e) && st.clock <= after.clock && st.nextId <= after.nextId
    && (e.Some? && e.value.Granted? ==> e.value.id == st.nextId && after.nextId == st.nextId + 1)
  }

  lemma PendingCarries(st: State, after: State, e: Option<Entry>, p: Pending, retention: int)
    requires Follows(st, after, e) && PendingOk(st, p, retention)
    ensures PendingOk(after, p, retention)
  { }

  lemma RowCarries(st: State, after: State, e: Option<Entry>, s: Scope, retention: int)
    requires Follows(st, after, e) && s in st.rows && RowBacked(st, s, retention)
    requires s in after.rows && after.rows[s] == st.rows[s]
    ensures RowBacked(after, s, retention)
  {
    assert forall g :: g in st.log ==> g in after.log;
  }

  /** A grant stays settled unless its own row disappears unabandoned and unexpired. */
  lemma GrantCarries(st: State, after: State, e: Option<Entry>, g: Entry, retention: int)
    requires Follows(st, after, e) && GrantOk(st, g, retention)
    requires g.Granted? && Holds(st.rows, g.scope, g.id) ==> Settled(after, g, retention)
    ensures GrantOk(after, g, retention)
  {
    assert forall x :: x in st.log ==> x in after.log;
  }

  lemma Assemble(st: State, after: State, e: Option<Entry>, retention: int)
    requires Good(st, retention) && Follows(st, after, e)
    requires forall s :: s in after.rows ==> RowBacked(after, s, retention)
    requires forall c :: c in after.pending ==> PendingOk(after, after.pending[c], retention)
    requires forall i :: 0 <= i < |st.log| ==> GrantOk(after, st.log[i], retention)
    requires e.Some? ==> GrantOk(after, e.value, retention)
    requires e.Some? && e.value.Granted? ==>
      forall i :: 0 <= i < |st.log| && st.log[i].Granted? && st.log[i].scope == e.value.scope ==>
        Gone(st.log[i].id) in st.log || e.value.at >= st.log[i].at + retention
    requires e.Some? && e.value.Replayed? ==> ReplayFaithful(st.log + [e.value], |st.log|)
    ensures Good(after, retention)
  {
    if e.Some? {
      AppendKeepsApart(st.log, e.value, retention);
      AppendKeepsFaithful(st.log, e.value);
      forall i, j | 0 <= i < j < |after.log| && after.log[i].Granted? && after.log[j].Granted?
        ensures after.log[i].id != after.log[j].id
      {
        assert GrantOk(st, st.log[i], retention);
      }
    } else {
      assert after.log == st.log;
    }
  }

  /** The log entry that granted a stored row is the only one with its id. */
  lemma GrantOfRow(st: State, s: Scope, retention: int) returns (k: nat)
    requires Inv(st, retention) && s in st.rows
    ensures k < |st.log| && st.log[k].Granted? && st.log[k].scope == s && st.log[k].id == st.rows[s].id
    ensures st.log[k].request == st.rows[s].request && st.log[k].at + retention == st.rows[s].expiresAt
    ensures forall i :: 0 <= i < |st.log| && st.log[i].Granted? && st.log[i].id == st.rows[s].id ==> i == k
  {
    assert RowBacked(st, s, retention);
    var row := st.rows[s];
    k :| 0 <= k < |st.log| && st.log[k] == Granted(s, row.id, row.request, row.expiresAt - retention);
    forall i | 0 <= i < |st.log| && st.log[i].Granted? && st.log[i].id == row.id ensures i == k {
      assert IdsDiffer(st.log);
    }
  }

  /** Nothing but the clock, the pending table and perhaps a replay entry changed. */
  lemma RowsUntouched(st: State, after: State, e: Option<Entry>, retention: int)
    requires Good(st, retention) && Follows(st, after, e) && after.rows == st.rows
    requires e.Some? ==> e.value.Replayed? && ReplayFaithful(st.log + [e.value], |st.log|)
    requires forall c :: c in after.pending ==>
      (c in st.pending && after.pending[c] == st.pending[c]) || PendingOk(after, after.pending[c], retention)
    ensures Good(after, retention)
  {
    forall s | s in after.rows ensures RowBacked(after, s, retention) { RowCarries(st, after, e, s, retention); }
    forall c | c in after.pending ensures PendingOk(after, after.pending[c], retention) {
      if c in st.pending && after.pending[c] == st.pending[c] {
        PendingCarries(st, after, e, st.pending[c], retention);
      }
    }
    forall i | 0 <= i < |st.log| ensures GrantOk(after, st.log[i], retention) {
      GrantCarries(st, after, e, st.log[i], retention);
    }
    Assemble(st, after, e, retention);
  }

  lemma ReplayIsFaithful(st: State, s: Scope, request: string, now: int, retention: int)
    requires Good(st, retention) && LookUp(st.rows, s, request, now).Stop?
    requires LookUp(st.rows, s, request, now).result.Replay?
    ensures var r := LookUp(st.rows, s, request, now).result;
      ReplayFaithful(st.log + [Replayed(s, request, r.status, r.body)], |st.log|)
  {
    var r := LookUp(st.rows, s, request, now).result;
    assert RowBacked(st, s, retention);
    var row := st.rows[s];
    var k := GrantOfRow(st, s, retention);
    var j :| 0 <= j < |st.log| && st.log[j] == Answered(row.id, row.status, row.body.value);
    var more := st.log + [Replayed(s, request, r.status, r.body)];
    assert more[k] == st.log[k] && more[j] == st.log[j];
  }

  lemma LookupKeepsGood(st: State, x: Step, retention: int)
    requires Good(st, retention) && x.DoLookup? && st.clock <= x.now && retention > 0
    ensures Good(Do(st, x, retention), retention)
  {
    var r := LookUp(st.rows, x.scope, x.request, x.now);
    var after := Do(st, x, retention);
    if r.Proceed? {
      if r.expired.Some? {
        var k := GrantOfRow(st, x.scope, retention);
        assert RowBacked(st, x.scope, retention);
      }
      assert PendingOk(after, Pending(x.scope, x.request, r.expired), retention);
      assert after.log == st.log + Maybe(None);
      RowsUntouched(st, after, None, retention);
    } else if r.result.Replay? {
      ReplayIsFaithful(st, x.scope, x.request, x.now, retention);
      RowsUntouched(st, after, Some(Replayed(x.scope, x.request, r.result.status, r.result.body)), retention);
    } else {
      assert after.log == st.log + Maybe(None);
      RowsUntouched(st, after, None, retention);
    }
  }

  /** An earlier grant of the scope being granted is abandoned or has run out. */
  lemma EarlierGrantsAreOver(st: State, p: Pending, now: int, i: nat, retention: int)
    requires Inv(st, retention) && PendingOk(st, p, retention) && st.clock <= now && i < |st.log| && st.log[i].Granted?
    requires p.scope.(operation := Clip(p.scope.operation)) !in DeleteExpired(st.rows, p.scope, p.expired)
    requires st.log[i].scope == p.scope.(operation := Clip(p.scope.operation))
    ensures Gone(st.log[i].id) in st.log || now >= st.log[i].at + retention
  {
    assert GrantOk(st, st.log[i], retention);
  }

  /** A grant whose row the insert removed had expired. */
  lemma OtherGrantsStaySettled(st: State, after: State, p: Pending, i: nat, retention: int)
    requires Inv(st, retention) && PendingOk(st, p, retention) && i < |st.log| && st.log[i].Granted?
    requires st.clock <= after.clock && Holds(st.rows, st.log[i].scope, st.log[i].id)
    requires forall s :: s in DeleteExpired(st.rows, p.scope, p.expired) ==>
      s in after.rows && after.rows[s] == st.rows[s]
    ensures Settled(after, st.log[i], retention)
  { }

  lemma InsertKeepsGood(st: State, x: Step, retention: int)
    requires Good(st, retention) && x.DoInsert? && st.clock <= x.now && retention > 0
    ensures Good(Do(st, x, retention), retention)
  {
    var after := Do(st, x, retention);
    if x.client !in st.pending {
      assert after.log == st.log + Maybe(None);
      RowsUntouched(st, after, None, retention);
      return;
    }
    var p := st.pending[x.client];
    assert PendingOk(st, p, retention);
    var (rows, r) := Reserve(st.rows, p.scope, p.request, p.expired, st.nextId, x.now, retention);
    if !r.Reserved? {
      assert after.log == st.log + Maybe(None);
      RowsUntouched(st, after, None, retention);
      return;
    }
    var e := Some(Granted(r.scope, st.nextId, p.request, x.now));
    assert after.log == st.log + Maybe(e) && after.log[|st.log|] == e.value;
    forall s | s in after.rows ensures RowBacked(after, s, retention) {
      if s != r.scope { RowCarries(st, after, e, s, retention); }
    }
    forall c | c in after.pending ensures PendingOk(after, after.pending[c], retention) {
      PendingCarries(st, after, e, st.pending[c], retention);
    }
    forall i | 0 <= i < |st.log| ensures GrantOk(after, st.log[i], retention) {
      if st.log[i].Granted? && Holds(st.rows, st.log[i].scope, st.log[i].id) {
        OtherGrantsStaySettled(st, after, p, i, retention);
      }
      GrantCarries(st, after, e, st.log[i], retention);
    }
    forall i | 0 <= i < |st.log| && st.log[i].Granted? && st.log[i].scope == r.scope
      ensures Gone(st.log[i].id) in st.log || x.now >= st.log[i].at + retention
    {
      EarlierGrantsAreOver(st, p, x.now, i, retention);
    }
    Assemble(st, after, e, retention);
  }

  lemma CompleteKeepsGood(st: State, x: Step, retention: int)
    requires Good(st, retention) && x.DoComplete? && st.clock <= x.now && retention > 0
    ensures Good(Do(st, x, retention), retention)
  {
    hide PendingOk, GrantOk, AllApart, AllFaithful;
    var after := Do(st, x, retention);
    if x.status >= 400 || !Holds(st.rows, x.scope, x.id) {
      assert after.log == st.log + Maybe(None);
      RowsUntouched(st, after, None, retention);
      return;
    }
    var e := Some(Answered(x.id, x.status, x.body));
    assert after.log == st.log + Maybe(e) && after.log[|st.log|] == e.value;
    forall s | s in after.rows ensures RowBacked(after, s, retention) {
      if s != x.scope {
        RowCarries(st, after, e, s, retention);
      } else {
        assert RowBacked(st, s, retention);
        assert forall g :: g in st.log ==> g in after.log;
      }
    }
    forall c | c in after.pending ensures PendingOk(after, after.pending[c], retention) {
      PendingCarries(st, after, e, st.pending[c], retention);
    }
    forall i | 0 <= i < |st.log| ensures GrantOk(after, st.log[i], retention) {
      GrantCarries(st, after, e, st.log[i], retention);
    }
    Assemble(st, after, e, retention);
  }

  lemma AbandonKeepsGood(st: State, x: Step, retention: int)
    requires Good(st, retention) && x.DoAbandon? && st.clock <= x.now && retention > 0
    ensures Good(Do(st, x, retention), retention)
  {
    var after := Do(st, x, retention);
    if !Holds(st.rows, x.scope, x.id) {
      assert after.log == st.log + Maybe(None);
      RowsUntouched(st, after, None, retention);
      return;
    }
    var e := Some(Gone(x.id));
    assert after.log == st.log + Maybe(e) && after.log[|st.log|] == e.value;
    forall s | s in after.rows ensures RowBacked(after, s, retention) { RowCarries(st, after, e, s, retention); }
    forall c | c in after.pending ensures PendingOk(after, after.pending[c], retention) {
      PendingCarries(st, after, e, st.pending[c], retention);
    }
    forall i | 0 <= i < |st.log| ensures GrantOk(after, st.log[i], retention) {
      GrantCarries(st, after, e, st.log[i], retention);
    }
    Assemble(st, after, e, retention);
  }

  lemma {:induction false} RunGood(start: int, xs: seq<Step>, retention: int)
    requires Clocked(start, xs) && retention > 0
    ensures Good(Run(start, xs, retention), retention)
    ensures Run(start, xs, retention).clock == if xs == [] then start else xs[|xs| - 1].now
  {
    if xs != [] {
      var k := |xs| - 1;
      RunGood(start, xs[..k], retention);
      var st := Run(start, xs[..k], retention);
      match xs[k]
      case DoLookup(_, _, _, _) => LookupKeepsGood(st, xs[k], retention);
      case DoInsert(_, _) => InsertKeepsGood(st, xs[k], retention);
      case DoComplete(_, _, _, _, _) => CompleteKeepsGood(st, xs[k], retention);
      case DoAbandon(_, _, _) => AbandonKeepsGood(st, xs[k], retention);
    }
  }

  /** At most one execution: in every interleaving, a key of one actor and operation is
      granted again only after the earlier grant was abandoned or its retention ran out. */
  lemma {:induction false} AtMostOnce(start: int, xs: seq<Step>, retention: int, i: nat, j: nat)
    requires Clocked(start, xs) && retention > 0
    requires var log := Run(start, xs, retention).log;
      i < j < |log| && log[i].Granted? && log[j].Granted? && log[i].scope == log[j].scope
    ensures var log := Run(start, xs, retention).log;
      Gone(log[i].id) in log[..j] || log[j].at >= log[i].at + retention
  {
    RunGood(start, xs, retention);
    assert Apart(Run(start, xs, retention).log, i, j, retention);
  }

  /** A replay is always a body that some grant of the same scope answered, for the very
      same request, before the replay. */
  lemma {:induction false} ReplaysAreFaithful(start: int, xs: seq<Step>, retention: int, k: nat)
    requires Clocked(start, xs) && retention > 0 && k < |Run(start, xs, retention).log|
    ensures ReplayFaithful(Run(start, xs, retention).log, k)
  {
    RunGood(start, xs, retention);
  }

  // ---- No key is blocked for longer than that ------------------------------

  /** A stored row was never abandoned, and ids are not reused. */
  ghost predicate NeverGone(st: State) {
    && (forall s :: s in st.rows ==> Gone(st.rows[s].id) !in st.log)
    && (forall k :: 0 <= k < |st.log| && st.log[k].Gone? ==> st.log[k].id < st.nextId)
  }

  lemma RowIdsDiffer(st: State, s: Scope, t: Scope, retention: int)
    requires Inv(st, retention) && s in st.rows && t in st.rows && st.rows[s].id == st.rows[t].id
    ensures s == t
  {
    var k := GrantOfRow(st, s, retention);
    var j := GrantOfRow(st, t, retention);
  }

  lemma AbandonKeepsNeverGone(st: State, x: Step, retention: int)
    requires Good(st, retention) && NeverGone(st) && x.DoAbandon? && Holds(st.rows, x.scope, x.id)
    ensures NeverGone(Do(st, x, retention))
  {
    var after := Do(st, x, retention);
    assert RowBacked(st, x.scope, retention);
    forall s | s in after.rows ensures st.rows[s].id != x.id {
      if st.rows[s].id == x.id { RowIdsDiffer(st, s, x.scope, retention); }
    }
    hide Good;
  }

  lemma StepKeepsNeverGone(st: State, x: Step, retention: int)
    requires Good(st, retention) && NeverGone(st)
    ensures NeverGone(Do(st, x, retention))
  {
    forall s | s in st.rows ensures st.rows[s].id < st.nextId { assert RowBacked(st, s, retention); }
    if x.DoAbandon? && Holds(st.rows, x.scope, x.id) { AbandonKeepsNeverGone(st, x, retention); }
    hide Good;
  }

  lemma {:induction false} RunNeverGone(start: int, xs: seq<Step>, retention: int)
    requires Clocked(start, xs) && retention > 0
    ensures NeverGone(Run(start, xs, retention))
  {
    if xs != [] {
      var n := |xs| - 1;
      RunNeverGone(start, xs[..n], retention);
      RunGood(start, xs[..n], retention);
      StepKeepsNeverGone(Run(start, xs[..n], retention), xs[n], retention);
    }
  }

  /** The scope's earlier grants are all abandoned or out of retention at `now`. */
  ghost predicate AllOver(log: seq<Entry>, s: Scope, now: int, retention: int) {
    forall i :: 0 <= i < |log| && log[i].Granted? && log[i].scope == s ==>
      Gone(log[i].id) in log || log[i].at + retention <= now
  }

  /** `begin` without interference, at one clock reading. */
  function BeginAt(rows: map<Scope, Row>, s: Scope, request: string, id: nat, now: int, retention: int): BeginResult {
    match LookUp(rows, s, request, now)
    case Stop(result) => result
    case Proceed(expired) => Reserve(rows, s, request, expired, id, now, retention).1
  }

  lemma RowDecides(st: State, s: Scope, request: string, now: int, retention: int)
    requires s.key != "" && |s.key| <= MAX_KEY && |s.operation| <= MAX_OPERATION
    ensures BeginAt(st.rows, s, request, st.nextId, now, retention).Reserved? <==>
      s !in st.rows || st.rows[s].expiresAt <= now
  {
    assert s.(operation := Clip(s.operation)) == s;
  }

  lemma RowMeansLive(st: State, s: Scope, now: int, retention: int)
    requires Good(st, retention) && NeverGone(st) && st.clock <= now
    ensures AllOver(st.log, s, now, retention) <==> s !in st.rows || st.rows[s].expiresAt <= now
  {
    hide AllApart, AllFaithful;
    if s in st.rows {
      var k := GrantOfRow(st, s, retention);
    }
    forall i | 0 <= i < |st.log| && st.log[i].Granted? && st.log[i].scope == s && !Holds(st.rows, s, st.log[i].id)
      ensures Gone(st.log[i].id) in st.log || st.log[i].at + retention <= now
    {
      assert GrantOk(st, st.log[i], retention);
    }
  }

  /** The other half of at-most-once: after any interleaving, a key is free to be granted
      exactly when its earlier grants were all abandoned or have outlived their retention. */
  lemma {:induction false} GrantedExactly(start: int, xs: seq<Step>, retention: int, s: Scope, request: string,
                                          now: int)
    requires Clocked(start, xs) && retention > 0 && Run(start, xs, retention).clock <= now
    requires s.key != "" && |s.key| <= MAX_KEY && |s.operation| <= MAX_OPERATION
    ensures var st := Run(start, xs, retention);
      BeginAt(st.rows, s, request, st.nextId, now, retention).Reserved? <==> AllOver(st.log, s, now, retention)
  {
    RunGood(start, xs, retention);
    RunNeverGone(start, xs, retention);
    var st := Run(start, xs, retention);
    hide Run, Good, NeverGone, AllOver, BeginAt;
    RowDecides(st, s, request, now, retention);
    RowMeansLive(st, s, now, retention);
  }

  // ---- An answered key is replayed -----------------------------------------

  /** The grant with this id was answered. */
  ghost predicate HasAnswer(log: seq<Entry>, id: nat) {
    exists k :: 0 <= k < |log| && log[k].Answered? && log[k].id == id
  }

  /** Answers come after their grants, and a row that was answered stays completed. */
  ghost predicate AnswersStay(st: State) {
    && (forall k :: 0 <= k < |st.log| && st.log[k].Answered? ==> st.log[k].id < st.nextId)
    && (forall s :: s in st.rows && HasAnswer(st.log, st.rows[s].id) ==> st.rows[s].completed)
  }

  lemma AnswersAppend(log: seq<Entry>, e: Entry, id: nat)
    ensures HasAnswer(log + [e], id) <==> HasAnswer(log, id) || (e.Answered? && e.id == id)
  {
    var more := log + [e];
    if k :| 0 <= k < |log| && log[k].Answered? && log[k].id == id { assert more[k] == log[k]; }
    if e.Answered? && e.id == id { assert more[|log|] == e; }
  }

  lemma InsertKeepsAnswers(st: State, x: Step, retention: int)
    requires AnswersStay(st) && x.DoInsert?
    ensures AnswersStay(Do(st, x, retention))
  {
    hide HasAnswer;
    var after := Do(st, x, retention);
    if after.nextId > st.nextId {
      assert !HasAnswer(st.log, st.nextId) by {
        assert forall k :: 0 <= k < |st.log| && st.log[k].Answered? ==> st.log[k].id != st.nextId;
        NoAnswer(st.log, st.nextId);
      }
      forall s | s in after.rows && HasAnswer(after.log, after.rows[s].id) ensures after.rows[s].completed {
        AnswersAppend(st.log, after.log[|st.log|], after.rows[s].id);
      }
    }
  }

  lemma NoAnswer(log: seq<Entry>, id: nat)
    requires forall k :: 0 <= k < |log| && log[k].Answered? ==> log[k].id != id
    ensures !HasAnswer(log, id)
  { }

  lemma StepKeepsAnswers(st: State, x: Step, retention: int)
    requires Good(st, retention) && AnswersStay(st)
    ensures AnswersStay(Do(st, x, retention))
  {
    hide HasAnswer, PendingOk, GrantOk, AllApart, AllFaithful;
    if x.DoInsert? {
      InsertKeepsAnswers(st, x, retention);
    } else {
      var after := Do(st, x, retention);
      if x.DoComplete? && Holds(st.rows, x.scope, x.id) { assert RowBacked(st, x.scope, retention); }
      forall s | s in after.rows && HasAnswer(after.log, after.rows[s].id) ensures after.rows[s].completed {
        if after.log != st.log {
          AnswersAppend(st.log, after.log[|st.log|], after.rows[s].id);
          if x.DoComplete? && s in st.rows && st.rows[s].id == x.id { RowIdsDiffer(st, s, x.scope, retention); }
        }
      }
    }
  }

  lemma {:induction false} RunKeepsAnswers(start: int, xs: seq<Step>, retention: int)
    requires Clocked(start, xs) && retention > 0
    ensures AnswersStay(Run(start, xs, retention))
  {
    if xs != [] {
      var n := |xs| - 1;
      RunKeepsAnswers(start, xs[..n], retention);
      RunGood(start, xs[..n], retention);
      StepKeepsAnswers(Run(start, xs[..n], retention), xs[n], retention);
    }
  }

  // ---- Long operation names ------------------------------------------------

  lemma {:induction false} RowsAreClipped(start: int, xs: seq<Step>, retention: int)
    ensures forall s :: s in Run(start, xs, retention).rows ==> |s.operation| <= MAX_OPERATION
  {
    if xs != [] { RowsAreClipped(start, xs[..|xs| - 1], retention); }
  }

  /** Rows live under clipped names only, so a name beyond the clip never finds its row:
      it is never replayed, and while a row exists even an expired one blocks it. */
  lemma {:induction false} LongOperationNeverReplays(start: int, xs: seq<Step>, retention: int, s: Scope,
                                                     request: string, now: int)
    requires |s.operation| > MAX_OPERATION
    ensures var rows := Run(start, xs, retention).rows;
      && !LookUp(rows, s, request, now).Proceed?  ==> LookUp(rows, s, request, now) == Stop(Refused(BadKey))
    ensures var rows := Run(start, xs, retention).rows; var at := s.(operation := Clip(s.operation));
      LookUp(rows, s, request, now).Proceed? && at in rows ==>
        Reserve(rows, s, request, LookUp(rows, s, request, now).expired, 0, now, retention).1 == Refused(InProgress)
  {
    RowsAreClipped(start, xs, retention);
  }

  /** The grant `g` was answered, not abandoned, and is within its retention at `now`. */
  ghost predicate Answerable(st: State, g: Entry, now: int, retention: int) {
    g in st.log && g.Granted? && HasAnswer(st.log, g.id) && Gone(g.id) !in st.log && st.clock <= now < g.at + retention
  }

  lemma AnswerableRow(st: State, g: Entry, now: int, retention: int)
    requires Good(st, retention) && AnswersStay(st) && Answerable(st, g, now, retention)
    ensures g.scope in st.rows
    ensures var row := st.rows[g.scope];
      row.id == g.id && row.request == g.request && row.expiresAt > now && row.completed && row.body.Some?
      && Answered(g.id, row.status, row.body.value) in st.log
  {
    hide AllApart, AllFaithful, HasAnswer, PendingOk;
    var i :| 0 <= i < |st.log| && st.log[i] == g;
    assert GrantOk(st, st.log[i], retention);
    assert RowBacked(st, g.scope, retention);
    var k := GrantOfRow(st, g.scope, retention);
  }

  predicate Repeats(e: Entry, id: nat, r: BeginResult) {
    e.Answered? && e.id == id && r == Replay(if e.status != 0 then e.status else 200, e.body)
  }

  /** The result repeats an answer to this grant. */
  ghost predicate RepeatsAnswer(log: seq<Entry>, id: nat, r: BeginResult) {
    exists k :: 0 <= k < |log| && Repeats(log[k], id, r)
  }

  /** After any interleaving, a request under the key of an answered grant, for the same
      payload and for an operation that clips to the same name, is replayed exactly when
      its operation is no longer than the clip. */
  lemma {:induction false} AnsweredIsReplayedExactly(start: int, xs: seq<Step>, retention: int, g: Entry, s: Scope,
                                                     now: int)
    requires Clocked(start, xs) && retention > 0 && Answerable(Run(start, xs, retention), g, now, retention)
    requires s.key != "" && |s.key| <= MAX_KEY && s.(operation := Clip(s.operation)) == g.scope
    ensures var r := LookUp(Run(start, xs, retention).rows, s, g.request, now);
      && (r.Stop? && r.result.Replay? <==> |s.operation| <= MAX_OPERATION)
      && (r.Stop? ==> RepeatsAnswer(Run(start, xs, retention).log, g.id, r.result))
  {
    RunGood(start, xs, retention);
    RunKeepsAnswers(start, xs, retention);
    RowsAreClipped(start, xs, retention);
    var st := Run(start, xs, retention);
    hide Run, Good, AnswersStay, Clocked;
    AnswerableRow(st, g, now, retention);
    var row := st.rows[g.scope];
    var k :| 0 <= k < |st.log| && st.log[k] == Answered(g.id, row.status, row.body.value);
    if |s.operation| <= MAX_OPERATION {
      assert s == g.scope;
      assert Repeats(st.log[k], g.id, LookUp(st.rows, s, g.request, now).result);
    }
  }

  /** The grant is neither abandoned nor out of retention at `now`. */
  ghost predicate LiveGrant(log: seq<Entry>, g: Entry, s: Scope, now: int, retention: int) {
    g in log && g.Granted? && g.scope == s && Gone(g.id) !in log && now < g.at + retention
  }

  lemma LiveGrantRow(st: State, g: Entry, s: Scope, now: int, retention: int)
    requires Good(st, retention) && AnswersStay(st) && st.clock <= now && LiveGrant(st.log, g, s, now, retention)
    ensures s in st.rows
    ensures var row := st.rows[s];
      row.id == g.id && row.request == g.request && row.expiresAt > now && (row.completed <==> HasAnswer(st.log, g.id))
      && (row.completed ==> row.body.Some? && Answered(g.id, row.status, row.body.value) in st.log)
  {
    hide AllApart, AllFaithful, PendingOk;
    var i :| 0 <= i < |st.log| && st.log[i] == g;
    assert GrantOk(st, st.log[i], retention);
    assert RowBacked(st, s, retention);
    var k := GrantOfRow(st, s, retention);
  }

  lemma NoLiveGrant(log: seq<Entry>, s: Scope, now: int, retention: int)
    ensures (forall g :: !LiveGrant(log, g, s, now, retention)) <==> AllOver(log, s, now, retention)
  {
    if forall g :: !LiveGrant(log, g, s, now, retention) {
      forall i | 0 <= i < |log| && log[i].Granted? && log[i].scope == s
        ensures Gone(log[i].id) in log || log[i].at + retention <= now
      {
        assert !LiveGrant(log, log[i], s, now, retention);
      }
    }
  }

  /** All that `begin` can say, from what happened before: a key of the wrong length is
      refused; without a live grant of its scope the key is reserved; with one, another
      request is told apart, an answered one is replayed, and an open one is in progress. */
  lemma {:induction false} BeginExactly(start: int, xs: seq<Step>, retention: int, s: Scope, request: string, now: int)
    requires Clocked(start, xs) && retention > 0 && Run(start, xs, retention).clock <= now && |s.operation| <= 100
    ensures var st := Run(start, xs, retention); var r := BeginAt(st.rows, s, request, st.nextId, now, retention);
      if s.key == "" || |s.key| > 128 then r == Refused(BadKey)
      else
        && ((forall g :: !LiveGrant(st.log, g, s, now, retention)) ==> r == Reserved(s, st.nextId))
        && forall g :: LiveGrant(st.log, g, s, now, retention) ==>
             if request != g.request then r == Refused(DifferentRequest)
             else if HasAnswer(st.log, g.id) then RepeatsAnswer(st.log, g.id, r)
             else r == Refused(InProgress)
  {
    RunGood(start, xs, retention);
    RunKeepsAnswers(start, xs, retention);
    var st := Run(start, xs, retention);
    if s.key != "" && |s.key| <= 128 {
      GrantedExactly(start, xs, retention, s, request, now);
      NoLiveGrant(st.log, s, now, retention);
      assert s.(operation := Clip(s.operation)) == s;
      hide Run, Good, AnswersStay, Clocked, AllOver, LiveGrant, HasAnswer, RepeatsAnswer;
      var r := BeginAt(st.rows, s, request, st.nextId, now, retention);
      forall g | LiveGrant(st.log, g, s, now, retention)
        ensures if request != g.request then r == Refused(DifferentRequest)
          else if HasAnswer(st.log, g.id) then RepeatsAnswer(st.log, g.id, r)
          else r == Refused(InProgress)
      {
        LiveGrantRow(st, g, s, now, retention);
        if HasAnswer(st.log, g.id) { AnswerIsRepeated(st.log, g.id, st.rows[s].status, st.rows[s].body.value); }
      }
    }
  }

  lemma AnswerIsRepeated(log: seq<Entry>, id: nat, status: nat, body: string)
    requires Answered(id, status, body) in log
    ensures RepeatsAnswer(log, id, Replay(if status != 0 then status else 200, body))
  {
    var k :| 0 <= k < |log| && log[k] == Answered(id, status, body);
    assert Repeats(log[k], id, Replay(if status != 0 then status else 200, body));
  }
}
