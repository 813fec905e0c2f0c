/** Creating a case under an idempotency key (api/v1/endpoints/cases.py): how the key
    service and the case-number generator behave together. */
module CaseCreation {
  import opened Basics
  import I = Idempotency
  import N = CaseNumber

  const OPERATION := "case.create"
  const CREATED := 201

  /** A request body: its canonical JSON, and in it the texts (title, description, assignee)
      and the alert ids. */
  datatype Request = Request(
    actor: nat, key: Option<string>, payload: string, texts: seq<string>, alertIds: seq<nat>)

  /** A case of the current year, by the suffix of its number. */
  datatype CaseRow = CaseRow(number: string, payload: string, alertIds: seq<nat>)

  datatype Outcome =
    | Created(body: string)
    | Replayed(status: nat, body: string)
    | Conflict
    | AlertsNotFound(missing: seq<nat>)
    | NumberTaken
    | Unstorable
    | Broken

  /** Where the database fails a request, or the process stops: as its reservation is to be
      committed, its case is, or the reservation is to be completed. */
  datatype Strike = Calm | AtReservation | AtCase | AtCompletion

  /** The clock, the alerts that exist, and what strikes the request. */
  datatype Setting = Setting(now: int, known: set<nat>, strike: Strike)

  /** The JSON body of a case. */
  type Render = CaseRow -> string

  datatype Store = Store(rows: map<I.Scope, I.Row>, nextId: nat, cases: seq<CaseRow>)

  /** `list(dict.fromkeys(ids))`. */
  function Unrepeated(ids: seq<nat>): seq<nat> {
    if ids == [] then []
    else
      var before := Unrepeated(ids[..|ids| - 1]);
      if ids[|ids| - 1] in before then before else before + [ids[|ids| - 1]]
  }

  function Missing(ids: seq<nat>, known: set<nat>): seq<nat> {
    if ids == [] then []
    else Missing(ids[..|ids| - 1], known) + if ids[|ids| - 1] in known then [] else [ids[|ids| - 1]]
  }

  function Numbers(cases: seq<CaseRow>): seq<string> {
    seq(|cases|, i requires 0 <= i < |cases| => cases[i].number)
  }

  datatype Attempt = Added(row: CaseRow) | Failed(outcome: Outcome)

  /** The text columns take no NUL, and no schema keeps it out of a request. */
  predicate Storable(texts: seq<string>) {
    forall i | 0 <= i < |texts| :: forall j | 0 <= j < |texts[i]| :: texts[i][j] != '\0'
  }

  /** The part behind the reservation. The flush refuses texts that cannot be stored, the
      unique index a number in use. */
  function TryCase(cases: seq<CaseRow>, q: Request, x: Setting): Attempt {
    var ids := Unrepeated(q.alertIds);
    var number := N.Generate(Numbers(cases));
    if Missing(ids, x.known) != [] then Failed(AlertsNotFound(Missing(ids, x.known)))
    else if !Storable(q.texts) then Failed(Unstorable)
    else if number in Numbers(cases) then Failed(NumberTaken)
    else if x.strike.AtCase? then Failed(Broken)
    else Added(CaseRow(number, q.payload, ids))
  }

  function ScopeOf(q: Request): I.Scope
    requires q.key.Some?
  {
    I.Scope(q.actor, OPERATION, q.key.value)
  }

  /** What follows a granted reservation `id`. A failure does not give it back. */
  function Reserved(st: Store, q: Request, x: Setting, render: Render, id: nat): (Store, Outcome)
    requires q.key.Some?
  {
    match TryCase(st.cases, q, x)
    case Failed(o) => (st, o)
    case Added(row) =>
      var added := st.(cases := st.cases + [row]);
      if x.strike.AtCompletion? then (added, Broken)
      else (added.(rows := I.Completed(st.rows, ScopeOf(q), id, CREATED, render(row))), Created(render(row)))
  }

  /** `create_case` as a function of the committed rows. */
  function Create(st: Store, q: Request, x: Setting, render: Render, retention: int): (Store, Outcome) {
    if q.key.None? then
      match TryCase(st.cases, q, x)
      case Failed(o) => (st, o)
      case Added(row) =>
        (st.(cases := st.cases + [row]), if x.strike.AtCompletion? then Broken else Created(render(row)))
    else
      match I.LookUp(st.rows, ScopeOf(q), q.payload, x.now)
      case Stop(Replay(status, body)) => (st, Replayed(status, body))
      case Stop(_) => (st, Conflict)
      case Proceed(expired) =>
        if x.strike.AtReservation? then (st, Broken)
        else
          var (rows, r) := I.Reserve(st.rows, ScopeOf(q), q.payload, expired, st.nextId, x.now, retention);
          if !r.Reserved? then (st, Conflict)
          else Reserved(Store(rows, st.nextId + 1, st.cases), q, x, render, st.nextId)
  }

  // ---- The endpoint --------------------------------------------------------

  class CaseEndpoint {
    const idem: I.IdempotencyService
    const render: Render
    var cases: seq<CaseRow>

    constructor (idem: I.IdempotencyService, render: Render)
      ensures this.idem == idem && this.render == render && cases == []
    {
      this.idem, this.render, cases := idem, render, [];
    }

    function Rows(): Store reads this, idem { Store(idem.rows, idem.nextId, cases) }

    /** The alert check, the number and the insert, up to the commit. */
    method AddCase(q: Request, x: Setting) returns (a: Attempt)
      modifies this`cases
      ensures a == TryCase(old(cases), q, x)
      ensures cases == if a.Added? then old(cases) + [a.row] else old(cases)
    {
      var ids := Unrepeated(q.alertIds);
      var missing := Missing(ids, x.known);
      if missing != [] { return Failed(AlertsNotFound(missing)); }
      var number := N.Generate(Numbers(cases));
      if !Storable(q.texts) { return Failed(Unstorable); }
      if number in Numbers(cases) { return Failed(NumberTaken); }
      if x.strike.AtCase? { return Failed(Broken); }
      var row := CaseRow(number, q.payload, ids);
      cases := cases + [row];
      return Added(row);
    }

    /** `create_case`. */
    method CreateCase(q: Request, x: Setting) returns (o: Outcome)
      modifies this`cases, idem`rows, idem`nextId
      ensures (Rows(), o) == Create(old(Rows()), q, x, render, idem.retention)
    {
      hide TryCase;
      var reservation: Option<I.BeginResult> := None;
      if q.key.Some? {
        var r := idem.Begin(q.actor, OPERATION, q.key.value, q.payload, x.now, x.now, x.strike.AtReservation?);
        if r.Replay? { return Replayed(r.status, r.body); }
        if r.Refused? { return Conflict; }
        if r.Broken? { return Broken; }
        reservation := Some(r);
      }
      var a := AddCase(q, x);
      if a.Failed? { return a.outcome; }
      if x.strike.AtCompletion? { return Broken; }
      var body := render(a.row);
      if reservation.Some? { idem.Complete(reservation.value.scope, reservation.value.id, CREATED, body); }
      return Created(body);
    }
  }

  // ---- Histories -----------------------------------------------------------

  datatype Step = Step(q: Request, x: Setting)

  /** A case created under a key. */
  datatype Made = Made(scope: I.Scope, payload: string, at: int, body: string)

  datatype State = State(store: Store, log: seq<Made>)

  const EMPTY := State(Store(map[], 0, []), [])

  function Do(st: State, s: Step, render: Render, retention: int): State {
    var next := Create(st.store, s.q, s.x, render, retention).0;
    State(next, st.log + if s.q.key.Some? && |next.cases| > |st.store.cases|
                         then [Made(ScopeOf(s.q), s.q.payload, s.x.now, render(next.cases[|next.cases| - 1]))] else [])
  }

  function Run(st: State, steps: seq<Step>, render: Render, retention: int): State {
    if steps == [] then st
    else Do(Run(st, steps[..|steps| - 1], render, retention), steps[|steps| - 1], render, retention)
  }

  /** Requests are served one after another; the clock never runs backwards. */
  ghost predicate Clocked(start: int, steps: seq<Step>) {
    forall i :: 0 <= i < |steps| ==>
      start <= steps[i].x.now && forall j :: i < j < |steps| ==> steps[i].x.now <= steps[j].x.now
  }

  /** The key's row still stands for this case. */
  ghost predicate Backs(rows: map<I.Scope, I.Row>, m: Made, retention: int) {
    && m.scope in rows && rows[m.scope].expiresAt == m.at + retention && rows[m.scope].request == m.payload
    && (rows[m.scope].completed ==> rows[m.scope].status == CREATED && rows[m.scope].body == Some(m.body))
  }

  /** A completed row answers with the body of a case made under its key. */
  ghost predicate Explained(log: seq<Made>, s: I.Scope, row: I.Row, retention: int) {
    row.completed ==>
      && row.status == CREATED
      && exists i :: 0 <= i < |log| && log[i].scope == s && log[i].payload == row.request
           && row.body == Some(log[i].body) && row.expiresAt == log[i].at + retention
  }

  ghost predicate Apart(log: seq<Made>, retention: int) {
    forall i, j :: 0 <= i < j < |log| && log[i].scope == log[j].scope ==> log[j].at >= log[i].at + retention
  }

  ghost predicate Inv(st: State, clock: int, retention: int) {
    && (forall i :: 0 <= i < |st.log| ==>
         st.log[i].at + retention <= clock || Backs(st.store.rows, st.log[i], retention))
    && (forall s :: s in st.store.rows ==> Explained(st.log, s, st.store.rows[s], retention))
    && Apart(st.log, retention)
  }

  /** The two ways a request can leave the rows, seen from its own key. */
  lemma KeyedForms(st: Store, q: Request, x: Setting, render: Render, retention: int)
    requires q.key.Some?
    ensures var (after, o) := Create(st, q, x, render, retention); var s := ScopeOf(q);
      if I.LookUp(st.rows, s, q.payload, x.now).Stop? then
        after == st && o == match I.LookUp(st.rows, s, q.payload, x.now).result {
          case Replay(status, body) => Replayed(status, body) case _ => Conflict }
      else if x.strike.AtReservation? then after == st && o == Broken
      else
        && (s in st.rows ==> st.rows[s].expiresAt <= x.now)
        && s in after.rows && after.rows.Keys == st.rows.Keys + {s}
        && (forall t :: t in st.rows && t != s ==> after.rows[t] == st.rows[t])
        && after.rows[s].request == q.payload && after.rows[s].expiresAt == x.now + retention
        && (if o.Created? then
              after.rows[s].completed && after.rows[s].status == CREATED && after.rows[s].body == Some(o.body)
            else !after.rows[s].completed)
        && (match TryCase(st.cases, q, x)
            case Failed(f) => o == f && after.cases == st.cases
            case Added(row) =>
              after.cases == st.cases + [row] && o == if x.strike.AtCompletion? then Broken else Created(render(row)))
  {
    hide N.Generate, Numbers, Missing, Unrepeated;
    assert I.Clip(OPERATION) == OPERATION;
    assert ScopeOf(q).(operation := I.Clip(OPERATION)) == ScopeOf(q);
  }

  /** A request without a key makes its case, or none, and touches no key. */
  lemma KeylessForms(st: Store, q: Request, x: Setting, render: Render, retention: int)
    requires q.key.None?
    ensures var (after, o) := Create(st, q, x, render, retention);
      && after.rows == st.rows && after.nextId == st.nextId
      && (TryCase(st.cases, q, x).Failed? ==> after.cases == st.cases && o == TryCase(st.cases, q, x).outcome)
      && (TryCase(st.cases, q, x).Added? ==>
            && after.cases == st.cases + [TryCase(st.cases, q, x).row]
            && o == if x.strike.AtCompletion? then Broken else Created(render(TryCase(st.cases, q, x).row)))
  {
    hide TryCase;
  }

  /** The request reserves its key: no live row stands in the way, and nothing strikes the
      reservation. */
  predicate GetsThrough(rows: map<I.Scope, I.Row>, s: Step)
    requires s.q.key.Some?
  {
    I.LookUp(rows, ScopeOf(s.q), s.q.payload, s.x.now).Proceed? && !s.x.strike.AtReservation?
  }

  /** The entry a keyed request adds to the log, if it creates a case. */
  lemma LogStep(st: State, s: Step, render: Render, retention: int)
    ensures var a := TryCase(st.store.cases, s.q, s.x);
      Do(st, s, render, retention).log == st.log +
        if s.q.key.Some? && a.Added? && GetsThrough(st.store.rows, s)
        then [Made(ScopeOf(s.q), s.q.payload, s.x.now, render(a.row))] else []
  {
    if s.q.key.Some? { KeyedForms(st.store, s.q, s.x, render, retention); }
  }

  lemma AppendKeepsApart(log: seq<Made>, m: Made, retention: int)
    requires Apart(log, retention)
    requires forall i :: 0 <= i < |log| && log[i].scope == m.scope ==> m.at >= log[i].at + retention
    ensures Apart(log + [m], retention)
  {
    var more := log + [m];
    forall i, j | 0 <= i < j < |more| && more[i].scope == more[j].scope ensures more[j].at >= more[i].at + retention {
      if j < |log| { assert log[j].at >= log[i].at + retention; }
    }
  }

  lemma ExplainedStays(log: seq<Made>, more: seq<Made>, s: I.Scope, row: I.Row, retention: int)
    requires Explained(log, s, row, retention)
    ensures Explained(log + more, s, row, retention)
  {
    if row.completed {
      var i :| 0 <= i < |log| && log[i].scope == s && log[i].payload == row.request
        && row.body == Some(log[i].body) && row.expiresAt == log[i].at + retention;
      assert (log + more)[i] == log[i];
    }
  }

  /** A keyed request whose lookup goes through. */
  lemma GrantedStepKeepsInv(st: State, s: Step, clock: int, render: Render, retention: int)
    requires Inv(st, clock, retention) && retention > 0 && clock <= s.x.now && s.q.key.Some?
    requires GetsThrough(st.store.rows, s)
    ensures Inv(Do(st, s, render, retention), s.x.now, retention)
  {
    var a, after := TryCase(st.store.cases, s.q, s.x), Do(st, s, render, retention);
    var scope := ScopeOf(s.q);
    KeyedForms(st.store, s.q, s.x, render, retention);
    LogStep(st, s, render, retention);
    hide TryCase, Create, Do;
    var more := if a.Added? then [Made(scope, s.q.payload, s.x.now, render(a.row))] else [];
    assert after.log == st.log + more;
    forall i | 0 <= i < |after.log|
      ensures after.log[i].at + retention <= s.x.now || Backs(after.store.rows, after.log[i], retention)
    {
      if i < |st.log| { assert after.log[i] == st.log[i]; }
    }
    forall t | t in after.store.rows ensures Explained(after.log, t, after.store.rows[t], retention) {
      if t != scope {
        ExplainedStays(st.log, more, t, st.store.rows[t], retention);
      } else if a.Added? {
        assert after.log[|st.log|] == more[0];
      }
    }
    if a.Added? { AppendKeepsApart(st.log, more[0], retention); } else { assert after.log == st.log; }
  }

  lemma StepKeepsInv(st: State, s: Step, clock: int, render: Render, retention: int)
    requires Inv(st, clock, retention) && retention > 0 && clock <= s.x.now
    ensures Inv(Do(st, s, render, retention), s.x.now, retention)
  {
    LogStep(st, s, render, retention);
    if s.q.key.None? {
      KeylessForms(st.store, s.q, s.x, render, retention);
      assert Do(st, s, render, retention).log == st.log;
    } else if GetsThrough(st.store.rows, s) {
      GrantedStepKeepsInv(st, s, clock, render, retention);
    } else {
      KeyedForms(st.store, s.q, s.x, render, retention);
      assert Do(st, s, render, retention).log == st.log;
    }
  }

  function ClockAfter(start: int, steps: seq<Step>): int { if steps == [] then start else steps[|steps| - 1].x.now }

  lemma {:induction false} HistoryInv(start: int, steps: seq<Step>, render: Render, retention: int)
    requires Clocked(start, steps) && retention > 0
    ensures Inv(Run(EMPTY, steps, render, retention), ClockAfter(start, steps), retention)
  {
    if steps != [] {
      var k := |steps| - 1;
      HistoryInv(start, steps[..k], render, retention);
      var before := Run(EMPTY, steps[..k], render, retention);
      StepKeepsInv(before, steps[k], ClockAfter(start, steps[..k]), render, retention);
    }
  }

  // ---- What a client can rely on -------------------------------------------

  /** One key of one actor creates at most one case per retention period, crashes included. */
  lemma {:induction false} OneCasePerKey(start: int, steps: seq<Step>, render: Render, retention: int, i: nat, j: nat)
    requires Clocked(start, steps) && retention > 0
    requires var log := Run(EMPTY, steps, render, retention).log; i < j < |log| && log[i].scope == log[j].scope
    ensures var log := Run(EMPTY, steps, render, retention).log; log[j].at >= log[i].at + retention
  {
    HistoryInv(start, steps, render, retention);
  }

  /** A replayed answer is the body of the case that key created, for the same payload. */
  lemma {:induction false} ReplayIsTheCase(start: int, steps: seq<Step>, render: Render, retention: int,
                                           q: Request, x: Setting)
    requires Clocked(start, steps) && retention > 0
    requires var st := Run(EMPTY, steps, render, retention);
      Create(st.store, q, x, render, retention).1.Replayed?
    ensures var st := Run(EMPTY, steps, render, retention);
      && q.key.Some?
      && (exists i :: 0 <= i < |st.log| && st.log[i].scope == ScopeOf(q) && st.log[i].payload == q.payload
            && Create(st.store, q, x, render, retention).1 == Replayed(CREATED, st.log[i].body)
            && x.now < st.log[i].at + retention)
  {
    HistoryInv(start, steps, render, retention);
    var st := Run(EMPTY, steps, render, retention);
    ReplayComesFromRow(st.store, q, x, render, retention);
    hide Run, Create;
    var s := ScopeOf(q);
    assert Explained(st.log, s, st.store.rows[s], retention);
  }

  lemma StepKeepsRow(st: State, s: I.Scope, x: Step, render: Render, retention: int)
    requires s in st.store.rows && x.x.now < st.store.rows[s].expiresAt
    ensures var after := Do(st, x, render, retention).store.rows; s in after && after[s] == st.store.rows[s]
  {
    if x.q.key.Some? { KeyedForms(st.store, x.q, x.x, render, retention); }
    else { KeylessForms(st.store, x.q, x.x, render, retention); }
    hide Create;
  }

  /** Until it expires, nothing that happens at this endpoint changes a key's row. */
  lemma {:induction false} RowStays(st: State, s: I.Scope, steps: seq<Step>, render: Render, retention: int)
    requires s in st.store.rows && forall i :: 0 <= i < |steps| ==> steps[i].x.now < st.store.rows[s].expiresAt
    ensures var after := Run(st, steps, render, retention).store.rows; s in after && after[s] == st.store.rows[s]
  {
    if steps != [] {
      var k := |steps| - 1;
      RowStays(st, s, steps[..k], render, retention);
      StepKeepsRow(Run(st, steps[..k], render, retention), s, steps[k], render, retention);
    }
  }

  /** A live row alone decides what a request under its key is answered. */
  lemma RowAnswers(st: Store, q: Request, x: Setting, render: Render, retention: int)
    requires q.key.Some? && q.key.value != "" && |q.key.value| <= I.MAX_KEY
    requires ScopeOf(q) in st.rows && x.now < st.rows[ScopeOf(q)].expiresAt
    ensures var row := st.rows[ScopeOf(q)];
      Create(st, q, x, render, retention) ==
        (st, if row.request == q.payload && row.completed && row.body.Some?
             then Replayed(if row.status != 0 then row.status else 200, row.body.value) else Conflict)
  { }

  /** The row a request leaves behind once its lookup has gone through. */
  lemma RowLeft(st: State, first: Step, render: Render, retention: int)
    requires first.q.key.Some? && GetsThrough(st.store.rows, first)
    ensures first.q.key.value != "" && |first.q.key.value| <= I.MAX_KEY
    ensures var o := Create(st.store, first.q, first.x, render, retention).1;
      var after := Do(st, first, render, retention).store.rows;
      && ScopeOf(first.q) in after
      && var row := after[ScopeOf(first.q)];
      && row.request == first.q.payload && row.expiresAt == first.x.now + retention
      && row.completed == o.Created? && (o.Created? ==> row.status == CREATED && row.body == Some(o.body))
  {
    KeyedForms(st.store, first.q, first.x, render, retention);
    hide Create;
  }

  /** After a request got through with a key, its outcome settles what the key answers. */
  lemma {:induction false} FirstRequestSettles(st: State, first: Step, between: seq<Step>, again: Step, render: Render,
                                        retention: int)
    requires first.q.key.Some? && again.q.key.Some? && ScopeOf(again.q) == ScopeOf(first.q) && retention > 0
    requires GetsThrough(st.store.rows, first)
    requires forall i :: 0 <= i < |between| ==> between[i].x.now < first.x.now + retention
    requires again.x.now < first.x.now + retention
    ensures var o := Create(st.store, first.q, first.x, render, retention).1;
      var later := Run(Do(st, first, render, retention), between, render, retention).store;
      Create(later, again.q, again.x, render, retention) ==
        (later, if o.Created? && again.q.payload == first.q.payload then Replayed(CREATED, o.body) else Conflict)
  {
    RowLeft(st, first, render, retention);
    hide Create, Do, Run;
    var mid := Do(st, first, render, retention);
    RowStays(mid, ScopeOf(first.q), between, render, retention);
    RowAnswers(Run(mid, between, render, retention).store, again.q, again.x, render, retention);
  }

  // ---- Numbers -------------------------------------------------------------

  lemma AppendNumber(cases: seq<CaseRow>, row: CaseRow)
    ensures Numbers(cases + [row]) == Numbers(cases) + [row.number]
  { }

  lemma CasesAfterStep(st: State, s: Step, render: Render, retention: int)
    ensures var a := TryCase(st.store.cases, s.q, s.x); var after := Do(st, s, render, retention).store.cases;
      after == st.store.cases || (a.Added? && after == st.store.cases + [a.row])
  {
    if s.q.key.Some? { KeyedForms(st.store, s.q, s.x, render, retention); }
  }

  /** An attempt succeeds exactly when the alerts exist, the texts can be stored, the year's
      numbers have not run out, and the database takes the case. */
  lemma {:induction false} TryCaseExactly(cases: seq<CaseRow>, q: Request, x: Setting)
    requires |cases| <= 10000 && Numbers(cases) == N.Issued(|cases|)
    ensures TryCase(cases, q, x).Added? <==>
      && Missing(Unrepeated(q.alertIds), x.known) == [] && Storable(q.texts)
      && |cases| < 10000 && !x.strike.AtCase?
    ensures TryCase(cases, q, x).Added? ==> TryCase(cases, q, x).row.number == N.Pad4(|cases| + 1)
  {
    if |cases| < 10000 { N.NextInOrder(|cases|); } else { N.StuckAtTenThousand(|cases|); }
  }

  /** The first thing that stops an attempt decides what it is told: alerts that do not exist
      (named once each), a text with a NUL, a year without numbers, or the database. */
  lemma {:induction false} AttemptSays(cases: seq<CaseRow>, q: Request, x: Setting)
    requires |cases| <= 10000 && Numbers(cases) == N.Issued(|cases|)
    ensures var a := TryCase(cases, q, x);
      if exists id :: id in q.alertIds && id !in x.known then
        && a.Failed? && a.outcome.AlertsNotFound? && Distinct(a.outcome.missing)
        && forall id :: id in a.outcome.missing <==> id in q.alertIds && id !in x.known
      else if exists i, j :: 0 <= i < |q.texts| && 0 <= j < |q.texts[i]| && q.texts[i][j] == '\0' then
        a == Failed(Unstorable)
      else if |cases| == 10000 then a == Failed(NumberTaken)
      else if x.strike.AtCase? then a == Failed(Broken)
      else
        && a.Added? && a.row == CaseRow(N.Pad4(|cases| + 1), q.payload, a.row.alertIds) && Distinct(a.row.alertIds)
        && forall id :: id in a.row.alertIds <==> id in q.alertIds
  {
    TryCaseExactly(cases, q, x);
    UnrepeatedKeeps(q.alertIds);
    MissingExactly(Unrepeated(q.alertIds), x.known);
    MissingMembers(Unrepeated(q.alertIds), x.known);
    if |cases| == 10000 { N.StuckAtTenThousand(|cases|); } else { N.NextInOrder(|cases|); }
    hide N.Generate, N.Issued, N.Pad4, Missing, Unrepeated;
  }

  lemma {:induction false} MissingMembers(ids: seq<nat>, known: set<nat>)
    ensures forall id :: id in Missing(ids, known) <==> id in ids && id !in known
    ensures Distinct(ids) ==> Distinct(Missing(ids, known))
  {
    if ids != [] {
      var n := |ids| - 1;
      MissingMembers(ids[..n], known);
      assert ids == ids[..n] + [ids[n]];
      assert Distinct(ids) ==> ids[n] !in ids[..n];
    }
  }

  lemma IssuedNext(n: nat)
    ensures N.Issued(n) + [N.Pad4(n + 1)] == N.Issued(n + 1)
  {
    hide N.Pad4;
  }

  /** Keys, retries, failures and crashes leave no gap and no repeat in the numbers. */
  lemma {:induction false} NumbersHaveNoGaps(steps: seq<Step>, render: Render, retention: int)
    ensures var cases := Run(EMPTY, steps, render, retention).store.cases;
      |cases| <= 10000 && Numbers(cases) == N.Issued(|cases|)
  {
    if steps == [] {
      assert Numbers([]) == N.Issued(0);
    } else {
      var k := |steps| - 1;
      NumbersHaveNoGaps(steps[..k], render, retention);
      var st := Run(EMPTY, steps[..k], render, retention);
      CasesAfterStep(st, steps[k], render, retention);
      TryCaseExactly(st.store.cases, steps[k].q, steps[k].x);
      var a := TryCase(st.store.cases, steps[k].q, steps[k].x);
      hide TryCase, Do, Numbers, N.Issued;
      if a.Added? {
        AppendNumber(st.store.cases, a.row);
        IssuedNext(|st.store.cases|);
      }
    }
  }

  /** The stored alert links are the requested ones, each once, in order of first mention.
      The schema refuses repeated ids, so for the requests it lets through they are the
      requested ones as they stand. */
  lemma {:induction false} UnrepeatedKeeps(ids: seq<nat>)
    ensures Distinct(ids) ==> Unrepeated(ids) == ids
    ensures Distinct(Unrepeated(ids))
    ensures forall x :: x in Unrepeated(ids) <==> x in ids
    ensures forall k :: 0 <= k <= |ids| ==> Unrepeated(ids[..k]) <= Unrepeated(ids)
  {
    if ids != [] {
      var n := |ids| - 1;
      UnrepeatedKeeps(ids[..n]);
      assert ids == ids[..n] + [ids[n]];
      forall k | 0 <= k <= |ids| ensures Unrepeated(ids[..k]) <= Unrepeated(ids) {
        if k <= n { assert ids[..k] == ids[..n][..k]; } else { assert ids[..k] == ids; }
      }
    }
  }

  // ---- A settled key -------------------------------------------------------

  lemma {:induction false} MissingExactly(ids: seq<nat>, known: set<nat>)
    ensures Missing(ids, known) == [] <==> forall id :: id in ids ==> id in known
  {
    if ids != [] {
      MissingExactly(ids[..|ids| - 1], known);
      assert ids == ids[..|ids| - 1] + [ids[|ids| - 1]];
    }
  }

  /** Nothing stops this request: its alerts exist, its texts can be stored, the year has
      numbers left, and neither database nor process fails it. */
  ghost predicate Unhindered(cases: seq<CaseRow>, s: Step) {
    && (forall id :: id in s.q.alertIds ==> id in s.x.known)
    && Storable(s.q.texts) && |cases| < 10000 && s.x.strike.Calm?
  }

  function NextCase(cases: seq<CaseRow>, q: Request): CaseRow {
    CaseRow(N.Pad4(|cases| + 1), q.payload, Unrepeated(q.alertIds))
  }

  lemma FirstOutcome(st: Store, s: Step, render: Render, retention: int)
    requires |st.cases| <= 10000 && Numbers(st.cases) == N.Issued(|st.cases|)
    requires s.q.key.Some? && GetsThrough(st.rows, s)
    ensures var o := Create(st, s.q, s.x, render, retention).1;
      && (o.Created? <==> Unhindered(st.cases, s))
      && (o.Created? ==> o.body == render(NextCase(st.cases, s.q)))
  {
    KeyedForms(st, s.q, s.x, render, retention);
    TryCaseExactly(st.cases, s.q, s.x);
    MissingExactly(Unrepeated(s.q.alertIds), s.x.known);
    UnrepeatedKeeps(s.q.alertIds);
    hide Create, Numbers, N.Issued, N.Generate, I.LookUp, Missing, Unrepeated, N.Pad4;
  }

  /** In every history, what a key answers for one retention period after a request got
      through with it, whatever happens in between: its case, if nothing hindered that
      request and this one is the same; otherwise a conflict. So a request that failed,
      for whatever reason, blocks its key: no failure gives the reservation back. */
  lemma {:induction false} KeyIsSettled(steps: seq<Step>, first: Step, between: seq<Step>, again: Step,
                                        render: Render, retention: int)
    requires first.q.key.Some? && again.q.key.Some? && ScopeOf(again.q) == ScopeOf(first.q) && retention > 0
    requires GetsThrough(Run(EMPTY, steps, render, retention).store.rows, first)
    requires forall i :: 0 <= i < |between| ==> between[i].x.now < first.x.now + retention
    requires again.x.now < first.x.now + retention
    ensures var st := Run(EMPTY, steps, render, retention); var cases := st.store.cases;
      var later := Run(Do(st, first, render, retention), between, render, retention).store;
      Create(later, again.q, again.x, render, retention) ==
        (later, if Unhindered(cases, first) && again.q.payload == first.q.payload
                then Replayed(CREATED, render(NextCase(cases, first.q))) else Conflict)
  {
    var st := Run(EMPTY, steps, render, retention);
    NumbersHaveNoGaps(steps, render, retention);
    FirstOutcome(st.store, first, render, retention);
    FirstRequestSettles(st, first, between, again, render, retention);
    hide Create, Run, Do, Unhindered, NextCase, I.LookUp;
  }

  const NAMES_ALERT := Request(1, Some("k"), "{}", ["title"], [7])

  /** A request that names an alert before it exists is told so; sent again a moment later,
      when the alert exists, it meets its own reservation. */
  lemma MissingAlertBlocksKey(render: Render, retention: int)
    requires retention > 0
    ensures var first := Create(EMPTY.store, NAMES_ALERT, Setting(0, {}, Calm), render, retention);
      && first.1 == AlertsNotFound([7])
      && Create(first.0, NAMES_ALERT, Setting(0, {7}, Calm), render, retention).1 == Conflict
  {
    var first, again := Step(NAMES_ALERT, Setting(0, {}, Calm)), Step(NAMES_ALERT, Setting(0, {7}, Calm));
    assert [7][..0] == [] && Unrepeated([7]) == [7] && Missing([7], {}) == [7];
    KeyedForms(EMPTY.store, NAMES_ALERT, first.x, render, retention);
    KeyIsSettled([], first, [], again, render, retention);
    assert 7 in NAMES_ALERT.alertIds;
    hide Create, TryCase;
    assert !Unhindered([], first);
  }

  const HOLDS_NUL := Request(1, Some("k"), "{}", ["a\0b"], [])

  /** A title with a NUL passes the schema; the database refuses the case, and the key
      answers with a conflict until it expires, whatever happens in between. */
  lemma NulBlocksKey(between: seq<Step>, now: int, render: Render, retention: int)
    requires now < retention && forall i :: 0 <= i < |between| ==> between[i].x.now < retention
    requires retention > 0
    ensures var first := Step(HOLDS_NUL, Setting(0, {}, Calm));
      var later := Run(Do(EMPTY, first, render, retention), between, render, retention).store;
      && Create(EMPTY.store, HOLDS_NUL, first.x, render, retention).1 == Unstorable
      && Create(later, HOLDS_NUL, Setting(now, {}, Calm), render, retention).1 == Conflict
  {
    var first := Step(HOLDS_NUL, Setting(0, {}, Calm));
    assert HOLDS_NUL.texts[0][1] == '\0';
    KeyedForms(EMPTY.store, HOLDS_NUL, first.x, render, retention);
    KeyIsSettled([], first, between, Step(HOLDS_NUL, Setting(now, {}, Calm)), render, retention);
    hide Create, Do;
  }

  // ---- Whose key it is -----------------------------------------------------

  /** Step `j` was a request of this scope, in full; it made a case and was answered with its
      body, which is what the row holds. */
  ghost predicate AnsweredAt(steps: seq<Step>, j: nat, s: I.Scope, row: I.Row, render: Render, retention: int) {
    && j < |steps| && steps[j].q.key.Some?
    && s == I.Scope(steps[j].q.actor, "case.create", steps[j].q.key.value)
    && row.request == steps[j].q.payload && row.status == 201 && row.expiresAt == steps[j].x.now + retention
    && row.body.Some?
    && Create(Run(EMPTY, steps[..j], render, retention).store, steps[j].q, steps[j].x, render, retention).1
         == Created(row.body.value)
  }

  lemma AnsweredAtStays(steps: seq<Step>, more: Step, j: nat, s: I.Scope, row: I.Row, render: Render, retention: int)
    requires AnsweredAt(steps, j, s, row, render, retention)
    ensures AnsweredAt(steps + [more], j, s, row, render, retention)
  {
    hide Create, Run;
    assert (steps + [more])[..j] == steps[..j];
  }

  /** Behind every completed row stands the request that it answers. */
  lemma {:induction false} RowsAreAnswers(steps: seq<Step>, s: I.Scope, render: Render, retention: int)
    requires var rows := Run(EMPTY, steps, render, retention).store.rows; s in rows && rows[s].completed
    ensures var row := Run(EMPTY, steps, render, retention).store.rows[s];
      exists j: nat :: AnsweredAt(steps, j, s, row, render, retention)
  {
    if steps != [] {
      var n := |steps| - 1; var last := steps[n];
      var before := Run(EMPTY, steps[..n], render, retention);
      var row := Run(EMPTY, steps, render, retention).store.rows[s];
      if last.q.key.Some? { KeyedForms(before.store, last.q, last.x, render, retention); }
      else { KeylessForms(before.store, last.q, last.x, render, retention); }
      assert steps[..n] + [last] == steps;
      hide Create, TryCase;
      if s in before.store.rows && before.store.rows[s] == row {
        RowsAreAnswers(steps[..n], s, render, retention);
        var j: nat :| AnsweredAt(steps[..n], j, s, row, render, retention);
        AnsweredAtStays(steps[..n], last, j, s, row, render, retention);
      } else {
        assert AnsweredAt(steps, n, s, row, render, retention);
      }
    }
  }

  lemma ReplayComesFromRow(st: Store, q: Request, x: Setting, render: Render, retention: int)
    requires Create(st, q, x, render, retention).1.Replayed?
    ensures q.key.Some? && var s := I.Scope(q.actor, "case.create", q.key.value);
      && s in st.rows && st.rows[s].completed && st.rows[s].request == q.payload && x.now < st.rows[s].expiresAt
      && st.rows[s].body.Some?
      && (st.rows[s].status == 201 ==> Create(st, q, x, render, retention).1 == Replayed(201, st.rows[s].body.value))
  {
    if q.key.Some? { KeyedForms(st, q, x, render, retention); }
  }

  /** Step `j` made a case under this actor, key and payload, and the outcome repeats its answer. */
  ghost predicate OwnAnswer(steps: seq<Step>, j: nat, q: Request, o: Outcome, render: Render, retention: int) {
    && j < |steps| && steps[j].q.actor == q.actor && steps[j].q.key == q.key && steps[j].q.payload == q.payload
    && var before := Run(EMPTY, steps[..j], render, retention).store;
       var first := Create(before, steps[j].q, steps[j].x, render, retention).1;
       first.Created? && o == Replayed(201, first.body)
  }

  /** A key answers nobody but its owner: whatever is replayed is the body of a case that the
      same actor made with the same key and payload, less than a retention period before. */
  lemma {:induction false} ReplayIsOwn(steps: seq<Step>, q: Request, x: Setting, render: Render, retention: int)
    requires Create(Run(EMPTY, steps, render, retention).store, q, x, render, retention).1.Replayed?
    ensures var o := Create(Run(EMPTY, steps, render, retention).store, q, x, render, retention).1;
      exists j: nat :: OwnAnswer(steps, j, q, o, render, retention) && x.now < steps[j].x.now + retention
  {
    var st := Run(EMPTY, steps, render, retention);
    ReplayComesFromRow(st.store, q, x, render, retention);
    hide Run, Create;
    var s := I.Scope(q.actor, "case.create", q.key.value);
    RowsAreAnswers(steps, s, render, retention);
    var j: nat :| AnsweredAt(steps, j, s, st.store.rows[s], render, retention);
    assert steps[j].q.key == q.key;
    assert OwnAnswer(steps, j, q, Create(st.store, q, x, render, retention).1, render, retention);
  }

  lemma OthersKeepRow(st: State, other: Step, s: I.Scope, render: Render, retention: int)
    requires other.q.key.Some? ==> s != I.Scope(other.q.actor, "case.create", other.q.key.value)
    ensures var before, after := st.store.rows, Do(st, other, render, retention).store.rows;
      (s in before <==> s in after) && (s in before ==> after[s] == before[s])
  {
    if other.q.key.Some? { KeyedForms(st.store, other.q, other.x, render, retention); }
    else { KeylessForms(st.store, other.q, other.x, render, retention); }
    hide Create, TryCase;
  }

  lemma SameRowSameAnswer(st: Store, later: Store, q: Request, x: Setting, render: Render, retention: int)
    requires q.key.Some? && (ScopeOf(q) in st.rows <==> ScopeOf(q) in later.rows)
    requires ScopeOf(q) in st.rows ==> later.rows[ScopeOf(q)] == st.rows[ScopeOf(q)]
    ensures var a, b := Create(st, q, x, render, retention).1, Create(later, q, x, render, retention).1;
      (a.Replayed? || a == Conflict || b.Replayed? || b == Conflict) ==> a == b
  {
    KeyedForms(st, q, x, render, retention);
    KeyedForms(later, q, x, render, retention);
    hide Create;
  }

  /** Nor does a request of another actor, or with another key, change what a key answers. */
  lemma OthersDoNotMatter(st: State, other: Step, q: Request, x: Setting, render: Render, retention: int)
    requires q.key.Some? && (other.q.actor != q.actor || other.q.key != q.key)
    ensures var a, b := Create(st.store, q, x, render, retention).1,
                        Create(Do(st, other, render, retention).store, q, x, render, retention).1;
      (a.Replayed? || a == Conflict || b.Replayed? || b == Conflict) ==> a == b
  {
    hide Create, Do;
    OthersKeepRow(st, other, ScopeOf(q), render, retention);
    SameRowSameAnswer(st.store, Do(st, other, render, retention).store, q, x, render, retention);
  }

  // ---- Requests that interleave --------------------------------------------

  /** A step of some request's key handling, or the commit of the case of a granted one. */
  datatype Move = Keyed(step: I.Step) | Make(id: nat)

  function KeySteps(moves: seq<Move>): seq<I.Step> {
    if moves == [] then []
    else
      var m := moves[|moves| - 1];
      KeySteps(moves[..|moves| - 1]) + if m.Keyed? then [m.step] else []
  }

  ghost predicate HasGrant(log: seq<I.Entry>, id: nat) {
    exists k :: 0 <= k < |log| && log[k].Granted? && log[k].id == id
  }

  /** The grants whose cases were committed, each at most once. */
  ghost function Cases(start: int, moves: seq<Move>, retention: int): seq<nat> {
    if moves == [] then []
    else
      var before, m := moves[..|moves| - 1], moves[|moves| - 1];
      var made := Cases(start, before, retention);
      if m.Make? && m.id !in made && HasGrant(I.Run(start, KeySteps(before), retention).log, m.id)
      then made + [m.id] else made
  }

  /** `create_case` never abandons a reservation. */
  ghost predicate NeverAbandons(xs: seq<I.Step>) { forall i :: 0 <= i < |xs| ==> !xs[i].DoAbandon? }

  lemma {:induction false} NothingGone(start: int, xs: seq<I.Step>, retention: int)
    requires NeverAbandons(xs)
    ensures forall e :: e in I.Run(start, xs, retention).log ==> !e.Gone?
  {
    if xs != [] {
      NothingGone(start, xs[..|xs| - 1], retention);
      hide I.Reserve, I.LookUp, I.Completed;
    }
  }

  lemma GrantStays(log: seq<I.Entry>, more: seq<I.Entry>, id: nat)
    requires HasGrant(log, id) && log <= more
    ensures HasGrant(more, id)
  {
    var k :| 0 <= k < |log| && log[k].Granted? && log[k].id == id;
    assert more[k] == log[k];
  }

  lemma LogGrows(st: I.State, x: I.Step, retention: int)
    ensures st.log <= I.Do(st, x, retention).log
  {
    hide I.Reserve, I.LookUp, I.Completed;
  }

  lemma KeyStepsStep(moves: seq<Move>, start: int, retention: int)
    requires moves != []
    ensures I.Run(start, KeySteps(moves[..|moves| - 1]), retention).log <= I.Run(start, KeySteps(moves), retention).log
  {
    var before, m := KeySteps(moves[..|moves| - 1]), moves[|moves| - 1];
    if m.Keyed? {
      assert (before + [m.step])[..|before|] == before;
      LogGrows(I.Run(start, before, retention), m.step, retention);
    } else {
      assert before + [] == before;
    }
  }

  lemma {:induction false} CasesAreGranted(start: int, moves: seq<Move>, retention: int)
    ensures Distinct(Cases(start, moves, retention))
    ensures forall id :: id in Cases(start, moves, retention) ==>
      HasGrant(I.Run(start, KeySteps(moves), retention).log, id)
  {
    if moves != [] {
      var before := moves[..|moves| - 1];
      CasesAreGranted(start, before, retention);
      KeyStepsStep(moves, start, retention);
      hide I.Run, HasGrant, KeySteps;
      forall id | HasGrant(I.Run(start, KeySteps(before), retention).log, id)
        ensures HasGrant(I.Run(start, KeySteps(moves), retention).log, id)
      {
        GrantStays(I.Run(start, KeySteps(before), retention).log, I.Run(start, KeySteps(moves), retention).log, id);
      }
    }
  }

  /** However the steps of any number of requests interleave: each grant makes at most one
      case, and two grants of one key that made cases are a retention period apart. */
  lemma {:induction false} OneCasePerKeyInterleaved(start: int, moves: seq<Move>, retention: int, i: nat, j: nat)
    requires I.Clocked(start, KeySteps(moves)) && NeverAbandons(KeySteps(moves)) && retention > 0
    requires var log := I.Run(start, KeySteps(moves), retention).log;
      i < j < |log| && log[i].Granted? && log[j].Granted? && log[i].scope == log[j].scope
    ensures var made := Cases(start, moves, retention);
      Distinct(made) && forall id :: id in made ==> HasGrant(I.Run(start, KeySteps(moves), retention).log, id)
    ensures var log := I.Run(start, KeySteps(moves), retention).log; log[j].at >= log[i].at + retention
  {
    CasesAreGranted(start, moves, retention);
    NothingGone(start, KeySteps(moves), retention);
    I.AtMostOnce(start, KeySteps(moves), retention, i, j);
    hide I.Run, KeySteps, Cases, HasGrant;
    var log := I.Run(start, KeySteps(moves), retention).log;
    assert forall e :: e in log[..j] ==> e in log;
  }
}
