/** Local users and opaque sessions: administration (backend/services/user_admin_service.py)
    and session lifecycle (backend/security/auth.py). Token digests are injective, so a
    token stands for its digest; password checks enter as a verdict. */
module Identity {
  import opened Basics

  datatype Role = Viewer | Analyst | DetectionEngineer | Admin

  datatype User = User(name: string, role: Role, active: bool)

  datatype Session = Session(user: nat, createdAt: int, lastSeen: int, absoluteExpiry: int, revokedAt: Option<int>)

  /** Both limits are validated as positive. Times are in seconds. */
  datatype Config = Config(idleMinutes: int, absoluteHours: int)

  function Idle(c: Config): int { c.idleMinutes * 60 }

  datatype Rows = Rows(users: map<nat, User>, sessions: map<string, Session>)

  datatype Result = Ok | Denied | UserNotFound | FinalAdmin | DuplicateUser | Unauthenticated

  // ---- The operations as functions -----------------------------------------

  predicate MayManageUsers(users: map<nat, User>, actor: nat) {
    actor in users && users[actor].active && users[actor].role == Admin
  }

  function ActiveAdmins(users: map<nat, User>): set<nat> {
    set u | u in users && users[u].role == Admin && users[u].active
  }

  function RevokeAll(sessions: map<string, Session>, user: nat, now: int): map<string, Session> {
    map t | t in sessions ::
      if sessions[t].user == user && sessions[t].revokedAt.None? then sessions[t].(revokedAt := Some(now))
      else sessions[t]
  }

  predicate RemovesActiveAdmin(u: User, role: Option<Role>, active: Option<bool>) {
    u.role == Admin && u.active && ((role.Some? && role.value != Admin) || active == Some(false))
  }

  predicate Changes(u: User, role: Option<Role>, active: Option<bool>) {
    (role.Some? && role.value != u.role) || (active.Some? && active.value != u.active)
  }

  function WithChanges(u: User, role: Option<Role>, active: Option<bool>): User {
    User(u.name, if role.Some? then role.value else u.role, if active.Some? then active.value else u.active)
  }

  function UpdateUserRows(r: Rows, actor: nat, target: nat, role: Option<Role>, active: Option<bool>,
                          now: int): (Rows, Result) {
    if !MayManageUsers(r.users, actor) then (r, Denied)
    else if target !in r.users then (r, UserNotFound)
    else
      var u := r.users[target];
      if RemovesActiveAdmin(u, role, active) && |ActiveAdmins(r.users)| <= 1 then (r, FinalAdmin)
      else
        (Rows(r.users[target := WithChanges(u, role, active)],
              if Changes(u, role, active) then RevokeAll(r.sessions, target, now) else r.sessions), Ok)
  }

  function CreateUserRows(r: Rows, actor: nat, id: nat, name: string, role: Role): (Rows, Result) {
    if !MayManageUsers(r.users, actor) then (r, Denied)
    else if exists u :: u in r.users && r.users[u].name == name then (r, DuplicateUser)
    else (r.(users := r.users[id := User(name, role, true)]), Ok)
  }

  function RevokeSessionsRows(r: Rows, actor: nat, target: nat, now: int): (Rows, Result) {
    if !MayManageUsers(r.users, actor) then (r, Denied)
    else if target !in r.users then (r, UserNotFound)
    else (r.(sessions := RevokeAll(r.sessions, target, now)), Ok)
  }

  /** `authenticate_user` and `issue_session`; a token that already exists breaks the
      unique digest index. */
  function LoginRows(r: Rows, user: nat, valid: bool, token: string, now: int, c: Config): (Rows, Result) {
    if user !in r.users || !r.users[user].active || !valid || token in r.sessions then (r, Unauthenticated)
    else (r.(sessions := r.sessions[token := Session(user, now, now, now + c.absoluteHours * 3600, None)]), Ok)
  }

  predicate Live(r: Rows, token: string) {
    token in r.sessions && r.sessions[token].revokedAt.None?
    && r.sessions[token].user in r.users && r.users[r.sessions[token].user].active
  }

  predicate Expired(s: Session, now: int, c: Config) {
    now >= s.absoluteExpiry || now >= s.lastSeen + Idle(c)
  }

  function AuthenticateRows(r: Rows, token: string, now: int, c: Config): (Rows, Result) {
    if |token| > 512 || !Live(r, token) then (r, Unauthenticated)
    else
      var s := r.sessions[token];
      if Expired(s, now, c) then (r.(sessions := r.sessions[token := s.(revokedAt := Some(now))]), Unauthenticated)
      else (r.(sessions := r.sessions[token := s.(lastSeen := now)]), Ok)
  }

  function RevokeOne(sessions: map<string, Session>, token: string, now: int): map<string, Session> {
    if token in sessions && sessions[token].revokedAt.None?
    then sessions[token := sessions[token].(revokedAt := Some(now))] else sessions
  }

  // ---- What the operations do ----------------------------------------------

  predicate IsAdmin(users: map<nat, User>, u: nat) { u in users && users[u].role == Admin && users[u].active }

  /** The same sessions, of which those of `user` that were live are now revoked. */
  ghost predicate RevokesAllOf(before: map<string, Session>, after: map<string, Session>, user: nat, now: int) {
    && after.Keys == before.Keys
    && forall t :: t in before ==>
         if before[t].user == user && before[t].revokedAt.None?
         then after[t] == Session(user, before[t].createdAt, before[t].lastSeen, before[t].absoluteExpiry, Some(now))
         else after[t] == before[t]
  }

  lemma RevokeAllSays(sessions: map<string, Session>, user: nat, now: int)
    ensures RevokesAllOf(sessions, RevokeAll(sessions, user, now), user, now)
  { }

  /** Only an active Admin may update users; the last one can neither be demoted nor
      deactivated; and any real change ends the user's sessions. */
  lemma UpdateSays(r: Rows, actor: nat, target: nat, role: Option<Role>, active: Option<bool>, now: int)
    ensures var (after, res) := UpdateUserRows(r, actor, target, role, active, now);
      && (res == Denied <==> !IsAdmin(r.users, actor))
      && (res == UserNotFound <==> IsAdmin(r.users, actor) && target !in r.users)
      && (res == FinalAdmin <==>
            && IsAdmin(r.users, actor) && IsAdmin(r.users, target)
            && ((role.Some? && role.value != Admin) || active == Some(false))
            && forall v :: IsAdmin(r.users, v) ==> v == target)
      && (res == Ok || (after == r && res in {Denied, UserNotFound, FinalAdmin}))
    ensures var (after, res) := UpdateUserRows(r, actor, target, role, active, now);
      res == Ok ==>
        var u, v := r.users[target], after.users[target];
        && after.users == r.users[target := v] && v.name == u.name
        && (role.Some? ==> v.role == role.value) && (role.None? ==> v.role == u.role)
        && (active.Some? ==> v.active == active.value) && (active.None? ==> v.active == u.active)
        && (v == u ==> after.sessions == r.sessions)
        && (v != u ==> RevokesAllOf(r.sessions, after.sessions, target, now))
  {
    RevokeAllSays(r.sessions, target, now);
    hide RevokeAll, RevokesAllOf;
    if target in r.users && IsAdmin(r.users, target) {
      assert target in ActiveAdmins(r.users);
      OnlyMember(ActiveAdmins(r.users), target);
      assert forall v :: v in ActiveAdmins(r.users) <==> IsAdmin(r.users, v);
    }
  }

  lemma OnlyMember(s: set<nat>, x: nat)
    requires x in s
    ensures |s| <= 1 <==> forall y :: y in s ==> y == x
  {
    if y :| y in s && y != x { assert |s| == |s - {x} - {y}| + 2; } else { assert s == {x}; }
  }

  /** Likewise for creating a user, under a name that nobody has, and for ending sessions. */
  lemma AdministrationSays(r: Rows, actor: nat, id: nat, name: string, role: Role, target: nat, now: int)
    ensures var (after, res) := CreateUserRows(r, actor, id, name, role);
      if !IsAdmin(r.users, actor) then res == Denied && after == r
      else if exists u :: u in r.users && r.users[u].name == name then res == DuplicateUser && after == r
      else res == Ok && after.sessions == r.sessions && after.users == r.users[id := User(name, role, true)]
    ensures var (after, res) := RevokeSessionsRows(r, actor, target, now);
      if !IsAdmin(r.users, actor) then res == Denied && after == r
      else if target !in r.users then res == UserNotFound && after == r
      else res == Ok && after.users == r.users && RevokesAllOf(r.sessions, after.sessions, target, now)
  {
    RevokeAllSays(r.sessions, target, now);
  }

  /** A new session lasts the configured hours from now; an active user with a valid password
      gets one, and nobody else. */
  lemma LoginSays(r: Rows, user: nat, valid: bool, token: string, now: int, c: Config)
    ensures var (after, res) := LoginRows(r, user, valid, token, now, c);
      && (res == Ok <==> user in r.users && r.users[user].active && valid && token !in r.sessions)
      && (res == Ok ==>
            && after.users == r.users
            && after.sessions == r.sessions[token := Session(user, now, now, now + c.absoluteHours * 3600, None)])
      && (res != Ok ==> res == Unauthenticated && after == r)
  { }

  /** A token is accepted exactly when its session is not revoked, its user is active, and
      neither limit has been reached; the use is then noted. A session past a limit is
      revoked, and any other refusal changes nothing. */
  lemma AuthenticationSays(r: Rows, token: string, now: int, c: Config)
    ensures var (after, res) := AuthenticateRows(r, token, now, c);
      var live := |token| <= 512 && token in r.sessions && r.sessions[token].revokedAt.None?
        && r.sessions[token].user in r.users && r.users[r.sessions[token].user].active;
      var within := live ==>
        now < r.sessions[token].absoluteExpiry && now < r.sessions[token].lastSeen + c.idleMinutes * 60;
      && (res == Ok <==> live && within) && (res == Ok || res == Unauthenticated) && after.users == r.users
      && (live && within ==> after.sessions == r.sessions[token := r.sessions[token].(lastSeen := now)])
      && (live && !within ==> after.sessions == r.sessions[token := r.sessions[token].(revokedAt := Some(now))])
      && (!live ==> after == r)
  { }

  /** A revoked session is not accepted again, and revoking it twice is revoking it once. */
  lemma RevocationSays(r: Rows, token: string, now: int, later: int, c: Config)
    ensures var after := r.(sessions := RevokeOne(r.sessions, token, now));
      && AuthenticateRows(after, token, later, c).1 == Unauthenticated
      && RevokeOne(after.sessions, token, later) == after.sessions
      && after.sessions.Keys == r.sessions.Keys
      && (forall t :: t in r.sessions && t != token ==> after.sessions[t] == r.sessions[t])
  { }

  // ---- The services --------------------------------------------------------

  class IdentityStore {
    var users: map<nat, User>
    var sessions: map<string, Session>
    var nextId: nat

    function All(): Rows reads this { Rows(users, sessions) }

    method RevokeUserSessions(user: nat, now: int)
      modifies this`sessions
      ensures sessions == RevokeAll(old(sessions), user, now)
    {
      var pending := sessions.Keys;
      ghost var done: set<string> := {};
      while pending != {}
        invariant pending + done == old(sessions).Keys && pending !! done && sessions.Keys == old(sessions).Keys
        invariant forall t :: t in pending ==> sessions[t] == old(sessions)[t]
        invariant forall t :: t in done ==> sessions[t] == RevokeAll(old(sessions), user, now)[t]
        decreases pending
      {
        var t :| t in pending;
        if sessions[t].user == user && sessions[t].revokedAt.None? {
          sessions := sessions[t := sessions[t].(revokedAt := Some(now))];
        }
        pending, done := pending - {t}, done + {t};
      }
    }

    /** `UserAdminService.update_user`. */
    method UpdateUser(actor: nat, target: nat, role: Option<Role>, active: Option<bool>, now: int) returns (r: Result)
      modifies this`users, this`sessions
      ensures (All(), r) == UpdateUserRows(old(All()), actor, target, role, active, now)
    {
      if !MayManageUsers(users, actor) { return Denied; }
      if target !in users { return UserNotFound; }
      var before := users[target];
      var removesActiveAdmin :=
        before.role == Admin && before.active && ((role.Some? && role.value != Admin) || active == Some(false));
      if removesActiveAdmin {
        if |ActiveAdmins(users)| <= 1 { return FinalAdmin; }
      }
      var roleChanged := role.Some? && role.value != before.role;
      var activeChanged := active.Some? && active.value != before.active;
      var changed := before;
      if role.Some? { changed := changed.(role := role.value); }
      if active.Some? { changed := changed.(active := active.value); }
      users := users[target := changed];
      if roleChanged || activeChanged { RevokeUserSessions(target, now); }
      return Ok;
    }

    /** `UserAdminService.revoke_sessions`. */
    method RevokeSessions(actor: nat, target: nat, now: int) returns (r: Result)
      modifies this`sessions
      ensures (All(), r) == RevokeSessionsRows(old(All()), actor, target, now)
    {
      if !MayManageUsers(users, actor) { return Denied; }
      if target !in users { return UserNotFound; }
      RevokeUserSessions(target, now);
      return Ok;
    }

    /** `authenticate_session`. */
    method AuthenticateSession(token: string, now: int, c: Config) returns (r: Result)
      modifies this`sessions
      ensures (All(), r) == AuthenticateRows(old(All()), token, now, c)
    {
      if |token| > 512 { return Unauthenticated; }
      if token !in sessions || sessions[token].revokedAt.Some? { return Unauthenticated; }
      if sessions[token].user !in users || !users[sessions[token].user].active { return Unauthenticated; }
      var idleExpiry := sessions[token].lastSeen + c.idleMinutes * 60;
      if now >= sessions[token].absoluteExpiry || now >= idleExpiry {
        sessions := sessions[token := sessions[token].(revokedAt := Some(now))];
        return Unauthenticated;
      }
      sessions := sessions[token := sessions[token].(lastSeen := now)];
      return Ok;
    }

    /** `revoke_session`, idempotent. */
    method RevokeSession(token: string, now: int)
      modifies this`sessions
      ensures sessions == RevokeOne(old(sessions), token, now)
    {
      if token in sessions && sessions[token].revokedAt.None? {
        sessions := sessions[token := sessions[token].(revokedAt := Some(now))];
      }
    }
  }

  // ---- Histories -----------------------------------------------------------

  datatype Op =
    | CreateUser(actor: nat, name: string, role: Role)
    | UpdateUser(actor: nat, target: nat, newRole: Option<Role>, newActive: Option<bool>)
    | RevokeSessions(actor: nat, target: nat)
    | Login(user: nat, valid: bool, token: string)
    | Authenticate(token: string)
    | Logout(token: string)

  datatype Step = Step(op: Op, now: int)

  /** Verdicts on tokens of known sessions. (Tokens beyond 512 characters are turned away
      before any lookup and never accepted.) */
  datatype Use = Accepted(token: string, at: int, createdAt: int) | Refused(token: string)

  /** Rows, plus when (by step number) users last changed and sessions were issued. */
  datatype State = State(rows: Rows, nextId: nat, tick: nat, changed: map<nat, nat>, issued: map<string, nat>,
                         uses: seq<Use>)

  function Authenticated(st: State, token: string, now: int, c: Config): (State, Result) {
    var (rows, r) := AuthenticateRows(st.rows, token, now, c);
    var uses := if token !in st.rows.sessions || |token| > 512 then st.uses
                else if r.Ok? then st.uses + [Accepted(token, now, st.rows.sessions[token].createdAt)]
                else st.uses + [Refused(token)];
    (st.(rows := rows, uses := uses), r)
  }

  function Perform(st: State, x: Step, c: Config): State {
    match x.op
    case CreateUser(actor, name, role) =>
      var (rows, r) := CreateUserRows(st.rows, actor, st.nextId, name, role);
      if r.Ok? then st.(rows := rows, nextId := st.nextId + 1, changed := st.changed[st.nextId := st.tick])
      else st
    case UpdateUser(actor, target, role, active) =>
      var (rows, r) := UpdateUserRows(st.rows, actor, target, role, active, x.now);
      if r.Ok? && Changes(st.rows.users[target], role, active) then
        st.(rows := rows, changed := st.changed[target := st.tick])
      else st.(rows := rows)
    case RevokeSessions(actor, target) => st.(rows := RevokeSessionsRows(st.rows, actor, target, x.now).0)
    case Login(user, valid, token) =>
      var (rows, r) := LoginRows(st.rows, user, valid, token, x.now, c);
      if r.Ok? then st.(rows := rows, issued := st.issued[token := st.tick]) else st
    case Authenticate(token) => Authenticated(st, token, x.now, c).0
    case Logout(token) =>
      var (mid, r) := Authenticated(st, token, x.now, c);
      if r.Ok? then mid.(rows := mid.rows.(sessions := RevokeOne(mid.rows.sessions, token, x.now))) else mid
  }

  function Next(st: State, x: Step, c: Config): State {
    Perform(st, x, c).(tick := st.tick + 1)
  }

  function Run(st: State, xs: seq<Step>, c: Config): State {
    if xs == [] then st else Next(Run(st, xs[..|xs| - 1], c), xs[|xs| - 1], c)
  }

  /** A step does to the rows what its operation does; a logout authenticates first. */
  lemma StepsAreOperations(st: State, x: Step, c: Config)
    ensures Next(st, x, c).rows ==
      match x.op {
        case CreateUser(actor, name, role) => CreateUserRows(st.rows, actor, st.nextId, name, role).0
        case UpdateUser(actor, target, role, active) => UpdateUserRows(st.rows, actor, target, role, active, x.now).0
        case RevokeSessions(actor, target) => RevokeSessionsRows(st.rows, actor, target, x.now).0
        case Login(user, valid, token) => LoginRows(st.rows, user, valid, token, x.now, c).0
        case Authenticate(token) => AuthenticateRows(st.rows, token, x.now, c).0
        case Logout(token) =>
          var (mid, r) := AuthenticateRows(st.rows, token, x.now, c);
          if r == Ok then mid.(sessions := RevokeOne(mid.sessions, token, x.now)) else mid
      }
    ensures Next(st, x, c).tick == st.tick + 1
  { }

  /** The course of a session, in any state: an active user logs in, the token is accepted
      while neither limit is reached, the user logs out, and it is refused from then on. */
  lemma SessionsWork(st: State, user: nat, token: string, login: int, use: int, logout: int, later: int, c: Config)
    requires user in st.rows.users && st.rows.users[user].active && token !in st.rows.sessions && |token| <= 512
    requires use < login + c.absoluteHours * 3600 && use < login + c.idleMinutes * 60
    requires logout < login + c.absoluteHours * 3600 && logout < use + c.idleMinutes * 60
    ensures var in_ := Next(st, Step(Login(user, true, token), login), c);
      var used := Next(in_, Step(Authenticate(token), use), c);
      var out := Next(used, Step(Logout(token), logout), c);
      && token in in_.rows.sessions && in_.issued == st.issued[token := st.tick]
      && used.uses == st.uses + [Accepted(token, use, login)]
      && out.uses == used.uses + [Accepted(token, logout, login)]
      && Next(out, Step(Authenticate(token), later), c).uses == out.uses + [Refused(token)]
  { }

  /** The deployment starts with at least one active Admin and no sessions. */
  ghost predicate Initial(st: State) {
    && ActiveAdmins(st.rows.users) != {} && st.rows.sessions == map[] && st.uses == [] && st.issued == map[]
    && st.tick == 1 && st.changed == (map u | u in st.rows.users :: 0)
    && forall u :: u in st.rows.users ==> u < st.nextId
  }

  /** A session that is not revoked belongs to an active user and is younger than the
      user's last role or activation change. */
  ghost predicate SessionOk(st: State, t: string)
    requires t in st.rows.sessions
  {
    var s := st.rows.sessions[t];
    && s.user in st.rows.users && s.user in st.changed && t in st.issued && st.issued[t] < st.tick
    && (s.revokedAt.None? ==> st.rows.users[s.user].active && st.changed[s.user] < st.issued[t])
  }

  function LastUse(uses: seq<Use>, token: string): Option<int> {
    if uses == [] then None
    else
      var u := uses[|uses| - 1];
      if u.Accepted? && u.token == token then Some(u.at) else LastUse(uses[..|uses| - 1], token)
  }

  ghost predicate Inv(st: State) {
    && ActiveAdmins(st.rows.users) != {}
    && st.changed.Keys == st.rows.users.Keys
    && (forall u :: u in st.rows.users ==> u < st.nextId && st.changed[u] < st.tick)
    && (forall t :: t in st.rows.sessions ==> SessionOk(st, t))
  }

  lemma RevokedSessionsStay(sessions: map<string, Session>, user: nat, now: int)
    ensures RevokeAll(sessions, user, now).Keys == sessions.Keys
    ensures forall t :: t in sessions ==>
      && RevokeAll(sessions, user, now)[t] == sessions[t].(revokedAt := RevokeAll(sessions, user, now)[t].revokedAt)
      && (RevokeAll(sessions, user, now)[t].revokedAt.None? ==> sessions[t].revokedAt.None? && sessions[t].user != user)
  { }

  /** The guard of `update_user`: an update never leaves the system without an active Admin. */
  lemma UpdateKeepsAnAdmin(r: Rows, actor: nat, target: nat, role: Option<Role>, active: Option<bool>, now: int)
    requires ActiveAdmins(r.users) != {}
    ensures ActiveAdmins(UpdateUserRows(r, actor, target, role, active, now).0.users) != {}
  {
    var (after, res) := UpdateUserRows(r, actor, target, role, active, now);
    if res.Ok? {
      var before := ActiveAdmins(r.users);
      var a :| a in before;
      if target in before && RemovesActiveAdmin(r.users[target], role, active) {
        assert |before - {target}| == |before| - 1;
        var b :| b in before - {target};
        assert b in ActiveAdmins(after.users);
      } else {
        assert a in ActiveAdmins(after.users);
      }
    }
  }

  lemma UpdateKeepsInv(st: State, x: Step, c: Config)
    requires Inv(st) && x.op.UpdateUser?
    ensures Inv(Next(st, x, c))
  {
    UpdateKeepsAnAdmin(st.rows, x.op.actor, x.op.target, x.op.newRole, x.op.newActive, x.now);
    RevokedSessionsStay(st.rows.sessions, x.op.target, x.now);
    var after := Next(st, x, c);
    forall t | t in after.rows.sessions ensures SessionOk(after, t) { assert SessionOk(st, t); }
  }

  lemma AdminsGrow(a: map<nat, User>, b: map<nat, User>)
    requires ActiveAdmins(a) != {} && forall u :: u in a ==> u in b && b[u] == a[u]
    ensures ActiveAdmins(b) != {}
  {
    var u :| u in ActiveAdmins(a);
    assert u in ActiveAdmins(b);
  }

  /** Steps that leave users alone and only revoke, or touch the last use of, sessions. */
  lemma SessionStepKeepsInv(st: State, after: State)
    requires Inv(st) && after.rows.users == st.rows.users && after.nextId == st.nextId
    requires after.changed == st.changed && after.issued == st.issued && st.tick <= after.tick
    requires forall t :: t in after.rows.sessions ==>
      && t in st.rows.sessions && after.rows.sessions[t].user == st.rows.sessions[t].user
      && (after.rows.sessions[t].revokedAt.None? ==> st.rows.sessions[t].revokedAt.None?)
    ensures Inv(after)
  {
    forall t | t in after.rows.sessions ensures SessionOk(after, t) { assert SessionOk(st, t); }
  }

  lemma LoginKeepsInv(st: State, x: Step, c: Config)
    requires Inv(st) && x.op.Login?
    ensures Inv(Next(st, x, c))
  {
    var after := Next(st, x, c);
    forall t | t in after.rows.sessions ensures SessionOk(after, t) {
      if t in st.rows.sessions { assert SessionOk(st, t); }
    }
  }

  lemma CreateKeepsInv(st: State, x: Step, c: Config)
    requires Inv(st) && x.op.CreateUser?
    ensures Inv(Next(st, x, c))
  {
    var after := Next(st, x, c);
    assert st.nextId !in st.rows.users;
    forall t | t in after.rows.sessions ensures SessionOk(after, t) { assert SessionOk(st, t); }
    AdminsGrow(st.rows.users, after.rows.users);
  }

  lemma OthersKeepInv(st: State, x: Step, c: Config)
    requires Inv(st) && !x.op.UpdateUser?
    ensures Inv(Next(st, x, c))
  {
    hide SessionOk;
    match x.op
    case RevokeSessions(_, target) =>
      RevokedSessionsStay(st.rows.sessions, target, x.now);
      SessionStepKeepsInv(st, Next(st, x, c));
    case Login(_, _, _) => LoginKeepsInv(st, x, c);
    case CreateUser(_, _, _) => CreateKeepsInv(st, x, c);
    case _ => SessionStepKeepsInv(st, Next(st, x, c));
  }

  /** In every serial history there is always an active Admin, and every unrevoked session
      belongs to an active user and was issued after that user's last change. */
  lemma {:induction false} HistoryInv(st: State, xs: seq<Step>, c: Config)
    requires Initial(st)
    ensures Inv(Run(st, xs, c))
  {
    if xs != [] {
      var k := |xs| - 1;
      HistoryInv(st, xs[..k], c);
      if xs[k].op.UpdateUser? { UpdateKeepsInv(Run(st, xs[..k], c), xs[k], c); }
      else { OthersKeepInv(Run(st, xs[..k], c), xs[k], c); }
    }
  }

  // ---- The life of one session ---------------------------------------------

  /** The session's previous accepted use, or its creation. */
  ghost function SeenBefore(uses: seq<Use>, u: Use): int
    requires u.Accepted?
  {
    var last := LastUse(uses, u.token); if last.Some? then last.value else u.createdAt
  }

  /** Every use is within the idle limit of the previous one and before absolute expiry,
      and nothing is accepted after a refusal. */
  ghost predicate UseOk(uses: seq<Use>, j: nat, c: Config)
    requires j < |uses|
  {
    uses[j].Accepted? ==>
      && uses[j].at < uses[j].createdAt + c.absoluteHours * 3600
      && uses[j].at < SeenBefore(uses[..j], uses[j]) + c.idleMinutes * 60
      && Refused(uses[j].token) !in uses[..j]
  }

  ghost predicate UsesOk(st: State, c: Config) {
    && (forall j :: 0 <= j < |st.uses| ==> UseOk(st.uses, j, c))
    && (forall t :: t in st.rows.sessions ==> UseTracked(st, t, c))
    && (forall j :: 0 <= j < |st.uses| ==> st.uses[j].token in st.rows.sessions)
  }

  ghost predicate UseTracked(st: State, t: string, c: Config)
    requires t in st.rows.sessions
  {
    && st.rows.sessions[t].lastSeen
         == (if LastUse(st.uses, t).Some? then LastUse(st.uses, t).value else st.rows.sessions[t].createdAt)
    && st.rows.sessions[t].absoluteExpiry == st.rows.sessions[t].createdAt + c.absoluteHours * 3600
    && (Refused(t) in st.uses ==> st.rows.sessions[t].revokedAt.Some?)
  }

  lemma AppendUse(uses: seq<Use>, u: Use, c: Config)
    requires forall j :: 0 <= j < |uses| ==> UseOk(uses, j, c)
    requires UseOk(uses + [u], |uses|, c)
    ensures forall j :: 0 <= j < |uses + [u]| ==> UseOk(uses + [u], j, c)
  {
    var more := uses + [u];
    forall j | 0 <= j < |more| ensures UseOk(more, j, c) {
      if j < |uses| { assert more[..j] == uses[..j] && UseOk(uses, j, c); }
    }
  }

  lemma {:induction false} NeverUsed(uses: seq<Use>, t: string)
    requires forall j :: 0 <= j < |uses| ==> uses[j].token != t
    ensures LastUse(uses, t).None?
  {
    if uses != [] { NeverUsed(uses[..|uses| - 1], t); }
  }

  lemma AuthenticationKeepsUses(st: State, token: string, now: int, c: Config)
    requires Inv(st) && UsesOk(st, c)
    ensures UsesOk(Authenticated(st, token, now, c).0, c)
  {
    var (after, r) := Authenticated(st, token, now, c);
    if token in st.rows.sessions && |token| <= 512 {
      assert SessionOk(st, token) && UseTracked(st, token, c);
      var u := after.uses[|st.uses|];
      assert after.uses == st.uses + [u] && after.uses[..|st.uses|] == st.uses;
      forall t | t in after.rows.sessions ensures UseTracked(after, t, c) { assert UseTracked(st, t, c); }
      assert UseOk(after.uses, |st.uses|, c);
      hide UseOk, UseTracked;
      AppendUse(st.uses, u, c);
    }
  }

  /** Steps that log no use and leave each session's history fields alone. */
  lemma QuietStepKeepsUses(st: State, after: State, c: Config)
    requires UsesOk(st, c) && after.uses == st.uses
    requires st.rows.sessions.Keys <= after.rows.sessions.Keys
    requires forall t :: t in st.rows.sessions ==>
      && after.rows.sessions[t] == st.rows.sessions[t].(revokedAt := after.rows.sessions[t].revokedAt)
      && (st.rows.sessions[t].revokedAt.Some? ==> after.rows.sessions[t].revokedAt.Some?)
    requires forall t :: t in after.rows.sessions && t !in st.rows.sessions ==>
      var s := after.rows.sessions[t];
      s.lastSeen == s.createdAt && s.absoluteExpiry == s.createdAt + c.absoluteHours * 3600
    ensures UsesOk(after, c)
  {
    forall t | t in after.rows.sessions ensures UseTracked(after, t, c) {
      if t in st.rows.sessions { assert UseTracked(st, t, c); } else { NeverUsed(st.uses, t); }
    }
  }

  lemma StepKeepsUses(st: State, x: Step, c: Config)
    requires Inv(st) && UsesOk(st, c)
    ensures UsesOk(Next(st, x, c), c)
  {
    hide Inv, UsesOk;
    match x.op
    case Authenticate(token) =>
      AuthenticationKeepsUses(st, token, x.now, c);
      QuietStepKeepsUses(Authenticated(st, token, x.now, c).0, Next(st, x, c), c);
    case Logout(token) =>
      AuthenticationKeepsUses(st, token, x.now, c);
      QuietStepKeepsUses(Authenticated(st, token, x.now, c).0, Next(st, x, c), c);
    case UpdateUser(_, target, _, _) =>
      RevokedSessionsStay(st.rows.sessions, target, x.now);
      QuietStepKeepsUses(st, Next(st, x, c), c);
    case RevokeSessions(_, target) =>
      RevokedSessionsStay(st.rows.sessions, target, x.now);
      QuietStepKeepsUses(st, Next(st, x, c), c);
    case _ => QuietStepKeepsUses(st, Next(st, x, c), c);
  }

  /** Over every history, each use of a session comes less than the idle limit after the
      previous one (or its creation) and before its absolute expiry, and once a known session
      has been refused (expired, revoked or orphaned) it is never accepted again. */
  lemma {:induction false} SessionLifecycle(st: State, xs: seq<Step>, c: Config)
    requires Initial(st)
    ensures UsesOk(Run(st, xs, c), c)
  {
    if xs != [] {
      var k := |xs| - 1;
      SessionLifecycle(st, xs[..k], c);
      HistoryInv(st, xs[..k], c);
      StepKeepsUses(Run(st, xs[..k], c), xs[k], c);
    }
  }
}
