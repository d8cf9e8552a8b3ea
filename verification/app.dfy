/** The application as a state machine: every route and method is one
    request, handled as one atomic step on the tables and the caller's
    session, and a server interleaves the requests of many clients. */
module App {
  import opened Wrappers
  import opened Schema
  import opened Responses
  import opened Auth
  import opened Students
  import opened Scores

  /** The routes, split by method where GET and POST differ. */
  datatype Request =
    | LoginPage
    | LoginSubmit(username: string, password: string)
    | RegisterPage
    | RegisterSubmit(username: string, password: string)
    | LogoutRequest
    | IndexRequest
    | DashboardRequest
    | AddPage
    | AddSubmit(newId: string, fields: StudentFields)
    | ViewRequest
    | EditPage(id: string)
    | EditSubmit(id: string, fields: StudentFields, version: int)
    | DeleteSubmit(id: string)
    | ScoresRequest(studentName: Option<string>)

  /** The requests that the admin gate protects. */
  predicate AdminOnly(req: Request)
  {
    req.AddPage? || req.AddSubmit? || req.EditPage? || req.EditSubmit? || req.DeleteSubmit?
  }

  /** One request. `fault` is whether the engine rejects the write the
      request issues, if it issues one; `newId` of an add is the freshly
      generated identifier. */
  function Handle(hash: string -> string, t: Tables, s: Session, req: Request, fault: bool): (r: Step)
    ensures r.tables.courses == t.courses && r.tables.scores == t.scores
    ensures !AdminOnly(req) ==> r.tables.students == t.students
    ensures !req.RegisterSubmit? ==> r.tables.users == t.users
  {
    match req
    case LoginPage => Step(t, s, LoginFormShown)
    case LoginSubmit(u, p) => Login(hash, t, s, u, p)
    case RegisterPage => Step(t, s, RegisterFormShown)
    case RegisterSubmit(u, p) => Register(hash, t, s, u, p, fault)
    case LogoutRequest => Logout(t, s)
    case IndexRequest => Step(t, s, ToDashboard)
    case DashboardRequest => Dashboard(t, s)
    case AddPage => AddForm(t, s)
    case AddSubmit(id, f) => AddStudent(t, s, id, f, fault)
    case ViewRequest => ViewStudents(t, s)
    case EditPage(id) => EditForm(t, s, id)
    case EditSubmit(id, f, v) => EditStudent(t, s, id, f, v, fault)
    case DeleteSubmit(id) => DeleteStudent(t, s, id, fault)
    case ScoresRequest(name) => QueryScores(t, s, name)
  }

  /** A session either is empty of a user or names an existing account and
      carries that account's stored role. */
  ghost predicate SessionConsistent(t: Tables, s: Session)
  {
    && (s.username.None? ==> s.role.None?)
    && (s.username.Some? ==> s.username.value in t.users && s.role == t.users[s.username.value].role)
  }

  /** Accounts are only ever added: no row is removed or rewritten. */
  ghost predicate UsersGrow(t: Tables, t': Tables)
  {
    forall u :: u in t.users ==> u in t'.users && t'.users[u] == t.users[u]
  }

  /** Every student row present before and after that changed has had its
      version raised by exactly one. */
  ghost predicate ChangesBumpVersion(t: Tables, t': Tables)
  {
    forall id :: id in t.students && id in t'.students && t'.students[id] != t.students[id] ==>
      t'.students[id].version == t.students[id].version + 1
  }

  /** Accounts are never removed or changed by any request. */
  lemma HandleGrowsUsers(hash: string -> string, t: Tables, s: Session, req: Request, fault: bool)
    ensures UsersGrow(t, Handle(hash, t, s, req, fault).tables)
  {
  }

  /** No request rewrites a student row without raising its version by one. */
  lemma HandleBumpsVersions(hash: string -> string, t: Tables, s: Session, req: Request, fault: bool)
    ensures ChangesBumpVersion(t, Handle(hash, t, s, req, fault).tables)
  {
  }

  /** Every request keeps the caller's session consistent with the accounts. */
  lemma HandleKeepsSessionConsistent(hash: string -> string, t: Tables, s: Session, req: Request, fault: bool)
    requires SessionConsistent(t, s)
    ensures var r := Handle(hash, t, s, req, fault); SessionConsistent(r.tables, r.session)
  {
  }

  /** A session consistent with some accounts stays consistent once more
      accounts exist. */
  lemma GrowthKeepsSessionConsistent(t: Tables, t': Tables, s: Session)
    requires SessionConsistent(t, s) && UsersGrow(t, t')
    ensures SessionConsistent(t', s)
  {
  }

  /** A non-admin session is refused every admin-only request, whatever its
      payload, and nothing changes. */
  lemma NonAdminRefused(hash: string -> string, t: Tables, s: Session, req: Request, fault: bool)
    requires AdminOnly(req) && s.role != Some(AdminRole)
    ensures Handle(hash, t, s, req, fault) == Step(t, s, AdminAccessRequired)
  {
  }

  /** Student records change only on behalf of a logged-in account whose
      stored role is the admin role. */
  lemma OnlyAdminsChangeStudents(hash: string -> string, t: Tables, s: Session, req: Request, fault: bool)
    requires SessionConsistent(t, s)
    requires Handle(hash, t, s, req, fault).tables.students != t.students
    ensures s.username.Some?
    ensures t.users[s.username.value].role == Some(AdminRole)
  {
  }

  /** After logout the dashboard asks for a login again and every admin-only
      request is refused. */
  lemma LogoutRevokesAccess(hash: string -> string, t: Tables, s: Session, req: Request, fault: bool)
    requires AdminOnly(req)
    ensures var out := Logout(t, s);
      && Dashboard(out.tables, out.session).outcome == LoginRequired
      && Handle(hash, out.tables, out.session, req, fault).outcome == AdminAccessRequired
  {
  }

  /** A student added under a fresh identifier is listed, and its edit form
      shows the submitted fields at the initial version. */
  lemma AddedStudentIsListed(hash: string -> string, t: Tables, s: Session, id: string, f: StudentFields)
    requires s.role == Some(AdminRole) && id !in t.students
    ensures var added := Handle(hash, t, s, AddSubmit(id, f), false);
      && id in Handle(hash, added.tables, added.session, ViewRequest, false).outcome.students
      && Handle(hash, added.tables, added.session, EditPage(id), false).outcome
         == EditFormShown(id, Student(f, InitialVersion))
  {
  }

  /** The server: the tables and the session of every client that has one. */
  datatype Server = Server(tables: Tables, sessions: map<nat, Session>)

  /** A request from client `client`; `fault` as for `Handle`. */
  datatype Event = Event(client: nat, request: Request, fault: bool)

  ghost predicate Consistent(sv: Server)
  {
    forall c :: c in sv.sessions ==> SessionConsistent(sv.tables, sv.sessions[c])
  }

  /** The session a client presents: its own, or an empty one the first time. */
  function SessionOf(sv: Server, client: nat): Session
  {
    if client in sv.sessions then sv.sessions[client] else EmptySession
  }

  /** One event: the client's request handled on the shared tables, its
      session stored back, every other client's session untouched. */
  function Serve(hash: string -> string, sv: Server, e: Event): (r: (Server, Outcome))
    ensures var st := Handle(hash, sv.tables, SessionOf(sv, e.client), e.request, e.fault);
      && r.0.tables == st.tables
      && e.client in r.0.sessions && r.0.sessions[e.client] == st.session
      && r.1 == st.outcome
    ensures r.0.sessions.Keys == sv.sessions.Keys + {e.client}
    ensures AgreeExcept(sv.sessions, r.0.sessions, e.client)
    ensures UsersGrow(sv.tables, r.0.tables)
    ensures Consistent(sv) ==> Consistent(r.0)
  {
    var s := SessionOf(sv, e.client);
    var step := Handle(hash, sv.tables, s, e.request, e.fault);
    var sv' := Server(step.tables, sv.sessions[e.client := step.session]);
    HandleGrowsUsers(hash, sv.tables, s, e.request, e.fault);
    assert Consistent(sv) ==> Consistent(sv') by {
      if Consistent(sv) {
        HandleKeepsSessionConsistent(hash, sv.tables, s, e.request, e.fault);
        forall c | c in sv'.sessions && c != e.client
          ensures SessionConsistent(sv'.tables, sv'.sessions[c])
        {
          GrowthKeepsSessionConsistent(sv.tables, sv'.tables, sv.sessions[c]);
        }
      }
    }
    (sv', step.outcome)
  }

  /** The server after serving `events` in order. */
  function RunEvents(hash: string -> string, sv: Server, events: seq<Event>): (r: Server)
    ensures Consistent(sv) ==> Consistent(r)
    ensures UsersGrow(sv.tables, r.tables)
    ensures r.tables.courses == sv.tables.courses && r.tables.scores == sv.tables.scores
    decreases |events|
  {
    if |events| == 0 then sv
    else RunEvents(hash, Serve(hash, sv, events[0]).0, events[1..])
  }

  /** No account holds the admin role. */
  ghost predicate NoAdminAccount(t: Tables)
  {
    forall u :: u in t.users ==> t.users[u].role != Some(AdminRole)
  }

  /** One request neither creates an admin account nor, when no account is
      an admin and the caller's session is consistent, changes a student. */
  lemma NoAdminStep(hash: string -> string, t: Tables, s: Session, req: Request, fault: bool)
    requires NoAdminAccount(t) && SessionConsistent(t, s)
    ensures var r := Handle(hash, t, s, req, fault);
      NoAdminAccount(r.tables) && r.tables.students == t.students
  {
  }

  /** Registration only ever creates `user` accounts, so while no account is
      an admin, no sequence of requests from any clients changes a student
      record. */
  lemma {:induction false} NoAdminNoStudentChanges(hash: string -> string, sv: Server, events: seq<Event>)
    requires Consistent(sv) && NoAdminAccount(sv.tables)
    ensures RunEvents(hash, sv, events).tables.students == sv.tables.students
    decreases |events|
  {
    if |events| > 0 {
      var e := events[0];
      NoAdminStep(hash, sv.tables, SessionOf(sv, e.client), e.request, e.fault);
      var next := Serve(hash, sv, e).0;
      NoAdminNoStudentChanges(hash, next, events[1..]);
    }
  }

  /** Serving one more event after a sequence is serving it on the server
      the sequence left. */
  lemma {:induction false} RunEventsSnoc(hash: string -> string, sv: Server, events: seq<Event>, e: Event)
    ensures RunEvents(hash, sv, events + [e]) == Serve(hash, RunEvents(hash, sv, events), e).0
    decreases |events|
  {
    if |events| == 0 {
      assert [e][1..] == [];
    } else {
      assert (events + [e])[0] == events[0];
      assert (events + [e])[1..] == events[1..] + [e];
      RunEventsSnoc(hash, Serve(hash, sv, events[0]).0, events[1..], e);
    }
  }

  /** Serves a sequence of events in order, returning the final server and one
      outcome per event: the final server is the one `RunEvents` describes, and
      so inherits its guarantees, and each event gets the answer it has on the
      server the events before it left. */
  method Run(hash: string -> string, sv: Server, events: seq<Event>) returns (final: Server, outcomes: seq<Outcome>)
    ensures final == RunEvents(hash, sv, events)
    ensures |outcomes| == |events|
    ensures forall i :: 0 <= i < |events| ==> outcomes[i] == Serve(hash, RunEvents(hash, sv, events[..i]), events[i]).1
  {
    final := sv;
    outcomes := [];
    var k := 0;
    while k < |events|
      invariant 0 <= k <= |events|
      invariant |outcomes| == k
      invariant final == RunEvents(hash, sv, events[..k])
      invariant forall i :: 0 <= i < k ==> outcomes[i] == Serve(hash, RunEvents(hash, sv, events[..i]), events[i]).1
    {
      var next := Serve(hash, final, events[k]);
      RunEventsSnoc(hash, sv, events[..k], events[k]);
      assert events[..k + 1] == events[..k] + [events[k]];
      final := next.0;
      outcomes := outcomes + [next.1];
      k := k + 1;
    }
    assert events[..k] == events;
  }
}
