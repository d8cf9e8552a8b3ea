/** Accounts and sessions: the username rule, registration, login, logout,
    the dashboard and the admin gate. The password digest is the parameter
    `hash`: any deterministic function of the plaintext. */
module Auth {
  import opened Wrappers
  import opened Schema
  import opened Database
  import opened Responses

  /** An ASCII letter, standing in for `str.isalpha` on one character. */
  predicate IsLetter(c: char)
  {
    'A' <= c <= 'Z' || 'a' <= c <= 'z'
  }

  /** An ASCII upper-case letter, standing in for `str.isupper` on one letter. */
  predicate IsUpper(c: char)
  {
    'A' <= c <= 'Z'
  }

  /** `str.isalpha`: false on the empty string, else true when every character is a letter. */
  function IsAlpha(s: string): (b: bool)
    ensures b <==> |s| > 0 && forall i :: 0 <= i < |s| ==> IsLetter(s[i])
  {
    if |s| == 0 then false
    else if |s| == 1 then IsLetter(s[0])
    else
      var rest := IsAlpha(s[1..]);
      assert forall i :: 1 <= i < |s| ==> s[i] == s[1..][i - 1];
      IsLetter(s[0]) && rest
  }

  /** The registration guard: letters only, three to six of them, the first
      upper-case. The tests are evaluated left to right and stop at the first
      failure, so the first character is examined only once the length is known
      to be at least three. */
  function ValidUsername(usr: string): (ok: bool)
    ensures ok <==>
      && 3 <= |usr| <= 6
      && IsUpper(usr[0])
      && forall i :: 0 <= i < |usr| ==> IsLetter(usr[i])
  {
    IsAlpha(usr) && 3 <= |usr| <= 6 && IsUpper(usr[0])
  }

  /** A submitted login form: the session gets the user's name and stored role
      when a row matches the name and the digest of the password; otherwise
      nothing changes. Login never writes. */
  function Login(hash: string -> string, t: Tables, s: Session, usr: string, pwd: string): (r: Step)
    ensures r.tables == t
    ensures r.outcome == LoginSucceeded <==> usr in t.users && t.users[usr].password == hash(pwd)
    ensures r.outcome == LoginSucceeded ==> r.session == Session(Some(usr), t.users[usr].role)
    ensures r.outcome != LoginSucceeded ==> r.outcome == InvalidCredentials && r.session == s
  {
    var rows := SelectLogin(t, usr, hash(pwd));
    if |rows| > 0 then Step(t, Session(Some(usr), rows[0]), LoginSucceeded)
    else Step(t, s, InvalidCredentials)
  }

  /** A submitted registration form. A bad or taken username changes nothing;
      otherwise one `user` row (username, digest, default role) is inserted
      and the answer is success even if the insert failed. */
  function Register(hash: string -> string, t: Tables, s: Session, usr: string, pwd: string, fault: bool): (r: Step)
    ensures r.session == s
    ensures !ValidUsername(usr) ==> r.tables == t && r.outcome == InvalidUsername
    ensures ValidUsername(usr) && usr in t.users ==> r.tables == t && r.outcome == UsernameTaken
    ensures ValidUsername(usr) && usr !in t.users ==> r.outcome == Registered
    ensures ValidUsername(usr) && usr !in t.users && fault ==> r.tables == t
    ensures ValidUsername(usr) && usr !in t.users && !fault ==>
      && r.tables.users.Keys == t.users.Keys + {usr}
      && r.tables.users[usr] == UserRow(hash(pwd), DefaultRole)
      && AgreeExcept(t.users, r.tables.users, usr)
      && r.tables.(users := t.users) == t
  {
    if !ValidUsername(usr) then Step(t, s, InvalidUsername)
    else if |SelectUsername(t, usr)| > 0 then Step(t, s, UsernameTaken)
    else
      var w := InsertUserRow(t, usr, hash(pwd), fault);
      Step(w.tables, s, Registered)
  }

  /** Logout clears every session key and never writes. */
  function Logout(t: Tables, s: Session): (r: Step)
    ensures r.tables == t
    ensures r.session.username.None? && r.session.role.None?
    ensures r.outcome == LoggedOut
  {
    Step(t, EmptySession, LoggedOut)
  }

  /** The dashboard is shown to a session that holds a username, and sends
      any other session to login; it changes nothing. */
  function Dashboard(t: Tables, s: Session): (r: Step)
    ensures r.tables == t && r.session == s
    ensures r.outcome.DashboardShown? <==> s.username.Some?
    ensures r.outcome.DashboardShown? ==> r.outcome.username == s.username.value
    ensures !r.outcome.DashboardShown? ==> r.outcome == LoginRequired
  {
    match s.username
    case None => Step(t, s, LoginRequired)
    case Some(u) => Step(t, s, DashboardShown(u))
  }

  /** The admin gate in front of a handler: unless the session's role is the
      admin role, the handler is not run and nothing changes; otherwise the
      answer is the handler's own. */
  function AdminRequired(t: Tables, s: Session, handler: (Tables, Session) -> Step): (r: Step)
    ensures s.role != Some(AdminRole) ==> r == Step(t, s, AdminAccessRequired)
    ensures s.role == Some(AdminRole) ==> r == handler(t, s)
  {
    if s.role.GetOr("") != AdminRole then Step(t, s, AdminAccessRequired)
    else handler(t, s)
  }

  /** The documented examples of the username rule. */
  lemma UsernameExamples()
    ensures ValidUsername("Alan")
    ensures !ValidUsername("al")
    ensures !ValidUsername("alan")
    ensures !ValidUsername("Alanabc")
    ensures !ValidUsername("Al4n")
  {
    assert !IsLetter("Al4n"[2]);
  }

  /** A freshly registered account can log in with the same password, and
      the session then holds its name and the default role. */
  lemma RegisterThenLogin(hash: string -> string, t: Tables, s: Session, usr: string, pwd: string)
    requires ValidUsername(usr) && usr !in t.users
    ensures var reg := Register(hash, t, s, usr, pwd, false);
      var log := Login(hash, reg.tables, reg.session, usr, pwd);
      && reg.outcome == Registered
      && log.outcome == LoginSucceeded
      && log.session == Session(Some(usr), Some("user"))
  {
  }

  /** Registering a name a second time is refused and changes nothing. */
  lemma RegisterTwiceRefused(hash: string -> string, t: Tables, s: Session, usr: string, pwd: string, pwd': string)
    requires ValidUsername(usr) && usr !in t.users
    ensures var first := Register(hash, t, s, usr, pwd, false);
      var second := Register(hash, first.tables, first.session, usr, pwd', false);
      && second.outcome == UsernameTaken
      && second.tables == first.tables
  {
  }
}
