/** The authentication view-model: a four-state machine layered on the repository. Each handler
    (startup reconciliation, the user-id watcher, the periodic expiry sweep, and the login,
    register and logout actions) runs as one atomic transition. A handler returns the new
    view-model together with the values it assigned to the observable state, in order. */
module AuthViewModel {
  import opened Lookup
  import opened Entities
  import opened Roles
  import opened PasswordHasher
  import Repo = AuthRepository

  datatype AuthState = Loading | LoggedIn(user: User, role: Role) | LoggedOut | Error(message: string)

  datatype ViewModel = ViewModel(repo: Repo.Repo, state: AuthState)

  /** The view-model after a handler, and the states the handler assigned, oldest first. */
  datatype Effect = Effect(vm: ViewModel, writes: seq<AuthState>)

  const InvalidCredentialsMessage: string := "Invalid email or password"
  const LoginFailedPrefix: string := "Login failed: "
  const EmailTakenMessage: string := "Email already exists"
  const RegistrationFailedPrefix: string := "Registration failed: "

  /** The observable state after an effect is the last value assigned, or the old one if none. */
  predicate Assigns(before: ViewModel, e: Effect) {
    e.vm.state == if |e.writes| == 0 then before.state else e.writes[|e.writes| - 1]
  }

  /** The state announcing a logged-in user, with the role parsed from the user's row. */
  function LoggedInAs(u: User): (s: AuthState)
    ensures s.LoggedIn? && s.user == u && s.role == From(u.role)
  {
    LoggedIn(u, From(u.role))
  }

  /** A freshly created view-model, before any of its startup tasks has run. */
  function Create(repo: Repo.Repo): (vm: ViewModel)
    ensures vm.state == Loading && vm.repo == repo
  {
    ViewModel(repo, Loading)
  }

  /** Startup reconciliation. `now` is the clock at the first expiry check; `later` at the second
      check and the activity refresh. An expired session is logged out; otherwise the stored user
      is loaded and, still unexpired, becomes the logged-in user; a missing row means logged out. */
  function Startup(vm: ViewModel, now: int, later: int): (e: Effect)
    ensures Assigns(vm, e) && |e.writes| == 1
    ensures Repo.IsSessionExpired(vm.repo.prefs, now) ==>
      e.vm.state == LoggedOut && e.vm.repo == Repo.Logout(vm.repo)
    ensures !Repo.IsSessionExpired(vm.repo.prefs, now) && Repo.CurrentUser(vm.repo).None? ==>
      e.vm.state == LoggedOut && e.vm.repo == vm.repo
    ensures !Repo.IsSessionExpired(vm.repo.prefs, now) && Repo.CurrentUser(vm.repo).Some?
            && !Repo.IsSessionExpired(vm.repo.prefs, later) ==>
      var u := Repo.CurrentUser(vm.repo).value;
      && e.vm.state == LoggedIn(u, From(u.role))
      && e.vm.repo == vm.repo.(prefs := Repo.UpdateLastActivity(vm.repo.prefs, later))
    ensures !Repo.IsSessionExpired(vm.repo.prefs, now) && Repo.CurrentUser(vm.repo).Some?
            && Repo.IsSessionExpired(vm.repo.prefs, later) ==>
      e.vm.state == LoggedOut && e.vm.repo == Repo.Logout(vm.repo)
    ensures e.vm.state.LoggedIn? || e.vm.state == LoggedOut
  {
    if Repo.IsSessionExpired(vm.repo.prefs, now) then
      Effect(ViewModel(Repo.Logout(vm.repo), LoggedOut), [LoggedOut])
    else
      match Repo.CurrentUser(vm.repo)
      case Some(u) =>
        if Repo.IsSessionExpired(vm.repo.prefs, later) then
          Effect(ViewModel(Repo.Logout(vm.repo), LoggedOut), [LoggedOut])
        else
          var s := LoggedInAs(u);
          Effect(ViewModel(vm.repo.(prefs := Repo.UpdateLastActivity(vm.repo.prefs, later)), s), [s])
      case None =>
        Effect(vm.(state := LoggedOut), [LoggedOut])
  }

  /** The user-id watcher reacting to the id flow's current value. A null id means logged out
      (assigned only if not already so); otherwise the stored user, if found and unexpired, is
      logged in (not reassigned when the same user id is already logged in); else logged out.
      The watcher never touches the repository. */
  function Watch(vm: ViewModel, now: int): (e: Effect)
    ensures Assigns(vm, e) && e.vm.repo == vm.repo && |e.writes| <= 1
    ensures vm.repo.currentId.None? ==> e.vm.state == LoggedOut
    ensures vm.repo.currentId.None? && vm.state == LoggedOut ==> e.writes == []
    ensures vm.repo.currentId.Some? && (Repo.CurrentUser(vm.repo).None? || Repo.IsSessionExpired(vm.repo.prefs, now)) ==>
      e.writes == [LoggedOut]
    ensures vm.repo.currentId.Some? && Repo.CurrentUser(vm.repo).Some? && !Repo.IsSessionExpired(vm.repo.prefs, now) ==>
      var u := Repo.CurrentUser(vm.repo).value;
      && e.vm.state.LoggedIn? && e.vm.state.user.id == u.id
      && (vm.state.LoggedIn? && vm.state.user.id == u.id <==> e.writes == [])
      && (e.writes != [] ==> e.vm.state == LoggedIn(u, From(u.role)))
  {
    match vm.repo.currentId
    case None =>
      if vm.state.LoggedOut? then Effect(vm, []) else Effect(vm.(state := LoggedOut), [LoggedOut])
    case Some(_) =>
      match Repo.CurrentUser(vm.repo)
      case Some(u) =>
        if !Repo.IsSessionExpired(vm.repo.prefs, now) then
          if !vm.state.LoggedIn? || vm.state.user.id != u.id then
            Effect(vm.(state := LoggedInAs(u)), [LoggedInAs(u)])
          else Effect(vm, [])
        else Effect(vm.(state := LoggedOut), [LoggedOut])
      case None => Effect(vm.(state := LoggedOut), [LoggedOut])
  }

  /** One tick of the periodic expiry check: a logged-in view-model whose session has expired is
      logged out; any other tick changes nothing. */
  function Sweep(vm: ViewModel, now: int): (e: Effect)
    ensures Assigns(vm, e)
    ensures vm.state.LoggedIn? && Repo.IsSessionExpired(vm.repo.prefs, now) ==>
      e == Effect(ViewModel(Repo.Logout(vm.repo), LoggedOut), [LoggedOut])
    ensures !(vm.state.LoggedIn? && Repo.IsSessionExpired(vm.repo.prefs, now)) ==> e == Effect(vm, [])
  {
    if vm.state.LoggedIn? && Repo.IsSessionExpired(vm.repo.prefs, now) then
      Effect(ViewModel(Repo.Logout(vm.repo), LoggedOut), [LoggedOut])
    else Effect(vm, [])
  }

  /** The login action: Loading, then logged in (activity refreshed), the invalid-credentials
      error when the repository returns null, or a failure message when it throws. */
  function Login(vm: ViewModel, email: string, password: string, now: int, digest: Digester,
                 fault: Option<string>): (e: Effect)
    ensures Assigns(vm, e) && |e.writes| == 2 && e.writes[0] == Loading
    ensures fault.Some? ==> e.vm == ViewModel(vm.repo, Error(LoginFailedPrefix + fault.value))
    ensures fault.None? ==>
      var c := Repo.Login(vm.repo, email, password, now, digest, None);
      && (c.outcome.value.None? ==> e.vm == ViewModel(vm.repo, Error(InvalidCredentialsMessage)))
      && (c.outcome.value.Some? ==>
            var u := c.outcome.value.value;
            && u in vm.repo.users && u.email == email
            && e.vm.state == LoggedIn(u, From(u.role))
            && e.vm.repo == c.repo.(prefs := Repo.UpdateLastActivity(c.repo.prefs, now)))
  {
    var c := Repo.Login(vm.repo, email, password, now, digest, fault);
    match c.outcome
    case Threw(m) =>
      var s := Error(LoginFailedPrefix + m);
      Effect(ViewModel(c.repo, s), [Loading, s])
    case Returned(None) =>
      var s := Error(InvalidCredentialsMessage);
      Effect(ViewModel(c.repo, s), [Loading, s])
    case Returned(Some(u)) =>
      var s := LoggedInAs(u);
      Effect(ViewModel(c.repo.(prefs := Repo.UpdateLastActivity(c.repo.prefs, now)), s), [Loading, s])
  }

  /** The register action: Loading, then logged in as the new user, the email-taken error when
      the repository returns null, or a failure message when it throws (including the failed
      student-field requirement). */
  function Register(vm: ViewModel, reg: Repo.Registration, now: int, digest: Digester,
                    fault: Option<string>): (e: Effect)
    ensures Assigns(vm, e) && |e.writes| == 2 && e.writes[0] == Loading
    ensures fault.Some? ==> e.vm == ViewModel(vm.repo, Error(RegistrationFailedPrefix + fault.value))
    ensures fault.None? && Repo.FindByEmail(vm.repo.users, reg.email).Some? ==>
      e.vm == ViewModel(vm.repo, Error(EmailTakenMessage))
    ensures fault.None? && Repo.FindByEmail(vm.repo.users, reg.email).None? && Repo.MissingStudentFields(reg) ==>
      && e.vm.state == Error(RegistrationFailedPrefix + Repo.RequireFailedMessage)
      && Repo.CurrentUserId(e.vm.repo.prefs) == Repo.CurrentUserId(vm.repo.prefs)
      && |e.vm.repo.users| == |vm.repo.users| + 1
    ensures fault.None? && Repo.FindByEmail(vm.repo.users, reg.email).None? && !Repo.MissingStudentFields(reg) ==>
      var u := Repo.NewUser(vm.repo, reg, digest);
      && e.vm.state == LoggedIn(u, reg.role)
      && (u.id != Repo.NoUserId ==> Repo.CurrentUserId(e.vm.repo.prefs) == Some(u.id))
    ensures var c := Repo.Register(vm.repo, reg, now, digest, fault);
      e.vm.repo == if c.outcome.Returned? && c.outcome.value.Some?
                   then c.repo.(prefs := Repo.UpdateLastActivity(c.repo.prefs, now))
                   else c.repo
  {
    var c := Repo.Register(vm.repo, reg, now, digest, fault);
    match c.outcome
    case Threw(m) =>
      var s := Error(RegistrationFailedPrefix + m);
      Effect(ViewModel(c.repo, s), [Loading, s])
    case Returned(None) =>
      var s := Error(EmailTakenMessage);
      Effect(ViewModel(c.repo, s), [Loading, s])
    case Returned(Some(u)) =>
      var s := LoggedInAs(u);
      Effect(ViewModel(c.repo.(prefs := Repo.UpdateLastActivity(c.repo.prefs, now)), s), [Loading, s])
  }

  /** The logout action: the session is cleared and the state becomes logged out. */
  function Logout(vm: ViewModel): (e: Effect)
    ensures Assigns(vm, e) && e.writes == [LoggedOut]
    ensures e.vm.repo.prefs == Repo.EmptyPrefs && e.vm.repo.currentId.None?
    ensures e.vm.repo == Repo.Logout(vm.repo)
    ensures forall now :: Repo.IsSessionExpired(e.vm.repo.prefs, now)
  {
    Effect(ViewModel(Repo.Logout(vm.repo), LoggedOut), [LoggedOut])
  }

  // ----- The machine as a whole -----

  /** Everything that drives the view-model. */
  datatype Event =
    | Start(now: int, later: int)
    | IdObserved(now: int)
    | SweepTick(now: int)
    | LoginClicked(email: string, password: string, now: int, fault: Option<string>)
    | RegisterClicked(reg: Repo.Registration, now: int, fault: Option<string>)
    | LogoutClicked

  function Step(vm: ViewModel, ev: Event, digest: Digester): Effect {
    match ev
    case Start(now, later) => Startup(vm, now, later)
    case IdObserved(now) => Watch(vm, now)
    case SweepTick(now) => Sweep(vm, now)
    case LoginClicked(email, password, now, fault) => Login(vm, email, password, now, digest, fault)
    case RegisterClicked(reg, now, fault) => Register(vm, reg, now, digest, fault)
    case LogoutClicked => Logout(vm)
  }

  /** The view-model after handling `events` in order. */
  function Run(vm: ViewModel, events: seq<Event>, digest: Digester): ViewModel
    decreases |events|
  {
    if |events| == 0 then vm else Run(Step(vm, events[0], digest).vm, events[1..], digest)
  }

  /** A logged-in state names a user of the user table, with the role parsed from that row. */
  predicate Consistent(s: AuthState, repo: Repo.Repo) {
    s.LoggedIn? ==> s.role == From(s.user.role) && s.user in repo.users
  }

  predicate Inv(vm: ViewModel) {
    Repo.Valid(vm.repo) && Consistent(vm.state, vm.repo)
  }

  lemma InUsersAfterAppend(users: seq<User>, x: User, u: User)
    requires u in users
    ensures u in users + [x]
  {
    var i :| 0 <= i < |users| && users[i] == u;
    assert (users + [x])[i] == u;
  }

  /** A handler that changes only the session and announces a user of the table keeps the invariant. */
  lemma SessionOnlyKeepsInv(vm: ViewModel, prefs: Repo.Prefs, currentId: Option<int>, s: AuthState)
    requires Inv(vm) && Consistent(s, vm.repo)
    ensures Inv(ViewModel(vm.repo.(prefs := prefs, currentId := currentId), s))
  {
    Repo.SessionChangeKeepsValid(vm.repo, prefs, currentId);
  }

  lemma StartupKeepsInv(vm: ViewModel, now: int, later: int)
    requires Inv(vm)
    ensures Inv(Startup(vm, now, later).vm)
  {
    var e := Startup(vm, now, later);
    assert e.vm.repo == vm.repo.(prefs := e.vm.repo.prefs, currentId := e.vm.repo.currentId);
    SessionOnlyKeepsInv(vm, e.vm.repo.prefs, e.vm.repo.currentId, e.vm.state);
  }

  lemma WatchSweepKeepInv(vm: ViewModel, now: int)
    requires Inv(vm)
    ensures Inv(Watch(vm, now).vm) && Inv(Sweep(vm, now).vm)
  {
    var e := Sweep(vm, now);
    assert e.vm.repo == vm.repo.(prefs := e.vm.repo.prefs, currentId := e.vm.repo.currentId);
    SessionOnlyKeepsInv(vm, e.vm.repo.prefs, e.vm.repo.currentId, e.vm.state);
  }

  lemma LoginKeepsInv(vm: ViewModel, email: string, password: string, now: int, digest: Digester,
                      fault: Option<string>)
    requires Inv(vm)
    ensures Inv(Login(vm, email, password, now, digest, fault).vm)
  {
    var e := Login(vm, email, password, now, digest, fault);
    assert e.vm.repo == vm.repo.(prefs := e.vm.repo.prefs, currentId := e.vm.repo.currentId);
    SessionOnlyKeepsInv(vm, e.vm.repo.prefs, e.vm.repo.currentId, e.vm.state);
  }

  lemma RegisterKeepsInv(vm: ViewModel, reg: Repo.Registration, now: int, digest: Digester,
                         fault: Option<string>)
    requires Inv(vm)
    ensures Inv(Register(vm, reg, now, digest, fault).vm)
  {
    Repo.RegisterKeepsValid(vm.repo, reg, now, digest, fault);
    var c := Repo.Register(vm.repo, reg, now, digest, fault);
    var e := Register(vm, reg, now, digest, fault);
    if c.outcome.Returned? && c.outcome.value.Some? {
      var u := c.outcome.value.value;
      assert c.repo.users == vm.repo.users + [u];
      assert c.repo.users[|vm.repo.users|] == u;
      assert e.vm.state == LoggedInAs(u);
      assert e.vm.repo.users == c.repo.users;
      Repo.SessionChangeKeepsValid(c.repo, e.vm.repo.prefs, e.vm.repo.currentId);
      assert e.vm.repo == c.repo.(prefs := e.vm.repo.prefs, currentId := e.vm.repo.currentId);
    } else {
      assert e.vm.repo == c.repo;
    }
  }

  /** Every handler keeps the repository valid and every logged-in state consistent. */
  lemma StepKeepsInv(vm: ViewModel, ev: Event, digest: Digester)
    requires Inv(vm)
    ensures Inv(Step(vm, ev, digest).vm)
  {
    match ev
    case Start(now, later) => StartupKeepsInv(vm, now, later);
    case IdObserved(now) => WatchSweepKeepInv(vm, now);
    case SweepTick(now) => WatchSweepKeepInv(vm, now);
    case LoginClicked(email, password, now, fault) => LoginKeepsInv(vm, email, password, now, digest, fault);
    case RegisterClicked(reg, now, fault) => RegisterKeepsInv(vm, reg, now, digest, fault);
    case LogoutClicked => SessionOnlyKeepsInv(vm, Repo.EmptyPrefs, None, LoggedOut);
  }

  /** From a valid repository, any sequence of events keeps the invariant; in particular every
      logged-in state ever reached carries the role parsed from its user's row. */
  lemma {:induction false} RunKeepsInv(vm: ViewModel, events: seq<Event>, digest: Digester)
    requires Inv(vm)
    ensures Inv(Run(vm, events, digest))
    decreases |events|
  {
    if |events| > 0 {
      StepKeepsInv(vm, events[0], digest);
      RunKeepsInv(Step(vm, events[0], digest).vm, events[1..], digest);
    }
  }

  /** A view-model created over a valid repository satisfies the invariant from the start. */
  lemma CreateSatisfiesInv(repo: Repo.Repo)
    requires Repo.Valid(repo)
    ensures Inv(Create(repo)) && Create(repo).state == Loading
  {
  }

  /** After a successful login, sweeps within the next 30 minutes leave the user logged in, and
      the watcher seeing the new id does not reassign the state. */
  lemma LoginThenQuiet(vm: ViewModel, email: string, password: string, now: int, t: int,
                       digest: Digester)
    requires Inv(vm) && now != 0 && now <= t <= now + Repo.SessionTimeoutMillis
    requires Login(vm, email, password, now, digest, None).vm.state.LoggedIn?
    ensures var after := Login(vm, email, password, now, digest, None).vm;
      Sweep(after, t) == Effect(after, []) && Watch(after, t) == Effect(after, [])
  {
    var c := Repo.Login(vm.repo, email, password, now, digest, None);
    var u := c.outcome.value.value;
    var i :| 0 <= i < |vm.repo.users| && vm.repo.users[i] == u;
    Repo.FindUnique(vm.repo, i);
  }

  /** After a logout, a sweep changes nothing and the watcher keeps the state logged out
      without reassigning it. */
  lemma LogoutThenQuiet(vm: ViewModel, t: int)
    ensures Sweep(Logout(vm).vm, t) == Effect(Logout(vm).vm, [])
    ensures Watch(Logout(vm).vm, t) == Effect(Logout(vm).vm, [])
  {
  }
}
