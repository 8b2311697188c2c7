/** The authentication repository: the user table, the student and teacher profile tables, the
    session kept in the shared-preferences file, and the "current user id" flow. Register, login
    and logout are pure transitions of that state; the clock, the SHA-256 digest and storage
    failures are parameters. */
module AuthRepository {
  import opened Lookup
  import opened Entities
  import opened Roles
  import opened PasswordHasher

  const SessionTimeoutMinutes: int := 30
  /** The inactivity timeout in milliseconds: 30 * 60 * 1000. */
  const SessionTimeoutMillis: int := SessionTimeoutMinutes * 60 * 1000
  /** What reading the stored user id yields when none is stored; it reads as "no user". */
  const NoUserId: int := -1
  /** The message of the exception Kotlin's `require` throws. */
  const RequireFailedMessage: string := "Failed requirement."

  /** The session keys of the preferences file; None means the key is absent. */
  datatype Prefs = Prefs(userId: Option<int>, email: Option<string>, role: Option<string>,
                         lastActivity: Option<int>)

  const EmptyPrefs: Prefs := Prefs(None, None, None, None)

  /** Tables are in insertion (row id) order; each `next…` is the next auto-generated key.
      `currentId` is the value of the observable current-user-id flow. */
  datatype Repo = Repo(users: seq<User>, nextUserId: int,
                       students: seq<Student>, nextStudentId: int,
                       teachers: seq<Teacher>, nextTeacherId: int,
                       prefs: Prefs, currentId: Option<int>)

  /** How a suspending call ends: it returns a value or throws an exception with a message. */
  datatype Outcome<+T> = Returned(value: T) | Threw(message: string)

  /** The repository after a call, and how the call ended. */
  datatype Call<+T> = Call(repo: Repo, outcome: Outcome<T>)

  /** The arguments of `register`; the last three are only used for a student. */
  datatype Registration = Registration(email: string, password: string, role: Role,
                                       firstName: string, lastName: string,
                                       level: Option<LevelCourse>, dateOfBirth: Option<int>,
                                       gender: Option<Gender>)

  // ----- Session store -----

  /** The logged-in user's id as stored in the session, if any. */
  function CurrentUserId(p: Prefs): (r: Option<int>)
    ensures r.None? <==> p.userId.None? || p.userId.value == NoUserId
    ensures r.Some? ==> Some(r.value) == p.userId && r.value != NoUserId
  {
    match p.userId
    case None => None
    case Some(id) => if id == NoUserId then None else Some(id)
  }

  /** The stored last-activity timestamp, 0 when absent. */
  function LastActivity(p: Prefs): (t: int)
    ensures p.lastActivity.Some? ==> t == p.lastActivity.value
    ensures t == 0 <==> p.lastActivity.None? || p.lastActivity == Some(0)
  {
    p.lastActivity.GetOr(0)
  }

  /** The session is expired when there is no user, no recorded activity, or strictly more than
      the timeout has elapsed since the last activity. */
  predicate IsSessionExpired(p: Prefs, now: int)
    ensures CurrentUserId(p).None? || p.lastActivity.None? || p.lastActivity == Some(0) ==> IsSessionExpired(p, now)
    ensures CurrentUserId(p).Some? && p.lastActivity.Some? && p.lastActivity.value != 0 ==>
      (IsSessionExpired(p, now) <==> now > p.lastActivity.value + 1_800_000)
  {
    CurrentUserId(p).None? || LastActivity(p) == 0 || now - LastActivity(p) > SessionTimeoutMillis
  }

  /** The session written on login and registration: all four keys, activity stamped `now`. */
  function SaveSession(u: User, now: int): (p: Prefs)
    ensures u.id != NoUserId ==> CurrentUserId(p) == Some(u.id)
    ensures p.userId == Some(u.id) && p.lastActivity == Some(now)
    ensures p.email == Some(u.email) && p.role == Some(u.role)
    ensures u.id != NoUserId && now != 0 ==> !IsSessionExpired(p, now)
  {
    Prefs(Some(u.id), Some(u.email), Some(u.role), Some(now))
  }

  /** Stamps the activity time, and only when a user is stored; nothing else changes. */
  function UpdateLastActivity(p: Prefs, now: int): (r: Prefs)
    ensures CurrentUserId(p).Some? ==> r.lastActivity == Some(now)
    ensures CurrentUserId(p).None? ==> r == p
    ensures r.userId == p.userId && r.email == p.email && r.role == p.role
    ensures CurrentUserId(r) == CurrentUserId(p)
  {
    if CurrentUserId(p).Some? then p.(lastActivity := Some(now)) else p
  }

  /** The stored role, parsed; None when no role is stored. */
  function CurrentUserRole(p: Prefs): (r: Option<Role>)
    ensures r.None? <==> p.role.None?
    ensures r.Some? ==> r.value == From(p.role.value)
  {
    match p.role
    case None => None
    case Some(s) => Some(From(s))
  }

  // ----- Queries -----

  /** The user with this email (`LIMIT 1`: the first in row order). */
  function FindByEmail(users: seq<User>, email: string): (r: Option<User>)
    ensures r.Some? ==> r.value in users && r.value.email == email
    ensures r.None? <==> forall i :: 0 <= i < |users| ==> users[i].email != email
  {
    Find(users, (u: User) => u.email == email)
  }

  /** The user with this id (`LIMIT 1`). */
  function FindById(users: seq<User>, id: int): (r: Option<User>)
    ensures r.Some? ==> r.value in users && r.value.id == id
    ensures r.None? <==> forall i :: 0 <= i < |users| ==> users[i].id != id
  {
    Find(users, (u: User) => u.id == id)
  }

  /** `getCurrentUserSync`: the user row of the session's user id. */
  function CurrentUser(repo: Repo): (r: Option<User>)
    ensures r.Some? ==> r.value in repo.users && CurrentUserId(repo.prefs) == Some(r.value.id)
    ensures CurrentUserId(repo.prefs).None? ==> r.None?
    ensures CurrentUserId(repo.prefs).Some? ==>
      (r.None? <==> forall i :: 0 <= i < |repo.users| ==> repo.users[i].id != CurrentUserId(repo.prefs).value)
  {
    match CurrentUserId(repo.prefs)
    case None => None
    case Some(id) => FindById(repo.users, id)
  }

  // ----- Invariant -----

  predicate HasUser(users: seq<User>, id: int) {
    exists i :: 0 <= i < |users| && users[i].id == id
  }

  /** Ids are positive, increasing and below the next key; emails are unique (the unique index on
      `email`); every profile points at an existing user. */
  predicate Valid(r: Repo) {
    && 1 <= r.nextUserId
    && (forall i :: 0 <= i < |r.users| ==> 1 <= r.users[i].id < r.nextUserId)
    && (forall i, j :: 0 <= i < j < |r.users| ==> r.users[i].id < r.users[j].id)
    && (forall i, j :: 0 <= i < j < |r.users| ==> r.users[i].email != r.users[j].email)
    && (forall i :: 0 <= i < |r.students| ==> HasUser(r.users, r.students[i].userId))
    && (forall i :: 0 <= i < |r.teachers| ==> HasUser(r.users, r.teachers[i].userId))
  }

  /** The repository as constructed: the id flow starts from the stored session. */
  function Open(users: seq<User>, nextUserId: int, students: seq<Student>, nextStudentId: int,
                teachers: seq<Teacher>, nextTeacherId: int, prefs: Prefs): (r: Repo)
    ensures r.currentId == CurrentUserId(prefs)
    ensures r.prefs == prefs && r.users == users
    ensures r.students == students && r.teachers == teachers
    ensures r.nextUserId == nextUserId && r.nextStudentId == nextStudentId && r.nextTeacherId == nextTeacherId
  {
    Repo(users, nextUserId, students, nextStudentId, teachers, nextTeacherId, prefs,
         CurrentUserId(prefs))
  }

  // ----- Operations -----

  /** Whether a student registration lacks one of the student-only fields. */
  predicate MissingStudentFields(reg: Registration) {
    reg.role == STUDENT && (reg.level.None? || reg.dateOfBirth.None? || reg.gender.None?)
  }

  /** The user row a registration inserts, with the id it is given. */
  function NewUser(repo: Repo, reg: Registration, digest: Digester): User {
    User(repo.nextUserId, reg.email, Hash(digest, reg.password), Value(reg.role))
  }

  /** `register`. A failing email lookup (`fault`) throws before anything changes; a taken email
      returns null; a student without level, birth date or gender throws at the `require` after the
      user row is already inserted; otherwise the user and the matching profile are inserted and
      a session is saved for the new id. */
  function Register(repo: Repo, reg: Registration, now: int, digest: Digester,
                    fault: Option<string>): (c: Call<Option<User>>)
    ensures fault.Some? ==> c == Call(repo, Threw(fault.value))
    ensures fault.None? && FindByEmail(repo.users, reg.email).Some? ==> c == Call(repo, Returned(None))
    ensures c.outcome.Returned? && c.outcome.value.Some? ==>
      var u := c.outcome.value.value;
      && u.id == repo.nextUserId && u.email == reg.email && u.role == Value(reg.role)
      && Verify(digest, reg.password, u.passwordHash)
      && c.repo.users == repo.users + [u]
      && c.repo.nextUserId == repo.nextUserId + 1
      && CurrentUserId(c.repo.prefs) == (if u.id == NoUserId then None else Some(u.id))
      && c.repo.prefs.lastActivity == Some(now)
      && c.repo.currentId == Some(u.id)
    ensures c.outcome.Returned? && c.outcome.value.Some? && reg.role == STUDENT ==>
      && c.repo.teachers == repo.teachers
      && |c.repo.students| == |repo.students| + 1
      && c.repo.students[..|repo.students|] == repo.students
      && c.repo.students[|repo.students|].userId == repo.nextUserId
    ensures c.outcome.Returned? && c.outcome.value.Some? && reg.role == TEACHER ==>
      && c.repo.students == repo.students
      && |c.repo.teachers| == |repo.teachers| + 1
      && c.repo.teachers[..|repo.teachers|] == repo.teachers
      && c.repo.teachers[|repo.teachers|].userId == repo.nextUserId
    ensures fault.None? && FindByEmail(repo.users, reg.email).None? && MissingStudentFields(reg) ==>
      && c.outcome == Threw(RequireFailedMessage)
      && c.repo == repo.(users := repo.users + [NewUser(repo, reg, digest)], nextUserId := repo.nextUserId + 1)
    ensures fault.None? && FindByEmail(repo.users, reg.email).None? && !MissingStudentFields(reg) ==>
      c.outcome == Returned(Some(NewUser(repo, reg, digest)))
    ensures fault.None? && FindByEmail(repo.users, reg.email).None? && !MissingStudentFields(reg)
            && reg.role == STUDENT ==>
      var u := NewUser(repo, reg, digest);
      c.repo == repo.(users := repo.users + [u], nextUserId := repo.nextUserId + 1,
                      students := repo.students + [Student(repo.nextStudentId, u.id, reg.lastName, reg.firstName,
                                                           reg.dateOfBirth.value, reg.gender.value, reg.level.value)],
                      nextStudentId := repo.nextStudentId + 1,
                      prefs := SaveSession(u, now), currentId := Some(u.id))
    ensures fault.None? && FindByEmail(repo.users, reg.email).None? && reg.role == TEACHER ==>
      var u := NewUser(repo, reg, digest);
      c.repo == repo.(users := repo.users + [u], nextUserId := repo.nextUserId + 1,
                      teachers := repo.teachers + [Teacher(repo.nextTeacherId, u.id, reg.lastName, reg.firstName)],
                      nextTeacherId := repo.nextTeacherId + 1,
                      prefs := SaveSession(u, now), currentId := Some(u.id))
  {
    if fault.Some? then Call(repo, Threw(fault.value))
    else if FindByEmail(repo.users, reg.email).Some? then Call(repo, Returned(None))
    else
      var user := NewUser(repo, reg, digest);
      var withUser := repo.(users := repo.users + [user], nextUserId := repo.nextUserId + 1);
      match reg.role
      case STUDENT =>
        if MissingStudentFields(reg) then Call(withUser, Threw(RequireFailedMessage))
        else
          var s := Student(repo.nextStudentId, user.id, reg.lastName, reg.firstName,
                           reg.dateOfBirth.value, reg.gender.value, reg.level.value);
          var withProfile := withUser.(students := repo.students + [s], nextStudentId := repo.nextStudentId + 1);
          Call(withProfile.(prefs := SaveSession(user, now), currentId := Some(user.id)), Returned(Some(user)))
      case TEACHER =>
        var t := Teacher(repo.nextTeacherId, user.id, reg.lastName, reg.firstName);
        var withProfile := withUser.(teachers := repo.teachers + [t], nextTeacherId := repo.nextTeacherId + 1);
        Call(withProfile.(prefs := SaveSession(user, now), currentId := Some(user.id)), Returned(Some(user)))
  }

  /** `login`. The user found by email is logged in when the password verifies against its stored
      hash; otherwise null is returned and nothing changes. */
  function Login(repo: Repo, email: string, password: string, now: int, digest: Digester,
                 fault: Option<string>): (c: Call<Option<User>>)
    ensures fault.Some? ==> c == Call(repo, Threw(fault.value))
    ensures fault.None? ==> c.outcome.Returned?
    ensures fault.None? ==>
      (c.outcome.value.Some? <==>
         FindByEmail(repo.users, email).Some? &&
         Verify(digest, password, FindByEmail(repo.users, email).value.passwordHash))
    ensures c.outcome.Returned? && c.outcome.value.Some? ==>
      var u := c.outcome.value.value;
      && u in repo.users && u.email == email && Verify(digest, password, u.passwordHash)
      && c.repo == repo.(prefs := SaveSession(u, now), currentId := Some(u.id))
    ensures !(c.outcome.Returned? && c.outcome.value.Some?) ==> c.repo == repo
  {
    if fault.Some? then Call(repo, Threw(fault.value))
    else
      match FindByEmail(repo.users, email)
      case None => Call(repo, Returned(None))
      case Some(u) =>
        if Verify(digest, password, u.passwordHash) then
          Call(repo.(prefs := SaveSession(u, now), currentId := Some(u.id)), Returned(Some(u)))
        else Call(repo, Returned(None))
  }

  /** `logout`: every session key is removed and the id flow becomes null. */
  function Logout(repo: Repo): (r: Repo)
    ensures r.prefs == EmptyPrefs && r.currentId.None?
    ensures CurrentUserId(r.prefs).None? && CurrentUserRole(r.prefs).None?
    ensures forall now :: IsSessionExpired(r.prefs, now)
    ensures r.users == repo.users && r.students == repo.students && r.teachers == repo.teachers
    ensures r.nextUserId == repo.nextUserId && r.nextStudentId == repo.nextStudentId
            && r.nextTeacherId == repo.nextTeacherId
  {
    repo.(prefs := EmptyPrefs, currentId := None)
  }

  // ----- Properties -----

  /** The timeout boundary: exactly 30 minutes after the last activity the session is still
      alive, one millisecond later it has expired. */
  lemma ExpiryBoundary(p: Prefs, now: int)
    requires CurrentUserId(p).Some? && LastActivity(p) != 0
    ensures now - LastActivity(p) <= SessionTimeoutMillis ==> !IsSessionExpired(p, now)
    ensures now - LastActivity(p) > SessionTimeoutMillis ==> IsSessionExpired(p, now)
    ensures !IsSessionExpired(p, LastActivity(p) + 30 * 60 * 1000)
    ensures IsSessionExpired(p, LastActivity(p) + 30 * 60 * 1000 + 1)
    ensures !IsSessionExpired(p, LastActivity(p) + 29 * 60 * 1000)
    ensures IsSessionExpired(p, LastActivity(p) + 31 * 60 * 1000)
  {
  }

  /** Once expired, a session stays expired as the clock moves forward. */
  lemma ExpiryIsMonotonic(p: Prefs, t1: int, t2: int)
    requires t1 <= t2 && IsSessionExpired(p, t1)
    ensures IsSessionExpired(p, t2)
  {
  }

  /** Refreshing the activity twice at the same instant is the same as once, so the expiry state
      seen between and after the two calls is the same. */
  lemma UpdateLastActivityIdempotent(p: Prefs, now: int, later: int)
    ensures UpdateLastActivity(UpdateLastActivity(p, now), now) == UpdateLastActivity(p, now)
    ensures IsSessionExpired(UpdateLastActivity(UpdateLastActivity(p, now), now), later)
            == IsSessionExpired(UpdateLastActivity(p, now), later)
  {
  }

  /** A refreshed session of a stored user is alive at the refresh instant. */
  lemma RefreshKeepsAlive(p: Prefs, now: int)
    requires CurrentUserId(p).Some? && now != 0
    ensures !IsSessionExpired(UpdateLastActivity(p, now), now)
  {
  }

  /** In a valid repository the user with a given id or email is the only one. */
  lemma FindUnique(repo: Repo, i: nat)
    requires Valid(repo) && i < |repo.users|
    ensures FindById(repo.users, repo.users[i].id) == Some(repo.users[i])
    ensures FindByEmail(repo.users, repo.users[i].email) == Some(repo.users[i])
  {
    var u := repo.users[i];
    var a := FindById(repo.users, u.id).value;
    var ka :| 0 <= ka < |repo.users| && repo.users[ka] == a;
    assert ka == i;
    var b := FindByEmail(repo.users, u.email).value;
    var kb :| 0 <= kb < |repo.users| && repo.users[kb] == b;
    assert kb == i;
  }

  /** With unique emails, login succeeds exactly when some user has that email and the password
      verifies against that user's stored hash. */
  lemma LoginIff(repo: Repo, email: string, password: string, now: int, digest: Digester)
    requires Valid(repo)
    ensures Login(repo, email, password, now, digest, None).outcome.value.Some? <==>
      exists i :: 0 <= i < |repo.users| && repo.users[i].email == email
                  && Verify(digest, password, repo.users[i].passwordHash)
  {
    if i :| 0 <= i < |repo.users| && repo.users[i].email == email
            && Verify(digest, password, repo.users[i].passwordHash) {
      FindUnique(repo, i);
    }
  }

  /** A taken email never gains a second row: registering it leaves the repository unchanged. */
  lemma RegisterTakenEmail(repo: Repo, reg: Registration, now: int, digest: Digester, i: nat)
    requires i < |repo.users| && repo.users[i].email == reg.email
    ensures Register(repo, reg, now, digest, None) == Call(repo, Returned(None))
  {
  }

  /** A student registration that fails the field requirement still inserts its user row, with no
      profile and no session; so any later registration with the same email returns null. */
  lemma FailedStudentRegistrationTakesEmail(repo: Repo, reg: Registration, reg2: Registration,
                                            now: int, later: int, digest: Digester)
    requires FindByEmail(repo.users, reg.email).None? && MissingStudentFields(reg)
    requires reg2.email == reg.email
    ensures var c := Register(repo, reg, now, digest, None);
      && c.outcome.Threw?
      && c.repo.students == repo.students && c.repo.prefs == repo.prefs
      && Register(c.repo, reg2, later, digest, None) == Call(c.repo, Returned(None))
  {
    var c := Register(repo, reg, now, digest, None);
    assert c.repo.users[|repo.users|] == NewUser(repo, reg, digest);
    RegisterTakenEmail(c.repo, reg2, later, digest, |repo.users|);
  }

  lemma AppendUserKeepsHasUser(users: seq<User>, u: User, id: int)
    requires HasUser(users, id)
    ensures HasUser(users + [u], id)
  {
    var i :| 0 <= i < |users| && users[i].id == id;
    assert (users + [u])[i].id == id;
  }

  /** Registration keeps the repository valid, on every path including the failed `require`. */
  lemma RegisterKeepsValid(repo: Repo, reg: Registration, now: int, digest: Digester,
                           fault: Option<string>)
    requires Valid(repo)
    ensures Valid(Register(repo, reg, now, digest, fault).repo)
  {
    var c := Register(repo, reg, now, digest, fault);
    if fault.None? && FindByEmail(repo.users, reg.email).None? {
      var u := NewUser(repo, reg, digest);
      var users' := repo.users + [u];
      assert c.repo.users == users' && c.repo.nextUserId == repo.nextUserId + 1;
      NewUserKeepsTableValid(repo, u);
      assert HasUser(users', u.id) by {
        assert users'[|repo.users|].id == u.id;
      }
      forall i | 0 <= i < |c.repo.students| ensures HasUser(users', c.repo.students[i].userId) {
        if i < |repo.students| {
          assert c.repo.students[i] == repo.students[i];
          AppendUserKeepsHasUser(repo.users, u, repo.students[i].userId);
        }
      }
      forall i | 0 <= i < |c.repo.teachers| ensures HasUser(users', c.repo.teachers[i].userId) {
        if i < |repo.teachers| {
          assert c.repo.teachers[i] == repo.teachers[i];
          AppendUserKeepsHasUser(repo.users, u, repo.teachers[i].userId);
        }
      }
    }
  }

  /** Appending a user with the next id and a fresh email keeps ids increasing and emails unique. */
  lemma NewUserKeepsTableValid(repo: Repo, u: User)
    requires Valid(repo) && u.id == repo.nextUserId
    requires forall i :: 0 <= i < |repo.users| ==> repo.users[i].email != u.email
    ensures var users' := repo.users + [u];
      && (forall i :: 0 <= i < |users'| ==> 1 <= users'[i].id < repo.nextUserId + 1)
      && (forall i, j :: 0 <= i < j < |users'| ==> users'[i].id < users'[j].id)
      && (forall i, j :: 0 <= i < j < |users'| ==> users'[i].email != users'[j].email)
  {
  }

  /** Login and logout keep the repository valid: they touch only the session. */
  lemma LoginLogoutKeepValid(repo: Repo, email: string, password: string, now: int,
                             digest: Digester, fault: Option<string>)
    requires Valid(repo)
    ensures Valid(Login(repo, email, password, now, digest, fault).repo)
    ensures Valid(Logout(repo))
  {
    var c := Login(repo, email, password, now, digest, fault);
    SessionChangeKeepsValid(repo, c.repo.prefs, c.repo.currentId);
    assert c.repo == repo.(prefs := c.repo.prefs, currentId := c.repo.currentId);
    SessionChangeKeepsValid(repo, EmptyPrefs, None);
  }

  /** Validity does not depend on the session. */
  lemma SessionChangeKeepsValid(repo: Repo, prefs: Prefs, currentId: Option<int>)
    requires Valid(repo)
    ensures Valid(repo.(prefs := prefs, currentId := currentId))
  {
  }

  /** A freshly registered user can log in with the same password, as the same user row. */
  lemma RegisterThenLogin(repo: Repo, reg: Registration, now: int, later: int, digest: Digester)
    requires Valid(repo)
    requires Register(repo, reg, now, digest, None).outcome == Returned(Some(NewUser(repo, reg, digest)))
    ensures Login(Register(repo, reg, now, digest, None).repo, reg.email, reg.password, later, digest, None).outcome
            == Returned(Some(NewUser(repo, reg, digest)))
  {
    var c := Register(repo, reg, now, digest, None);
    RegisterKeepsValid(repo, reg, now, digest, None);
    assert c.repo.users[|repo.users|] == NewUser(repo, reg, digest);
    FindUnique(c.repo, |repo.users|);
  }
}
