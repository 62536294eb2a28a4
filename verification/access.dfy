/** Access and redirect decisions of the dog tracker (`application.py`): the
    login gate, the post-login `next` redirect, registration of new users,
    and the admin-only gates on deleting dogs and events.

    Password hashing is a parameter: `checkPassword(hash, password)` stands
    for bcrypt's comparison and `hash` for the digest `set_password`
    stores. The logged-in user's role and authentication state are inputs. */
module Access {
  import opened Common
  import opened Values
  import Forms
  import DogStore

  /** The rate-limit strings of the configuration, per route group. */
  const DefaultRateLimits := "200 per day, 50 per hour"
  const LoginRateLimit := "5 per minute"
  const RegisterRateLimit := "3 per hour"
  const AddEditRateLimit := "10 per minute"
  const DeleteRateLimit := "5 per minute"
  const ApiRateLimit := "100 per hour"

  /** `url_for('home')`. */
  const HomePath := "/"

  const MsgDenied := "Access denied. Admin privileges required."
  const MsgInvalidLogin := "Invalid username or password."
  const MsgDisabled := "Account is disabled. Please contact administrator."
  const MsgUsernameTaken := "Username already exists."
  const MsgEmailTaken := "Email already registered."

  /** The start of the message of a failed user commit; the exception's own
      text that follows it is not modelled. */
  const MsgCreateFailed := "Error creating user: "

  datatype User = User(
    id: string, username: string, email: string, passwordHash: string,
    fullName: string, role: string, isActive: bool)

  /** The declared widths of the `users` columns. The form's rules bound the
      user name, e-mail, full name and role; `register` itself must keep the
      generated id and the hash within theirs. */
  const UserIdWidth := 36
  const UsernameWidth := 80
  const EmailWidth := 120
  const HashWidth := 128
  const FullNameWidth := 100
  const RoleWidth := 20

  /** PostgreSQL accepts the generated id and the hash into their columns. */
  predicate ColumnsFit(id: string, hash: string) {
    |id| <= UserIdWidth && |hash| <= HashWidth
  }

  /** The `users` table in query order. */
  type Users = seq<User>

  /** The table's UNIQUE constraints and primary key: no two users share an
      id, a user name or an e-mail address. */
  predicate Unique(users: Users) {
    forall i, j :: 0 <= i < j < |users| ==>
      users[i].id != users[j].id && users[i].username != users[j].username && users[i].email != users[j].email
  }

  /** `User.query.filter_by(username=name).first()`: the position of the
      first user with that name. */
  function FindUsername(users: Users, name: string): (r: Option<nat>)
    ensures r.None? <==> forall i :: 0 <= i < |users| ==> users[i].username != name
    ensures r.Some? ==> r.value < |users| && users[r.value].username == name
    ensures r.Some? ==> forall i :: 0 <= i < r.value ==> users[i].username != name
  {
    if |users| == 0 then None
    else if users[0].username == name then Some(0)
    else
      match FindUsername(users[1..], name)
      case None => None
      case Some(i) => Some(i + 1)
  }

  predicate EmailTaken(users: Users, email: string) {
    exists i :: 0 <= i < |users| && users[i].email == email
  }

  predicate IdTaken(users: Users, id: string) {
    exists i :: 0 <= i < |users| && users[i].id == id
  }

  // ---------------------------------------------------------- the redirect

  /** A path on this site: it starts with one `/` that a browser cannot read
      as the start of `//host` (browsers treat `\` like `/` there). */
  predicate LocalPath(p: string) {
    |p| >= 1 && p[0] == '/' && (|p| == 1 || (p[1] != '/' && p[1] != '\\'))
  }

  /** The `next` check as written: any non-empty value starting with `/` is
      followed, otherwise home. */
  function NextAsWritten(next: Option<string>): (r: string)
    ensures next.Some? && r == next.value <==> next.Some? && next.value != "" && StartsWith(next.value, "/")
    ensures !(next.Some? && next.value != "" && StartsWith(next.value, "/")) ==> r == HomePath
  {
    if next.None? || next.value == "" || !StartsWith(next.value, "/") then HomePath else next.value
  }

  /** The check as written follows `//evil.example`, which a browser reads
      as a link to another host. */
  lemma NextAsWrittenLeavesSite()
    ensures NextAsWritten(Some("//evil.example")) == "//evil.example"
    ensures !LocalPath(NextAsWritten(Some("//evil.example")))
  {
  }

  /** The corrected check: `next` is followed only when it is a local
      path. */
  function SafeNext(next: Option<string>): (r: string)
    ensures LocalPath(r)
    ensures r == HomePath || (next.Some? && r == next.value)
  {
    if next.Some? && LocalPath(next.value) then next.value else HomePath
  }

  /** `next` is followed exactly when it is a local path, and on local paths
      the corrected check agrees with the one as written. */
  lemma SafeNextFollows(next: Option<string>)
    ensures next.Some? && next.value != HomePath ==> (SafeNext(next) == next.value <==> LocalPath(next.value))
    ensures next.Some? && LocalPath(next.value) ==> SafeNext(next) == NextAsWritten(next)
    ensures next.None? ==> SafeNext(next) == HomePath
  {
  }

  // ------------------------------------------------------------- the login

  datatype LoginReply =
    | AlreadyIn                       // redirect home, nothing checked
    | LoginPage(flash: Option<string>)
    | LoggedIn(userId: string, target: string, welcome: string)

  /** `login()`. An authenticated visitor goes home. Otherwise a valid
      submitted form logs in the first user with that name if the password
      checks and the account is active, and sends them where the `next`
      check as written says; an inactive account is refused with its own
      message; anything else is 'Invalid username or password.'. */
  function Login(
    users: Users, authenticated: bool, isPost: bool, form: Forms.LoginInput,
    next: Option<string>, checkPassword: (string, string) -> bool): (r: LoginReply)
    ensures authenticated <==> r.AlreadyIn?
    ensures r.LoggedIn? ==>
      && isPost && Forms.LoginFormValid(form)
      && (exists i :: 0 <= i < |users| && users[i].username == form.username && users[i].id == r.userId
            && users[i].isActive && checkPassword(users[i].passwordHash, form.password))
      && r.target == NextAsWritten(next)
    ensures Unique(users) && !authenticated && isPost && Forms.LoginFormValid(form) ==>
      forall i :: 0 <= i < |users| && users[i].username == form.username ==>
        && (checkPassword(users[i].passwordHash, form.password) && users[i].isActive ==>
              r == LoggedIn(users[i].id, NextAsWritten(next), "Welcome back, " + users[i].fullName + "!"))
        && (checkPassword(users[i].passwordHash, form.password) && !users[i].isActive ==>
              r == LoginPage(Some(MsgDisabled)))
        && (!checkPassword(users[i].passwordHash, form.password) ==> r == LoginPage(Some(MsgInvalidLogin)))
    ensures (&& !authenticated && isPost && Forms.LoginFormValid(form)
             && (forall i :: 0 <= i < |users| ==> users[i].username != form.username))
      ==> r == LoginPage(Some(MsgInvalidLogin))
    ensures !authenticated && !(isPost && Forms.LoginFormValid(form)) ==> r == LoginPage(None)
  {
    if authenticated then AlreadyIn
    else if !(isPost && Forms.LoginFormValid(form)) then LoginPage(None)
    else
      match FindUsername(users, form.username)
      case None => LoginPage(Some(MsgInvalidLogin))
      case Some(i) =>
        var u := users[i];
        if !checkPassword(u.passwordHash, form.password) then LoginPage(Some(MsgInvalidLogin))
        else if !u.isActive then LoginPage(Some(MsgDisabled))
        else LoggedIn(u.id, NextAsWritten(next), "Welcome back, " + u.fullName + "!")
  }

  /** The login with the corrected `next` check: the same decision, but a
      successful login only ever lands on a path of this site. */
  function SafeLogin(
    users: Users, authenticated: bool, isPost: bool, form: Forms.LoginInput,
    next: Option<string>, checkPassword: (string, string) -> bool): (r: LoginReply)
    ensures var l := Login(users, authenticated, isPost, form, next, checkPassword);
      && (r.LoggedIn? <==> l.LoggedIn?)
      && (!l.LoggedIn? ==> r == l)
      && (r.LoggedIn? ==> r.userId == l.userId && r.welcome == l.welcome && r.target == SafeNext(next))
    ensures r.LoggedIn? ==> LocalPath(r.target)
  {
    var l := Login(users, authenticated, isPost, form, next, checkPassword);
    if l.LoggedIn? then l.(target := SafeNext(next)) else l
  }

  /** A successful login as written follows `next` exactly when it is a
      non-empty value starting with `/`, protocol-relative `//host` values
      included; the corrected login never leaves the site. */
  lemma LoginFollowsNext(
    users: Users, form: Forms.LoginInput, next: Option<string>, checkPassword: (string, string) -> bool)
    requires Login(users, false, true, form, next, checkPassword).LoggedIn?
    ensures var r := Login(users, false, true, form, next, checkPassword);
      && (next.Some? && r.target == next.value <==> next.Some? && next.value != "" && StartsWith(next.value, "/"))
      && (next == Some("//evil.example") ==> r.target == "//evil.example" && !LocalPath(r.target))
      && LocalPath(SafeLogin(users, false, true, form, next, checkPassword).target)
  {
    NextAsWrittenLeavesSite();
  }

  // ------------------------------------------------------ registration

  /** Where a request ends up. */
  datatype Target = Home | ViewDog(dogId: Value)

  datatype Reply = ShowForm(flash: Option<string>) | Redirect(target: Target, message: string)

  /** `register()`. Only an admin gets past the gate. A valid form is refused
      when its user name or e-mail is already registered, checked in that
      order; otherwise a user `user-<uuid8>` is appended, active, with the
      submitted fields and the hashed password. An id collision, or an id or
      hash wider than its column, makes the commit fail: the form comes back
      with 'Error creating user' and nothing changes. The form's own length
      rules keep the other columns within their widths. */
  function Register(
    users: Users, role: string, isPost: bool, form: Forms.UserInput, emailSyntax: bool,
    uuid8: string, hash: string): (r: (Users, Reply))
    ensures role != "admin" ==> r == (users, Redirect(Home, MsgDenied))
    ensures !r.1.Redirect? ==> r.0 == users
    ensures r.0 != users ==> role == "admin" && isPost && Forms.UserFormValid(form, emailSyntax)
    ensures role == "admin" && isPost && Forms.UserFormValid(form, emailSyntax) ==>
      && ((exists i :: 0 <= i < |users| && users[i].username == form.username) ==>
            r == (users, ShowForm(Some(MsgUsernameTaken))))
      && ((forall i :: 0 <= i < |users| ==> users[i].username != form.username) && EmailTaken(users, form.email) ==>
            r == (users, ShowForm(Some(MsgEmailTaken))))
    ensures r.0 != users ==>
      && (forall i :: 0 <= i < |users| ==> users[i].username != form.username)
      && !EmailTaken(users, form.email)
      && !IdTaken(users, "user-" + uuid8) && ColumnsFit("user-" + uuid8, hash)
      && r.0 == users + [User("user-" + uuid8, form.username, form.email, hash, form.fullName, form.role, true)]
      && r.1 == Redirect(Home, "User " + form.username + " created successfully!")
    ensures (&& role == "admin" && isPost && Forms.UserFormValid(form, emailSyntax)
             && (forall i :: 0 <= i < |users| ==> users[i].username != form.username)
             && !EmailTaken(users, form.email)) ==>
      && (IdTaken(users, "user-" + uuid8) || !ColumnsFit("user-" + uuid8, hash) ==>
            r == (users, ShowForm(Some(MsgCreateFailed))))
      && (!IdTaken(users, "user-" + uuid8) && ColumnsFit("user-" + uuid8, hash) ==>
            r == (users + [User("user-" + uuid8, form.username, form.email, hash, form.fullName, form.role, true)],
                  Redirect(Home, "User " + form.username + " created successfully!")))
    ensures Unique(users) ==> Unique(r.0)
  {
    if role != "admin" then (users, Redirect(Home, MsgDenied))
    else if !(isPost && Forms.UserFormValid(form, emailSyntax)) then (users, ShowForm(None))
    else if FindUsername(users, form.username).Some? then (users, ShowForm(Some(MsgUsernameTaken)))
    else if EmailTaken(users, form.email) then (users, ShowForm(Some(MsgEmailTaken)))
    else
      var id := "user-" + uuid8;
      if IdTaken(users, id) || !ColumnsFit(id, hash) then (users, ShowForm(Some(MsgCreateFailed)))
      else
        var u := User(id, form.username, form.email, hash, form.fullName, form.role, true);
        assert forall i :: 0 <= i < |users| ==> users[i].email != form.email && users[i].id != id;
        (users + [u], Redirect(Home, "User " + form.username + " created successfully!"))
  }

  /** Every user the register route creates has a role the form allows. */
  lemma RegisteredRole(users: Users, role: string, isPost: bool, form: Forms.UserInput, emailSyntax: bool, uuid8: string, hash: string)
    requires Register(users, role, isPost, form, emailSyntax, uuid8, hash).0 != users
    ensures var u := Register(users, role, isPost, form, emailSyntax, uuid8, hash).0[|users|];
      u.role in Forms.Roles && u.isActive && StartsWith(u.id, "user-")
  {
    Forms.UserRoleRules(form.role);
    StartsWithConcat("user-", uuid8);
  }

  /** Every user the register route creates fits every `VARCHAR` column of
      the `users` table. */
  lemma RegisteredFits(users: Users, role: string, isPost: bool, form: Forms.UserInput, emailSyntax: bool, uuid8: string, hash: string)
    requires Register(users, role, isPost, form, emailSyntax, uuid8, hash).0 != users
    ensures var u := Register(users, role, isPost, form, emailSyntax, uuid8, hash).0[|users|];
      && |u.id| <= UserIdWidth && |u.passwordHash| <= HashWidth
      && |u.username| <= UsernameWidth && |u.email| <= EmailWidth
      && |u.fullName| <= FullNameWidth && |u.role| <= RoleWidth
  {
    Forms.UserUsernameRules(form.username);
    Forms.Clean2(Forms.UserEmail, form.email);
    Forms.Clean3(Forms.UserFullName, form.fullName);
    Forms.UserRoleRules(form.role);
  }

  // ------------------------------------------------------ admin-only deletes

  /** `delete(dog_id)`: anyone but an admin is sent home with the denial and
      nothing changes; an admin deletes the dog and, by cascade, its
      events. */
  function DeleteDogRoute(db: DogStore.Db, role: string, dogId: string): (r: (DogStore.Db, Reply))
    ensures role != "admin" ==> r == (db, Redirect(Home, MsgDenied))
    ensures r.0 != db ==> role == "admin"
    ensures role == "admin" ==>
      && dogId !in r.0.dogs
      && r.0.dogs.Keys == db.dogs.Keys - {dogId}
      && (forall k :: k in r.0.dogs ==> r.0.dogs[k] == db.dogs[k])
      && r.0.events.Keys == db.events.Keys - (if dogId in db.dogs then DogStore.EventsOf(db.events, dogId) else {})
      && (forall k :: k in r.0.events ==> r.0.events[k] == db.events[k])
      && (dogId in db.dogs ==> forall k :: k in r.0.events ==> r.0.events[k].dogId != VStr(dogId))
      && r.1 == Redirect(Home, if dogId in db.dogs then "Dog deleted successfully!" else "Dog not found")
  {
    if role != "admin" then (db, Redirect(Home, MsgDenied))
    else
      var d := DogStore.DeleteDog(db, dogId);
      (d.db, Redirect(Home, if d.result then "Dog deleted successfully!" else "Dog not found"))
  }

  /** `delete_event(event_id)`: the same gate; an admin deletes the event
      and is sent to its dog's page, or home when there is no such event. */
  function DeleteEventRoute(db: DogStore.Db, role: string, eventId: string): (r: (DogStore.Db, Reply))
    ensures role != "admin" ==> r == (db, Redirect(Home, MsgDenied))
    ensures r.0 != db ==> role == "admin"
    ensures role == "admin" ==>
      && eventId !in r.0.events
      && r.0.dogs == db.dogs
      && r.0.events.Keys == db.events.Keys - {eventId}
      && (forall k :: k in r.0.events ==> r.0.events[k] == db.events[k])
      && (eventId in db.events ==> r.1 == Redirect(ViewDog(db.events[eventId].dogId), "Event deleted successfully!"))
      && (eventId !in db.events ==> r == (db, Redirect(Home, "Event not found")))
  {
    if role != "admin" then (db, Redirect(Home, MsgDenied))
    else if eventId in db.events then
      var dogId := db.events[eventId].dogId;
      (DogStore.DeleteEvent(db, eventId).db, Redirect(ViewDog(dogId), "Event deleted successfully!"))
    else
      (db, Redirect(Home, "Event not found"))
  }
}
