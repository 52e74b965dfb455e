/** Self-registration of students and lookup of the signed-in user. */
module AuthService {
  import opened Results
  import opened Entities
  import opened Store
  import UserRepository
  import UserStore

  /** The registration form. */
  datatype Registration = Registration(username: string, password: string, confirmPassword: string,
                                       email: string, fullName: string, age: Option<int>)

  /**
   * The checks of `register`, in source order: the passwords match, the email is unused,
   * the username is unused. `None` means all pass.
   */
  function CheckRegistration(users: seq<User>, reg: Registration): (r: Option<Error>)
    ensures reg.password != reg.confirmPassword ==> r == Some(PasswordMismatch)
    ensures reg.password == reg.confirmPassword && UserRepository.ExistsByEmail(users, reg.email) ==>
              r == Some(EmailInUse)
    ensures (reg.password == reg.confirmPassword && !UserRepository.ExistsByEmail(users, reg.email) &&
             UserRepository.ExistsByUsername(users, reg.username)) ==> r == Some(UsernameInUse)
    ensures r.None? <==> (&& reg.password == reg.confirmPassword
                          && (forall j :: 0 <= j < |users| ==> users[j].email != Some(reg.email))
                          && (forall j :: 0 <= j < |users| ==> users[j].username != reg.username))
  {
    if reg.password != reg.confirmPassword then Some(PasswordMismatch)
    else if UserRepository.FindByEmail(users, reg.email).Some? then Some(EmailInUse)
    else if UserRepository.FindByUsername(users, reg.username).Some? then Some(UsernameInUse)
    else None
  }

  /** The saved user: a student without a group, with the encoded password. */
  function NewStudent(id: string, reg: Registration, encode: string -> string): (r: User)
    ensures r.IsStudent() && r.group.None? && r.id == id
    ensures r.password == encode(reg.password)
    ensures r.username == reg.username && r.email == Some(reg.email)
    ensures r.fullName == reg.fullName && r.age == reg.age
  {
    User(id, reg.username, encode(reg.password), Some(reg.email), reg.fullName, reg.age, Some(Student), None)
  }

  /**
   * `register`: on a failed check nothing is inserted; otherwise exactly one student row
   * is appended.
   */
  method Register(db: Database, reg: Registration, newId: string, encode: string -> string)
    returns (r: Result<User>)
    requires db.Valid()
    requires forall u :: u in db.users ==> u.id != newId
    modifies db`users
    ensures db.Valid()
    ensures CheckRegistration(old(db.users), reg).Some? ==>
              r == Err(CheckRegistration(old(db.users), reg).value) && db.users == old(db.users)
    ensures CheckRegistration(old(db.users), reg).None? ==>
              r == Ok(NewStudent(newId, reg, encode)) && db.users == old(db.users) + [r.value]
  {
    var check := CheckRegistration(db.users, reg);
    if check.Some? {
      return Err(check.value);
    }
    var u := NewStudent(newId, reg, encode);
    assert forall v :: v in db.users ==> v.username != u.username && v.email != u.email by {
      forall v | v in db.users ensures v.username != u.username && v.email != u.email {
        var j :| 0 <= j < |db.users| && db.users[j] == v;
      }
    }
    UserStore.InsertUserKeepsConsistent(db.users, db.subjects, db.assignments, db.attachments, db.submissions, u);
    db.users := db.users + [u];
    r := Ok(u);
  }

  /** Registration cannot take over an existing username or email. */
  lemma RegistrationKeepsAccountsApart(users: seq<User>, reg: Registration, existing: User)
    requires existing in users
    requires existing.username == reg.username || existing.email == Some(reg.email)
    ensures CheckRegistration(users, reg).Some?
  {
    var j :| 0 <= j < |users| && users[j] == existing;
  }

  /** `getUser`: the user with that username, or a not-found failure. */
  function GetUser(users: seq<User>, username: string): (r: Result<User>)
    ensures r.Err? <==> forall j :: 0 <= j < |users| ==> users[j].username != username
    ensures r.Err? ==> r.error == UserNotFound
    ensures r.Ok? ==> r.value in users && r.value.username == username
  {
    match UserRepository.FindByUsername(users, username)
    case None => Err(UserNotFound)
    case Some(u) => Ok(u)
  }
}
