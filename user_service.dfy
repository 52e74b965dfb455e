/** Account creation by role and the role and group queries behind the admin pages. */
module UserService {
  import opened Results
  import opened Entities
  import opened Seqs
  import opened Store
  import UserRepository
  import UserStore

  /**
   * The checks of `registerUser`, in source order: the username is unused, then a non-null
   * email is unused (a null email skips that check).
   */
  function CheckNewUser(users: seq<User>, username: string, email: Option<string>): (r: Option<Error>)
    ensures UserRepository.ExistsByUsername(users, username) ==> r == Some(UsernameInUse)
    ensures r.None? <==> (&& (forall j :: 0 <= j < |users| ==> users[j].username != username)
                          && (email.Some? ==> forall j :: 0 <= j < |users| ==> users[j].email != email))
    ensures r.Some? ==> r.value in {UsernameInUse, EmailInUse}
    ensures !UserRepository.ExistsByUsername(users, username) && r.Some? ==> r == Some(EmailInUse)
  {
    if UserRepository.ExistsByUsername(users, username) then Some(UsernameInUse)
    else if email.Some? && UserRepository.ExistsByEmail(users, email.value) then Some(EmailInUse)
    else None
  }

  /** The saved user: exactly the given role and group, the encoded password, no age. */
  function NewUser(id: string, username: string, password: string, email: Option<string>, fullName: string,
                   role: Role, group: Option<string>, encode: string -> string): (r: User)
    ensures r.id == id && r.username == username && r.email == email && r.fullName == fullName
    ensures r.role == Some(role) && r.group == group && r.password == encode(password) && r.age.None?
  {
    User(id, username, encode(password), email, fullName, None, Some(role), group)
  }

  /** `registerUser`: a failed check inserts nothing; otherwise exactly one row is appended. */
  method RegisterUser(db: Database, username: string, password: string, email: Option<string>, fullName: string,
                      role: Role, group: Option<string>, newId: string, encode: string -> string)
    returns (r: Result<User>)
    requires db.Valid()
    requires forall u :: u in db.users ==> u.id != newId
    modifies db`users
    ensures db.Valid()
    ensures CheckNewUser(old(db.users), username, email).Some? ==>
              r == Err(CheckNewUser(old(db.users), username, email).value) && db.users == old(db.users)
    ensures CheckNewUser(old(db.users), username, email).None? ==>
              r == Ok(NewUser(newId, username, password, email, fullName, role, group, encode)) &&
              db.users == old(db.users) + [r.value]
  {
    var check := CheckNewUser(db.users, username, email);
    if check.Some? {
      return Err(check.value);
    }
    var u := NewUser(newId, username, password, email, fullName, role, group, encode);
    assert forall v :: v in db.users ==> v.username != u.username by {
      forall v | v in db.users ensures v.username != u.username {
        var j :| 0 <= j < |db.users| && db.users[j] == v;
      }
    }
    assert u.email.Some? ==> forall v :: v in db.users ==> v.email != u.email by {
      forall v | v in db.users && u.email.Some? ensures v.email != u.email {
        var j :| 0 <= j < |db.users| && db.users[j] == v;
      }
    }
    UserStore.InsertUserKeepsConsistent(db.users, db.subjects, db.assignments, db.attachments, db.submissions, u);
    db.users := db.users + [u];
    r := Ok(u);
  }

  /** Without an email, only the username decides. */
  lemma NullEmailSkipsEmailCheck(users: seq<User>, username: string)
    ensures CheckNewUser(users, username, None).None? <==> !UserRepository.ExistsByUsername(users, username)
  {
  }

  /** `getAllStudents`. */
  function GetAllStudents(users: seq<User>): (r: seq<User>)
    ensures forall u :: u in r <==> u in users && u.IsStudent()
  {
    UserRepository.FindByRole(users, Student)
  }

  /** `getAllTeachers`. */
  function GetAllTeachers(users: seq<User>): (r: seq<User>)
    ensures forall u :: u in r <==> u in users && u.IsTeacher()
  {
    UserRepository.FindByRole(users, Teacher)
  }

  /** `countByRole` counts exactly the users the role lists return. */
  lemma CountByRoleMatchesLists(users: seq<User>)
    ensures UserRepository.CountByRole(users, Student) == |GetAllStudents(users)|
    ensures UserRepository.CountByRole(users, Teacher) == |GetAllTeachers(users)|
  {
    UserRepository.CountByRoleIsListLength(users, Student);
    UserRepository.CountByRoleIsListLength(users, Teacher);
  }

  /** `findGroups`: every group some user belongs to, each once. */
  function FindGroups(users: seq<User>): (r: seq<string>)
    ensures forall g :: g in r <==> exists u :: u in users && u.group == Some(g)
    ensures NoDuplicates(r)
  {
    var r := UserRepository.FindDistinctGroups(users);
    assert forall g :: (exists u :: u in users && u.group == Some(g)) ==>
                       exists j :: 0 <= j < |users| && users[j].group == Some(g) by {
      forall g | exists u :: u in users && u.group == Some(g)
        ensures exists j :: 0 <= j < |users| && users[j].group == Some(g) {
        var u :| u in users && u.group == Some(g);
        var j :| 0 <= j < |users| && users[j] == u;
      }
    }
    r
  }
}
