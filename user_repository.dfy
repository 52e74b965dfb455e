/** The derived and JPQL queries over the user table. */
module UserRepository {
  import opened Results
  import opened Entities
  import opened Seqs

  function HasId(id: string): User -> bool { (u: User) => u.id == id }
  function HasUsername(username: string): User -> bool { (u: User) => u.username == username }
  function HasEmail(email: string): User -> bool { (u: User) => u.email == Some(email) }
  function HasRole(role: Role): User -> bool { (u: User) => u.role == Some(role) }

  /** `findById`: the user with that primary key, if any. */
  function FindById(users: seq<User>, id: string): (r: Option<User>)
    ensures r.None? <==> forall j :: 0 <= j < |users| ==> users[j].id != id
    ensures r.Some? ==> r.value in users && r.value.id == id
  {
    Find(users, HasId(id))
  }

  /** `findByUsername`. */
  function FindByUsername(users: seq<User>, username: string): (r: Option<User>)
    ensures r.None? <==> forall j :: 0 <= j < |users| ==> users[j].username != username
    ensures r.Some? ==> r.value in users && r.value.username == username
  {
    Find(users, HasUsername(username))
  }

  /** `findByEmail`: a null email matches no row. */
  function FindByEmail(users: seq<User>, email: string): (r: Option<User>)
    ensures r.None? <==> forall j :: 0 <= j < |users| ==> users[j].email != Some(email)
    ensures r.Some? ==> r.value in users && r.value.email == Some(email)
  {
    Find(users, HasEmail(email))
  }

  /** `existsByUsername`. */
  function ExistsByUsername(users: seq<User>, username: string): (r: bool)
    ensures r <==> exists j :: 0 <= j < |users| && users[j].username == username
  {
    FindByUsername(users, username).Some?
  }

  /** `existsByEmail`. */
  function ExistsByEmail(users: seq<User>, email: string): (r: bool)
    ensures r <==> exists j :: 0 <= j < |users| && users[j].email == Some(email)
  {
    FindByEmail(users, email).Some?
  }

  /** `findByRole`: exactly the users holding that role. */
  function FindByRole(users: seq<User>, role: Role): (r: seq<User>)
    ensures forall u :: u in r <==> u in users && u.role == Some(role)
  {
    Filter(users, HasRole(role))
  }

  /** `countByRole`. */
  function CountByRole(users: seq<User>, role: Role): nat
  {
    Count(users, HasRole(role))
  }

  /** The non-null groups of the users, in order, with repetitions. */
  function GroupsOf(users: seq<User>): (r: seq<string>)
    ensures forall g :: g in r <==> exists j :: 0 <= j < |users| && users[j].group == Some(g)
  {
    if |users| == 0 then []
    else
      var rest := GroupsOf(users[1..]);
      assert forall j :: 0 <= j < |users| - 1 ==> users[1..][j] == users[j + 1];
      if users[0].group.Some? then [users[0].group.value] + rest else rest
  }

  /** `findDistinctGroups`: each non-null group once. */
  function FindDistinctGroups(users: seq<User>): (r: seq<string>)
    ensures forall g :: g in r <==> exists j :: 0 <= j < |users| && users[j].group == Some(g)
    ensures NoDuplicates(r)
  {
    Distinct(GroupsOf(users))
  }

  /** The count query agrees with the length of the list query. */
  lemma CountByRoleIsListLength(users: seq<User>, role: Role)
    ensures CountByRole(users, role) == |FindByRole(users, role)|
  {
    CountIsFilterLength(users, HasRole(role));
  }
}
