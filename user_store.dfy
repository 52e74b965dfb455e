/** Inserting into the user table while keeping its unique columns unique. */
module UserStore {
  import opened Entities
  import opened Seqs
  import opened Store

  /** A new row whose id, username and (non-null) email are all unused keeps the table consistent. */
  lemma InsertUserKeepsConsistent(users: seq<User>, subjects: seq<Subject>, asgs: seq<Assignment>,
                                  files: seq<AssignmentFile>, subs: seq<Submission>, u: User)
    requires Consistent(users, subjects, asgs, files, subs)
    requires forall v :: v in users ==> v.id != u.id && v.username != u.username
    requires u.email.Some? ==> forall v :: v in users ==> v.email != u.email
    ensures Consistent(users + [u], subjects, asgs, files, subs)
  {
    UniqueKeysAppend(users, u, UserId);
    UniqueKeysAppend(users, u, Username);
    var t := users + [u];
    forall i, j | 0 <= i < |t| && 0 <= j < |t| && i != j && t[i].email.Some?
      ensures t[i].email != t[j].email
    {
      if i < |users| && j < |users| {
        assert t[i] == users[i] && t[j] == users[j];
      } else if i < |users| {
        assert t[i] in users;
      } else {
        assert t[j] in users;
      }
    }
  }
}
