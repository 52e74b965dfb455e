/** The subject catalogue: lookup, creation under a unique name, and deletion. */
module SubjectService {
  import opened Results
  import opened Entities
  import opened Seqs
  import opened Store
  import SubjectRepository

  /** `getSubjectById`. */
  function GetSubjectById(subjects: seq<Subject>, id: string): (r: Result<Subject>)
    ensures r.Err? <==> forall j :: 0 <= j < |subjects| ==> subjects[j].id != id
    ensures r.Err? ==> r.error == SubjectNotFound
    ensures r.Ok? ==> r.value in subjects && r.value.id == id
  {
    match SubjectRepository.FindById(subjects, id)
    case None => Err(SubjectNotFound)
    case Some(s) => Ok(s)
  }

  /** `createSubject`: a taken name fails and inserts nothing; otherwise one row is appended. */
  method CreateSubject(db: Database, name: string, newId: string) returns (r: Result<Subject>)
    requires db.Valid()
    requires forall s :: s in db.subjects ==> s.id != newId
    modifies db`subjects
    ensures db.Valid()
    ensures SubjectRepository.ExistsByName(old(db.subjects), name) ==>
              r == Err(SubjectNameInUse) && db.subjects == old(db.subjects)
    ensures !SubjectRepository.ExistsByName(old(db.subjects), name) ==>
              r == Ok(Subject(newId, name)) && db.subjects == old(db.subjects) + [Subject(newId, name)]
  {
    if SubjectRepository.ExistsByName(db.subjects, name) {
      return Err(SubjectNameInUse);
    }
    var s := Subject(newId, name);
    UniqueKeysAppend(db.subjects, s, SubjectId);
    UniqueKeysAppend(db.subjects, s, SubjectName);
    db.subjects := db.subjects + [s];
    r := Ok(s);
  }

  /** `deleteSubject`: an unknown id fails; otherwise exactly that subject is removed. */
  method DeleteSubject(db: Database, id: string) returns (r: Result<()>)
    requires db.Valid()
    modifies db`subjects
    ensures db.Valid()
    ensures GetSubjectById(old(db.subjects), id).Err? ==>
              r == Err(SubjectNotFound) && db.subjects == old(db.subjects)
    ensures GetSubjectById(old(db.subjects), id).Ok? ==>
              r == Ok(()) && db.subjects == Filter(old(db.subjects), KeyIsNot(SubjectId, id))
  {
    var found := GetSubjectById(db.subjects, id);
    if found.Err? {
      return Err(SubjectNotFound);
    }
    FilterKeepsUniqueKeys(db.subjects, KeyIsNot(SubjectId, id), SubjectId);
    FilterKeepsUniqueKeys(db.subjects, KeyIsNot(SubjectId, id), SubjectName);
    db.subjects := Filter(db.subjects, KeyIsNot(SubjectId, id));
    r := Ok(());
  }

  /** Once created, the name is taken: creating it again fails. */
  lemma CreateThenExists(subjects: seq<Subject>, name: string, newId: string)
    ensures SubjectRepository.ExistsByName(subjects + [Subject(newId, name)], name)
  {
    assert (subjects + [Subject(newId, name)])[|subjects|].name == name;
  }

  /** After deletion the id is unknown, and every other subject is still there. */
  lemma DeletedSubjectIsGone(subjects: seq<Subject>, id: string)
    ensures GetSubjectById(Filter(subjects, KeyIsNot(SubjectId, id)), id).Err?
    ensures forall s :: s in subjects && s.id != id ==> s in Filter(subjects, KeyIsNot(SubjectId, id))
  {
    var rest := Filter(subjects, KeyIsNot(SubjectId, id));
    forall j | 0 <= j < |rest| ensures rest[j].id != id {
      assert rest[j] in rest;
    }
  }
}
