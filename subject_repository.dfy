/** The lookups over the subject table. */
module SubjectRepository {
  import opened Results
  import opened Entities
  import opened Seqs

  function HasId(id: string): Subject -> bool { (s: Subject) => s.id == id }
  function HasName(name: string): Subject -> bool { (s: Subject) => s.name == name }

  /** `findById`: the subject with that primary key, if any. */
  function FindById(subjects: seq<Subject>, id: string): (r: Option<Subject>)
    ensures r.None? <==> forall j :: 0 <= j < |subjects| ==> subjects[j].id != id
    ensures r.Some? ==> r.value in subjects && r.value.id == id
  {
    Find(subjects, HasId(id))
  }

  /** `existsByName`. */
  function ExistsByName(subjects: seq<Subject>, name: string): (r: bool)
    ensures r <==> exists j :: 0 <= j < |subjects| && subjects[j].name == name
  {
    Find(subjects, HasName(name)).Some?
  }
}
