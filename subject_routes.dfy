/** The subject endpoints (app/routes/subjects.py): creation with a unique
    name, lookup, partial update, deletion, the ordered and paginated
    listing, and the teachers of a subject. */
module SubjectRoutes {
  import opened Http
  import opened Seqs
  import opened Strings
  import opened Users
  import opened Dependencies
  import opened Catalog
  import opened TeacherSchemas

  predicate AllSubjectsInBounds(rows: seq<Subject>) {
    forall i | 0 <= i < |rows| :: SubjectInBounds(rows[i])
  }

  /** `create_subject`: a new name gets a new, active subject. */
  method CreateSubject(decoded: Option<Claims>, users: seq<User>, subjects: SubjectTable, d: SubjectCreate)
    returns (r: Result<Subject>)
    requires subjects.Valid() && SubjectCreateValid(d)
    modifies subjects
    ensures subjects.Valid()
    ensures AllSubjectsInBounds(old(subjects.rows)) ==> AllSubjectsInBounds(subjects.rows)
    ensures RequireAdmin(decoded, users).Err? ==> r == Err(RequireAdmin(decoded, users).reason)
    ensures r == Err(SubjectNameTaken) <==> RequireAdmin(decoded, users).Ok? && d.name in SubjectNames(old(subjects.rows))
    ensures (RequireAdmin(decoded, users).Ok? && d.name !in SubjectNames(old(subjects.rows))) ==> r.Ok?
    ensures r.Err? ==> subjects.rows == old(subjects.rows) && subjects.nextId == old(subjects.nextId)
    ensures r.Ok? ==> r.value == Subject(old(subjects.nextId), d.name, d.description, d.iconUrl, d.order, true)
                      && subjects.rows == old(subjects.rows) + [r.value]
  {
    var caller := RequireAdmin(decoded, users);
    if caller.Err? {
      return Err(caller.reason);
    }
    if FirstIndex(subjects.rows, (s: Subject) => s.name == d.name).Some? {
      return Err(SubjectNameTaken);
    }
    var s := subjects.Add(d.name, d.description, d.iconUrl, d.order);
    return Ok(s);
  }

  /** `get_subject_by_id`. */
  function GetSubjectById(rows: seq<Subject>, id: nat): (r: Result<Subject>)
    ensures r.Err? <==> id !in SubjectIds(rows)
    ensures r.Err? ==> r.reason == SubjectNotFound
    ensures r.Ok? ==> r.value in rows && r.value.id == id
  {
    match SubjectAt(rows, id)
    case None => Err(SubjectNotFound)
    case Some(k) => Ok(rows[k])
  }

  /** With unique primary keys, the subject found is the only one with that id. */
  lemma GetSubjectByIdUnique(rows: seq<Subject>, i: nat)
    requires Distinct(SubjectIds(rows)) && i < |rows|
    ensures GetSubjectById(rows, rows[i].id) == Ok(rows[i])
  {
    var k := SubjectAt(rows, rows[i].id).value;
    assert SubjectIds(rows)[k] == SubjectIds(rows)[i];
  }

  /** The renaming check of `update_subject`: a given name that differs
      from the current one must be free. */
  predicate RenameClashes(rows: seq<Subject>, current: Subject, u: SubjectUpdate) {
    u.name.Some? && u.name.value != "" && u.name.value != current.name && u.name.value in SubjectNames(rows)
  }

  /** `update_subject`. */
  method UpdateSubject(decoded: Option<Claims>, users: seq<User>, subjects: SubjectTable,
                       id: nat, u: SubjectUpdate) returns (r: Result<Subject>)
    requires subjects.Valid() && SubjectUpdateValid(u)
    modifies subjects
    ensures subjects.Valid() && subjects.nextId == old(subjects.nextId)
    ensures AllSubjectsInBounds(old(subjects.rows)) ==> AllSubjectsInBounds(subjects.rows)
    ensures RequireAdmin(decoded, users).Err? ==> r == Err(RequireAdmin(decoded, users).reason)
    ensures r == Err(SubjectNotFound) <==> RequireAdmin(decoded, users).Ok? && id !in SubjectIds(old(subjects.rows))
    ensures r == Err(SubjectNameTaken) <==>
              RequireAdmin(decoded, users).Ok? && SubjectAt(old(subjects.rows), id).Some?
              && RenameClashes(old(subjects.rows), old(subjects.rows)[SubjectAt(old(subjects.rows), id).value], u)
    ensures (RequireAdmin(decoded, users).Ok? && SubjectAt(old(subjects.rows), id).Some?
             && !RenameClashes(old(subjects.rows), old(subjects.rows)[SubjectAt(old(subjects.rows), id).value], u))
            ==> r.Ok?
    ensures r.Err? ==> subjects.rows == old(subjects.rows)
    ensures r.Ok? ==> SubjectAt(old(subjects.rows), id).Some?
                      && (var k := SubjectAt(old(subjects.rows), id).value;
                          subjects.rows == old(subjects.rows)[k := ApplySubjectUpdate(old(subjects.rows)[k], u)]
                          && r.value == subjects.rows[k])
  {
    var caller := RequireAdmin(decoded, users);
    if caller.Err? {
      return Err(caller.reason);
    }
    var k := SubjectAt(subjects.rows, id);
    if k.None? {
      return Err(SubjectNotFound);
    }
    var s := subjects.rows[k.value];
    if u.name.Some? && u.name.value != "" && u.name.value != s.name {
      if FirstIndex(subjects.rows, (x: Subject) => x.name == u.name.value).Some? {
        return Err(SubjectNameTaken);
      }
    }
    ghost var before := subjects.rows;
    subjects.Put(k.value, ApplySubjectUpdate(s, u));
    if AllSubjectsInBounds(before) {
      SubjectUpdateKeepsBounds(s, u);
    }
    return Ok(subjects.rows[k.value]);
  }

  /** `delete_subject`.  As for a teacher, the default cascade nulls the
      NOT NULL `subject_id` of every assignment of the subject, so the
      commit fails while one exists. */
  method DeleteSubject(decoded: Option<Claims>, users: seq<User>, subjects: SubjectTable,
                       assignments: seq<TeacherSubject>, id: nat) returns (r: Result<()>)
    requires subjects.Valid()
    modifies subjects
    ensures subjects.Valid() && subjects.nextId == old(subjects.nextId)
    ensures AllSubjectsInBounds(old(subjects.rows)) ==> AllSubjectsInBounds(subjects.rows)
    ensures RequireAdmin(decoded, users).Err? ==> r == Err(RequireAdmin(decoded, users).reason)
    ensures r == Err(SubjectNotFound) <==> RequireAdmin(decoded, users).Ok? && id !in SubjectIds(old(subjects.rows))
    ensures r == Err(Integrity) <==>
              RequireAdmin(decoded, users).Ok? && id in SubjectIds(old(subjects.rows))
              && SubjectAssigned(assignments, id)
    ensures (RequireAdmin(decoded, users).Ok? && id in SubjectIds(old(subjects.rows))
             && !SubjectAssigned(assignments, id)) ==> r.Ok?
    ensures r.Err? ==> subjects.rows == old(subjects.rows)
    ensures r.Ok? ==> SubjectAt(old(subjects.rows), id).Some?
                      && subjects.rows == RemoveAt(old(subjects.rows), SubjectAt(old(subjects.rows), id).value)
                      && id !in SubjectIds(subjects.rows)
  {
    var caller := RequireAdmin(decoded, users);
    if caller.Err? {
      return Err(caller.reason);
    }
    var k := SubjectAt(subjects.rows, id);
    if k.None? {
      return Err(SubjectNotFound);
    }
    if FirstIndex(assignments, (a: TeacherSubject) => a.subjectId == id).Some? {
      return Err(Integrity);
    }
    subjects.Delete(k.value);
    return Ok(());
  }

  // ---------- listings ----------

  /** `ORDER BY order ASC, name ASC`. */
  predicate SubjectOrder(a: Subject, b: Subject) {
    a.order < b.order || (a.order == b.order && StringLe(a.name, b.name))
  }

  lemma SubjectOrderIsTotalPreorder()
    ensures TotalPreorder(SubjectOrder)
  {
    forall a: Subject, b: Subject ensures SubjectOrder(a, b) || SubjectOrder(b, a) {
      StringLeTotal(a.name, b.name);
    }
    forall a: Subject, b: Subject, c: Subject | SubjectOrder(a, b) && SubjectOrder(b, c)
      ensures SubjectOrder(a, c)
    {
      if a.order == b.order && b.order == c.order {
        StringLeTransitive(a.name, b.name, c.name);
      }
    }
  }

  /** The `is_active` filter: none, or the given flag. */
  predicate MatchesActive(s: Subject, isActive: Option<bool>) {
    isActive.None? || s.isActive == isActive.value
  }

  /** The filtered, ordered listing before OFFSET/LIMIT. */
  function Listing(rows: seq<Subject>, isActive: Option<bool>): seq<Subject> {
    SortBy(Filter(rows, (s: Subject) => MatchesActive(s, isActive)), SubjectOrder)
  }

  /** The listing holds exactly the matching subjects, each as often as
      in the table, in (order, name) order. */
  lemma ListingCorrect(rows: seq<Subject>, isActive: Option<bool>)
    ensures forall s :: s in Listing(rows, isActive) <==> s in rows && MatchesActive(s, isActive)
    ensures multiset(Listing(rows, isActive)) == multiset(Filter(rows, (s: Subject) => MatchesActive(s, isActive)))
    ensures SortedBy(Listing(rows, isActive), SubjectOrder)
  {
    var matching := Filter(rows, (s: Subject) => MatchesActive(s, isActive));
    SubjectOrderIsTotalPreorder();
    SortByCorrect(matching, SubjectOrder);
    forall s ensures s in Listing(rows, isActive) <==> s in matching {
      assert s in Listing(rows, isActive) <==> s in multiset(Listing(rows, isActive));
      assert s in matching <==> s in multiset(matching);
    }
  }

  /** `get_all_subjects`: one page of the listing. */
  function GetAllSubjects(rows: seq<Subject>, isActive: Option<bool>, limit: nat, offset: nat): (r: seq<Subject>)
    requires 1 <= limit <= 100
    ensures |r| <= limit
    ensures |r| == if offset >= |Listing(rows, isActive)| then 0 else Min(limit, |Listing(rows, isActive)| - offset)
    ensures forall i | 0 <= i < |r| :: r[i] == Listing(rows, isActive)[offset + i]
    ensures forall s | s in r :: s in rows && MatchesActive(s, isActive)
    ensures SortedBy(r, SubjectOrder)
  {
    var all := Listing(rows, isActive);
    ListingCorrect(rows, isActive);
    Page(all, offset, limit)
  }

  /** The teachers assigned to a subject, in table order: each teacher row
      with an assignment for the subject, as often as it is stored. */
  function AssignedTeachers(teachers: seq<Teacher>, assignments: seq<TeacherSubject>, subjectId: nat)
    : (r: seq<Teacher>)
    ensures forall t :: t in r <==> t in teachers && (t.id, subjectId) in Pairs(assignments)
    ensures forall t :: multiset(r)[t] ==
                          if (t.id, subjectId) in Pairs(assignments) then multiset(teachers)[t] else 0
  {
    Filter(teachers, (t: Teacher) => (t.id, subjectId) in Pairs(assignments))
  }

  /** `get_subject_teachers`: one page of the teachers assigned to an
      existing subject. */
  function GetSubjectTeachers(subjects: seq<Subject>, teachers: seq<Teacher>, assignments: seq<TeacherSubject>,
                              subjectId: nat, limit: nat, offset: nat): (r: Result<seq<Teacher>>)
    requires 1 <= limit <= 100
    ensures r.Err? <==> subjectId !in SubjectIds(subjects)
    ensures r.Err? ==> r.reason == SubjectNotFound
    ensures r.Ok? ==> |r.value| <= limit
    ensures r.Ok? ==> |r.value| == (var all := AssignedTeachers(teachers, assignments, subjectId);
                                    if offset >= |all| then 0 else Min(limit, |all| - offset))
    ensures r.Ok? ==> forall i | 0 <= i < |r.value| ::
                        r.value[i] == AssignedTeachers(teachers, assignments, subjectId)[offset + i]
    ensures r.Ok? ==> forall t | t in r.value :: t in teachers && (t.id, subjectId) in Pairs(assignments)
  {
    if SubjectAt(subjects, subjectId).None? then Err(SubjectNotFound)
    else
      var taught := AssignedTeachers(teachers, assignments, subjectId);
      Ok(Page(taught, offset, limit))
  }
}
