/** The teacher endpoints (app/routes/teachers.py): profile creation,
    partial update by the owner or an administrator, deletion, and the
    assignment of teachers to subjects. */
module TeacherRoutes {
  import opened Http
  import opened Seqs
  import opened Users
  import opened Dependencies
  import opened Catalog
  import opened TeacherSchemas

  /** Every stored profile is within the payload bounds. */
  predicate AllTeachersInBounds(rows: seq<Teacher>) {
    forall i | 0 <= i < |rows| :: TeacherInBounds(rows[i])
  }

  /** `create_teacher`: an administrator attaches a profile to an
      existing user that has none. */
  method CreateTeacher(decoded: Option<Claims>, users: seq<User>, teachers: TeacherTable, d: TeacherCreate)
    returns (r: Result<Teacher>)
    requires teachers.Valid() && TeacherCreateValid(d)
    modifies teachers
    ensures teachers.Valid()
    ensures AllTeachersInBounds(old(teachers.rows)) ==> AllTeachersInBounds(teachers.rows)
    ensures RequireAdmin(decoded, users).Err? ==> r == Err(RequireAdmin(decoded, users).reason)
    ensures r == Err(UserNotFound) <==> RequireAdmin(decoded, users).Ok? && d.userId !in Ids(users)
    ensures r == Err(TeacherProfileExists) <==>
              RequireAdmin(decoded, users).Ok? && d.userId in Ids(users)
              && d.userId in TeacherUserIds(old(teachers.rows))
    ensures (RequireAdmin(decoded, users).Ok? && d.userId in Ids(users)
             && d.userId !in TeacherUserIds(old(teachers.rows))) ==> r.Ok?
    ensures r.Err? ==> teachers.rows == old(teachers.rows) && teachers.nextId == old(teachers.nextId)
    ensures r.Ok? ==> r.value == Teacher(old(teachers.nextId), d.userId, d.fullName, d.bio, d.avatarUrl,
                                         d.experienceYears, 0.0, 0, 0)
                      && teachers.rows == old(teachers.rows) + [r.value]
  {
    var caller := RequireAdmin(decoded, users);
    if caller.Err? {
      return Err(caller.reason);
    }
    if IndexOfId(users, d.userId).None? {
      return Err(UserNotFound);
    }
    if FirstIndex(teachers.rows, (t: Teacher) => t.userId == d.userId).Some? {
      return Err(TeacherProfileExists);
    }
    var t := teachers.Add(d.userId, d.fullName, d.bio, d.avatarUrl, d.experienceYears);
    return Ok(t);
  }

  /** The edit rule: the profile's own user, or an administrator. */
  predicate MayEdit(caller: User, t: Teacher) {
    t.userId == caller.id || IsAdmin(caller)
  }

  /** `update_teacher`: apply the given fields to the profile. */
  method UpdateTeacher(decoded: Option<Claims>, users: seq<User>, teachers: TeacherTable,
                       teacherId: nat, u: TeacherUpdate) returns (r: Result<Teacher>)
    requires teachers.Valid() && TeacherUpdateValid(u)
    modifies teachers
    ensures teachers.Valid() && teachers.nextId == old(teachers.nextId)
    ensures AllTeachersInBounds(old(teachers.rows)) ==> AllTeachersInBounds(teachers.rows)
    ensures GetCurrentUser(decoded, users).Err? ==> r == Err(GetCurrentUser(decoded, users).reason)
    ensures r == Err(TeacherNotFound) <==>
              GetCurrentUser(decoded, users).Ok? && teacherId !in TeacherIds(old(teachers.rows))
    ensures r == Err(EditForbidden) <==>
              GetCurrentUser(decoded, users).Ok? && TeacherAt(old(teachers.rows), teacherId).Some?
              && !MayEdit(GetCurrentUser(decoded, users).value,
                          old(teachers.rows)[TeacherAt(old(teachers.rows), teacherId).value])
    ensures (GetCurrentUser(decoded, users).Ok? && TeacherAt(old(teachers.rows), teacherId).Some?
             && MayEdit(GetCurrentUser(decoded, users).value,
                        old(teachers.rows)[TeacherAt(old(teachers.rows), teacherId).value])) ==> r.Ok?
    ensures r.Err? ==> teachers.rows == old(teachers.rows)
    ensures r.Ok? ==> TeacherAt(old(teachers.rows), teacherId).Some?
                      && (var k := TeacherAt(old(teachers.rows), teacherId).value;
                          teachers.rows == old(teachers.rows)[k := ApplyTeacherUpdate(old(teachers.rows)[k], u)]
                          && r.value == teachers.rows[k])
  {
    var caller := GetCurrentUser(decoded, users);
    if caller.Err? {
      return Err(caller.reason);
    }
    var k := TeacherAt(teachers.rows, teacherId);
    if k.None? {
      return Err(TeacherNotFound);
    }
    var t := teachers.rows[k.value];
    if t.userId != caller.value.id && !IsAdmin(caller.value) {
      return Err(EditForbidden);
    }
    ghost var before := teachers.rows;
    teachers.Put(k.value, ApplyTeacherUpdate(t, u));
    if AllTeachersInBounds(before) {
      TeacherUpdateKeepsBounds(t, u);
    }
    return Ok(teachers.rows[k.value]);
  }

  /** `delete_teacher`: an administrator removes one profile.  The
      relationship to `teacher_subjects` has the default cascade, so the
      flush nulls the NOT NULL `teacher_id` of every assignment of the
      profile and the commit fails. */
  method DeleteTeacher(decoded: Option<Claims>, users: seq<User>, teachers: TeacherTable,
                       assignments: seq<TeacherSubject>, teacherId: nat) returns (r: Result<()>)
    requires teachers.Valid()
    modifies teachers
    ensures teachers.Valid() && teachers.nextId == old(teachers.nextId)
    ensures AllTeachersInBounds(old(teachers.rows)) ==> AllTeachersInBounds(teachers.rows)
    ensures RequireAdmin(decoded, users).Err? ==> r == Err(RequireAdmin(decoded, users).reason)
    ensures r == Err(TeacherNotFound) <==>
              RequireAdmin(decoded, users).Ok? && teacherId !in TeacherIds(old(teachers.rows))
    ensures r == Err(Integrity) <==>
              RequireAdmin(decoded, users).Ok? && teacherId in TeacherIds(old(teachers.rows))
              && TeacherAssigned(assignments, teacherId)
    ensures (RequireAdmin(decoded, users).Ok? && teacherId in TeacherIds(old(teachers.rows))
             && !TeacherAssigned(assignments, teacherId)) ==> r.Ok?
    ensures r.Err? ==> teachers.rows == old(teachers.rows)
    ensures r.Ok? ==> TeacherAt(old(teachers.rows), teacherId).Some?
                      && teachers.rows == RemoveAt(old(teachers.rows), TeacherAt(old(teachers.rows), teacherId).value)
                      && teacherId !in TeacherIds(teachers.rows)
  {
    var caller := RequireAdmin(decoded, users);
    if caller.Err? {
      return Err(caller.reason);
    }
    var k := TeacherAt(teachers.rows, teacherId);
    if k.None? {
      return Err(TeacherNotFound);
    }
    if FirstIndex(assignments, (a: TeacherSubject) => a.teacherId == teacherId).Some? {
      return Err(Integrity);
    }
    teachers.Delete(k.value);
    return Ok(());
  }

  /** `assign_teacher_to_subject`: teacher exists, then subject exists,
      then the pair is new. */
  method AssignTeacherToSubject(decoded: Option<Claims>, users: seq<User>, teachers: seq<Teacher>,
                                subjects: seq<Subject>, assignments: AssignmentTable,
                                teacherId: nat, subjectId: nat) returns (r: Result<TeacherSubject>)
    requires assignments.Valid()
    modifies assignments
    ensures assignments.Valid()
    ensures RequireAdmin(decoded, users).Err? ==> r == Err(RequireAdmin(decoded, users).reason)
    ensures r == Err(TeacherNotFound) <==> RequireAdmin(decoded, users).Ok? && teacherId !in TeacherIds(teachers)
    ensures r == Err(SubjectNotFound) <==>
              RequireAdmin(decoded, users).Ok? && teacherId in TeacherIds(teachers) && subjectId !in SubjectIds(subjects)
    ensures r == Err(AlreadyAssigned) <==>
              RequireAdmin(decoded, users).Ok? && teacherId in TeacherIds(teachers) && subjectId in SubjectIds(subjects)
              && (teacherId, subjectId) in Pairs(old(assignments.rows))
    ensures (RequireAdmin(decoded, users).Ok? && teacherId in TeacherIds(teachers) && subjectId in SubjectIds(subjects)
             && (teacherId, subjectId) !in Pairs(old(assignments.rows))) ==> r.Ok?
    ensures r.Err? ==> assignments.rows == old(assignments.rows) && assignments.nextId == old(assignments.nextId)
    ensures r.Ok? ==> r.value == TeacherSubject(old(assignments.nextId), teacherId, subjectId)
                      && assignments.rows == old(assignments.rows) + [r.value]
  {
    var caller := RequireAdmin(decoded, users);
    if caller.Err? {
      return Err(caller.reason);
    }
    if TeacherAt(teachers, teacherId).None? {
      return Err(TeacherNotFound);
    }
    if SubjectAt(subjects, subjectId).None? {
      return Err(SubjectNotFound);
    }
    if AssignmentAt(assignments.rows, teacherId, subjectId).Some? {
      return Err(AlreadyAssigned);
    }
    var a := assignments.Add(teacherId, subjectId);
    return Ok(a);
  }

  /** `unassign_teacher_from_subject`: remove exactly the given pair. */
  method UnassignTeacherFromSubject(decoded: Option<Claims>, users: seq<User>, assignments: AssignmentTable,
                                    teacherId: nat, subjectId: nat) returns (r: Result<()>)
    requires assignments.Valid()
    modifies assignments
    ensures assignments.Valid() && assignments.nextId == old(assignments.nextId)
    ensures RequireAdmin(decoded, users).Err? ==> r == Err(RequireAdmin(decoded, users).reason)
    ensures r == Err(AssignmentNotFound) <==>
              RequireAdmin(decoded, users).Ok? && (teacherId, subjectId) !in Pairs(old(assignments.rows))
    ensures (RequireAdmin(decoded, users).Ok? && (teacherId, subjectId) in Pairs(old(assignments.rows))) ==> r.Ok?
    ensures r.Err? ==> assignments.rows == old(assignments.rows)
    ensures r.Ok? ==> AssignmentAt(old(assignments.rows), teacherId, subjectId).Some?
                      && assignments.rows == RemoveAt(old(assignments.rows),
                                                      AssignmentAt(old(assignments.rows), teacherId, subjectId).value)
    ensures r.Ok? ==> forall p :: p in Pairs(assignments.rows) <==>
                                    p in Pairs(old(assignments.rows)) && p != (teacherId, subjectId)
  {
    var caller := RequireAdmin(decoded, users);
    if caller.Err? {
      return Err(caller.reason);
    }
    var k := AssignmentAt(assignments.rows, teacherId, subjectId);
    if k.None? {
      return Err(AssignmentNotFound);
    }
    PairsAfterDelete(assignments.rows, k.value);
    assignments.Delete(k.value);
    return Ok(());
  }

  /** Removing one assignment removes exactly its pair from the set of
      pairs. */
  lemma PairsAfterDelete(rows: seq<TeacherSubject>, k: nat)
    requires k < |rows| && Distinct(Pairs(rows))
    ensures forall p :: p in Pairs(RemoveAt(rows, k)) <==> p in Pairs(rows) && p != Pairs(rows)[k]
  {
    var after := Pairs(RemoveAt(rows, k));
    assert after == RemoveAt(Pairs(rows), k);
    DistinctRemoveAt(Pairs(rows), k);
    forall p | p in Pairs(rows) && p != Pairs(rows)[k] ensures p in after {
      var i :| 0 <= i < |rows| && Pairs(rows)[i] == p;
      if i < k {
        assert after[i] == p;
      } else {
        assert after[i - 1] == p;
      }
    }
  }

  /** A teacher is referred to by an assignment exactly when it has a
      subject to list. */
  lemma AssignedIffHasSubjects(rows: seq<TeacherSubject>, teacherId: nat)
    ensures TeacherAssigned(rows, teacherId) <==> GetTeacherSubjects(rows, teacherId) != []
  {
    if TeacherAssigned(rows, teacherId) {
      var i :| 0 <= i < |rows| && rows[i].teacherId == teacherId;
      assert Pairs(rows)[i] == (teacherId, rows[i].subjectId);
      assert rows[i].subjectId in GetTeacherSubjects(rows, teacherId);
    }
    if GetTeacherSubjects(rows, teacherId) != [] {
      var s := GetTeacherSubjects(rows, teacherId)[0];
      assert (teacherId, s) in Pairs(rows);
      var i :| 0 <= i < |rows| && Pairs(rows)[i] == (teacherId, s);
      assert rows[i].teacherId == teacherId;
    }
  }

  /** `get_teacher_subjects`: the subjects of the teacher's assignments,
      in table order, each once. */
  function GetTeacherSubjects(rows: seq<TeacherSubject>, teacherId: nat): (r: seq<nat>)
    ensures |r| <= |rows|
    ensures forall s :: s in r <==> (teacherId, s) in Pairs(rows)
    ensures Distinct(Pairs(rows)) ==> Distinct(r)
  {
    if rows == [] then []
    else
      var rest := GetTeacherSubjects(rows[1..], teacherId);
      assert Pairs(rows) == [Pairs(rows)[0]] + Pairs(rows[1..]);
      if rows[0].teacherId == teacherId then
        assert Distinct(Pairs(rows)) ==> rows[0].subjectId !in rest;
        [rows[0].subjectId] + rest
      else rest
  }
}
