/** Teacher profiles, subjects and the teacher-subject assignment table
    (app/models/teacher.py, app/models/subject.py), each a table with its
    unique columns as invariant. */
module Catalog {
  import opened Http
  import opened Seqs

  datatype Teacher = Teacher(
    id: nat,
    userId: nat,
    fullName: string,
    bio: Option<string>,
    avatarUrl: Option<string>,
    experienceYears: int,
    rating: real,
    totalStudents: int,
    totalVideos: int)

  datatype Subject = Subject(
    id: nat,
    name: string,
    description: Option<string>,
    iconUrl: Option<string>,
    order: int,
    isActive: bool)

  datatype TeacherSubject = TeacherSubject(id: nat, teacherId: nat, subjectId: nat)

  function TeacherIds(rows: seq<Teacher>): (ids: seq<nat>)
    ensures |ids| == |rows| && forall i | 0 <= i < |rows| :: ids[i] == rows[i].id
  {
    seq(|rows|, i requires 0 <= i < |rows| => rows[i].id)
  }

  function TeacherUserIds(rows: seq<Teacher>): (ids: seq<nat>)
    ensures |ids| == |rows| && forall i | 0 <= i < |rows| :: ids[i] == rows[i].userId
  {
    seq(|rows|, i requires 0 <= i < |rows| => rows[i].userId)
  }

  function SubjectIds(rows: seq<Subject>): (ids: seq<nat>)
    ensures |ids| == |rows| && forall i | 0 <= i < |rows| :: ids[i] == rows[i].id
  {
    seq(|rows|, i requires 0 <= i < |rows| => rows[i].id)
  }

  function SubjectNames(rows: seq<Subject>): (names: seq<string>)
    ensures |names| == |rows| && forall i | 0 <= i < |rows| :: names[i] == rows[i].name
  {
    seq(|rows|, i requires 0 <= i < |rows| => rows[i].name)
  }

  function AssignmentIds(rows: seq<TeacherSubject>): (ids: seq<nat>)
    ensures |ids| == |rows| && forall i | 0 <= i < |rows| :: ids[i] == rows[i].id
  {
    seq(|rows|, i requires 0 <= i < |rows| => rows[i].id)
  }

  /** The (teacher, subject) pair of each assignment. */
  function Pairs(rows: seq<TeacherSubject>): (pairs: seq<(nat, nat)>)
    ensures |pairs| == |rows| && forall i | 0 <= i < |rows| :: pairs[i] == (rows[i].teacherId, rows[i].subjectId)
  {
    seq(|rows|, i requires 0 <= i < |rows| => (rows[i].teacherId, rows[i].subjectId))
  }

  /** Some assignment refers to the teacher. */
  predicate TeacherAssigned(rows: seq<TeacherSubject>, teacherId: nat) {
    exists i | 0 <= i < |rows| :: rows[i].teacherId == teacherId
  }

  /** Some assignment refers to the subject. */
  predicate SubjectAssigned(rows: seq<TeacherSubject>, subjectId: nat) {
    exists i | 0 <= i < |rows| :: rows[i].subjectId == subjectId
  }

  /** The position of the teacher with primary key `id`. */
  function TeacherAt(rows: seq<Teacher>, id: nat): (r: Option<nat>)
    ensures r.Some? ==> r.value < |rows| && rows[r.value].id == id
    ensures r.None? <==> id !in TeacherIds(rows)
  {
    FirstIndex(rows, (t: Teacher) => t.id == id)
  }

  /** The position of the subject with primary key `id`. */
  function SubjectAt(rows: seq<Subject>, id: nat): (r: Option<nat>)
    ensures r.Some? ==> r.value < |rows| && rows[r.value].id == id
    ensures r.None? <==> id !in SubjectIds(rows)
  {
    FirstIndex(rows, (s: Subject) => s.id == id)
  }

  /** The position of the assignment of `teacherId` to `subjectId`. */
  function AssignmentAt(rows: seq<TeacherSubject>, teacherId: nat, subjectId: nat): (r: Option<nat>)
    ensures r.Some? ==> r.value < |rows| && rows[r.value].teacherId == teacherId && rows[r.value].subjectId == subjectId
    ensures r.None? <==> (teacherId, subjectId) !in Pairs(rows)
  {
    FirstIndex(rows, (a: TeacherSubject) => a.teacherId == teacherId && a.subjectId == subjectId)
  }

  class TeacherTable {
    var rows: seq<Teacher>
    var nextId: nat

    /** Primary keys below the autoincrement counter and distinct;
        UNIQUE(user_id): one profile per user. */
    ghost predicate Valid()
      reads this
    {
      && (forall i | 0 <= i < |rows| :: rows[i].id < nextId)
      && Distinct(TeacherIds(rows))
      && Distinct(TeacherUserIds(rows))
    }

    constructor ()
      ensures Valid() && rows == [] && nextId == 1
    {
      rows, nextId := [], 1;
    }

    /** Insert a profile; rating and counters take their column defaults. */
    method Add(userId: nat, fullName: string, bio: Option<string>, avatarUrl: Option<string>,
               experienceYears: int) returns (t: Teacher)
      requires Valid() && userId !in TeacherUserIds(rows)
      modifies this
      ensures Valid()
      ensures t == Teacher(old(nextId), userId, fullName, bio, avatarUrl, experienceYears, 0.0, 0, 0)
      ensures rows == old(rows) + [t] && nextId == old(nextId) + 1
    {
      t := Teacher(nextId, userId, fullName, bio, avatarUrl, experienceYears, 0.0, 0, 0);
      assert TeacherIds(rows + [t]) == TeacherIds(rows) + [t.id];
      assert TeacherUserIds(rows + [t]) == TeacherUserIds(rows) + [t.userId];
      DistinctAppend(TeacherIds(rows), t.id);
      DistinctAppend(TeacherUserIds(rows), t.userId);
      rows := rows + [t];
      nextId := nextId + 1;
    }

    /** Overwrite the row at position `k`, keeping its keys. */
    method Put(k: nat, t: Teacher)
      requires Valid() && k < |rows|
      requires t.id == rows[k].id && t.userId == rows[k].userId
      modifies this
      ensures Valid()
      ensures rows == old(rows)[k := t] && nextId == old(nextId)
    {
      ghost var before := rows;
      rows := rows[k := t];
      assert TeacherIds(rows) == TeacherIds(before);
      assert TeacherUserIds(rows) == TeacherUserIds(before);
    }

    /** `db.delete(teacher)` on the row at position `k`. */
    method Delete(k: nat)
      requires Valid() && k < |rows|
      modifies this
      ensures Valid()
      ensures rows == RemoveAt(old(rows), k) && nextId == old(nextId)
      ensures old(rows)[k].id !in TeacherIds(rows)
    {
      ghost var before := rows;
      rows := RemoveAt(rows, k);
      assert TeacherIds(rows) == RemoveAt(TeacherIds(before), k);
      assert TeacherUserIds(rows) == RemoveAt(TeacherUserIds(before), k);
      DistinctRemoveAt(TeacherIds(before), k);
      DistinctRemoveAt(TeacherUserIds(before), k);
    }
  }

  class SubjectTable {
    var rows: seq<Subject>
    var nextId: nat

    /** Primary keys below the autoincrement counter and distinct;
        UNIQUE(name). */
    ghost predicate Valid()
      reads this
    {
      && (forall i | 0 <= i < |rows| :: rows[i].id < nextId)
      && Distinct(SubjectIds(rows))
      && Distinct(SubjectNames(rows))
    }

    constructor ()
      ensures Valid() && rows == [] && nextId == 1
    {
      rows, nextId := [], 1;
    }

    /** Insert a subject; it starts active. */
    method Add(name: string, description: Option<string>, iconUrl: Option<string>, order: int)
      returns (s: Subject)
      requires Valid() && name !in SubjectNames(rows)
      modifies this
      ensures Valid()
      ensures s == Subject(old(nextId), name, description, iconUrl, order, true)
      ensures rows == old(rows) + [s] && nextId == old(nextId) + 1
    {
      s := Subject(nextId, name, description, iconUrl, order, true);
      assert SubjectIds(rows + [s]) == SubjectIds(rows) + [s.id];
      assert SubjectNames(rows + [s]) == SubjectNames(rows) + [s.name];
      DistinctAppend(SubjectIds(rows), s.id);
      DistinctAppend(SubjectNames(rows), s.name);
      rows := rows + [s];
      nextId := nextId + 1;
    }

    /** Overwrite the row at position `k`, keeping its key; a new name
        must be free. */
    method Put(k: nat, s: Subject)
      requires Valid() && k < |rows|
      requires s.id == rows[k].id
      requires s.name == rows[k].name || s.name !in SubjectNames(rows)
      modifies this
      ensures Valid()
      ensures rows == old(rows)[k := s] && nextId == old(nextId)
    {
      ghost var before := rows;
      rows := rows[k := s];
      assert SubjectIds(rows) == SubjectIds(before);
      assert SubjectNames(rows) == SubjectNames(before)[k := s.name];
      forall i | 0 <= i < |before| && i != k ensures SubjectNames(before)[i] != s.name {
        assert SubjectNames(before)[i] != SubjectNames(before)[k];
      }
      DistinctUpdate(SubjectNames(before), k, s.name);
    }

    /** `db.delete(subject)` on the row at position `k`. */
    method Delete(k: nat)
      requires Valid() && k < |rows|
      modifies this
      ensures Valid()
      ensures rows == RemoveAt(old(rows), k) && nextId == old(nextId)
      ensures old(rows)[k].id !in SubjectIds(rows)
    {
      ghost var before := rows;
      rows := RemoveAt(rows, k);
      assert SubjectIds(rows) == RemoveAt(SubjectIds(before), k);
      assert SubjectNames(rows) == RemoveAt(SubjectNames(before), k);
      DistinctRemoveAt(SubjectIds(before), k);
      DistinctRemoveAt(SubjectNames(before), k);
    }
  }

  class AssignmentTable {
    var rows: seq<TeacherSubject>
    var nextId: nat

    /** Primary keys below the autoincrement counter and distinct; no
        (teacher, subject) pair twice, as the assignment route keeps it. */
    ghost predicate Valid()
      reads this
    {
      && (forall i | 0 <= i < |rows| :: rows[i].id < nextId)
      && Distinct(AssignmentIds(rows))
      && Distinct(Pairs(rows))
    }

    constructor ()
      ensures Valid() && rows == [] && nextId == 1
    {
      rows, nextId := [], 1;
    }

    method Add(teacherId: nat, subjectId: nat) returns (a: TeacherSubject)
      requires Valid() && (teacherId, subjectId) !in Pairs(rows)
      modifies this
      ensures Valid()
      ensures a == TeacherSubject(old(nextId), teacherId, subjectId)
      ensures rows == old(rows) + [a] && nextId == old(nextId) + 1
    {
      a := TeacherSubject(nextId, teacherId, subjectId);
      assert AssignmentIds(rows + [a]) == AssignmentIds(rows) + [a.id];
      assert Pairs(rows + [a]) == Pairs(rows) + [(teacherId, subjectId)];
      DistinctAppend(AssignmentIds(rows), a.id);
      DistinctAppend(Pairs(rows), (teacherId, subjectId));
      rows := rows + [a];
      nextId := nextId + 1;
    }

    method Delete(k: nat)
      requires Valid() && k < |rows|
      modifies this
      ensures Valid()
      ensures rows == RemoveAt(old(rows), k) && nextId == old(nextId)
      ensures (old(rows)[k].teacherId, old(rows)[k].subjectId) !in Pairs(rows)
    {
      ghost var before := rows;
      rows := RemoveAt(rows, k);
      assert AssignmentIds(rows) == RemoveAt(AssignmentIds(before), k);
      assert Pairs(rows) == RemoveAt(Pairs(before), k);
      DistinctRemoveAt(AssignmentIds(before), k);
      DistinctRemoveAt(Pairs(before), k);
    }
  }
}
