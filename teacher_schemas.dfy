/** The request payloads of the teacher and subject routes
    (app/schemas/teacher.py) with their field bounds as validity
    predicates, and how a partial update applies to a stored row.  A
    payload field that may be left out is an `Option`; for the nullable
    columns it is an `Option<Option<string>>`, where `Some(None)` is an
    explicit null. */
module TeacherSchemas {
  import opened Http
  import opened Catalog

  const MaxNameLength: nat := 255

  /** A name of 1 to 255 characters. */
  predicate NameInBounds(s: string) {
    1 <= |s| <= MaxNameLength
  }

  /** `TeacherCreate`: the `TeacherBase` fields plus the owning user. */
  datatype TeacherCreate = TeacherCreate(
    userId: nat,
    fullName: string,
    bio: Option<string>,
    avatarUrl: Option<string>,
    experienceYears: int)

  predicate TeacherCreateValid(d: TeacherCreate) {
    NameInBounds(d.fullName) && d.experienceYears >= 0
  }

  /** A creation payload that gives only the required fields: no bio, no
      avatar, no experience. */
  function MinimalTeacherCreate(userId: nat, fullName: string): (d: TeacherCreate)
    ensures d.userId == userId && d.fullName == fullName
    ensures d.bio.None? && d.avatarUrl.None? && d.experienceYears == 0
    ensures TeacherCreateValid(d) <==> NameInBounds(fullName)
  {
    TeacherCreate(userId, fullName, None, None, 0)
  }

  /** `TeacherUpdate`: every field optional. */
  datatype TeacherUpdate = TeacherUpdate(
    fullName: Option<string>,
    bio: Option<Option<string>>,
    avatarUrl: Option<Option<string>>,
    experienceYears: Option<int>)

  /** A given field obeys the bound of the creation payload. */
  predicate TeacherUpdateValid(u: TeacherUpdate) {
    && (u.fullName.Some? ==> NameInBounds(u.fullName.value))
    && (u.experienceYears.Some? ==> u.experienceYears.value >= 0)
  }

  /** A stored profile within the bounds the payloads impose. */
  predicate TeacherInBounds(t: Teacher) {
    NameInBounds(t.fullName) && t.experienceYears >= 0
  }

  /** The partial update: each field given in the payload is written,
      every other column keeps its value. */
  function ApplyTeacherUpdate(t: Teacher, u: TeacherUpdate): (r: Teacher)
    ensures r.id == t.id && r.userId == t.userId
    ensures r.rating == t.rating && r.totalStudents == t.totalStudents && r.totalVideos == t.totalVideos
    ensures r.fullName == if u.fullName.Some? then u.fullName.value else t.fullName
    ensures r.bio == if u.bio.Some? then u.bio.value else t.bio
    ensures r.avatarUrl == if u.avatarUrl.Some? then u.avatarUrl.value else t.avatarUrl
    ensures r.experienceYears == if u.experienceYears.Some? then u.experienceYears.value else t.experienceYears
  {
    Teacher(t.id, t.userId,
            if u.fullName.Some? then u.fullName.value else t.fullName,
            if u.bio.Some? then u.bio.value else t.bio,
            if u.avatarUrl.Some? then u.avatarUrl.value else t.avatarUrl,
            if u.experienceYears.Some? then u.experienceYears.value else t.experienceYears,
            t.rating, t.totalStudents, t.totalVideos)
  }

  /** A valid update keeps a profile within bounds. */
  lemma TeacherUpdateKeepsBounds(t: Teacher, u: TeacherUpdate)
    requires TeacherInBounds(t) && TeacherUpdateValid(u)
    ensures TeacherInBounds(ApplyTeacherUpdate(t, u))
  {
  }

  /** An empty payload changes nothing, and applying a payload twice is
      applying it once. */
  lemma TeacherUpdateLaws(t: Teacher, u: TeacherUpdate)
    ensures ApplyTeacherUpdate(t, TeacherUpdate(None, None, None, None)) == t
    ensures ApplyTeacherUpdate(ApplyTeacherUpdate(t, u), u) == ApplyTeacherUpdate(t, u)
  {
  }

  /** `SubjectCreate` (`SubjectBase`). */
  datatype SubjectCreate = SubjectCreate(
    name: string,
    description: Option<string>,
    iconUrl: Option<string>,
    order: int)

  predicate SubjectCreateValid(d: SubjectCreate) {
    NameInBounds(d.name) && d.order >= 0
  }

  /** A creation payload that gives only the name. */
  function MinimalSubjectCreate(name: string): (d: SubjectCreate)
    ensures d.name == name && d.description.None? && d.iconUrl.None? && d.order == 0
    ensures SubjectCreateValid(d) <==> NameInBounds(name)
  {
    SubjectCreate(name, None, None, 0)
  }

  /** `SubjectUpdate`: every field optional, including the active flag. */
  datatype SubjectUpdate = SubjectUpdate(
    name: Option<string>,
    description: Option<Option<string>>,
    iconUrl: Option<Option<string>>,
    order: Option<int>,
    isActive: Option<bool>)

  predicate SubjectUpdateValid(u: SubjectUpdate) {
    && (u.name.Some? ==> NameInBounds(u.name.value))
    && (u.order.Some? ==> u.order.value >= 0)
  }

  predicate SubjectInBounds(s: Subject) {
    NameInBounds(s.name) && s.order >= 0
  }

  function ApplySubjectUpdate(s: Subject, u: SubjectUpdate): (r: Subject)
    ensures r.id == s.id
    ensures r.name == if u.name.Some? then u.name.value else s.name
    ensures r.description == if u.description.Some? then u.description.value else s.description
    ensures r.iconUrl == if u.iconUrl.Some? then u.iconUrl.value else s.iconUrl
    ensures r.order == if u.order.Some? then u.order.value else s.order
    ensures r.isActive == if u.isActive.Some? then u.isActive.value else s.isActive
  {
    Subject(s.id,
            if u.name.Some? then u.name.value else s.name,
            if u.description.Some? then u.description.value else s.description,
            if u.iconUrl.Some? then u.iconUrl.value else s.iconUrl,
            if u.order.Some? then u.order.value else s.order,
            if u.isActive.Some? then u.isActive.value else s.isActive)
  }

  lemma SubjectUpdateKeepsBounds(s: Subject, u: SubjectUpdate)
    requires SubjectInBounds(s) && SubjectUpdateValid(u)
    ensures SubjectInBounds(ApplySubjectUpdate(s, u))
  {
  }

  lemma SubjectUpdateLaws(s: Subject, u: SubjectUpdate)
    ensures ApplySubjectUpdate(s, SubjectUpdate(None, None, None, None, None)) == s
    ensures ApplySubjectUpdate(ApplySubjectUpdate(s, u), u) == ApplySubjectUpdate(s, u)
  {
  }
}
