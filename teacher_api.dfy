/**
 * The teacher views (apis/teacher.py): create, replace, patch and delete a
 * teacher, and list a school's teachers.
 */
module TeacherApi {
  import opened Wrappers
  import opened Models
  import opened Schemas
  import opened Api

  // ---------------------------------------------------------------------------
  // create_teacher
  // ---------------------------------------------------------------------------

  /**
   * The response create_teacher gives for what create_memberSubType("TE")
   * returned: 4041 is a 404 and 409 a 409. The view's check of the sentinel
   * 404 cannot fire, since "TE" always names the Teacher table; the codes it
   * does not check (4042, 4043) would reach `from_orm` and raise, but neither
   * is returned for a teacher.
   */
  function TeacherCreateStatus(c: CreateResult): (r: Status)
    ensures r == Ok <==> c.Made?
    ensures r == NotFound(NoSchool) <==> c == Rejected(SchoolMissing)
    ensures r == Conflict(UsernameExists) <==> c == Rejected(UsernameInUse)
    ensures r.Code() in {200, 404, 409, 500}
  {
    match c
    case Made(_) => Ok
    case Raised => ServerError
    case Rejected(SchoolMissing) => NotFound(NoSchool)
    case Rejected(UsernameInUse) => Conflict(UsernameExists)
    case Rejected(HeadMasterExists) => ServerError
    case Rejected(ClassMissing) => ServerError
  }

  /** create_teacher: a school may have any number of teachers. */
  function CreateTeacherEffect(db: Db, p: SubtypeIn, createUser: bool): (r: Reply)
    ensures r.status == NotFound(NoSchool) <==> p.schoolId !in db.schools
    ensures r.status == Conflict(UsernameExists) <==> p.schoolId in db.schools && UsernameFilterMatches(db, p.username)
    ensures r.status.NotFound? || r.status.Conflict? ==> r.db == db
    ensures r.status == Ok <==> CreateMemberSubtypeEffect(db, TE, p, createUser).result.Made?
    ensures r.status == ServerError <==> CreateMemberSubtypeEffect(db, TE, p, createUser).result.Raised?
  {
    var c := CreateMemberSubtypeEffect(db, TE, p, createUser);
    Reply(TeacherCreateStatus(c.result), c.db)
  }

  /** Adding teacher `t` for a new member `m` at school `s` adds `t` to the teachers of `s` and of no other school. */
  lemma AddedTeacherJoinsSchool(db: Db, r: Db, t: Id, m: Id, v: Member)
    requires t !in db.teachers
    requires forall x :: x in db.teachers ==> db.teachers[x].member != m
    requires r.teachers == db.teachers[t := Teacher(m)] && r.members == db.members[m := v]
    ensures TeachersOfSchool(r, v.school) == TeachersOfSchool(db, v.school) + {t}
    ensures forall s :: s != v.school ==> TeachersOfSchool(r, s) == TeachersOfSchool(db, s)
  {
    forall s, x | x in db.teachers
      ensures TeachesAt(r, x, s) <==> TeachesAt(db, x, s)
    {
      assert r.teachers[x] == db.teachers[x];
    }
  }

  /** A created teacher joins the teachers of its school, and only of its school. */
  lemma CreatedTeacherJoinsSchool(db: Db, p: SubtypeIn, createUser: bool)
    requires Consistent(db)
    requires CreateTeacherEffect(db, p, createUser).status == Ok
    ensures var r := CreateTeacherEffect(db, p, createUser).db;
      && Consistent(r)
      && TeachersOfSchool(r, p.schoolId) == TeachersOfSchool(db, p.schoolId) + {db.next.teachers}
      && forall s :: s != p.schoolId ==> TeachersOfSchool(r, s) == TeachersOfSchool(db, s)
  {
    var r := CreateTeacherEffect(db, p, createUser).db;
    CreateMemberSubtypeConsistent(db, TE, p, createUser);
    CreateMemberSubtypeMade(db, TE, p, createUser);
    var v := Member(p.schoolId, ExpectedUsername(db, p), TE, db.next.infos);
    assert forall x :: x in db.teachers ==> db.teachers[x].member != db.next.members by {
      assert KeysBelowNext(db) && Linked(db);
    }
    AddedTeacherJoinsSchool(db, r, db.next.teachers, db.next.members, v);
  }

  method CreateTeacher(store: Store, p: SubtypeIn, createUser: bool) returns (status: Status)
    requires store.Valid()
    modifies store
    ensures Reply(status, store.Snapshot()) == CreateTeacherEffect(old(store.Snapshot()), p, createUser)
    ensures store.Valid()
  {
    var result := CreateMemberSubtype(store, TE, p, createUser);
    status := TeacherCreateStatus(result);
  }

  // ---------------------------------------------------------------------------
  // The loop of update_teacher and patch_teacher
  // ---------------------------------------------------------------------------

  /**
   * The loop over the payload's items: a `personal_info` item sets its
   * subfields on the PersonalInfo (PATCH only the non-empty ones); any other
   * item goes to `setattr(teacher, attr, value)`, and Teacher has no column of
   * that name, so nothing of it is saved.
   */
  function SetTeacherAttrs(info: PersonalInfo, items: seq<MemberItem>, onlyTruthy: bool): PersonalInfo
    decreases |items|
  {
    if items == [] then info
    else
      match items[0]
      case InfoItem(attrs) => SetTeacherAttrs(SetInfoAttrs(info, attrs, onlyTruthy), items[1..], onlyTruthy)
      case SchoolIdItem(_) => SetTeacherAttrs(info, items[1..], onlyTruthy)
      case ClassIdItem(_) => SetTeacherAttrs(info, items[1..], onlyTruthy)
  }

  method AssignTeacherAttrs(info: PersonalInfo, items: seq<MemberItem>, onlyTruthy: bool) returns (r: PersonalInfo)
    ensures r == SetTeacherAttrs(info, items, onlyTruthy)
  {
    r := info;
    var i := 0;
    while i < |items|
      invariant 0 <= i <= |items|
      invariant SetTeacherAttrs(r, items[i..], onlyTruthy) == SetTeacherAttrs(info, items, onlyTruthy)
    {
      assert items[i..][1..] == items[i + 1..];
      if items[i].InfoItem? {
        r := AssignInfoAttrs(r, items[i].attrs, onlyTruthy);
      }
      i := i + 1;
    }
  }

  /** PUT: every PersonalInfo field is replaced, whatever the school. */
  lemma TeacherPutOverwrites(info: PersonalInfo, p: SubtypePut)
    ensures SetTeacherAttrs(info, PutItems(p), false) == p.personalInfo
  {
    var last := [InfoItem(InfoItems(p.personalInfo))];
    assert PutItems(p)[1..] == last;
    assert last[1..] == [];
    InfoPutOverwrites(info, p.personalInfo);
    assert SetTeacherAttrs(info, last, false)
      == SetTeacherAttrs(SetInfoAttrs(info, InfoItems(p.personalInfo), false), [], false);
  }

  /** PATCH: only the subfields the request set to a non-empty value change. */
  lemma TeacherPatchTruthy(info: PersonalInfo, p: MemberPatch)
    ensures SetTeacherAttrs(info, MemberPatchItems(p), true) == TruthyPatchedInfo(info, p.personalInfo)
  {
    var last := [InfoItem(InfoPatchItems(p.personalInfo))];
    assert last[1..] == [];
    InfoTruthyPatchFieldwise(info, p.personalInfo);
    assert SetTeacherAttrs(info, last, true)
      == SetTeacherAttrs(SetInfoAttrs(info, InfoPatchItems(p.personalInfo), true), [], true);
    if p.schoolId.Some? {
      assert MemberPatchItems(p)[1..] == last;
    } else {
      assert MemberPatchItems(p) == last;
    }
  }

  // ---------------------------------------------------------------------------
  // update_teacher and patch_teacher
  // ---------------------------------------------------------------------------

  /** The id of the PersonalInfo of teacher `t`'s member. */
  function TeacherInfo(db: Db, t: Id): Id
    requires t in db.teachers && db.teachers[t].member in db.members
  {
    db.members[db.teachers[t].member].personalInfo
  }

  /**
   * update_teacher: 404 for a missing teacher; otherwise every field of the
   * teacher's PersonalInfo is replaced. The payload's `school_id` is not
   * checked and changes nothing: the teacher stays at its member's school.
   */
  function UpdateTeacherEffect(db: Db, t: Id, p: SubtypePut): (r: Reply)
    requires Linked(db)
    ensures t !in db.teachers ==> r == Reply(NotFound(NoTeacher), db)
    ensures t in db.teachers ==> r == Reply(Ok, db.(infos := db.infos[TeacherInfo(db, t) := p.personalInfo]))
  {
    if t !in db.teachers then Reply(NotFound(NoTeacher), db)
    else
      var pi := TeacherInfo(db, t);
      TeacherPutOverwrites(db.infos[pi], p);
      Reply(Ok, db.(infos := db.infos[pi := SetTeacherAttrs(db.infos[pi], PutItems(p), false)]))
  }

  /**
   * patch_teacher: 404 for a missing teacher; otherwise each PersonalInfo
   * subfield the request set to a non-empty value is written, and the rest,
   * including the school, is left as it was.
   */
  function PatchTeacherEffect(db: Db, t: Id, p: MemberPatch): (r: Reply)
    requires Linked(db)
    ensures t !in db.teachers ==> r == Reply(NotFound(NoTeacher), db)
    ensures t in db.teachers ==>
      r == Reply(Ok, db.(infos := db.infos[TeacherInfo(db, t) := TruthyPatchedInfo(db.infos[TeacherInfo(db, t)], p.personalInfo)]))
  {
    if t !in db.teachers then Reply(NotFound(NoTeacher), db)
    else
      var pi := TeacherInfo(db, t);
      TeacherPatchTruthy(db.infos[pi], p);
      Reply(Ok, db.(infos := db.infos[pi := SetTeacherAttrs(db.infos[pi], MemberPatchItems(p), true)]))
  }

  /** Writing a teacher's PersonalInfo keeps the invariant and keeps every teacher at its school. */
  lemma TeacherInfoWriteConsistent(db: Db, t: Id, info: PersonalInfo)
    requires Consistent(db) && t in db.teachers
    ensures var r := db.(infos := db.infos[TeacherInfo(db, t) := info]);
      Consistent(r) && forall s :: TeachersOfSchool(r, s) == TeachersOfSchool(db, s)
  {
    SaveInfoConsistent(db, TeacherInfo(db, t), info);
  }

  /** Replacing or patching a teacher keeps the invariant and keeps every teacher at its school. */
  lemma TeacherWritesConsistent(db: Db, t: Id, v: SubtypePut, p: MemberPatch)
    requires Consistent(db)
    ensures Consistent(UpdateTeacherEffect(db, t, v).db)
    ensures Consistent(PatchTeacherEffect(db, t, p).db)
    ensures forall s :: TeachersOfSchool(UpdateTeacherEffect(db, t, v).db, s) == TeachersOfSchool(db, s)
    ensures forall s :: TeachersOfSchool(PatchTeacherEffect(db, t, p).db, s) == TeachersOfSchool(db, s)
  {
    if t in db.teachers {
      TeacherInfoWriteConsistent(db, t, v.personalInfo);
      TeacherInfoWriteConsistent(db, t, TruthyPatchedInfo(db.infos[TeacherInfo(db, t)], p.personalInfo));
    }
  }

  /** A patch whose subfields are all empty strings or unset leaves the database as it was. */
  lemma PatchTeacherBlankIsNoOp(db: Db, t: Id, p: MemberPatch)
    requires Linked(db) && t in db.teachers
    requires p.personalInfo.firstName.None? || p.personalInfo.firstName == Some("")
    requires p.personalInfo.middleName.None? || p.personalInfo.middleName == Some("")
    requires p.personalInfo.lastName.None? || p.personalInfo.lastName == Some("")
    requires p.personalInfo.email.None? || p.personalInfo.email == Some("")
    requires p.personalInfo.phone.None? || p.personalInfo.phone == Some("")
    requires p.personalInfo.address.None? || p.personalInfo.address == Some("")
    ensures PatchTeacherEffect(db, t, p) == Reply(Ok, db)
  {
    var pi := TeacherInfo(db, t);
    assert TruthyPatchedInfo(db.infos[pi], p.personalInfo) == db.infos[pi];
    assert db.infos[pi := db.infos[pi]] == db.infos;
  }

  /**
   * The saves of update_teacher and patch_teacher on the store: the
   * PersonalInfo, then the member, which the views never change and so writes
   * back as it was. `teacher.save()` writes back an unchanged row as well.
   */
  method WriteTeacherInfo(store: Store, t: Id, info: PersonalInfo)
    requires t in store.teachers && store.teachers[t].member in store.members
    requires UniqueUsernames(store.Snapshot())
    modifies store
    ensures store.Snapshot() == old(store.Snapshot()).(infos := old(store.infos)[TeacherInfo(old(store.Snapshot()), t) := info])
  {
    var m := store.teachers[t].member;
    var member := store.members[m];
    OwnUsernameFree(store.Snapshot(), m);
    store.SaveInfoRow(member.personalInfo, info);
    var ok := store.SaveMemberRow(m, member);
    assert ok;
    assert store.members[m := member] == store.members;
  }

  method UpdateTeacher(store: Store, t: Id, p: SubtypePut) returns (status: Status)
    requires store.Valid()
    modifies store
    ensures Reply(status, store.Snapshot()) == UpdateTeacherEffect(old(store.Snapshot()), t, p)
    ensures store.Valid()
  {
    if t !in store.teachers {
      return NotFound(NoTeacher);
    }
    var info := store.infos[store.members[store.teachers[t].member].personalInfo];
    info := AssignTeacherAttrs(info, PutItems(p), false);
    TeacherPutOverwrites(store.infos[store.members[store.teachers[t].member].personalInfo], p);
    TeacherInfoWriteConsistent(store.Snapshot(), t, info);
    WriteTeacherInfo(store, t, info);
    status := Ok;
  }

  method PatchTeacher(store: Store, t: Id, p: MemberPatch) returns (status: Status)
    requires store.Valid()
    modifies store
    ensures Reply(status, store.Snapshot()) == PatchTeacherEffect(old(store.Snapshot()), t, p)
    ensures store.Valid()
  {
    if t !in store.teachers {
      return NotFound(NoTeacher);
    }
    var info := store.infos[store.members[store.teachers[t].member].personalInfo];
    info := AssignTeacherAttrs(info, MemberPatchItems(p), true);
    TeacherPatchTruthy(store.infos[store.members[store.teachers[t].member].personalInfo], p);
    TeacherInfoWriteConsistent(store.Snapshot(), t, info);
    WriteTeacherInfo(store, t, info);
    status := Ok;
  }

  // ---------------------------------------------------------------------------
  // delete_teacher
  // ---------------------------------------------------------------------------

  /** delete_teacher: 404 for a missing teacher, otherwise delete_memberSubType. */
  function DeleteTeacherEffect(db: Db, t: Id): (r: Reply)
    requires Linked(db)
    ensures t !in db.teachers ==> r == Reply(NotFound(NoTeacher), db)
    ensures t in db.teachers ==> r.status == Ok && t !in r.db.teachers && r.db.schools == db.schools
  {
    if t !in db.teachers then Reply(NotFound(NoTeacher), db)
    else Reply(Ok, DeleteMemberSubtypeEffect(db, TeacherRow(t)))
  }

  /**
   * Deleting a teacher deletes its member and, through the foreign keys, the
   * classes it teaches and the students of those classes; no other teacher goes.
   */
  lemma DeleteTeacherCascades(db: Db, t: Id)
    requires Consistent(db) && t in db.teachers
    ensures var r := DeleteTeacherEffect(db, t).db;
      && Consistent(r)
      && r.teachers == db.teachers - {t}
      && db.teachers[t].member !in r.members
      && r.classes == db.classes - ClassesOfTeachers(db, {t})
      && r.students == db.students - StudentsOfClasses(db, ClassesOfTeachers(db, {t}))
  {
    DeleteMemberSubtypeConsistent(db, TeacherRow(t));
    DeleteTeacherRowCascade(db, t);
  }

  method DeleteTeacher(store: Store, t: Id) returns (status: Status)
    requires store.Valid()
    modifies store
    ensures Reply(status, store.Snapshot()) == DeleteTeacherEffect(old(store.Snapshot()), t)
    ensures store.Valid()
  {
    if t !in store.teachers {
      return NotFound(NoTeacher);
    }
    DeleteMemberSubtype(store, TeacherRow(t));
    status := Ok;
  }

  // ---------------------------------------------------------------------------
  // list_teachers_by_school_id
  // ---------------------------------------------------------------------------

  /**
   * list_teachers_by_school_id: 404 when the school does not exist, otherwise
   * the teachers whose member belongs to it, in id order (possibly none).
   */
  function ListTeachersBySchool(db: Db, s: Id): (r: Lookup<seq<Id>>)
    ensures r == Lacking(NoSchool) <==> s !in db.schools
    ensures r.Lacking? ==> r == Lacking(NoSchool)
    ensures r.Found? ==> forall t :: t in r.value ==> t in TeachersOfSchool(db, s)
    ensures r.Found? && KeysBelowNext(db) ==> forall t :: t in TeachersOfSchool(db, s) ==> t in r.value
    ensures r.Found? ==> forall i, j :: 0 <= i < j < |r.value| ==> r.value[i] < r.value[j]
  {
    if s !in db.schools then Lacking(NoSchool)
    else
      KeysBelowIncreasing(TeachersOfSchool(db, s), db.next.teachers);
      Found(KeysBelow(TeachersOfSchool(db, s), db.next.teachers))
  }
}
