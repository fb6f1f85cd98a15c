/**
 * The student views (apis/student.py): create, replace, patch and delete a
 * student, and list the students of a school or of a class.
 */
module StudentApi {
  import opened Wrappers
  import opened Models
  import opened Schemas
  import opened Api

  // ---------------------------------------------------------------------------
  // create_student
  // ---------------------------------------------------------------------------

  /**
   * The response create_student gives for what create_memberSubType("ST")
   * returned: 409 is a 409, 4041 and 4043 are 404s. The code it does not
   * check (4042) would reach `from_orm` and raise, but is never returned for
   * a student.
   */
  function StudentCreateStatus(c: CreateResult): (r: Status)
    ensures r == Ok <==> c.Made?
    ensures r == NotFound(NoSchool) <==> c == Rejected(SchoolMissing)
    ensures r == NotFound(NoClass) <==> c == Rejected(ClassMissing)
    ensures r == Conflict(UsernameExists) <==> c == Rejected(UsernameInUse)
    ensures r.Code() in {200, 404, 409, 500}
  {
    match c
    case Made(_) => Ok
    case Raised => ServerError
    case Rejected(UsernameInUse) => Conflict(UsernameExists)
    case Rejected(SchoolMissing) => NotFound(NoSchool)
    case Rejected(ClassMissing) => NotFound(NoClass)
    case Rejected(HeadMasterExists) => ServerError
  }

  /** create_student: the school is checked first, then the username, then the class. */
  function CreateStudentEffect(db: Db, p: SubtypeIn, createUser: bool): (r: Reply)
    ensures r.status == NotFound(NoSchool) <==> p.schoolId !in db.schools
    ensures r.status == Conflict(UsernameExists) <==> p.schoolId in db.schools && UsernameFilterMatches(db, p.username)
    ensures r.status == NotFound(NoClass)
        <==> p.schoolId in db.schools && !UsernameFilterMatches(db, p.username) && p.classId !in db.classes
    ensures r.status.NotFound? || r.status.Conflict? ==> r.db == db
    ensures r.status == Ok <==> CreateMemberSubtypeEffect(db, ST, p, createUser).result.Made?
    ensures r.status == ServerError <==> CreateMemberSubtypeEffect(db, ST, p, createUser).result.Raised?
  {
    var c := CreateMemberSubtypeEffect(db, ST, p, createUser);
    Reply(StudentCreateStatus(c.result), c.db)
  }

  /** Adding student `x` for a new member `m` in class `c` adds it to the students of `c` and of the member's school. */
  lemma AddedStudentJoins(db: Db, r: Db, x: Id, m: Id, v: Member, c: Id, year: int)
    requires x !in db.students
    requires forall y :: y in db.students ==> db.students[y].member != m
    requires r.students == db.students[x := Student(m, year, c)] && r.members == db.members[m := v]
    ensures StudentsOfClass(r, c) == StudentsOfClass(db, c) + {x}
    ensures forall c' :: c' != c ==> StudentsOfClass(r, c') == StudentsOfClass(db, c')
    ensures StudentsOfSchool(r, v.school) == StudentsOfSchool(db, v.school) + {x}
    ensures forall s :: s != v.school ==> StudentsOfSchool(r, s) == StudentsOfSchool(db, s)
  {
    forall s, y | y in db.students
      ensures StudiesAt(r, y, s) <==> StudiesAt(db, y, s)
    {
      assert r.students[y] == db.students[y];
    }
  }

  /** A created student joins the students of its class and of its school, and of no other. */
  lemma CreatedStudentJoins(db: Db, p: SubtypeIn, createUser: bool)
    requires Consistent(db)
    requires CreateStudentEffect(db, p, createUser).status == Ok
    ensures var r := CreateStudentEffect(db, p, createUser).db;
      && Consistent(r)
      && StudentsOfClass(r, p.classId) == StudentsOfClass(db, p.classId) + {db.next.students}
      && StudentsOfSchool(r, p.schoolId) == StudentsOfSchool(db, p.schoolId) + {db.next.students}
      && (forall c :: c != p.classId ==> StudentsOfClass(r, c) == StudentsOfClass(db, c))
      && (forall s :: s != p.schoolId ==> StudentsOfSchool(r, s) == StudentsOfSchool(db, s))
  {
    var r := CreateStudentEffect(db, p, createUser).db;
    CreateMemberSubtypeConsistent(db, ST, p, createUser);
    CreateMemberSubtypeMade(db, ST, p, createUser);
    var v := Member(p.schoolId, ExpectedUsername(db, p), ST, db.next.infos);
    assert forall y :: y in db.students ==> db.students[y].member != db.next.members by {
      assert KeysBelowNext(db) && Linked(db);
    }
    AddedStudentJoins(db, r, db.next.students, db.next.members, v, p.classId, p.intakeYear);
  }

  method CreateStudent(store: Store, p: SubtypeIn, createUser: bool) returns (status: Status)
    requires store.Valid()
    modifies store
    ensures Reply(status, store.Snapshot()) == CreateStudentEffect(old(store.Snapshot()), p, createUser)
    ensures store.Valid()
  {
    var result := CreateMemberSubtype(store, ST, p, createUser);
    status := StudentCreateStatus(result);
  }

  // ---------------------------------------------------------------------------
  // The loop of update_student and patch_student
  // ---------------------------------------------------------------------------

  /** The member and PersonalInfo the loop leaves to save, or the response it returned early with. */
  datatype StudentEdit = StudentEdited(member: Member, info: PersonalInfo) | StudentRefused(status: Status)

  /**
   * The loop over the payload's items: a `school_id` item returns a 404 when
   * the school does not exist and otherwise assigns it to the member; a
   * `class_id` item returns a 404 when the class does not exist and otherwise
   * goes to `setattr(student, "class_id", ...)`, which Student does not store
   * (its foreign key is `f_class`); a `personal_info` item sets its subfields.
   */
  function SetStudentAttrs(db: Db, member: Member, info: PersonalInfo, items: seq<MemberItem>): (r: StudentEdit)
    ensures r.StudentRefused? ==> r.status == NotFound(NoSchool) || r.status == NotFound(NoClass)
    ensures r.StudentEdited? ==> r.member == member.(school := r.member.school)
    ensures r.StudentEdited? && member.school in db.schools ==> r.member.school in db.schools
    decreases |items|
  {
    if items == [] then StudentEdited(member, info)
    else
      match items[0]
      case SchoolIdItem(s) =>
        if s !in db.schools then StudentRefused(NotFound(NoSchool))
        else SetStudentAttrs(db, member.(school := s), info, items[1..])
      case ClassIdItem(c) =>
        if c !in db.classes then StudentRefused(NotFound(NoClass))
        else SetStudentAttrs(db, member, info, items[1..])
      case InfoItem(attrs) => SetStudentAttrs(db, member, SetInfoAttrs(info, attrs, false), items[1..])
  }

  method AssignStudentAttrs(store: Store, member: Member, info: PersonalInfo, items: seq<MemberItem>)
    returns (r: StudentEdit)
    ensures r == SetStudentAttrs(store.Snapshot(), member, info, items)
  {
    ghost var db := store.Snapshot();
    var m, pi := member, info;
    var i := 0;
    while i < |items|
      invariant 0 <= i <= |items|
      invariant SetStudentAttrs(db, m, pi, items[i..]) == SetStudentAttrs(db, member, info, items)
    {
      assert items[i..][1..] == items[i + 1..];
      match items[i] {
        case SchoolIdItem(s) =>
          if s !in store.schools {
            return StudentRefused(NotFound(NoSchool));
          }
          m := m.(school := s);
        case ClassIdItem(c) =>
          if c !in store.classes {
            return StudentRefused(NotFound(NoClass));
          }
        case InfoItem(attrs) =>
          pi := AssignInfoAttrs(pi, attrs, false);
      }
      i := i + 1;
    }
    r := StudentEdited(m, pi);
  }

  /** PUT: an existing school is assigned and every PersonalInfo field replaced. */
  lemma StudentPutOverwrites(db: Db, member: Member, info: PersonalInfo, p: SubtypePut)
    ensures SetStudentAttrs(db, member, info, PutItems(p)) ==
      if p.schoolId !in db.schools then StudentRefused(NotFound(NoSchool))
      else StudentEdited(member.(school := p.schoolId), p.personalInfo)
  {
    var last := [InfoItem(InfoItems(p.personalInfo))];
    assert PutItems(p)[1..] == last;
    assert last[1..] == [];
    InfoPutOverwrites(info, p.personalInfo);
    if p.schoolId in db.schools {
      var moved := member.(school := p.schoolId);
      assert SetStudentAttrs(db, moved, info, last)
        == SetStudentAttrs(db, moved, SetInfoAttrs(info, InfoItems(p.personalInfo), false), []);
    }
  }

  /** PATCH: a supplied school and class are checked in that order; the PersonalInfo is patched field by field. */
  lemma StudentPatchFieldwise(db: Db, member: Member, info: PersonalInfo, p: StudentPatch)
    ensures SetStudentAttrs(db, member, info, StudentPatchItems(p)) ==
      if p.schoolId.Some? && p.schoolId.value !in db.schools then StudentRefused(NotFound(NoSchool))
      else if p.classId.Some? && p.classId.value !in db.classes then StudentRefused(NotFound(NoClass))
      else StudentEdited(member.(school := p.schoolId.GetOr(member.school)), PatchedInfo(info, p.personalInfo))
  {
    var last := [InfoItem(InfoPatchItems(p.personalInfo))];
    var rest := (if p.classId.Some? then [ClassIdItem(p.classId.value)] else []) + last;
    assert last[1..] == [];
    InfoPatchFieldwise(info, p.personalInfo);
    var moved := member.(school := p.schoolId.GetOr(member.school));
    assert SetStudentAttrs(db, moved, info, last)
      == SetStudentAttrs(db, moved, SetInfoAttrs(info, InfoPatchItems(p.personalInfo), false), []);
    if p.classId.Some? {
      assert rest[1..] == last;
    } else {
      assert rest == last;
    }
    if p.schoolId.Some? {
      assert StudentPatchItems(p)[1..] == rest;
    } else {
      assert StudentPatchItems(p) == rest;
      assert member.(school := member.school) == member;
    }
  }

  // ---------------------------------------------------------------------------
  // update_student and patch_student
  // ---------------------------------------------------------------------------

  /** The member of student `x`. */
  function StudentMember(db: Db, x: Id): Id
    requires x in db.students
  {
    db.students[x].member
  }

  /** The id of the PersonalInfo of student `x`'s member. */
  function StudentInfo(db: Db, x: Id): Id
    requires x in db.students && StudentMember(db, x) in db.members
  {
    db.members[StudentMember(db, x)].personalInfo
  }

  /**
   * The saves after the loop: the PersonalInfo, then the member with its new
   * school (the School object the loop put into `school_id` is written as its
   * key), then the student, an unchanged row.
   */
  function SaveStudentEdit(db: Db, x: Id, e: StudentEdit): Reply
    requires x in db.students && StudentMember(db, x) in db.members
  {
    match e
    case StudentRefused(st) => Reply(st, db)
    case StudentEdited(member, info) =>
      Reply(Ok, db.(infos := db.infos[StudentInfo(db, x) := info], members := db.members[StudentMember(db, x) := member]))
  }

  /**
   * update_student: 404 for a missing student or school;
   * otherwise the student's member moves to the school and every field of its
   * PersonalInfo is replaced. The student keeps its class.
   */
  function UpdateStudentEffect(db: Db, x: Id, p: SubtypePut): (r: Reply)
    requires Linked(db)
    ensures x !in db.students ==> r == Reply(NotFound(NoStudent), db)
    ensures x in db.students && p.schoolId !in db.schools ==> r == Reply(NotFound(NoSchool), db)
    ensures x in db.students && p.schoolId in db.schools ==>
      var m := StudentMember(db, x);
      r == Reply(Ok, db.(infos := db.infos[StudentInfo(db, x) := p.personalInfo],
                         members := db.members[m := db.members[m].(school := p.schoolId)]))
  {
    if x !in db.students then Reply(NotFound(NoStudent), db)
    else
      var member := db.members[StudentMember(db, x)];
      var info := db.infos[StudentInfo(db, x)];
      StudentPutOverwrites(db, member, info, p);
      SaveStudentEdit(db, x, SetStudentAttrs(db, member, info, PutItems(p)))
  }

  /**
   * patch_student: the 404s of the loop, school first; otherwise
   * a supplied school moves the member, a supplied class changes nothing, and
   * the PersonalInfo changes only in the subfields the request set.
   */
  function PatchStudentEffect(db: Db, x: Id, p: StudentPatch): (r: Reply)
    requires Linked(db)
    ensures x !in db.students ==> r == Reply(NotFound(NoStudent), db)
    ensures x in db.students && p.schoolId.Some? && p.schoolId.value !in db.schools ==> r == Reply(NotFound(NoSchool), db)
    ensures (x in db.students && (p.schoolId.None? || p.schoolId.value in db.schools)
             && p.classId.Some? && p.classId.value !in db.classes) ==> r == Reply(NotFound(NoClass), db)
    ensures (x in db.students && (p.schoolId.None? || p.schoolId.value in db.schools)
             && (p.classId.None? || p.classId.value in db.classes)) ==>
      var m := StudentMember(db, x);
      r == Reply(Ok, db.(infos := db.infos[StudentInfo(db, x) := PatchedInfo(db.infos[StudentInfo(db, x)], p.personalInfo)],
                         members := db.members[m := db.members[m].(school := p.schoolId.GetOr(db.members[m].school))]))
  {
    if x !in db.students then Reply(NotFound(NoStudent), db)
    else
      var member := db.members[StudentMember(db, x)];
      var info := db.infos[StudentInfo(db, x)];
      StudentPatchFieldwise(db, member, info, p);
      SaveStudentEdit(db, x, SetStudentAttrs(db, member, info, StudentPatchItems(p)))
  }

  /**
   * Moving student `x`'s member to school `s` moves `x` and no other student,
   * and leaves every class's students as they were.
   */
  lemma MovedStudentOnly(db: Db, r: Db, x: Id, s: Id)
    requires x in db.students && StudentMember(db, x) in db.members
    requires forall y :: y in db.students && y != x ==> db.students[y].member != StudentMember(db, x)
    requires r.students == db.students
    requires r.members == db.members[StudentMember(db, x) := db.members[StudentMember(db, x)].(school := s)]
    ensures StudiesAt(r, x, s)
    ensures forall y, s' :: y in db.students && y != x ==> (StudiesAt(r, y, s') <==> StudiesAt(db, y, s'))
    ensures forall c :: StudentsOfClass(r, c) == StudentsOfClass(db, c)
  {
    forall c ensures StudentsOfClass(r, c) == StudentsOfClass(db, c) {
      assert forall y :: InClass(r, y, c) <==> InClass(db, y, c);
    }
  }

  /** Saving a student's edit keeps the invariant. */
  lemma SaveStudentEditConsistent(db: Db, x: Id, e: StudentEdit)
    requires Consistent(db) && x in db.students
    requires e.StudentEdited? ==> e.member == db.members[StudentMember(db, x)].(school := e.member.school)
    requires e.StudentEdited? ==> e.member.school in db.schools
    ensures Consistent(SaveStudentEdit(db, x, e).db)
  {
    if e.StudentEdited? {
      var m := StudentMember(db, x);
      var pi := StudentInfo(db, x);
      var d1 := db.(infos := db.infos[pi := e.info]);
      SaveInfoConsistent(db, pi, e.info);
      OwnUsernameFree(d1, m);
      SaveMemberConsistent(d1, m, e.member);
      assert SaveStudentEdit(db, x, e).db == d1.(members := d1.members[m := e.member]);
    }
  }

  /** The loop, started from the stored member, lets through only edits that keep the invariant. */
  lemma StoredStudentEditIsSafe(db: Db, x: Id, info: PersonalInfo, items: seq<MemberItem>)
    requires Consistent(db) && x in db.students
    ensures var member := db.members[StudentMember(db, x)];
      var e := SetStudentAttrs(db, member, info, items);
      e.StudentEdited? ==> e.member == member.(school := e.member.school) && e.member.school in db.schools
  {
  }

  /** Replacing or patching a student keeps the invariant; a successful write moves that student only. */
  lemma StudentWritesConsistent(db: Db, x: Id, v: SubtypePut, p: StudentPatch)
    requires Consistent(db)
    ensures Consistent(UpdateStudentEffect(db, x, v).db)
    ensures Consistent(PatchStudentEffect(db, x, p).db)
  {
    if x in db.students {
      var member := db.members[StudentMember(db, x)];
      var info := db.infos[StudentInfo(db, x)];
      StoredStudentEditIsSafe(db, x, info, PutItems(v));
      StoredStudentEditIsSafe(db, x, info, StudentPatchItems(p));
      SaveStudentEditConsistent(db, x, SetStudentAttrs(db, member, info, PutItems(v)));
      SaveStudentEditConsistent(db, x, SetStudentAttrs(db, member, info, StudentPatchItems(p)));
    }
  }

  /** After a successful PUT the student studies at the new school, in the same class, and no other student moved. */
  lemma UpdatedStudentMoves(db: Db, x: Id, p: SubtypePut)
    requires Consistent(db)
    requires UpdateStudentEffect(db, x, p).status == Ok
    ensures var r := UpdateStudentEffect(db, x, p).db;
      && StudiesAt(r, x, p.schoolId)
      && (forall y, s :: y in db.students && y != x ==> (StudiesAt(r, y, s) <==> StudiesAt(db, y, s)))
      && forall c :: StudentsOfClass(r, c) == StudentsOfClass(db, c)
  {
    var r := UpdateStudentEffect(db, x, p).db;
    assert x in db.students && StudentMember(db, x) in db.members;
    assert forall y :: y in db.students && y != x ==> db.students[y].member != StudentMember(db, x) by {
      assert SubtypesMatchRoles(db);
    }
    MovedStudentOnly(db, r, x, p.schoolId);
  }

  /** A patch that supplies only a class, which exists, leaves the database as it was: `class_id` is not stored. */
  lemma PatchStudentClassIsNoOp(db: Db, x: Id, c: Id)
    requires Linked(db) && x in db.students && c in db.classes
    ensures PatchStudentEffect(db, x, StudentPatch(None, Some(c), PersonalInfoPatch(None, None, None, None, None, None)))
      == Reply(Ok, db)
  {
    var m := StudentMember(db, x);
    var pi := StudentInfo(db, x);
    assert db.infos[pi := db.infos[pi]] == db.infos;
    assert db.members[m := db.members[m]] == db.members;
  }

  /**
   * The saves on the store: the PersonalInfo, then the member, which may
   * change only its school and so keeps its username.
   */
  method WriteStudentEdit(store: Store, x: Id, member: Member, info: PersonalInfo)
    requires x in store.students && store.students[x].member in store.members
    requires member.username == store.members[store.students[x].member].username
    requires UniqueUsernames(store.Snapshot())
    modifies store
    ensures store.Snapshot() == old(store.Snapshot()).(
      infos := old(store.infos)[StudentInfo(old(store.Snapshot()), x) := info],
      members := old(store.members)[old(store.students[x].member) := member])
  {
    var m := store.students[x].member;
    OwnUsernameFree(store.Snapshot(), m);
    store.SaveInfoRow(store.members[m].personalInfo, info);
    var ok := store.SaveMemberRow(m, member);
    assert ok;
  }

  /** The saves of update_student and patch_student, on the store. */
  method SaveStudentEdits(store: Store, x: Id, e: StudentEdit) returns (status: Status)
    requires store.Valid() && x in store.students
    requires e.StudentEdited? ==> e.member == store.members[store.students[x].member].(school := e.member.school)
    requires e.StudentEdited? ==> e.member.school in store.schools
    modifies store
    ensures Reply(status, store.Snapshot()) == SaveStudentEdit(old(store.Snapshot()), x, e)
    ensures store.Valid()
  {
    SaveStudentEditConsistent(store.Snapshot(), x, e);
    match e {
      case StudentRefused(st) =>
        status := st;
      case StudentEdited(member, info) =>
        WriteStudentEdit(store, x, member, info);
        status := Ok;
    }
  }

  method UpdateStudent(store: Store, x: Id, p: SubtypePut) returns (status: Status)
    requires store.Valid()
    modifies store
    ensures Reply(status, store.Snapshot()) == UpdateStudentEffect(old(store.Snapshot()), x, p)
    ensures store.Valid()
  {
    if x !in store.students {
      return NotFound(NoStudent);
    }
    ghost var db := store.Snapshot();
    var member := store.members[store.students[x].member];
    var info := store.infos[member.personalInfo];
    StoredStudentEditIsSafe(db, x, info, PutItems(p));
    var e := AssignStudentAttrs(store, member, info, PutItems(p));
    status := SaveStudentEdits(store, x, e);
  }

  method PatchStudent(store: Store, x: Id, p: StudentPatch) returns (status: Status)
    requires store.Valid()
    modifies store
    ensures Reply(status, store.Snapshot()) == PatchStudentEffect(old(store.Snapshot()), x, p)
    ensures store.Valid()
  {
    if x !in store.students {
      return NotFound(NoStudent);
    }
    ghost var db := store.Snapshot();
    var member := store.members[store.students[x].member];
    var info := store.infos[member.personalInfo];
    StoredStudentEditIsSafe(db, x, info, StudentPatchItems(p));
    var e := AssignStudentAttrs(store, member, info, StudentPatchItems(p));
    status := SaveStudentEdits(store, x, e);
  }

  // ---------------------------------------------------------------------------
  // delete_student
  // ---------------------------------------------------------------------------

  /** delete_student: 404 for a missing student, otherwise delete_memberSubType. */
  function DeleteStudentEffect(db: Db, x: Id): (r: Reply)
    requires Linked(db)
    ensures x !in db.students ==> r == Reply(NotFound(NoStudent), db)
    ensures x in db.students ==> r.status == Ok && x !in r.db.students && r.db.schools == db.schools
  {
    if x !in db.students then Reply(NotFound(NoStudent), db)
    else Reply(Ok, DeleteMemberSubtypeEffect(db, StudentRow(x)))
  }

  /** Removing student `x`'s row removes it from its class and leaves every class's other students. */
  lemma RemovedStudentLeavesClass(db: Db, r: Db, x: Id)
    requires r.students == db.students - {x}
    ensures forall c :: StudentsOfClass(r, c) == StudentsOfClass(db, c) - {x}
  {
    forall c ensures StudentsOfClass(r, c) == StudentsOfClass(db, c) - {x} {
      assert forall y :: y in r.students ==> r.students[y] == db.students[y];
    }
  }

  /** Deleting a student removes it from its class and deletes no other subtype row and no class. */
  lemma DeleteStudentLeavesOthers(db: Db, x: Id)
    requires Consistent(db) && x in db.students
    ensures var r := DeleteStudentEffect(db, x).db;
      && Consistent(r)
      && r.students == db.students - {x}
      && r.classes == db.classes && r.teachers == db.teachers && r.headmasters == db.headmasters
      && forall c :: StudentsOfClass(r, c) == StudentsOfClass(db, c) - {x}
  {
    var r := DeleteStudentEffect(db, x).db;
    DeleteMemberSubtypeConsistent(db, StudentRow(x));
    DeleteMemberSubtypeLeavesOtherRows(db, StudentRow(x));
    RemovedStudentLeavesClass(db, r, x);
  }

  method DeleteStudent(store: Store, x: Id) returns (status: Status)
    requires store.Valid()
    modifies store
    ensures Reply(status, store.Snapshot()) == DeleteStudentEffect(old(store.Snapshot()), x)
    ensures store.Valid()
  {
    if x !in store.students {
      return NotFound(NoStudent);
    }
    DeleteMemberSubtype(store, StudentRow(x));
    status := Ok;
  }

  // ---------------------------------------------------------------------------
  // list_students_by_school and list_students_by_class
  // ---------------------------------------------------------------------------

  /**
   * list_students_by_school: 404 when the school does not exist, otherwise
   * the students whose member belongs to it, in id order (possibly none).
   */
  function ListStudentsBySchool(db: Db, s: Id): (r: Lookup<seq<Id>>)
    ensures r == Lacking(NoSchool) <==> s !in db.schools
    ensures r.Lacking? ==> r == Lacking(NoSchool)
    ensures r.Found? ==> forall x :: x in r.value ==> x in StudentsOfSchool(db, s)
    ensures r.Found? && KeysBelowNext(db) ==> forall x :: x in StudentsOfSchool(db, s) ==> x in r.value
    ensures r.Found? ==> forall i, j :: 0 <= i < j < |r.value| ==> r.value[i] < r.value[j]
  {
    if s !in db.schools then Lacking(NoSchool)
    else
      KeysBelowIncreasing(StudentsOfSchool(db, s), db.next.students);
      Found(KeysBelow(StudentsOfSchool(db, s), db.next.students))
  }

  /**
   * list_students_by_class: 404 when the class does not exist, otherwise the
   * students whose `f_class` is it, in id order (possibly none).
   */
  function ListStudentsByClass(db: Db, c: Id): (r: Lookup<seq<Id>>)
    ensures r == Lacking(NoClass) <==> c !in db.classes
    ensures r.Lacking? ==> r == Lacking(NoClass)
    ensures r.Found? ==> forall x :: x in r.value ==> x in StudentsOfClass(db, c)
    ensures r.Found? && KeysBelowNext(db) ==> forall x :: x in StudentsOfClass(db, c) ==> x in r.value
    ensures r.Found? ==> forall i, j :: 0 <= i < j < |r.value| ==> r.value[i] < r.value[j]
  {
    if c !in db.classes then Lacking(NoClass)
    else
      KeysBelowIncreasing(StudentsOfClass(db, c), db.next.students);
      Found(KeysBelow(StudentsOfClass(db, c), db.next.students))
  }
}
