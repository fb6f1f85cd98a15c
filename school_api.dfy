/**
 * The school views (apis/school.py): read, create, replace, patch and delete
 * a school, and find a head master's school.
 */
module SchoolApi {
  import opened Wrappers
  import opened Models
  import opened Schemas
  import opened Api

  /** get_school: the school's SchoolOut, or None for the 404. */
  function GetSchool(db: Db, id: Id): (r: Option<SchoolOut>)
    ensures r.None? <==> id !in db.schools
    ensures r.Some? ==> r.value.id == id && r.value.school == db.schools[id]
  {
    if id in db.schools then Some(SchoolOutOf(db, id)) else None
  }

  // ---------------------------------------------------------------------------
  // create_school
  // ---------------------------------------------------------------------------

  /** create_school: `School.objects.create(**payload.dict())`. */
  function CreateSchoolEffect(db: Db, v: School): (r: Reply)
    ensures r.status == Ok
    ensures db.next.schools in r.db.schools && r.db.schools[db.next.schools] == v
    ensures forall s :: s in db.schools && s != db.next.schools ==> s in r.db.schools && r.db.schools[s] == db.schools[s]
    ensures r.db == db.(schools := r.db.schools, next := r.db.next)
    ensures KeysBelowNext(db) ==> r.db.schools.Keys == db.schools.Keys + {db.next.schools} && db.next.schools !in db.schools
  {
    Reply(Ok, db.(schools := db.schools[db.next.schools := v], next := db.next.(schools := db.next.schools + 1)))
  }

  lemma CreateSchoolConsistent(db: Db, v: School)
    requires Consistent(db)
    ensures Consistent(CreateSchoolEffect(db, v).db)
  {
    var d := db.(schools := db.schools[db.next.schools := v], next := db.next.(schools := db.next.schools + 1));
    assert CreateSchoolEffect(db, v).db == d;
    InsertSchoolConsistent(db, v);
  }

  /** A new school has no head master, no students, no teachers and no classes. */
  lemma CreatedSchoolIsEmpty(db: Db, v: School)
    requires Consistent(db)
    ensures GetSchool(CreateSchoolEffect(db, v).db, db.next.schools) == Some(SchoolOut(db.next.schools, v, None, 0, 0, 0))
  {
    var d := CreateSchoolEffect(db, v).db;
    var s := db.next.schools;
    assert d == db.(schools := db.schools[s := v], next := db.next.(schools := s + 1));
    assert KeysBelowNext(d);
    NothingRefersToNewSchool(db, d, s);
    var o := SchoolOutOf(d, s);
    assert o.headMaster == None && o.teacherCount == 0 && o.studentCount == 0 && o.classCount == 0;
  }

  /** No row of the old tables refers to a school key the old database does not hold. */
  lemma NothingRefersToNewSchool(db: Db, d: Db, s: Id)
    requires Linked(db) && s !in db.schools
    requires d.members == db.members && d.headmasters == db.headmasters
    requires d.teachers == db.teachers && d.students == db.students && d.classes == db.classes
    ensures TeachersOfSchool(d, s) == {} && StudentsOfSchool(d, s) == {} && ClassesOfSchool(d, s) == {}
    ensures forall h :: h in d.headmasters ==> !HeadsSchool(d, h, s)
  {
    assert TeachersOfSchool(d, s) == {};
    assert StudentsOfSchool(d, s) == {};
  }

  method CreateSchool(store: Store, v: School) returns (status: Status, id: Id)
    requires store.Valid()
    modifies store
    ensures id == old(store.next.schools)
    ensures Reply(status, store.Snapshot()) == CreateSchoolEffect(old(store.Snapshot()), v)
    ensures store.Valid()
  {
    InsertSchoolConsistent(store.Snapshot(), v);
    id := store.InsertSchoolRow(v);
    status := Ok;
  }

  // ---------------------------------------------------------------------------
  // update_school and patch_school
  // ---------------------------------------------------------------------------

  /** update_school: sets every SchoolIn field on the school, then saves it. */
  function UpdateSchoolEffect(db: Db, id: Id, v: School): (r: Reply)
    ensures id !in db.schools ==> r == Reply(NotFound(NoSchool), db)
    ensures id in db.schools ==> r == Reply(Ok, db.(schools := db.schools[id := v]))
  {
    if id !in db.schools then Reply(NotFound(NoSchool), db)
    else
      SchoolPutOverwrites(db.schools[id], v);
      Reply(Ok, db.(schools := db.schools[id := SetSchoolAttrs(db.schools[id], SchoolItems(v))]))
  }

  /** patch_school: sets the fields the request supplied, then saves the school. */
  function PatchSchoolEffect(db: Db, id: Id, p: SchoolPatch): (r: Reply)
    ensures id !in db.schools ==> r == Reply(NotFound(NoSchool), db)
    ensures id in db.schools ==> r == Reply(Ok, db.(schools := db.schools[id := PatchedSchool(db.schools[id], p)]))
  {
    if id !in db.schools then Reply(NotFound(NoSchool), db)
    else
      SchoolPatchFieldwise(db.schools[id], p);
      Reply(Ok, db.(schools := db.schools[id := SetSchoolAttrs(db.schools[id], SchoolPatchItems(p))]))
  }

  /** Replacing or patching a school's fields keeps the invariant. */
  lemma SchoolWritesConsistent(db: Db, id: Id, v: School, p: SchoolPatch)
    requires Consistent(db)
    ensures Consistent(UpdateSchoolEffect(db, id, v).db)
    ensures Consistent(PatchSchoolEffect(db, id, p).db)
  {
    if id in db.schools {
      SaveSchoolConsistent(db, id, v);
      SaveSchoolConsistent(db, id, PatchedSchool(db.schools[id], p));
    }
  }

  /** A patch that sets nothing leaves the database as it was. */
  lemma PatchSchoolEmptyIsNoOp(db: Db, id: Id)
    ensures PatchSchoolEffect(db, id, SchoolPatch(None, None, None, None, None)).db == db
  {
    if id in db.schools {
      assert db.schools[id := db.schools[id]] == db.schools;
    }
  }

  /** Applying the same patch twice is applying it once. */
  lemma PatchSchoolIdempotent(db: Db, id: Id, p: SchoolPatch)
    ensures var r := PatchSchoolEffect(db, id, p);
      PatchSchoolEffect(r.db, id, p) == r
  {
    if id in db.schools {
      var s1 := PatchedSchool(db.schools[id], p);
      assert PatchedSchool(s1, p) == s1;
      var d1 := db.(schools := db.schools[id := s1]);
      assert d1.schools[id := s1] == d1.schools;
    }
  }

  method UpdateSchool(store: Store, id: Id, v: School) returns (status: Status)
    requires store.Valid()
    modifies store
    ensures Reply(status, store.Snapshot()) == UpdateSchoolEffect(old(store.Snapshot()), id, v)
    ensures store.Valid()
  {
    if id !in store.schools {
      return NotFound(NoSchool);
    }
    var school := AssignSchoolAttrs(store.schools[id], SchoolItems(v));
    SchoolPutOverwrites(store.schools[id], v);
    store.SaveSchoolRow(id, school);
    status := Ok;
  }

  method PatchSchool(store: Store, id: Id, p: SchoolPatch) returns (status: Status)
    requires store.Valid()
    modifies store
    ensures Reply(status, store.Snapshot()) == PatchSchoolEffect(old(store.Snapshot()), id, p)
    ensures store.Valid()
  {
    if id !in store.schools {
      return NotFound(NoSchool);
    }
    var school := AssignSchoolAttrs(store.schools[id], SchoolPatchItems(p));
    SchoolPatchFieldwise(store.schools[id], p);
    store.SaveSchoolRow(id, school);
    status := Ok;
  }

  // ---------------------------------------------------------------------------
  // delete_school
  // ---------------------------------------------------------------------------

  /** The database once every class of school `s` is deleted, with the class's students. */
  function WithoutClassesOf(db: Db, s: Id): (r: Db)
    requires Consistent(db)
    ensures Consistent(r) && SubDb(r, db)
    ensures ClassesOfSchool(r, s) == {}
    ensures forall c :: c in r.classes <==> c in db.classes && db.classes[c].school != s
    ensures forall x :: x in r.students <==> x in db.students && db.students[x].fClass !in ClassesOfSchool(db, s)
    ensures r.schools == db.schools && r.members == db.members && r.teachers == db.teachers
    ensures r.headmasters == db.headmasters && r.infos == db.infos && r.accounts == db.accounts
  {
    var r := DropClasses(db, ClassesOfSchool(db, s));
    DropClassesSound(db, ClassesOfSchool(db, s));
    SubDbConsistent(r, db);
    r
  }

  /**
   * `delete_memberSubType(my_get_object_or_404(HeadMaster, school=s))` when
   * the school has a head master.
   */
  function WithoutHeadMasterOf(db: Db, s: Id): (r: Db)
    requires Consistent(db)
    ensures Consistent(r) && SubDb(r, db)
    ensures forall h :: h in r.headmasters <==> h in db.headmasters && db.headmasters[h].school != s
    ensures forall m :: m in r.members <==> m in db.members && m !in HeadMasterMembers(db, s)
    ensures forall p :: p in r.infos <==> p in db.infos && p !in InfosOfMembers(db, HeadMasterMembers(db, s))
    ensures forall u :: u in r.accounts <==> u in db.accounts && u !in UsernamesOfMembers(db, HeadMasterMembers(db, s))
    ensures r.schools == db.schools && r.teachers == db.teachers && r.classes == db.classes
    ensures r.students == db.students
  {
    match ResolveHeadMaster(db, s)
    case None =>
      assert forall h :: h in db.headmasters ==> db.headmasters[h].school != s by {
        forall h | h in db.headmasters ensures db.headmasters[h].school != s {
          assert h < db.next.headmasters;
          assert !HeadsSchool(db, h, s);
        }
      }
      assert HeadMasterMembers(db, s) == {};
      db
    case Some(h) =>
      var r := DeleteMemberSubtypeEffect(db, HeadMasterRow(h));
      DeleteMemberSubtypeConsistent(db, HeadMasterRow(h));
      DeleteMemberSubtypeSound(db, HeadMasterRow(h));
      HeadMasterOfSchoolGone(db, h, s);
      r
  }

  /** What delete_memberSubType leaves once the head master of `s` is gone. */
  lemma HeadMasterOfSchoolGone(db: Db, h: Id, s: Id)
    requires Consistent(db) && HeadsSchool(db, h, s)
    ensures var r := DeleteMemberSubtypeEffect(db, HeadMasterRow(h));
      && (forall k :: k in r.headmasters <==> k in db.headmasters && db.headmasters[k].school != s)
      && (forall m :: m in r.members <==> m in db.members && m !in HeadMasterMembers(db, s))
      && (forall p :: p in r.infos <==> p in db.infos && p !in InfosOfMembers(db, HeadMasterMembers(db, s)))
      && (forall u :: u in r.accounts <==> u in db.accounts && u !in UsernamesOfMembers(db, HeadMasterMembers(db, s)))
      && r.schools == db.schools && r.teachers == db.teachers && r.classes == db.classes
      && r.students == db.students
  {
    var r := DeleteMemberSubtypeEffect(db, HeadMasterRow(h));
    var m := db.headmasters[h].member;
    DeleteMemberSubtypeLeavesOtherRows(db, HeadMasterRow(h));
    DeleteMemberSubtypeRemovesOneMember(db, HeadMasterRow(h));
    TheHeadMasterMember(db, h, s);
    assert forall k :: k in db.headmasters && k != h ==> db.headmasters[k].school != s by {
      forall k | k in db.headmasters && k != h ensures db.headmasters[k].school != s {
        assert OneHeadMasterPerSchool(db);
      }
    }
    OneMemberGone(db, r, h, s, m);
  }

  lemma OneMemberGone(db: Db, r: Db, h: Id, s: Id, m: Id)
    requires HeadsSchool(db, h, s) && m in db.members
    requires forall k :: k in db.headmasters && k != h ==> db.headmasters[k].school != s
    requires r.headmasters == db.headmasters - {h} && r.members == db.members - {m}
    requires r.infos == db.infos - {db.members[m].personalInfo}
    requires r.accounts == AccountsWithout(db.accounts, db.members[m].username)
    requires HeadMasterMembers(db, s) == {m} && InfosOfMembers(db, {m}) == {db.members[m].personalInfo}
    requires UsernamesOfMembers(db, {m}) == (if db.members[m].username.Some? then {db.members[m].username.value} else {})
    ensures forall k :: k in r.headmasters <==> k in db.headmasters && db.headmasters[k].school != s
    ensures forall k :: k in r.members <==> k in db.members && k !in HeadMasterMembers(db, s)
    ensures forall p :: p in r.infos <==> p in db.infos && p !in InfosOfMembers(db, HeadMasterMembers(db, s))
    ensures forall u :: u in r.accounts <==> u in db.accounts && u !in UsernamesOfMembers(db, HeadMasterMembers(db, s))
  {
  }

  /** The member of the head master of `s`: no member, or one. */
  function HeadMasterMembers(db: Db, s: Id): set<Id> {
    set h | h in db.headmasters && db.headmasters[h].school == s :: db.headmasters[h].member
  }

  /** With `h` the head master of `s`, its member is the only one, and its PersonalInfo and account go with it. */
  lemma TheHeadMasterMember(db: Db, h: Id, s: Id)
    requires Consistent(db) && HeadsSchool(db, h, s)
    ensures var m := db.headmasters[h].member;
      && HeadMasterMembers(db, s) == {m}
      && InfosOfMembers(db, {m}) == {db.members[m].personalInfo}
      && UsernamesOfMembers(db, {m}) == (if db.members[m].username.Some? then {db.members[m].username.value} else {})
  {
    var m := db.headmasters[h].member;
    forall k | k in HeadMasterMembers(db, s) ensures k == m {
      var g :| g in db.headmasters && db.headmasters[g].school == s && db.headmasters[g].member == k;
      assert HeadsSchool(db, g, s);
    }
    assert m in HeadMasterMembers(db, s);
  }

  /** Once the one head master of `s` is gone, no head master has school `s`. */
  lemma OnlyHeadMasterGone(db: Db, r: Db, h: Id, s: Id)
    requires OneHeadMasterPerSchool(db) && HeadsSchool(db, h, s)
    requires SubMap(r.headmasters, db.headmasters) && h !in r.headmasters
    ensures forall k :: k in r.headmasters ==> r.headmasters[k].school != s
  {
    forall k | k in r.headmasters ensures r.headmasters[k].school != s {
      assert k in db.headmasters && r.headmasters[k] == db.headmasters[k] && k != h;
    }
  }

  /**
   * delete_school as written: deletes the school's classes (their students
   * go by the storage cascade), then asks for `Teacher.objects.filter(school=s)`
   * as soon as a teacher of the school exists, and `Student.objects.filter(school=s)`
   * as soon as a student of the school exists. Neither model has a `school`
   * field, so either query raises and the view fails with the classes
   * already deleted. Otherwise it deletes the head master through
   * delete_memberSubType and the school, which cascades to its remaining
   * members.
   */
  function DeleteSchoolEffect(db: Db, s: Id): (r: Reply)
    requires Consistent(db)
    ensures s !in db.schools ==> r == Reply(NotFound(NoSchool), db)
    ensures s in db.schools ==> ClassesOfSchool(r.db, s) == {}
    ensures r.status == ServerError <==>
      s in db.schools && (TeachersOfSchool(WithoutClassesOf(db, s), s) != {} || StudentsOfSchool(WithoutClassesOf(db, s), s) != {})
    ensures r.status == ServerError ==> s in r.db.schools && r.db == WithoutClassesOf(db, s)
    ensures r.status == Ok ==> s !in r.db.schools && forall m :: m in r.db.members ==> r.db.members[m].school != s
    ensures Consistent(r.db) && SubDb(r.db, db)
  {
    if s !in db.schools then Reply(NotFound(NoSchool), db)
    else
      var d1 := WithoutClassesOf(db, s);
      if TeachersOfSchool(d1, s) != {} || StudentsOfSchool(d1, s) != {} then Reply(ServerError, d1)
      else
        var d2 := WithoutHeadMasterOf(d1, s);
        var r := DropSchools(d2, {s});
        DropSchoolsSound(d2, {s});
        SubDbConsistent(r, d2);
        SubDbTransitive(d2, d1, db);
        SubDbTransitive(r, d2, db);
        Reply(Ok, r)
  }

  /** The classes of school `s` whose id is below `n`, collected one id at a time. */
  function ClassesOfSchoolBelow(db: Db, s: Id, n: nat): set<Id> {
    if n == 0 then {}
    else ClassesOfSchoolBelow(db, s, n - 1) + (if n - 1 in db.classes && db.classes[n - 1].school == s then {n - 1} else {})
  }

  lemma {:induction false} ClassesOfSchoolBelowMembers(db: Db, s: Id, n: nat)
    ensures forall c :: c in ClassesOfSchoolBelow(db, s, n) <==> c in db.classes && c < n && db.classes[c].school == s
  {
    if n > 0 {
      ClassesOfSchoolBelowMembers(db, s, n - 1);
    }
  }

  lemma NoClassesDropped(db: Db)
    ensures DropClasses(db, {}) == db
  {
    var d := DropClasses(db, {});
    assert d.classes == db.classes;
    assert d.students == db.students;
  }

  /** The first loop of delete_school: deletes each class of the school. */
  method DeleteClassesOf(store: Store, s: Id)
    requires forall c :: c in store.classes ==> c < store.next.classes
    modifies store
    ensures store.Snapshot() == DropClasses(old(store.Snapshot()), ClassesOfSchool(old(store.Snapshot()), s))
  {
    ghost var db := store.Snapshot();
    NoClassesDropped(db);
    var n := store.next.classes;
    var c := 0;
    while c < n
      invariant store.Snapshot() == DropClasses(db, ClassesOfSchoolBelow(db, s, c))
    {
      ghost var done := ClassesOfSchoolBelow(db, s, c);
      if c in store.classes && store.classes[c].school == s {
        ClassesOfSchoolBelowMembers(db, s, c);
        store.DeleteClassRow(c);
        DropClassesCompose(db, done, {c});
      } else {
        assert ClassesOfSchoolBelow(db, s, c + 1) == done by {
          ClassesOfSchoolBelowMembers(db, s, c);
        }
      }
      c := c + 1;
    }
    assert ClassesOfSchoolBelow(db, s, c) == ClassesOfSchool(db, s) by {
      ClassesOfSchoolBelowMembers(db, s, c);
    }
  }

  method DeleteSchool(store: Store, s: Id) returns (status: Status)
    requires store.Valid()
    modifies store
    ensures Reply(status, store.Snapshot()) == DeleteSchoolEffect(old(store.Snapshot()), s)
    ensures store.Valid()
  {
    if s !in store.schools {
      return NotFound(NoSchool);
    }
    ghost var db := store.Snapshot();
    DeleteClassesOf(store, s);
    assert store.Snapshot() == WithoutClassesOf(db, s);
    if TeachersOfSchool(store.Snapshot(), s) != {} || StudentsOfSchool(store.Snapshot(), s) != {} {
      return ServerError;
    }
    var hm := ResolveHeadMaster(store.Snapshot(), s);
    if hm.Some? {
      DeleteMemberSubtype(store, HeadMasterRow(hm.value));
    }
    assert store.Snapshot() == WithoutHeadMasterOf(WithoutClassesOf(db, s), s);
    store.DeleteSchoolRow(s);
    status := Ok;
  }

  // ---------------------------------------------------------------------------
  // delete_school as evidently intended
  // ---------------------------------------------------------------------------

  /** `Teacher.objects.filter(member__school=s)`, in id order, as rows to delete. */
  function TeacherRowsOf(db: Db, s: Id): (rows: seq<SubtypeRow>)
    ensures forall k: Id :: TeacherRow(k) in rows <==> k in TeachersOfSchool(db, s) && k < db.next.teachers
    ensures forall i :: 0 <= i < |rows| ==> rows[i].TeacherRow?
  {
    TeacherRows(KeysBelow(TeachersOfSchool(db, s), db.next.teachers))
  }

  /** `Student.objects.filter(member__school=s)`, in id order, as rows to delete. */
  function StudentRowsOf(db: Db, s: Id): (rows: seq<SubtypeRow>)
    ensures forall k: Id :: StudentRow(k) in rows <==> k in StudentsOfSchool(db, s) && k < db.next.students
    ensures forall i :: 0 <= i < |rows| ==> rows[i].StudentRow?
  {
    StudentRows(KeysBelow(StudentsOfSchool(db, s), db.next.students))
  }

  /**
   * delete_school with the teacher and student loops filtering on
   * `member__school`, as the guards above them do: every teacher, student
   * and head master of the school goes through delete_memberSubType, and the
   * view always succeeds.
   */
  function DeleteSchoolIntended(db: Db, s: Id): (r: Reply)
    requires Consistent(db)
    ensures s !in db.schools ==> r == Reply(NotFound(NoSchool), db)
    ensures s in db.schools ==> r.status == Ok
    ensures s in db.schools ==>
      && s !in r.db.schools
      && (forall m :: m in r.db.members ==> r.db.members[m].school != s)
      && (forall c :: c in r.db.classes ==> r.db.classes[c].school != s)
      && (forall h :: h in r.db.headmasters ==> r.db.headmasters[h].school != s)
    ensures Consistent(r.db) && SubDb(r.db, db)
  {
    if s !in db.schools then Reply(NotFound(NoSchool), db)
    else
      var d1 := WithoutClassesOf(db, s);
      var d2 := DeleteRows(d1, TeacherRowsOf(d1, s));
      DeleteRowsConsistent(d1, TeacherRowsOf(d1, s));
      DeleteRowsSound(d1, TeacherRowsOf(d1, s));
      var d3 := DeleteRows(d2, StudentRowsOf(d2, s));
      DeleteRowsConsistent(d2, StudentRowsOf(d2, s));
      DeleteRowsSound(d2, StudentRowsOf(d2, s));
      var d4 := WithoutHeadMasterOf(d3, s);
      var r := DropSchools(d4, {s});
      DropSchoolsSound(d4, {s});
      SubDbConsistent(r, d4);
      SubDbTransitive(d2, d1, db);
      SubDbTransitive(d3, d2, db);
      SubDbTransitive(d4, d3, db);
      SubDbTransitive(r, d4, db);
      Reply(Ok, r)
  }

  /**
   * What a successful delete of school `s` leaves: the school, its members
   * and its classes are gone, every row that refers to a deleted row is
   * gone, the PersonalInfo rows and accounts of the members `gone` are
   * deleted with them, and nothing else changes.
   */
  ghost predicate SchoolDeleted(db: Db, r: Db, s: Id, gone: set<Id>) {
    && SubDb(r, db)
    && r.schools == db.schools - {s}
    && (forall m :: m in r.members <==>
          m in db.members && db.members[m].school != s && m !in HeadMasterMembers(db, s))
    && (forall h :: h in r.headmasters <==>
          h in db.headmasters && db.headmasters[h].school != s && db.headmasters[h].member in r.members)
    && (forall t :: t in r.teachers <==> t in db.teachers && db.teachers[t].member in r.members)
    && (forall c :: c in r.classes <==>
          c in db.classes && db.classes[c].school != s && db.classes[c].teacher in r.teachers)
    && (forall x :: x in r.students <==>
          x in db.students && db.students[x].member in r.members && db.students[x].fClass in r.classes)
    && (forall p :: p in r.infos <==> p in db.infos && p !in InfosOfMembers(db, gone))
    && (forall u :: u in r.accounts <==> u in db.accounts && u !in UsernamesOfMembers(db, gone))
  }

  /**
   * delete_school as written, when it succeeds, deletes exactly what
   * SchoolDeleted says, and only the head master's PersonalInfo row and
   * account go: the other members of the school go by the storage cascade.
   */
  lemma DeleteSchoolShape(db: Db, s: Id)
    requires Consistent(db)
    ensures DeleteSchoolEffect(db, s).status == Ok ==>
      SchoolDeleted(db, DeleteSchoolEffect(db, s).db, s, HeadMasterMembers(db, s))
  {
    if DeleteSchoolEffect(db, s).status == Ok {
      var d1 := WithoutClassesOf(db, s);
      var d2 := WithoutHeadMasterOf(d1, s);
      var r := DropSchools(d2, {s});
      assert DeleteSchoolEffect(db, s).db == r;
      ClassesGoneStep(db, s);
      HeadMasterGoneStep(d1, s);
      SchoolRowGoneStep(d2, {s});
      HeadMasterMembersOwnNoOtherRow(db, s);
      WrittenStepsDeleteSchool(db, d1, d2, r, s);
    }
  }

  /** With nothing but the classes deleted before, the last two steps delete what SchoolDeleted says. */
  lemma WrittenStepsDeleteSchool(db: Db, d1: Db, d2: Db, r: Db, s: Id)
    requires Linked(db) && HeadMasterMemberOnlyThere(db, s)
    requires ClassesGone(db, d1, s) && HeadMasterGone(d1, d2, s) && SchoolRowGone(d2, r, {s})
    ensures SchoolDeleted(db, r, s, HeadMasterMembers(db, s))
  {
    ClassesGoneIsRowsGone(db, d1, s);
    SchoolDeletedFromSteps(db, d1, d2, r, s, {}, {}, {});
    assert {} + HeadMasterMembers(db, s) == HeadMasterMembers(db, s);
  }

  /** The students of `s` the intended student loop still finds: their class survived the class and teacher loops. */
  function StudentsLeftForLoop(db: Db, s: Id): set<Id> {
    set x | x in db.students && StudiesAt(db, x, s) && db.students[x].fClass in db.classes
      && db.classes[db.students[x].fClass].school != s
      && db.classes[db.students[x].fClass].teacher !in TeachersOfSchool(db, s)
  }

  /**
   * The members whose PersonalInfo row and account the intended view
   * deletes: those of the school's teachers, of the students its student
   * loop reaches, and of its head master.
   */
  function IntendedLoginMembers(db: Db, s: Id): set<Id> {
    MembersOfTeachers(db, TeachersOfSchool(db, s)) + MembersOfStudents(db, StudentsLeftForLoop(db, s))
      + HeadMasterMembers(db, s)
  }

  /**
   * The intended delete_school leaves the same rows as the written one
   * when it succeeds, and also deletes the PersonalInfo rows and accounts
   * of the teachers and students its loops reach.
   */
  lemma DeleteSchoolIntendedShape(db: Db, s: Id)
    requires Consistent(db) && s in db.schools
    ensures SchoolDeleted(db, DeleteSchoolIntended(db, s).db, s, IntendedLoginMembers(db, s))
  {
    var d1 := WithoutClassesOf(db, s);
    var d2 := DeleteRows(d1, TeacherRowsOf(d1, s));
    DeleteRowsConsistent(d1, TeacherRowsOf(d1, s));
    var d3 := DeleteRows(d2, StudentRowsOf(d2, s));
    DeleteRowsConsistent(d2, StudentRowsOf(d2, s));
    var d4 := WithoutHeadMasterOf(d3, s);
    var r := DropSchools(d4, {s});
    assert DeleteSchoolIntended(db, s).db == r;
    LoopsGoneStep(db, s);
    HeadMasterGoneStep(d3, s);
    SchoolRowGoneStep(d4, {s});
    HeadMasterMembersOwnNoOtherRow(db, s);
    IntendedStepsDeleteSchool(db, d3, d4, r, s);
  }

  /** With the work of the loops deleted before, the last two steps delete what SchoolDeleted says. */
  lemma IntendedStepsDeleteSchool(db: Db, d3: Db, d4: Db, r: Db, s: Id)
    requires Linked(db) && HeadMasterMemberOnlyThere(db, s)
    requires var t := TeachersOfSchool(db, s);
      var x := StudentsLeftForLoop(db, s);
      RowsGoneBefore(db, d3, s, t, x, MembersOfTeachers(db, t) + MembersOfStudents(db, x))
    requires HeadMasterGone(d3, d4, s) && SchoolRowGone(d4, r, {s})
    ensures SchoolDeleted(db, r, s, IntendedLoginMembers(db, s))
  {
    var t := TeachersOfSchool(db, s);
    var x := StudentsLeftForLoop(db, s);
    SchoolDeletedFromSteps(db, d3, d4, r, s, t, x, MembersOfTeachers(db, t) + MembersOfStudents(db, x));
  }

  /** The head master's member of `s` has no other subtype row. */
  lemma HeadMasterMembersOwnNoOtherRow(db: Db, s: Id)
    requires Consistent(db)
    ensures HeadMasterMemberOnlyThere(db, s)
  {
    forall m | m in HeadMasterMembers(db, s)
      ensures m in db.members && db.members[m].role == HM
      ensures forall h :: h in db.headmasters && db.headmasters[h].member == m ==> db.headmasters[h].school == s
    {
      var g :| g in db.headmasters && db.headmasters[g].school == s && db.headmasters[g].member == m;
      assert SubtypesMatchRoles(db);
    }
  }

  ghost predicate HeadMasterMemberOnlyThere(db: Db, s: Id) {
    && (forall h :: h in db.headmasters && db.headmasters[h].school != s ==>
          db.headmasters[h].member !in HeadMasterMembers(db, s))
    && (forall t :: t in db.teachers ==> db.teachers[t].member !in HeadMasterMembers(db, s))
    && (forall x :: x in db.students ==> db.students[x].member !in HeadMasterMembers(db, s))
  }

  /** The head master's member, PersonalInfo and account are the same once only other members are gone. */
  lemma HeadMasterMembersFrame(p: Db, db: Db, s: Id, g: set<Id>)
    requires p.headmasters == db.headmasters && SubMap(p.members, db.members) && MembersGoneBefore(db, p, g)
    requires forall h :: h in db.headmasters ==> db.headmasters[h].member in db.members
    requires forall h :: h in db.headmasters ==> db.headmasters[h].member !in g
    ensures HeadMasterMembers(p, s) == HeadMasterMembers(db, s)
    ensures InfosOfMembers(p, HeadMasterMembers(db, s)) == InfosOfMembers(db, HeadMasterMembers(db, s))
    ensures UsernamesOfMembers(p, HeadMasterMembers(db, s)) == UsernamesOfMembers(db, HeadMasterMembers(db, s))
  {
    assert forall m :: m in HeadMasterMembers(db, s) ==> m in p.members && p.members[m] == db.members[m];
  }

  // The last two steps of a successful delete_school start from a database
  // `p` that lacks, besides the classes of `s`, the teachers `t`, the
  // students `x` and the members `g` with their PersonalInfo rows and
  // accounts: nothing more as written, the work of the two loops as
  // intended. Each step is stated as what it keeps, one table at a time.

  ghost predicate MembersGoneBefore(db: Db, p: Db, g: set<Id>) {
    forall m :: m in p.members <==> m in db.members && m !in g
  }

  ghost predicate TeachersGoneBefore(db: Db, p: Db, t: set<Id>) {
    forall k :: k in p.teachers <==> k in db.teachers && k !in t
  }

  ghost predicate ClassesGoneBefore(db: Db, p: Db, s: Id, t: set<Id>) {
    forall c :: c in p.classes <==> c in db.classes && db.classes[c].school != s && db.classes[c].teacher !in t
  }

  ghost predicate StudentsGoneBefore(db: Db, p: Db, x: set<Id>) {
    forall k :: k in p.students <==> k in db.students && db.students[k].fClass in p.classes && k !in x
  }

  /** The members `g` are of school `s` and are exactly the members of the deleted teachers `t` and students `x`. */
  ghost predicate GoneMembersOfSchool(db: Db, s: Id, t: set<Id>, x: set<Id>, g: set<Id>) {
    && (forall m :: m in g && m in db.members ==> db.members[m].school == s)
    && (forall k :: k in t && k in db.teachers ==> db.teachers[k].member in g)
    && (forall k :: k in db.teachers && k !in t ==> db.teachers[k].member !in g)
    && (forall k :: k in x && k in db.students ==> db.students[k].member in g)
    && (forall k :: k in db.students && k !in x ==> db.students[k].member !in g)
    && (forall h :: h in db.headmasters ==> db.headmasters[h].member !in g)
  }

  /** `p` is `db` once the classes of `s`, the teachers `t`, the students `x` and the members `g` are deleted. */
  ghost predicate RowsGoneBefore(db: Db, p: Db, s: Id, t: set<Id>, x: set<Id>, g: set<Id>) {
    && SubDb(p, db) && p.schools == db.schools && p.headmasters == db.headmasters
    && MembersGoneBefore(db, p, g) && TeachersGoneBefore(db, p, t)
    && ClassesGoneBefore(db, p, s, t) && StudentsGoneBefore(db, p, x)
    && LoginsDeleted(p, db, g) && GoneMembersOfSchool(db, s, t, x, g)
  }

  ghost predicate HeadMasterRowsKept(d1: Db, d2: Db, s: Id) {
    forall h :: h in d2.headmasters <==> h in d1.headmasters && d1.headmasters[h].school != s
  }

  ghost predicate HeadMasterMembersKept(d1: Db, d2: Db, s: Id) {
    forall m :: m in d2.members <==> m in d1.members && m !in HeadMasterMembers(d1, s)
  }

  ghost predicate HeadMasterLoginGone(d1: Db, d2: Db, s: Id) {
    && (forall p :: p in d2.infos <==> p in d1.infos && p !in InfosOfMembers(d1, HeadMasterMembers(d1, s)))
    && (forall u :: u in d2.accounts <==> u in d1.accounts && u !in UsernamesOfMembers(d1, HeadMasterMembers(d1, s)))
  }

  /** `d2` is `d1` once the head master of `s` went through delete_memberSubType. */
  ghost predicate HeadMasterGone(d1: Db, d2: Db, s: Id) {
    && SubDb(d2, d1) && HeadMasterRowsKept(d1, d2, s) && HeadMasterMembersKept(d1, d2, s)
    && HeadMasterLoginGone(d1, d2, s)
    && d2.schools == d1.schools && d2.teachers == d1.teachers && d2.classes == d1.classes
    && d2.students == d1.students
  }

  ghost predicate CascadeMembers(d2: Db, r: Db, ss: set<Id>) {
    && (forall k :: k in r.schools <==> k in d2.schools && k !in ss)
    && (forall m :: m in r.members <==> m in d2.members && d2.members[m].school !in ss)
  }

  ghost predicate CascadeHeadMasters(d2: Db, r: Db, ss: set<Id>) {
    forall h :: h in r.headmasters <==>
      && h in d2.headmasters && d2.headmasters[h].school !in ss
      && (d2.headmasters[h].member in d2.members ==> d2.headmasters[h].member in r.members)
  }

  ghost predicate CascadeTeachers(d2: Db, r: Db) {
    forall t :: t in r.teachers <==>
      t in d2.teachers && (d2.teachers[t].member in d2.members ==> d2.teachers[t].member in r.members)
  }

  ghost predicate CascadeClasses(d2: Db, r: Db, ss: set<Id>) {
    forall c :: c in r.classes <==>
      && c in d2.classes && d2.classes[c].school !in ss
      && (d2.classes[c].teacher in d2.teachers ==> d2.classes[c].teacher in r.teachers)
  }

  ghost predicate CascadeStudents(d2: Db, r: Db) {
    forall x :: x in r.students <==>
      && x in d2.students && (d2.students[x].member in d2.members ==> d2.students[x].member in r.members)
      && (d2.students[x].fClass in d2.classes ==> d2.students[x].fClass in r.classes)
  }

  /** `r` is `d2` once the school rows `ss` are deleted, with what cascades from them. */
  ghost predicate SchoolRowGone(d2: Db, r: Db, ss: set<Id>) {
    && SubDb(r, d2) && CascadeMembers(d2, r, ss) && CascadeHeadMasters(d2, r, ss)
    && CascadeTeachers(d2, r) && CascadeClasses(d2, r, ss) && CascadeStudents(d2, r)
    && r.infos == d2.infos && r.accounts == d2.accounts
  }

  /** `d1` is `db` once the classes of `s`, with their students, are deleted. */
  ghost predicate ClassesGone(db: Db, d1: Db, s: Id) {
    && SubDb(d1, db) && ClassesGoneBefore(db, d1, s, {}) && StudentsGoneBefore(db, d1, {})
    && d1.schools == db.schools && d1.members == db.members && d1.teachers == db.teachers
    && d1.headmasters == db.headmasters && d1.infos == db.infos && d1.accounts == db.accounts
  }

  /** The first step, the class loop, deletes the classes of `s` with their students, and nothing else. */
  lemma ClassesGoneStep(db: Db, s: Id)
    requires Consistent(db)
    ensures ClassesGone(db, WithoutClassesOf(db, s), s)
  {
    var d1 := WithoutClassesOf(db, s);
    forall k | k in db.students
      ensures k in d1.students <==> db.students[k].fClass in d1.classes
    {
      assert db.students[k].fClass in db.classes;
    }
  }

  lemma ClassesGoneIsRowsGone(db: Db, d1: Db, s: Id)
    requires ClassesGone(db, d1, s)
    ensures RowsGoneBefore(db, d1, s, {}, {}, {})
  {
    assert InfosOfMembers(db, {}) == {} && UsernamesOfMembers(db, {}) == {};
    assert db.infos - {} == db.infos && db.accounts - {} == db.accounts;
  }

  lemma HeadMasterGoneStep(d1: Db, s: Id)
    requires Consistent(d1)
    ensures HeadMasterGone(d1, WithoutHeadMasterOf(d1, s), s)
  {
  }

  lemma SchoolRowGoneStep(d2: Db, ss: set<Id>)
    ensures SchoolRowGone(d2, DropSchools(d2, ss), ss)
  {
    DropSchoolsSound(d2, ss);
  }

  /** The last two steps, table by table, give SchoolDeleted. */
  lemma SchoolDeletedFromSteps(db: Db, p: Db, d2: Db, r: Db, s: Id, t: set<Id>, x: set<Id>, g: set<Id>)
    requires Linked(db) && HeadMasterMemberOnlyThere(db, s)
    requires RowsGoneBefore(db, p, s, t, x, g) && HeadMasterGone(p, d2, s) && SchoolRowGone(d2, r, {s})
    ensures SchoolDeleted(db, r, s, g + HeadMasterMembers(db, s))
  {
    RowStepsOfDelete(db, p, d2, r, s, t, x, g);
    LoginStepsOfDelete(db, p, d2, r, s, t, x, g);
  }

  /** The rows half of SchoolDeletedFromSteps. */
  lemma RowStepsOfDelete(db: Db, p: Db, d2: Db, r: Db, s: Id, t: set<Id>, x: set<Id>, g: set<Id>)
    requires Linked(db) && HeadMasterMemberOnlyThere(db, s)
    requires RowsGoneBefore(db, p, s, t, x, g) && HeadMasterGone(p, d2, s) && SchoolRowGone(d2, r, {s})
    ensures SubDb(r, db) && r.schools == db.schools - {s}
    ensures forall m :: m in r.members <==>
      m in db.members && db.members[m].school != s && m !in HeadMasterMembers(db, s)
    ensures forall h :: h in r.headmasters <==>
      h in db.headmasters && db.headmasters[h].school != s && db.headmasters[h].member in r.members
    ensures forall t :: t in r.teachers <==> t in db.teachers && db.teachers[t].member in r.members
    ensures forall c :: c in r.classes <==>
      c in db.classes && db.classes[c].school != s && db.classes[c].teacher in r.teachers
    ensures forall x :: x in r.students <==>
      x in db.students && db.students[x].member in r.members && db.students[x].fClass in r.classes
  {
    HeadMasterMembersFrame(p, db, s, g);
    SubDbTransitive(d2, p, db);
    SubDbTransitive(r, d2, db);
    StepsKeepMembers(db, p, d2, r, s, g);
    StepsKeepHeadMasters(db, p, d2, r, s, g);
    StepsKeepTeachers(db, p, d2, r, s, t, g);
    StepsKeepClasses(db, p, d2, r, s, t);
    StepsKeepStudents(db, p, d2, r, s, x, g);
  }

  /** The logins half of SchoolDeletedFromSteps. */
  lemma LoginStepsOfDelete(db: Db, p: Db, d2: Db, r: Db, s: Id, t: set<Id>, x: set<Id>, g: set<Id>)
    requires Linked(db)
    requires RowsGoneBefore(db, p, s, t, x, g) && HeadMasterGone(p, d2, s) && SchoolRowGone(d2, r, {s})
    ensures forall i :: i in r.infos <==> i in db.infos && i !in InfosOfMembers(db, g + HeadMasterMembers(db, s))
    ensures forall u :: u in r.accounts <==> u in db.accounts && u !in UsernamesOfMembers(db, g + HeadMasterMembers(db, s))
  {
    HeadMasterMembersFrame(p, db, s, g);
    StepsDeleteLogins(db, p, d2, r, s, g);
  }

  lemma StepsKeepMembers(db: Db, p: Db, d2: Db, r: Db, s: Id, g: set<Id>)
    requires p.schools == db.schools && MembersGoneBefore(db, p, g) && SubMap(p.members, db.members)
    requires forall m :: m in g && m in db.members ==> db.members[m].school == s
    requires HeadMasterMembersKept(p, d2, s) && SubMap(d2.members, p.members) && d2.schools == p.schools
    requires CascadeMembers(d2, r, {s}) && SubMap(r.schools, d2.schools)
    requires HeadMasterMembers(p, s) == HeadMasterMembers(db, s)
    ensures r.schools == db.schools - {s}
    ensures forall m :: m in r.members <==>
      m in db.members && db.members[m].school != s && m !in HeadMasterMembers(db, s)
  {
  }

  lemma StepsDeleteLogins(db: Db, p: Db, d2: Db, r: Db, s: Id, g: set<Id>)
    requires LoginsDeleted(p, db, g) && HeadMasterLoginGone(p, d2, s)
    requires r.infos == d2.infos && r.accounts == d2.accounts
    requires HeadMasterMembers(p, s) == HeadMasterMembers(db, s)
    requires InfosOfMembers(p, HeadMasterMembers(db, s)) == InfosOfMembers(db, HeadMasterMembers(db, s))
    requires UsernamesOfMembers(p, HeadMasterMembers(db, s)) == UsernamesOfMembers(db, HeadMasterMembers(db, s))
    ensures forall i :: i in r.infos <==> i in db.infos && i !in InfosOfMembers(db, g + HeadMasterMembers(db, s))
    ensures forall u :: u in r.accounts <==> u in db.accounts && u !in UsernamesOfMembers(db, g + HeadMasterMembers(db, s))
  {
    var hm := HeadMasterMembers(db, s);
    assert InfosOfMembers(db, g + hm) == InfosOfMembers(db, g) + InfosOfMembers(db, hm);
    assert UsernamesOfMembers(db, g + hm) == UsernamesOfMembers(db, g) + UsernamesOfMembers(db, hm);
  }

  lemma StepsKeepHeadMasters(db: Db, p: Db, d2: Db, r: Db, s: Id, g: set<Id>)
    requires Linked(db) && HeadMasterMemberOnlyThere(db, s)
    requires p.headmasters == db.headmasters && MembersGoneBefore(db, p, g)
    requires forall h :: h in db.headmasters ==> db.headmasters[h].member !in g
    requires HeadMasterRowsKept(p, d2, s) && HeadMasterMembersKept(p, d2, s) && SubMap(d2.headmasters, p.headmasters)
    requires HeadMasterMembers(p, s) == HeadMasterMembers(db, s)
    requires SubMap(r.members, d2.members) && CascadeHeadMasters(d2, r, {s})
    ensures forall h :: h in r.headmasters <==>
      h in db.headmasters && db.headmasters[h].school != s && db.headmasters[h].member in r.members
  {
  }

  lemma StepsKeepTeachers(db: Db, p: Db, d2: Db, r: Db, s: Id, t: set<Id>, g: set<Id>)
    requires Linked(db) && HeadMasterMemberOnlyThere(db, s)
    requires TeachersGoneBefore(db, p, t) && SubMap(p.teachers, db.teachers) && MembersGoneBefore(db, p, g)
    requires forall k :: k in t && k in db.teachers ==> db.teachers[k].member in g
    requires forall k :: k in db.teachers && k !in t ==> db.teachers[k].member !in g
    requires d2.teachers == p.teachers && HeadMasterMembersKept(p, d2, s)
    requires HeadMasterMembers(p, s) == HeadMasterMembers(db, s)
    requires SubMap(r.members, d2.members) && SubMap(d2.members, p.members) && CascadeTeachers(d2, r)
    ensures forall k :: k in r.teachers <==> k in db.teachers && db.teachers[k].member in r.members
  {
  }

  lemma StepsKeepClasses(db: Db, p: Db, d2: Db, r: Db, s: Id, t: set<Id>)
    requires forall c :: c in db.classes ==> db.classes[c].teacher in db.teachers
    requires ClassesGoneBefore(db, p, s, t) && SubMap(p.classes, db.classes)
    requires TeachersGoneBefore(db, p, t)
    requires d2.classes == p.classes && d2.teachers == p.teachers
    requires SubMap(r.teachers, d2.teachers) && CascadeClasses(d2, r, {s})
    ensures forall c :: c in r.classes <==>
      c in db.classes && db.classes[c].school != s && db.classes[c].teacher in r.teachers
  {
  }

  lemma StepsKeepStudents(db: Db, p: Db, d2: Db, r: Db, s: Id, x: set<Id>, g: set<Id>)
    requires forall k :: k in db.students ==> db.students[k].member in db.members
    requires forall k :: k in db.students ==> db.students[k].member !in HeadMasterMembers(db, s)
    requires forall k :: k in x && k in db.students ==> db.students[k].member in g
    requires forall k :: k in db.students && k !in x ==> db.students[k].member !in g
    requires StudentsGoneBefore(db, p, x) && SubMap(p.students, db.students) && MembersGoneBefore(db, p, g)
    requires d2.students == p.students && d2.classes == p.classes
    requires HeadMasterMembersKept(p, d2, s) && HeadMasterMembers(p, s) == HeadMasterMembers(db, s)
    requires SubMap(r.members, d2.members) && SubMap(d2.members, p.members)
    requires SubMap(r.classes, d2.classes) && CascadeStudents(d2, r)
    ensures forall k :: k in r.students <==>
      k in db.students && db.students[k].member in r.members && db.students[k].fClass in r.classes
  {
    forall k | k in db.students
      ensures k in r.students <==> db.students[k].member in r.members && db.students[k].fClass in r.classes
    {
      var f, m := db.students[k].fClass, db.students[k].member;
      assert k in d2.students ==> d2.students[k] == db.students[k];
      assert k !in x ==> m in d2.members;
    }
  }

  // The two loops of the intended view, from the database without the
  // classes of `s`, give the premise of the last two steps.

  /** After the class loop and the intended teacher and student loops, RowsGoneBefore holds. */
  lemma LoopsGoneStep(db: Db, s: Id)
    requires Consistent(db)
    ensures var d1 := WithoutClassesOf(db, s);
      var d2 := DeleteRows(d1, TeacherRowsOf(d1, s));
      var d3 := DeleteRows(d2, StudentRowsOf(d2, s));
      var t := TeachersOfSchool(db, s);
      var x := StudentsLeftForLoop(db, s);
      RowsGoneBefore(db, d3, s, t, x, MembersOfTeachers(db, t) + MembersOfStudents(db, x))
  {
    var d1 := WithoutClassesOf(db, s);
    var d2 := DeleteRows(d1, TeacherRowsOf(d1, s));
    var d3 := DeleteRows(d2, StudentRowsOf(d2, s));
    ClassesGoneStep(db, s);
    TeacherLoopStep(d1, s);
    DeleteRowsConsistent(d1, TeacherRowsOf(d1, s));
    StudentLoopStep(d2, s);
    StudentMembersAreNotTeachers(db, TeachersOfSchool(db, s));
    LoopMembersOfSchool(db, s);
    LoopsGoneFromSteps(db, d1, d2, d3, s);
  }

  /** The class loop and the two intended loops, table by table, give RowsGoneBefore. */
  lemma LoopsGoneFromSteps(db: Db, d1: Db, d2: Db, d3: Db, s: Id)
    requires forall k :: k in db.students ==> db.students[k].fClass in db.classes
    requires forall k :: k in db.students ==> db.students[k].member !in MembersOfTeachers(db, TeachersOfSchool(db, s))
    requires ClassesGone(db, d1, s)
    requires TeachersDeleted(d2, d1, TeachersOfSchool(d1, s)) && SubDb(d2, d1)
    requires StudentsDeleted(d3, d2, StudentsOfSchool(d2, s)) && SubDb(d3, d2)
    requires var t := TeachersOfSchool(db, s);
      GoneMembersOfSchool(db, s, t, StudentsLeftForLoop(db, s), MembersOfTeachers(db, t) + MembersOfStudents(db, StudentsLeftForLoop(db, s)))
    ensures var t := TeachersOfSchool(db, s);
      var x := StudentsLeftForLoop(db, s);
      RowsGoneBefore(db, d3, s, t, x, MembersOfTeachers(db, t) + MembersOfStudents(db, x))
  {
    var t := TeachersOfSchool(db, s);
    var x := StudentsOfSchool(d2, s);
    assert TeachersOfSchool(d1, s) == t;
    SubDbTransitive(d2, d1, db);
    SameStudentsLeft(db, d1, d2, s, t);
    LoopsGoneTables(db, d1, d2, d3, s, t, x);
    LoopsGoneMembers(db, d1, d2, d3, t, x);
    LoopsGoneLogins(db, d1, d2, d3, t, x);
  }

  /** KeysBelow lists distinct keys, all of them when every key is below the bound. */
  lemma KeysBelowDistinct(keys: set<Id>, n: nat)
    requires forall k :: k in keys ==> k < n
    ensures var ks := KeysBelow(keys, n);
      && (forall i :: 0 <= i < |ks| ==> ks[i] in keys)
      && (forall i, j :: 0 <= i < j < |ks| ==> ks[i] != ks[j])
      && IdSet(ks) == keys
  {
    KeysBelowIncreasing(keys, n);
  }

  /** The intended teacher loop deletes the teachers of `s`, with what goes with them. */
  lemma TeacherLoopStep(d1: Db, s: Id)
    requires Consistent(d1)
    ensures var d2 := DeleteRows(d1, TeacherRowsOf(d1, s));
      TeachersDeleted(d2, d1, TeachersOfSchool(d1, s)) && SubDb(d2, d1)
  {
    var ts := KeysBelow(TeachersOfSchool(d1, s), d1.next.teachers);
    KeysBelowDistinct(TeachersOfSchool(d1, s), d1.next.teachers);
    DeleteTeacherRowsShape(d1, ts);
    DeleteRowsSound(d1, TeacherRows(ts));
  }

  /** The intended student loop deletes the students of `s` left, with their members. */
  lemma StudentLoopStep(d2: Db, s: Id)
    requires Consistent(d2)
    ensures var d3 := DeleteRows(d2, StudentRowsOf(d2, s));
      StudentsDeleted(d3, d2, StudentsOfSchool(d2, s)) && SubDb(d3, d2)
  {
    var xs := KeysBelow(StudentsOfSchool(d2, s), d2.next.students);
    KeysBelowDistinct(StudentsOfSchool(d2, s), d2.next.students);
    DeleteStudentRowsShape(d2, xs);
    DeleteRowsSound(d2, StudentRows(xs));
  }

  lemma StudentMembersAreNotTeachers(db: Db, t: set<Id>)
    requires Linked(db) && SubtypesMatchRoles(db)
    ensures forall k :: k in db.students ==> db.students[k].member !in MembersOfTeachers(db, t)
  {
  }

  /** The students the intended student loop finds are StudentsLeftForLoop. */
  lemma SameStudentsLeft(db: Db, d1: Db, d2: Db, s: Id, t: set<Id>)
    requires forall k :: k in db.students ==> db.students[k].fClass in db.classes
    requires forall k :: k in db.students ==> db.students[k].member !in MembersOfTeachers(db, t)
    requires ClassesGone(db, d1, s) && TeachersDeleted(d2, d1, t) && t == TeachersOfSchool(db, s)
    ensures StudentsOfSchool(d2, s) == StudentsLeftForLoop(db, s)
  {
    forall k | k in db.students
      ensures k in StudentsOfSchool(d2, s) <==> k in StudentsLeftForLoop(db, s)
    {
      var f := db.students[k].fClass;
      assert f in d1.classes <==> db.classes[f].school != s;
      assert k in d1.students ==> d1.students[k] == db.students[k];
    }
  }

  /** The rows of the subtype and class tables the class and the intended loops leave. */
  lemma LoopsGoneTables(db: Db, d1: Db, d2: Db, d3: Db, s: Id, t: set<Id>, x: set<Id>)
    requires ClassesGone(db, d1, s) && TeachersDeleted(d2, d1, t) && StudentsDeleted(d3, d2, x)
    requires SubDb(d2, d1) && SubDb(d3, d2)
    ensures SubDb(d3, db) && d3.schools == db.schools && d3.headmasters == db.headmasters
    ensures TeachersGoneBefore(db, d3, t) && ClassesGoneBefore(db, d3, s, t) && StudentsGoneBefore(db, d3, x)
  {
    SubDbTransitive(d3, d2, d1);
    SubDbTransitive(d3, d1, db);
    forall k | k in db.students
      ensures k in d3.students <==> db.students[k].fClass in d3.classes && k !in x
    {
      assert k in d1.students ==> d1.students[k] == db.students[k];
    }
  }

  /** The members the intended loops delete. */
  lemma LoopsGoneMembers(db: Db, d1: Db, d2: Db, d3: Db, t: set<Id>, x: set<Id>)
    requires d1.members == db.members && d1.teachers == db.teachers
    requires TeachersDeleted(d2, d1, t) && StudentsDeleted(d3, d2, x)
    requires SubMap(d2.students, db.students) && forall k :: k in x ==> k in d2.students
    ensures MembersGoneBefore(db, d3, MembersOfTeachers(db, t) + MembersOfStudents(db, x))
  {
    assert MembersOfStudents(d2, x) == MembersOfStudents(db, x) by {
      assert forall k :: k in x && k in d2.students ==> k in db.students && d2.students[k] == db.students[k];
    }
  }

  /** The PersonalInfo rows and accounts the intended loops delete. */
  lemma LoopsGoneLogins(db: Db, d1: Db, d2: Db, d3: Db, t: set<Id>, x: set<Id>)
    requires d1.members == db.members && d1.teachers == db.teachers
    requires d1.infos == db.infos && d1.accounts == db.accounts
    requires TeachersDeleted(d2, d1, t) && StudentsDeleted(d3, d2, x)
    requires SubMap(d2.students, db.students) && SubMap(d2.members, db.members)
    requires forall k :: k in x ==> k in d2.students && d2.students[k].member in d2.members
    ensures LoginsDeleted(d3, db, MembersOfTeachers(db, t) + MembersOfStudents(db, x))
  {
    var mt, ms := MembersOfTeachers(db, t), MembersOfStudents(db, x);
    LoginsOfSurvivors(db, d2, x);
    assert InfosOfMembers(db, mt + ms) == InfosOfMembers(db, mt) + InfosOfMembers(db, ms);
    assert UsernamesOfMembers(db, mt + ms) == UsernamesOfMembers(db, mt) + UsernamesOfMembers(db, ms);
    MapMinusTwice(db.infos, InfosOfMembers(db, mt), InfosOfMembers(db, ms));
    MapMinusTwice(db.accounts, UsernamesOfMembers(db, mt), UsernamesOfMembers(db, ms));
  }

  /** The members of students still in `d2` have the same PersonalInfo and account there as in `db`. */
  lemma LoginsOfSurvivors(db: Db, d2: Db, x: set<Id>)
    requires SubMap(d2.students, db.students) && SubMap(d2.members, db.members)
    requires forall k :: k in x ==> k in d2.students && d2.students[k].member in d2.members
    ensures MembersOfStudents(d2, x) == MembersOfStudents(db, x)
    ensures InfosOfMembers(d2, MembersOfStudents(db, x)) == InfosOfMembers(db, MembersOfStudents(db, x))
    ensures UsernamesOfMembers(d2, MembersOfStudents(db, x)) == UsernamesOfMembers(db, MembersOfStudents(db, x))
  {
    assert forall k :: k in x && k in db.students ==> k in d2.students && d2.students[k] == db.students[k];
    assert forall m :: m in MembersOfStudents(db, x) ==> m in d2.members && d2.members[m] == db.members[m];
  }

  /** The members of the school's teachers and of the students its loop reaches are of the school, and own no other row. */
  lemma LoopMembersOfSchool(db: Db, s: Id)
    requires Linked(db) && SubtypesMatchRoles(db)
    ensures var t := TeachersOfSchool(db, s);
      var x := StudentsLeftForLoop(db, s);
      GoneMembersOfSchool(db, s, t, x, MembersOfTeachers(db, t) + MembersOfStudents(db, x))
  {
  }

  /**
   * The discrepancy: a school with a teacher cannot be deleted as written
   * (the view fails and the school stays, its classes gone), while the
   * intended view deletes it.
   */
  lemma DeleteSchoolFailsWithTeacher(db: Db, s: Id, t: Id)
    requires Consistent(db) && s in db.schools && TeachesAt(db, t, s)
    ensures DeleteSchoolEffect(db, s).status == ServerError
    ensures s in DeleteSchoolEffect(db, s).db.schools
    ensures DeleteSchoolIntended(db, s).status == Ok && s !in DeleteSchoolIntended(db, s).db.schools
  {
    var d1 := WithoutClassesOf(db, s);
    assert TeachesAt(d1, t, s);
    assert t in TeachersOfSchool(d1, s);
  }

  // ---------------------------------------------------------------------------
  // get_school_by_headmaster
  // ---------------------------------------------------------------------------

  /** get_school_by_headmaster: the head master's school, or None for the 404. */
  function GetSchoolByHeadMaster(db: Db, h: Id): (r: Option<SchoolOut>)
    ensures r.Some? <==> h in db.headmasters && db.headmasters[h].school in db.schools
    ensures r.Some? ==> r.value.id == db.headmasters[h].school
  {
    if h !in db.headmasters || db.headmasters[h].school !in db.schools then None
    else Some(SchoolOutOf(db, db.headmasters[h].school))
  }

  /** The school found through a head master names that head master back. */
  lemma SchoolByHeadMasterNamesIt(db: Db, h: Id)
    requires Consistent(db) && h in db.headmasters
    ensures GetSchoolByHeadMaster(db, h).Some?
    ensures GetSchoolByHeadMaster(db, h).value.headMaster == Some(h)
  {
    ResolveHeadMasterIsTheHeadMaster(db, db.headmasters[h].school, h);
  }
}
