/**
 * The class views (apis/class_.py): read, create, replace, patch and delete
 * a class, and list a school's classes.
 */
module ClassApi {
  import opened Wrappers
  import opened Models
  import opened Schemas
  import opened Api

  /** get_class: the class's ClassOut, or None for the 404. */
  function GetClass(db: Db, c: Id): (r: Option<ClassOut>)
    ensures r.None? <==> c !in db.classes
    ensures r.Some? ==> r.value.id == c && r.value.year == db.classes[c].year && r.value.teacher == db.classes[c].teacher
  {
    if c in db.classes then Some(ClassOutOf(db, c)) else None
  }

  // ---------------------------------------------------------------------------
  // create_class
  // ---------------------------------------------------------------------------

  /** The class create_class writes: `year` from the payload, or the model default. */
  function NewClass(p: ClassIn): (cl: Class)
    ensures cl.teacher == p.teacherId && cl.school == p.schoolId
    ensures p.year.Some? ==> cl.year == p.year.value
    ensures p.year.None? ==> cl.year == DefaultYear
  {
    Class(p.year.GetOr(DefaultYear), p.teacherId, p.schoolId)
  }

  /**
   * create_class: 404 when the teacher does not exist, then 404 when the
   * school does not exist; otherwise `Class.objects.create`.
   */
  function CreateClassEffect(db: Db, p: ClassIn): (r: Reply)
    ensures p.teacherId !in db.teachers ==> r == Reply(NotFound(NoTeacher), db)
    ensures p.teacherId in db.teachers && p.schoolId !in db.schools ==> r == Reply(NotFound(NoSchool), db)
    ensures p.teacherId in db.teachers && p.schoolId in db.schools ==>
      && r.status == Ok
      && db.next.classes in r.db.classes && r.db.classes[db.next.classes] == NewClass(p)
      && r.db.next == db.next.(classes := db.next.classes + 1)
      && (forall c :: c in db.classes && c != db.next.classes ==> c in r.db.classes && r.db.classes[c] == db.classes[c])
      && r.db == db.(classes := r.db.classes, next := r.db.next)
  {
    if p.teacherId !in db.teachers then Reply(NotFound(NoTeacher), db)
    else if p.schoolId !in db.schools then Reply(NotFound(NoSchool), db)
    else
      Reply(Ok, db.(classes := db.classes[db.next.classes := NewClass(p)],
                    next := db.next.(classes := db.next.classes + 1)))
  }

  lemma CreateClassConsistent(db: Db, p: ClassIn)
    requires Consistent(db)
    ensures Consistent(CreateClassEffect(db, p).db)
  {
    if p.teacherId in db.teachers && p.schoolId in db.schools {
      var d := db.(classes := db.classes[db.next.classes := NewClass(p)],
                   next := db.next.(classes := db.next.classes + 1));
      assert CreateClassEffect(db, p).db == d;
      InsertClassConsistent(db, NewClass(p));
    } else {
      assert CreateClassEffect(db, p).db == db;
    }
  }

  /** A created class joins its school's classes. */
  lemma CreatedClassIsListed(db: Db, p: ClassIn)
    requires KeysBelowNext(db) && p.teacherId in db.teachers && p.schoolId in db.schools
    ensures ClassesOfSchool(CreateClassEffect(db, p).db, p.schoolId) == ClassesOfSchool(db, p.schoolId) + {db.next.classes}
  {
  }

  /** A created class has its teacher, its year and no students. */
  lemma CreatedClassIsEmpty(db: Db, p: ClassIn)
    requires Consistent(db) && p.teacherId in db.teachers && p.schoolId in db.schools
    ensures GetClass(CreateClassEffect(db, p).db, db.next.classes)
      == Some(ClassOut(db.next.classes, p.year.GetOr(DefaultYear), p.teacherId, 0, []))
  {
    var d := CreateClassEffect(db, p).db;
    var c := db.next.classes;
    assert d.students == db.students;
    assert forall x :: x in d.students ==> d.students[x].fClass in db.classes;
    assert StudentsOfClass(d, c) == {};
    assert ResolveStudents(d, c) == [] by {
      ScanFindsAll(StudentsOfClass(d, c), d.next.students);
    }
  }

  method CreateClass(store: Store, p: ClassIn) returns (status: Status)
    requires store.Valid()
    modifies store
    ensures Reply(status, store.Snapshot()) == CreateClassEffect(old(store.Snapshot()), p)
    ensures store.Valid()
  {
    if p.teacherId !in store.teachers {
      return NotFound(NoTeacher);
    }
    if p.schoolId !in store.schools {
      return NotFound(NoSchool);
    }
    ghost var db := store.Snapshot();
    ghost var d := db.(classes := db.classes[db.next.classes := NewClass(p)],
                       next := db.next.(classes := db.next.classes + 1));
    InsertClassConsistent(db, NewClass(p));
    var id := store.InsertClassRow(NewClass(p));
    assert store.Snapshot() == d;
    assert CreateClassEffect(db, p) == Reply(Ok, d);
    status := Ok;
  }

  // ---------------------------------------------------------------------------
  // The setattr loop of update_class and patch_class
  // ---------------------------------------------------------------------------

  /** One `(attr, value)` item of a class payload: `teacher_id`, `school_id` or `year`. */
  datatype ClassItem = TeacherItem(teacher: Id) | SchoolItem(school: Id) | YearItem(year: int)

  /** The outcome of the loop: the class to save, or the 404 it returned early with. */
  datatype Assigned = Assigned(cls: Class) | Unassigned(missing: Missing)

  /** `ClassPut.dict().items()`, in field order. */
  function ClassPutItems(p: ClassPut): seq<ClassItem> {
    [TeacherItem(p.teacherId), SchoolItem(p.schoolId), YearItem(p.year)]
  }

  /** `ClassPatch.dict(exclude_unset=True).items()`. */
  function ClassPatchItems(p: ClassPatch): seq<ClassItem> {
    if p.year.Some? then [YearItem(p.year.value)] else []
  }

  /**
   * The loop: a `teacher_id` or `school_id` item looks the row up and sets
   * the relation, returning a 404 when the row does not exist; any other item
   * is set as it is. A class whose teacher and school exist keeps that
   * property.
   */
  function SetClassAttrs(db: Db, cl: Class, items: seq<ClassItem>): (r: Assigned)
    ensures r.Unassigned? ==> r.missing == NoTeacher || r.missing == NoSchool
    ensures r.Assigned? && cl.teacher in db.teachers && cl.school in db.schools ==>
      r.cls.teacher in db.teachers && r.cls.school in db.schools
    ensures (forall i :: 0 <= i < |items| ==> items[i].YearItem?) ==> r.Assigned?
    decreases |items|
  {
    if items == [] then Assigned(cl)
    else
      match items[0]
      case TeacherItem(t) =>
        if t !in db.teachers then Unassigned(NoTeacher)
        else SetClassAttrs(db, SetClassAttr(cl, items[0]), items[1..])
      case SchoolItem(s) =>
        if s !in db.schools then Unassigned(NoSchool)
        else SetClassAttrs(db, SetClassAttr(cl, items[0]), items[1..])
      case YearItem(_) =>
        assert forall i :: 0 <= i < |items[1..]| ==> items[1..][i] == items[i + 1];
        SetClassAttrs(db, SetClassAttr(cl, items[0]), items[1..])
  }

  /** `setattr(class_, attr, value)` once the row the item names was found. */
  function SetClassAttr(cl: Class, item: ClassItem): Class {
    match item
    case TeacherItem(t) => cl.(teacher := t)
    case SchoolItem(s) => cl.(school := s)
    case YearItem(y) => cl.(year := y)
  }

  /** PUT: every field is replaced, once the teacher and the school are found. */
  lemma ClassPutOverwrites(db: Db, cl: Class, p: ClassPut)
    ensures SetClassAttrs(db, cl, ClassPutItems(p)) ==
      if p.teacherId !in db.teachers then Unassigned(NoTeacher)
      else if p.schoolId !in db.schools then Unassigned(NoSchool)
      else Assigned(Class(p.year, p.teacherId, p.schoolId))
  {
    var items := ClassPutItems(p);
    var cl1 := cl.(teacher := p.teacherId);
    var cl2 := cl1.(school := p.schoolId);
    assert items[1..] == [SchoolItem(p.schoolId), YearItem(p.year)];
    assert items[1..][1..] == [YearItem(p.year)];
    assert items[1..][1..][1..] == [];
    assert SetClassAttrs(db, cl2, [YearItem(p.year)]) == Assigned(Class(p.year, p.teacherId, p.schoolId));
    assert p.schoolId in db.schools ==> SetClassAttrs(db, cl1, items[1..]) == Assigned(Class(p.year, p.teacherId, p.schoolId));
  }

  /** PATCH: only the year can change, and only when the request sets it. */
  lemma ClassPatchFieldwise(db: Db, cl: Class, p: ClassPatch)
    ensures SetClassAttrs(db, cl, ClassPatchItems(p)) == Assigned(cl.(year := p.year.GetOr(cl.year)))
  {
    var items := ClassPatchItems(p);
    if p.year.Some? {
      assert items[1..] == [];
      assert SetClassAttrs(db, cl.(year := p.year.value), []) == Assigned(cl.(year := p.year.value));
    } else {
      assert items == [];
      assert cl.(year := cl.year) == cl;
    }
  }

  /** The loop on the store's tables. */
  method AssignClassAttrs(store: Store, cl: Class, items: seq<ClassItem>) returns (r: Assigned)
    ensures r == SetClassAttrs(store.Snapshot(), cl, items)
  {
    ghost var db := store.Snapshot();
    var cur := cl;
    var i := 0;
    while i < |items|
      invariant 0 <= i <= |items|
      invariant SetClassAttrs(db, cur, items[i..]) == SetClassAttrs(db, cl, items)
    {
      assert items[i..][1..] == items[i + 1..];
      match items[i] {
        case TeacherItem(t) =>
          if t !in store.teachers {
            return Unassigned(NoTeacher);
          }
        case SchoolItem(s) =>
          if s !in store.schools {
            return Unassigned(NoSchool);
          }
        case YearItem(_) =>
      }
      cur := SetClassAttr(cur, items[i]);
      i := i + 1;
    }
    r := Assigned(cur);
  }

  // ---------------------------------------------------------------------------
  // update_class and patch_class
  // ---------------------------------------------------------------------------

  /** The class's row after the loop over `items`, saved when the loop did not return early. */
  function SaveClassAttrs(db: Db, c: Id, items: seq<ClassItem>): (r: Reply)
    requires c in db.classes
    ensures r.status == Ok || r.status == NotFound(NoTeacher) || r.status == NotFound(NoSchool)
    ensures r.status != Ok ==> r.db == db
    ensures r.status == Ok ==> r.db == db.(classes := r.db.classes) && r.db.classes.Keys == db.classes.Keys
    ensures r.status == Ok ==> forall k :: k in db.classes && k != c ==> r.db.classes[k] == db.classes[k]
    ensures r.status == Ok && db.classes[c].teacher in db.teachers && db.classes[c].school in db.schools ==>
      r.db.classes[c].teacher in db.teachers && r.db.classes[c].school in db.schools
  {
    match SetClassAttrs(db, db.classes[c], items)
    case Unassigned(m) => Reply(NotFound(m), db)
    case Assigned(v) => Reply(Ok, db.(classes := db.classes[c := v]))
  }

  /** update_class. */
  function UpdateClassEffect(db: Db, c: Id, p: ClassPut): (r: Reply)
    ensures c !in db.classes ==> r == Reply(NotFound(NoClass), db)
    ensures c in db.classes && p.teacherId !in db.teachers ==> r == Reply(NotFound(NoTeacher), db)
    ensures c in db.classes && p.teacherId in db.teachers && p.schoolId !in db.schools ==>
      r == Reply(NotFound(NoSchool), db)
    ensures c in db.classes && p.teacherId in db.teachers && p.schoolId in db.schools ==>
      r == Reply(Ok, db.(classes := db.classes[c := Class(p.year, p.teacherId, p.schoolId)]))
  {
    if c !in db.classes then Reply(NotFound(NoClass), db)
    else
      ClassPutOverwrites(db, db.classes[c], p);
      SaveClassAttrs(db, c, ClassPutItems(p))
  }

  /** patch_class. */
  function PatchClassEffect(db: Db, c: Id, p: ClassPatch): (r: Reply)
    ensures c !in db.classes ==> r == Reply(NotFound(NoClass), db)
    ensures c in db.classes ==>
      r == Reply(Ok, db.(classes := db.classes[c := db.classes[c].(year := p.year.GetOr(db.classes[c].year))]))
  {
    if c !in db.classes then Reply(NotFound(NoClass), db)
    else
      ClassPatchFieldwise(db, db.classes[c], p);
      SaveClassAttrs(db, c, ClassPatchItems(p))
  }

  /** Replacing or patching a class keeps the invariant. */
  lemma ClassWritesConsistent(db: Db, c: Id, v: ClassPut, p: ClassPatch)
    requires Consistent(db)
    ensures Consistent(UpdateClassEffect(db, c, v).db)
    ensures Consistent(PatchClassEffect(db, c, p).db)
  {
    if c in db.classes {
      var cl := db.classes[c];
      if v.teacherId in db.teachers && v.schoolId in db.schools {
        SaveClassConsistent(db, c, Class(v.year, v.teacherId, v.schoolId));
      }
      SaveClassConsistent(db, c, cl.(year := p.year.GetOr(cl.year)));
    }
  }

  /** A patch that sets nothing leaves the database as it was. */
  lemma PatchClassEmptyIsNoOp(db: Db, c: Id)
    ensures PatchClassEffect(db, c, ClassPatch(None)).db == db
  {
    if c in db.classes {
      assert db.classes[c := db.classes[c]] == db.classes;
    }
  }

  /** Applying the same patch twice is applying it once. */
  lemma PatchClassIdempotent(db: Db, c: Id, p: ClassPatch)
    ensures var r := PatchClassEffect(db, c, p);
      PatchClassEffect(r.db, c, p) == r
  {
    if c in db.classes {
      var d1 := PatchClassEffect(db, c, p).db;
      assert d1.classes[c := d1.classes[c]] == d1.classes;
    }
  }

  /** A PUT with the class's own values changes nothing. */
  lemma PutOwnValuesIsNoOp(db: Db, c: Id)
    requires Linked(db) && c in db.classes
    ensures var cl := db.classes[c];
      UpdateClassEffect(db, c, ClassPut(cl.teacher, cl.school, cl.year)) == Reply(Ok, db)
  {
    assert db.classes[c := db.classes[c]] == db.classes;
  }

  method UpdateClass(store: Store, c: Id, p: ClassPut) returns (status: Status)
    requires store.Valid()
    modifies store
    ensures Reply(status, store.Snapshot()) == UpdateClassEffect(old(store.Snapshot()), c, p)
    ensures store.Valid()
  {
    if c !in store.classes {
      return NotFound(NoClass);
    }
    ClassWritesConsistent(store.Snapshot(), c, p, ClassPatch(None));
    ClassPutOverwrites(store.Snapshot(), store.classes[c], p);
    var r := AssignClassAttrs(store, store.classes[c], ClassPutItems(p));
    match r {
      case Unassigned(m) =>
        status := NotFound(m);
      case Assigned(v) =>
        store.SaveClassRow(c, v);
        status := Ok;
    }
  }

  method PatchClass(store: Store, c: Id, p: ClassPatch) returns (status: Status)
    requires store.Valid()
    modifies store
    ensures Reply(status, store.Snapshot()) == PatchClassEffect(old(store.Snapshot()), c, p)
    ensures store.Valid()
  {
    if c !in store.classes {
      return NotFound(NoClass);
    }
    ClassWritesConsistent(store.Snapshot(), c, ClassPut(0, 0, 0), p);
    ClassPatchFieldwise(store.Snapshot(), store.classes[c], p);
    var r := AssignClassAttrs(store, store.classes[c], ClassPatchItems(p));
    store.SaveClassRow(c, r.cls);
    status := Ok;
  }

  // ---------------------------------------------------------------------------
  // delete_class
  // ---------------------------------------------------------------------------

  /**
   * delete_class: delete_memberSubType for each student of the class, in id
   * order, then `class_.delete()`.
   */
  function DeleteClassEffect(db: Db, c: Id): (r: Reply)
    requires Consistent(db)
    ensures c !in db.classes ==> r == Reply(NotFound(NoClass), db)
    ensures c in db.classes ==> r.status == Ok && c !in r.db.classes
    ensures forall x :: x in r.db.students ==> r.db.students[x].fClass != c
    ensures Consistent(r.db) && SubDb(r.db, db)
  {
    if c !in db.classes then
      assert forall x :: x in db.students ==> db.students[x].fClass != c;
      Reply(NotFound(NoClass), db)
    else
      var rows := StudentRows(ResolveStudents(db, c));
      var d := DeleteRows(db, rows);
      DeleteRowsConsistent(db, rows);
      DeleteRowsSound(db, rows);
      DropClassesSound(d, {c});
      SubDbConsistent(DropClasses(d, {c}), d);
      SubDbTransitive(DropClasses(d, {c}), d, db);
      Reply(Ok, ClassDeleted(db, c))
  }

  /** The students delete_class loops over are distinct students of the class, and all of them. */
  lemma ResolveStudentsAreTheClass(db: Db, c: Id)
    requires KeysBelowNext(db)
    ensures var xs := ResolveStudents(db, c);
      && (forall i :: 0 <= i < |xs| ==> xs[i] in db.students)
      && (forall i, j :: 0 <= i < j < |xs| ==> xs[i] != xs[j])
      && IdSet(xs) == StudentsOfClass(db, c)
  {
    var xs := ResolveStudents(db, c);
    KeysBelowIncreasing(StudentsOfClass(db, c), db.next.students);
    forall i | 0 <= i < |xs| ensures xs[i] in db.students {
      assert xs[i] in xs;
      assert xs[i] in StudentsOfClass(db, c);
    }
    forall x: Id ensures x in IdSet(xs) <==> x in StudentsOfClass(db, c) {
      assert x in xs <==> x < db.next.students && x in StudentsOfClass(db, c);
    }
  }

  /** What delete_class leaves of a database holding class `c`. */
  function ClassDeleted(db: Db, c: Id): Db {
    DropClasses(DeleteRows(db, StudentRows(ResolveStudents(db, c))), {c})
  }

  lemma ClassDeletedShape(db: Db, c: Id)
    requires Consistent(db) && c in db.classes
    ensures var r := ClassDeleted(db, c);
      && r.classes == db.classes - {c}
      && r.students == db.students - StudentsOfClass(db, c)
      && r.members == db.members - MembersOfStudents(db, StudentsOfClass(db, c))
      && r.teachers == db.teachers && r.headmasters == db.headmasters && r.schools == db.schools
      && LoginsDeleted(r, db, MembersOfStudents(db, StudentsOfClass(db, c)))
  {
    var xs := ResolveStudents(db, c);
    var d := DeleteRows(db, StudentRows(xs));
    assert StudentsDeleted(d, db, StudentsOfClass(db, c)) by {
      ResolveStudentsAreTheClass(db, c);
      DeleteStudentRowsShape(db, xs);
    }
    NoStudentLeftIn(db, d, c);
    DropEmptyClass(d, c);
  }

  /** Once the students of class `c` are deleted, no remaining student is in it. */
  lemma NoStudentLeftIn(db: Db, d: Db, c: Id)
    requires d.students == db.students - StudentsOfClass(db, c)
    ensures forall x :: x in d.students ==> d.students[x].fClass != c
  {
    forall x | x in d.students ensures d.students[x].fClass != c {
      assert x !in StudentsOfClass(db, c);
    }
  }

  /**
   * On a consistent database delete_class removes exactly the class, its
   * students, their members and those members' PersonalInfo rows and
   * accounts: the class's teacher, its school, every other class and
   * student, and every other login remain.
   */
  lemma DeleteClassShape(db: Db, c: Id)
    requires Consistent(db) && c in db.classes
    ensures var r := DeleteClassEffect(db, c).db;
      && r.classes == db.classes - {c}
      && r.students == db.students - StudentsOfClass(db, c)
      && r.members == db.members - MembersOfStudents(db, StudentsOfClass(db, c))
      && r.teachers == db.teachers && r.headmasters == db.headmasters && r.schools == db.schools
      && LoginsDeleted(r, db, MembersOfStudents(db, StudentsOfClass(db, c)))
  {
    ClassDeletedShape(db, c);
  }

  method DeleteClass(store: Store, c: Id) returns (status: Status)
    requires store.Valid()
    modifies store
    ensures Reply(status, store.Snapshot()) == DeleteClassEffect(old(store.Snapshot()), c)
    ensures store.Valid()
  {
    if c !in store.classes {
      return NotFound(NoClass);
    }
    ghost var db := store.Snapshot();
    var xs := ResolveStudents(store.Snapshot(), c);
    DeleteEach(store, StudentRows(xs));
    DropClassesSound(store.Snapshot(), {c});
    SubDbConsistent(DropClasses(store.Snapshot(), {c}), store.Snapshot());
    store.DeleteClassRow(c);
    status := Ok;
  }

  // ---------------------------------------------------------------------------
  // list_classes_by_school
  // ---------------------------------------------------------------------------

  /**
   * list_classes_by_school: 404 when the school does not exist, 404 when it
   * has no class, otherwise its classes in id order.
   */
  function ListClassesBySchool(db: Db, s: Id): (r: Lookup<seq<Id>>)
    ensures r == Lacking(NoSchool) <==> s !in db.schools
    ensures r == Lacking(NoClassesFound) <==> s in db.schools && ClassesOfSchool(db, s) == {}
    ensures r.Found? ==> forall c :: c in r.value ==> c in ClassesOfSchool(db, s)
    ensures r.Found? && KeysBelowNext(db) ==> forall c :: c in ClassesOfSchool(db, s) ==> c in r.value
    ensures r.Found? ==> forall i, j :: 0 <= i < j < |r.value| ==> r.value[i] < r.value[j]
  {
    if s !in db.schools then Lacking(NoSchool)
    else if ClassesOfSchool(db, s) == {} then Lacking(NoClassesFound)
    else
      KeysBelowIncreasing(ClassesOfSchool(db, s), db.next.classes);
      var cs := KeysBelow(ClassesOfSchool(db, s), db.next.classes);
      Found(cs)
  }
}
