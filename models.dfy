/**
 * The tables of the school database (models.py): one record type per model,
 * the whole database as a value `Db`, the invariants the database keeps, the
 * storage engine's `on_delete=CASCADE` rules, and the `Store` object that
 * holds the tables and offers the row-level operations the views call
 * (`objects.create`, `save`, `delete`).
 */
module Models {
  import opened Wrappers

  /** A primary key (Django's auto-increment `id`). */
  type Id = nat

  datatype School = School(
    name: string, address: string,
    phone: Option<string>, email: Option<string>, website: Option<string>)

  /** First and last name are required; the other fields are nullable and default to None. */
  datatype PersonalInfo = PersonalInfo(
    firstName: string, middleName: Option<string>, lastName: string,
    email: Option<string>, phone: Option<string>, address: Option<string>)

  /** Member.role: the codes of ROLE_CHOICES. */
  datatype Role = TE | HM | ST

  /** The two-letter code ROLE_CHOICES stores for each role. */
  function RoleCode(r: Role): string {
    match r
    case TE => "TE"
    case HM => "HM"
    case ST => "ST"
  }

  /** ROLE_CHOICES: each stored code with the label shown for it. */
  const RoleChoices: seq<(string, string)> := [("TE", "Teacher"), ("HM", "Head Master"), ("ST", "Student")]

  /** Member.role defaults to STUDENT. */
  const DefaultRole: Role := ST

  datatype Member = Member(school: Id, username: Option<string>, role: Role, personalInfo: Id)

  datatype HeadMaster = HeadMaster(member: Id, school: Id)

  datatype Teacher = Teacher(member: Id)

  datatype Student = Student(member: Id, intakeYear: int, fClass: Id)

  datatype Class = Class(year: int, teacher: Id, school: Id)

  /** The default of Class.year and of Student.intake_year. */
  const DefaultYear: int := 0

  /** The id each table's auto-increment key hands out next. */
  datatype Counters = Counters(
    schools: Id, infos: Id, members: Id, headmasters: Id,
    teachers: Id, students: Id, classes: Id)

  /**
   * The database: one map per table from primary key to row, and the login
   * accounts as a map from username to `is_staff`.
   */
  datatype Db = Db(
    schools: map<Id, School>, infos: map<Id, PersonalInfo>, members: map<Id, Member>,
    headmasters: map<Id, HeadMaster>, teachers: map<Id, Teacher>, students: map<Id, Student>,
    classes: map<Id, Class>, accounts: map<string, bool>, next: Counters)

  /** A fresh database: every table empty, every key sequence starting at 1. */
  const Empty: Db :=
    Db(map[], map[], map[], map[], map[], map[], map[], map[], Counters(1, 1, 1, 1, 1, 1, 1))

  // ---------------------------------------------------------------------------
  // Invariants
  // ---------------------------------------------------------------------------

  /** Every key in use is below its table's counter, so the next key is unused. */
  ghost predicate KeysBelowNext(db: Db) {
    && (forall k :: k in db.schools ==> k < db.next.schools)
    && (forall k :: k in db.infos ==> k < db.next.infos)
    && (forall k :: k in db.members ==> k < db.next.members)
    && (forall k :: k in db.headmasters ==> k < db.next.headmasters)
    && (forall k :: k in db.teachers ==> k < db.next.teachers)
    && (forall k :: k in db.students ==> k < db.next.students)
    && (forall k :: k in db.classes ==> k < db.next.classes)
  }

  /** Every foreign key names an existing row. */
  ghost predicate Linked(db: Db) {
    && (forall m :: m in db.members ==>
          db.members[m].school in db.schools && db.members[m].personalInfo in db.infos)
    && (forall h :: h in db.headmasters ==>
          db.headmasters[h].member in db.members && db.headmasters[h].school in db.schools)
    && (forall t :: t in db.teachers ==> db.teachers[t].member in db.members)
    && (forall x :: x in db.students ==>
          db.students[x].member in db.members && db.students[x].fClass in db.classes)
    && (forall c :: c in db.classes ==>
          db.classes[c].teacher in db.teachers && db.classes[c].school in db.schools)
  }

  /** HeadMaster.school is a one-to-one field: a school has at most one head master. */
  ghost predicate OneHeadMasterPerSchool(db: Db) {
    forall h1, h2 | h1 in db.headmasters && h2 in db.headmasters ::
      db.headmasters[h1].school == db.headmasters[h2].school ==> h1 == h2
  }

  /** Member.personal_info is a one-to-one field: no two members share a PersonalInfo. */
  ghost predicate OneMemberPerInfo(db: Db) {
    forall m1, m2 | m1 in db.members && m2 in db.members ::
      db.members[m1].personalInfo == db.members[m2].personalInfo ==> m1 == m2
  }

  /** Member.username is unique among the members whose username is not null. */
  ghost predicate UniqueUsernames(db: Db) {
    forall m1, m2 | m1 in db.members && m2 in db.members ::
      db.members[m1].username.Some? && db.members[m1].username == db.members[m2].username ==> m1 == m2
  }

  /**
   * A subtype row belongs to a member of the matching role, and a member has
   * at most one row in each subtype table, hence at most one subtype row.
   */
  ghost predicate SubtypesMatchRoles(db: Db) {
    && (forall h :: h in db.headmasters && db.headmasters[h].member in db.members ==>
          db.members[db.headmasters[h].member].role == HM)
    && (forall t :: t in db.teachers && db.teachers[t].member in db.members ==>
          db.members[db.teachers[t].member].role == TE)
    && (forall x :: x in db.students && db.students[x].member in db.members ==>
          db.members[db.students[x].member].role == ST)
    && (forall h1, h2 | h1 in db.headmasters && h2 in db.headmasters ::
          db.headmasters[h1].member == db.headmasters[h2].member ==> h1 == h2)
    && (forall t1, t2 | t1 in db.teachers && t2 in db.teachers ::
          db.teachers[t1].member == db.teachers[t2].member ==> t1 == t2)
    && (forall x1, x2 | x1 in db.students && x2 in db.students ::
          db.students[x1].member == db.students[x2].member ==> x1 == x2)
  }

  /** The invariant of the database, kept by every operation of the model. */
  ghost predicate Consistent(db: Db) {
    && KeysBelowNext(db)
    && Linked(db)
    && OneHeadMasterPerSchool(db)
    && OneMemberPerInfo(db)
    && UniqueUsernames(db)
    && SubtypesMatchRoles(db)
  }

  ghost predicate SubMap<K, V>(a: map<K, V>, b: map<K, V>) {
    forall k :: k in a ==> k in b && a[k] == b[k]
  }

  /** Every row and account of `a` is one of `b`: `a` is `b` with rows deleted. */
  ghost predicate SubDb(a: Db, b: Db) {
    && SubMap(a.schools, b.schools)
    && SubMap(a.infos, b.infos)
    && SubMap(a.members, b.members)
    && SubMap(a.headmasters, b.headmasters)
    && SubMap(a.teachers, b.teachers)
    && SubMap(a.students, b.students)
    && SubMap(a.classes, b.classes)
    && SubMap(a.accounts, b.accounts)
    && a.next == b.next
  }

  lemma SubDbTransitive(a: Db, b: Db, c: Db)
    requires SubDb(a, b) && SubDb(b, c)
    ensures SubDb(a, c)
  {
  }

  /** The accounts are not part of any foreign key. */
  lemma ReplaceAccounts(db: Db, accounts: map<string, bool>)
    ensures Linked(db) ==> Linked(db.(accounts := accounts))
    ensures SubMap(accounts, db.accounts) ==> SubDb(db.(accounts := accounts), db)
  {
  }

  /** Deleting rows keeps the invariant as long as no foreign key is left dangling. */
  lemma SubDbConsistent(a: Db, b: Db)
    requires Consistent(b) && SubDb(a, b) && Linked(a)
    ensures Consistent(a)
  {
    SubDbKeysBelowNext(a, b);
    SubDbOneToOne(a, b);
    SubDbSubtypes(a, b);
  }

  lemma SubDbKeysBelowNext(a: Db, b: Db)
    requires KeysBelowNext(b) && SubDb(a, b)
    ensures KeysBelowNext(a)
  {
  }

  lemma SubDbOneToOne(a: Db, b: Db)
    requires OneHeadMasterPerSchool(b) && OneMemberPerInfo(b) && UniqueUsernames(b) && SubDb(a, b)
    ensures OneHeadMasterPerSchool(a) && OneMemberPerInfo(a) && UniqueUsernames(a)
  {
  }

  lemma SubDbSubtypes(a: Db, b: Db)
    requires SubtypesMatchRoles(b) && SubDb(a, b)
    ensures SubtypesMatchRoles(a)
  {
  }

  /** Writes under existing keys and inserts under the next key keep every key below its counter. */
  lemma KeysBelowNextSaveSchool(db: Db, id: Id, v: School)
    requires KeysBelowNext(db) && id in db.schools
    ensures KeysBelowNext(db.(schools := db.schools[id := v]))
  {
  }

  lemma KeysBelowNextSaveInfo(db: Db, id: Id, v: PersonalInfo)
    requires KeysBelowNext(db) && id in db.infos
    ensures KeysBelowNext(db.(infos := db.infos[id := v]))
  {
  }

  lemma KeysBelowNextSaveClass(db: Db, id: Id, v: Class)
    requires KeysBelowNext(db) && id in db.classes
    ensures KeysBelowNext(db.(classes := db.classes[id := v]))
  {
  }

  lemma KeysBelowNextInsertSchool(db: Db, v: School)
    requires KeysBelowNext(db)
    ensures KeysBelowNext(db.(schools := db.schools[db.next.schools := v], next := db.next.(schools := db.next.schools + 1)))
  {
  }

  lemma KeysBelowNextInsertClass(db: Db, v: Class)
    requires KeysBelowNext(db)
    ensures KeysBelowNext(db.(classes := db.classes[db.next.classes := v], next := db.next.(classes := db.next.classes + 1)))
  {
  }

  /** The invariant does not mention the accounts. */
  lemma AccountsDoNotMatter(db: Db, accounts: map<string, bool>)
    requires Consistent(db)
    ensures Consistent(db.(accounts := accounts))
  {
    var d := db.(accounts := accounts);
    ReplaceAccounts(db, accounts);
    assert KeysBelowNext(d) by {
      assert KeysBelowNext(db);
    }
    ConsistentBesideMembers(d, db);
  }

  /** Writing a school row never leaves a foreign key dangling. */
  lemma WriteSchoolLinked(db: Db, id: Id, v: School, n: Counters)
    requires Linked(db)
    ensures Linked(db.(schools := db.schools[id := v], next := n))
  {
  }

  /** Writing a PersonalInfo row never leaves a foreign key dangling. */
  lemma WriteInfoLinked(db: Db, id: Id, v: PersonalInfo)
    requires Linked(db)
    ensures Linked(db.(infos := db.infos[id := v]))
  {
  }

  /** Saving an existing school keeps the invariant: only the school's keys matter to it. */
  lemma SaveSchoolConsistent(db: Db, id: Id, v: School)
    requires Consistent(db) && id in db.schools
    ensures Consistent(db.(schools := db.schools[id := v]))
  {
    var d := db.(schools := db.schools[id := v]);
    WriteSchoolLinked(db, id, v, db.next);
    KeysBelowNextSaveSchool(db, id, v);
    ConsistentBesideMembers(d, db);
  }

  /** Saving an existing PersonalInfo keeps the invariant. */
  lemma SaveInfoConsistent(db: Db, id: Id, v: PersonalInfo)
    requires Consistent(db) && id in db.infos
    ensures Consistent(db.(infos := db.infos[id := v]))
  {
    var d := db.(infos := db.infos[id := v]);
    WriteInfoLinked(db, id, v);
    KeysBelowNextSaveInfo(db, id, v);
    ConsistentBesideMembers(d, db);
  }

  /** Adding a school under the next key keeps the invariant. */
  lemma InsertSchoolConsistent(db: Db, v: School)
    requires Consistent(db)
    ensures Consistent(db.(schools := db.schools[db.next.schools := v], next := db.next.(schools := db.next.schools + 1)))
  {
    var n := db.next.(schools := db.next.schools + 1);
    var d := db.(schools := db.schools[db.next.schools := v], next := n);
    WriteSchoolLinked(db, db.next.schools, v, n);
    KeysBelowNextInsertSchool(db, v);
    ConsistentBesideMembers(d, db);
  }

  /** The uniqueness invariants read only the member, head master, teacher and student tables. */
  lemma UniquenessFrame(a: Db, b: Db)
    requires a.members == b.members && a.headmasters == b.headmasters
    requires a.teachers == b.teachers && a.students == b.students
    ensures OneHeadMasterPerSchool(a) == OneHeadMasterPerSchool(b)
    ensures OneMemberPerInfo(a) == OneMemberPerInfo(b)
    ensures UniqueUsernames(a) == UniqueUsernames(b)
    ensures SubtypesMatchRoles(a) == SubtypesMatchRoles(b)
  {
  }

  /**
   * A database that keeps the member and subtype tables of a consistent one
   * is consistent once its keys and foreign keys are in order.
   */
  lemma ConsistentBesideMembers(a: Db, b: Db)
    requires Consistent(b) && KeysBelowNext(a) && Linked(a)
    requires a.members == b.members && a.headmasters == b.headmasters
    requires a.teachers == b.teachers && a.students == b.students
    ensures Consistent(a)
  {
    UniquenessFrame(a, b);
  }

  /** Writing a class whose teacher and school exist leaves no foreign key dangling. */
  lemma WriteClassLinked(db: Db, id: Id, v: Class, n: Counters)
    requires Linked(db) && v.teacher in db.teachers && v.school in db.schools
    ensures Linked(db.(classes := db.classes[id := v], next := n))
  {
  }

  /** Adding a class under the next key keeps the invariant when its teacher and school exist. */
  lemma InsertClassConsistent(db: Db, v: Class)
    requires Consistent(db) && v.teacher in db.teachers && v.school in db.schools
    ensures Consistent(db.(classes := db.classes[db.next.classes := v], next := db.next.(classes := db.next.classes + 1)))
  {
    var n := db.next.(classes := db.next.classes + 1);
    var d := db.(classes := db.classes[db.next.classes := v], next := n);
    WriteClassLinked(db, db.next.classes, v, n);
    KeysBelowNextInsertClass(db, v);
    ConsistentBesideMembers(d, db);
  }

  /** Saving an existing class keeps the invariant when its teacher and school exist. */
  lemma SaveClassConsistent(db: Db, id: Id, v: Class)
    requires Consistent(db) && id in db.classes && v.teacher in db.teachers && v.school in db.schools
    ensures Consistent(db.(classes := db.classes[id := v]))
  {
    var d := db.(classes := db.classes[id := v]);
    WriteClassLinked(db, id, v, db.next);
    KeysBelowNextSaveClass(db, id, v);
    ConsistentBesideMembers(d, db);
  }

  /** The conditions under which saving member `m` as `v` keeps the invariant. */
  ghost predicate SafeMemberSave(db: Db, m: Id, v: Member) {
    && m in db.members
    && v.personalInfo == db.members[m].personalInfo && v.role == db.members[m].role
    && v.school in db.schools
    && !UsernameHeldByOther(db, m, v.username)
  }

  lemma SaveMemberLinked(db: Db, m: Id, v: Member)
    requires Linked(db) && SafeMemberSave(db, m, v)
    ensures Linked(db.(members := db.members[m := v]))
  {
  }

  lemma SaveMemberOneMemberPerInfo(db: Db, m: Id, v: Member)
    requires OneMemberPerInfo(db) && SafeMemberSave(db, m, v)
    ensures OneMemberPerInfo(db.(members := db.members[m := v]))
  {
    var d := db.(members := db.members[m := v]);
    forall m1, m2 | m1 in d.members && m2 in d.members && d.members[m1].personalInfo == d.members[m2].personalInfo
      ensures m1 == m2
    {
      assert d.members[m1].personalInfo == db.members[m1].personalInfo;
      assert d.members[m2].personalInfo == db.members[m2].personalInfo;
    }
  }

  lemma SaveMemberUniqueUsernames(db: Db, m: Id, v: Member)
    requires UniqueUsernames(db) && SafeMemberSave(db, m, v)
    ensures UniqueUsernames(db.(members := db.members[m := v]))
  {
    var d := db.(members := db.members[m := v]);
    forall m1, m2 | m1 in d.members && m2 in d.members
      && d.members[m1].username.Some? && d.members[m1].username == d.members[m2].username
      ensures m1 == m2
    {
      if m1 != m && m2 != m {
        assert d.members[m1] == db.members[m1] && d.members[m2] == db.members[m2];
      }
    }
  }

  lemma SaveMemberSubtypesMatchRoles(db: Db, m: Id, v: Member)
    requires SubtypesMatchRoles(db) && SafeMemberSave(db, m, v)
    ensures SubtypesMatchRoles(db.(members := db.members[m := v]))
  {
  }

  /**
   * Saving a member with the same PersonalInfo and role, a school that exists
   * and a username no other member holds keeps the invariant.
   */
  lemma SaveMemberConsistent(db: Db, m: Id, v: Member)
    requires Consistent(db) && SafeMemberSave(db, m, v)
    ensures Consistent(db.(members := db.members[m := v]))
  {
    SaveMemberLinked(db, m, v);
    SaveMemberOneMemberPerInfo(db, m, v);
    SaveMemberUniqueUsernames(db, m, v);
    SaveMemberSubtypesMatchRoles(db, m, v);
  }

  /** Under the uniqueness invariant no other member holds a member's own username. */
  lemma OwnUsernameFree(db: Db, m: Id)
    requires UniqueUsernames(db) && m in db.members
    ensures !UsernameHeldByOther(db, m, db.members[m].username)
  {
  }

  lemma KeysBelowNextSaveHeadMaster(db: Db, h: Id, v: HeadMaster)
    requires KeysBelowNext(db) && h in db.headmasters
    ensures KeysBelowNext(db.(headmasters := db.headmasters[h := v]))
  {
  }

  lemma SaveHeadMasterLinked(db: Db, h: Id, v: HeadMaster)
    requires Linked(db) && h in db.headmasters
    requires v.member == db.headmasters[h].member && v.school in db.schools
    ensures Linked(db.(headmasters := db.headmasters[h := v]))
  {
  }

  lemma SaveHeadMasterOnePerSchool(db: Db, h: Id, v: HeadMaster)
    requires OneHeadMasterPerSchool(db) && h in db.headmasters
    requires forall o :: o in db.headmasters && o != h ==> db.headmasters[o].school != v.school
    ensures OneHeadMasterPerSchool(db.(headmasters := db.headmasters[h := v]))
  {
  }

  lemma SaveHeadMasterRoles(db: Db, h: Id, v: HeadMaster)
    requires SubtypesMatchRoles(db) && h in db.headmasters && v.member == db.headmasters[h].member
    ensures SubtypesMatchRoles(db.(headmasters := db.headmasters[h := v]))
  {
    var d := db.(headmasters := db.headmasters[h := v]);
    forall h1, h2 | h1 in d.headmasters && h2 in d.headmasters && d.headmasters[h1].member == d.headmasters[h2].member
      ensures h1 == h2
    {
      assert d.headmasters[h1].member == db.headmasters[h1].member;
      assert d.headmasters[h2].member == db.headmasters[h2].member;
    }
  }

  /**
   * Moving head master `h` to an existing school that no other head master
   * holds keeps the invariant.
   */
  lemma SaveHeadMasterConsistent(db: Db, h: Id, v: HeadMaster)
    requires Consistent(db) && h in db.headmasters
    requires v.member == db.headmasters[h].member && v.school in db.schools
    requires forall o :: o in db.headmasters && o != h ==> db.headmasters[o].school != v.school
    ensures Consistent(db.(headmasters := db.headmasters[h := v]))
  {
    var d := db.(headmasters := db.headmasters[h := v]);
    KeysBelowNextSaveHeadMaster(db, h, v);
    SaveHeadMasterLinked(db, h, v);
    SaveHeadMasterOnePerSchool(db, h, v);
    SaveHeadMasterRoles(db, h, v);
    assert OneMemberPerInfo(d) && UniqueUsernames(d) by {
      assert OneMemberPerInfo(db) && UniqueUsernames(db);
    }
  }

  // ---------------------------------------------------------------------------
  // Cascading deletes (on_delete=CASCADE)
  // ---------------------------------------------------------------------------

  /** The Student rows whose f_class is one of `cs`. */
  function StudentsOfClasses(db: Db, cs: set<Id>): set<Id> {
    set x | x in db.students && db.students[x].fClass in cs
  }

  /** The Class rows whose teacher is one of `ts`. */
  function ClassesOfTeachers(db: Db, ts: set<Id>): set<Id> {
    set c | c in db.classes && db.classes[c].teacher in ts
  }

  function HeadMastersOfMembers(db: Db, ms: set<Id>): set<Id> {
    set h | h in db.headmasters && db.headmasters[h].member in ms
  }

  function TeachersOfMembers(db: Db, ms: set<Id>): set<Id> {
    set t | t in db.teachers && db.teachers[t].member in ms
  }

  function StudentsOfMembers(db: Db, ms: set<Id>): set<Id> {
    set x | x in db.students && db.students[x].member in ms
  }

  /** The members whose PersonalInfo is one of `ps`. */
  function MembersOwning(db: Db, ps: set<Id>): set<Id> {
    set m | m in db.members && db.members[m].personalInfo in ps
  }

  function HeadMastersOfSchools(db: Db, ss: set<Id>): set<Id> {
    set h | h in db.headmasters && db.headmasters[h].school in ss
  }

  function ClassesOfSchools(db: Db, ss: set<Id>): set<Id> {
    set c | c in db.classes && db.classes[c].school in ss
  }

  function MembersOfSchools(db: Db, ss: set<Id>): set<Id> {
    set m | m in db.members && db.members[m].school in ss
  }

  /** Deleting Student rows: nothing refers to a Student. */
  function DropStudents(db: Db, xs: set<Id>): (r: Db)
    ensures forall x :: x in r.students <==> x in db.students && x !in xs
    ensures r == db.(students := r.students)
  {
    db.(students := db.students - xs)
  }

  /** Deleting Class rows also deletes the students of those classes (Student.f_class). */
  function DropClasses(db: Db, cs: set<Id>): (r: Db)
    ensures forall c :: c in r.classes <==> c in db.classes && c !in cs
    ensures forall x :: x in r.students <==> x in db.students && db.students[x].fClass !in cs
    ensures r == db.(students := r.students, classes := r.classes)
  {
    var r1 := DropStudents(db, StudentsOfClasses(db, cs));
    r1.(classes := r1.classes - cs)
  }

  /**
   * Deleting Teacher rows also deletes their classes (Class.teacher), and with
   * them the students of those classes.
   */
  function DropTeachers(db: Db, ts: set<Id>): (r: Db)
    ensures forall t :: t in r.teachers <==> t in db.teachers && t !in ts
    ensures forall c :: c in r.classes <==> c in db.classes && db.classes[c].teacher !in ts
    ensures forall x :: x in r.students <==>
      x in db.students && (db.students[x].fClass in db.classes ==> db.students[x].fClass in r.classes)
    ensures r == db.(students := r.students, classes := r.classes, teachers := r.teachers)
  {
    var r1 := DropClasses(db, ClassesOfTeachers(db, ts));
    r1.(teachers := r1.teachers - ts)
  }

  /** Deleting HeadMaster rows: nothing refers to a HeadMaster. */
  function DropHeadMasters(db: Db, hs: set<Id>): (r: Db)
    ensures forall h :: h in r.headmasters <==> h in db.headmasters && h !in hs
    ensures r == db.(headmasters := r.headmasters)
  {
    db.(headmasters := db.headmasters - hs)
  }

  /**
   * Deleting Member rows also deletes their HeadMaster, Teacher and Student
   * rows (each subtype's `member` cascades), and what those cascade to.
   * The member's PersonalInfo stays: the cascade runs from PersonalInfo to Member only.
   */
  function DropMembers(db: Db, ms: set<Id>): (r: Db)
    ensures forall m :: m in r.members <==> m in db.members && m !in ms
    ensures forall h :: h in r.headmasters <==> h in db.headmasters && db.headmasters[h].member !in ms
    ensures forall t :: t in r.teachers <==> t in db.teachers && db.teachers[t].member !in ms
    ensures forall c :: c in r.classes <==>
      c in db.classes && (db.classes[c].teacher in db.teachers ==> db.classes[c].teacher in r.teachers)
    ensures forall x :: x in r.students <==>
      && x in db.students && db.students[x].member !in ms
      && (db.students[x].fClass in db.classes ==> db.students[x].fClass in r.classes)
    ensures forall h :: h in r.headmasters ==> r.headmasters[h].member !in ms
    ensures forall t :: t in r.teachers ==> r.teachers[t].member !in ms
    ensures forall x :: x in r.students ==> r.students[x].member !in ms
    ensures r.schools == db.schools && r.infos == db.infos && r.accounts == db.accounts
  {
    var r1 := DropHeadMasters(db, HeadMastersOfMembers(db, ms));
    var r2 := DropTeachers(r1, TeachersOfMembers(r1, ms));
    var r3 := DropStudents(r2, StudentsOfMembers(r2, ms));
    r3.(members := r3.members - ms)
  }

  /** Deleting PersonalInfo rows also deletes the members that own them (Member.personal_info). */
  function DropInfos(db: Db, ps: set<Id>): (r: Db)
    ensures forall p :: p in r.infos <==> p in db.infos && p !in ps
    ensures forall m :: m in r.members <==> m in db.members && db.members[m].personalInfo !in ps
    ensures forall h :: h in r.headmasters <==>
      h in db.headmasters && (db.headmasters[h].member in db.members ==> db.headmasters[h].member in r.members)
    ensures forall t :: t in r.teachers <==>
      t in db.teachers && (db.teachers[t].member in db.members ==> db.teachers[t].member in r.members)
    ensures forall c :: c in r.classes <==>
      c in db.classes && (db.classes[c].teacher in db.teachers ==> db.classes[c].teacher in r.teachers)
    ensures forall x :: x in r.students <==>
      && x in db.students && (db.students[x].member in db.members ==> db.students[x].member in r.members)
      && (db.students[x].fClass in db.classes ==> db.students[x].fClass in r.classes)
    ensures r.schools == db.schools && r.accounts == db.accounts
  {
    var r1 := DropMembers(db, MembersOwning(db, ps));
    r1.(infos := r1.infos - ps)
  }

  /**
   * Deleting School rows also deletes the schools' head masters
   * (HeadMaster.school), classes (Class.school) and members (Member.school),
   * and what those cascade to.
   */
  function DropSchools(db: Db, ss: set<Id>): (r: Db)
    ensures forall s :: s in r.schools <==> s in db.schools && s !in ss
    ensures forall m :: m in r.members <==> m in db.members && db.members[m].school !in ss
    ensures forall h :: h in r.headmasters <==>
      && h in db.headmasters && db.headmasters[h].school !in ss
      && (db.headmasters[h].member in db.members ==> db.headmasters[h].member in r.members)
    ensures forall t :: t in r.teachers <==>
      t in db.teachers && (db.teachers[t].member in db.members ==> db.teachers[t].member in r.members)
    ensures forall c :: c in r.classes <==>
      && c in db.classes && db.classes[c].school !in ss
      && (db.classes[c].teacher in db.teachers ==> db.classes[c].teacher in r.teachers)
    ensures forall x :: x in r.students <==>
      && x in db.students && (db.students[x].member in db.members ==> db.students[x].member in r.members)
      && (db.students[x].fClass in db.classes ==> db.students[x].fClass in r.classes)
    ensures forall m :: m in r.members ==> r.members[m].school !in ss
    ensures forall c :: c in r.classes ==> r.classes[c].school !in ss
    ensures forall h :: h in r.headmasters ==> r.headmasters[h].school !in ss
    ensures r.infos == db.infos && r.accounts == db.accounts
  {
    var r1 := DropHeadMasters(db, HeadMastersOfSchools(db, ss));
    var r2 := DropClasses(r1, ClassesOfSchools(r1, ss));
    var r3 := DropMembers(r2, MembersOfSchools(r2, ss));
    SchoolCascadeMembers(db, r1, r2, r3, ss);
    SchoolCascadeClasses(db, r1, r2, r3, ss);
    SchoolCascadeStudents(db, r1, r2, r3, ss);
    r3.(schools := r3.schools - ss)
  }

  // The rows that survive the three steps of DropSchools, from what each step keeps.

  lemma SchoolCascadeMembers(db: Db, r1: Db, r2: Db, r3: Db, ss: set<Id>)
    requires r1 == DropHeadMasters(db, HeadMastersOfSchools(db, ss))
    requires r2 == DropClasses(r1, ClassesOfSchools(r1, ss))
    requires r3 == DropMembers(r2, MembersOfSchools(r2, ss))
    ensures forall m :: m in r3.members <==> m in db.members && db.members[m].school !in ss
    ensures forall h :: h in r3.headmasters <==>
      && h in db.headmasters && db.headmasters[h].school !in ss
      && (db.headmasters[h].member in db.members ==> db.headmasters[h].member in r3.members)
    ensures forall t :: t in r3.teachers <==>
      t in db.teachers && (db.teachers[t].member in db.members ==> db.teachers[t].member in r3.members)
  {
    assert r2.members == db.members && r2.teachers == db.teachers && r2.headmasters == r1.headmasters;
  }

  lemma SchoolCascadeClasses(db: Db, r1: Db, r2: Db, r3: Db, ss: set<Id>)
    requires r1 == DropHeadMasters(db, HeadMastersOfSchools(db, ss))
    requires r2 == DropClasses(r1, ClassesOfSchools(r1, ss))
    requires r3 == DropMembers(r2, MembersOfSchools(r2, ss))
    ensures forall c :: c in r3.classes <==>
      && c in db.classes && db.classes[c].school !in ss
      && (db.classes[c].teacher in db.teachers ==> db.classes[c].teacher in r3.teachers)
  {
    assert r2.teachers == db.teachers && r1.classes == db.classes;
  }

  lemma SchoolCascadeStudents(db: Db, r1: Db, r2: Db, r3: Db, ss: set<Id>)
    requires r1 == DropHeadMasters(db, HeadMastersOfSchools(db, ss))
    requires r2 == DropClasses(r1, ClassesOfSchools(r1, ss))
    requires r3 == DropMembers(r2, MembersOfSchools(r2, ss))
    ensures forall x :: x in r3.students <==>
      && x in db.students && (db.students[x].member in db.members ==> db.students[x].member in r3.members)
      && (db.students[x].fClass in db.classes ==> db.students[x].fClass in r3.classes)
  {
    assert r2.members == db.members && r1.classes == db.classes && r1.students == db.students;
    DropClassesWithin(r1, ClassesOfSchools(r1, ss));
    DropClassesSound(r1, ClassesOfSchools(r1, ss));
    DropMembersSubDb(r2, MembersOfSchools(r2, ss));
    StudentsOfSurvivors(db, r2, r3, MembersOfSchools(r2, ss));
  }

  /** Dropping existing classes keeps exactly the students whose class, if it existed, stays. */
  lemma DropClassesWithin(db: Db, cs: set<Id>)
    requires cs <= db.classes.Keys
    ensures var r := DropClasses(db, cs);
      forall x :: x in r.students <==>
        x in db.students && (db.students[x].fClass in db.classes ==> db.students[x].fClass in r.classes)
  {
  }

  lemma StudentsOfSurvivors(db: Db, r2: Db, r3: Db, ms: set<Id>)
    requires r2.members == db.members && SubDb(r2, db) && SubDb(r3, r2) && ms <= db.members.Keys
    requires forall m :: m in r3.members <==> m in db.members && m !in ms
    requires forall x :: x in r2.students <==>
      x in db.students && (db.students[x].fClass in db.classes ==> db.students[x].fClass in r2.classes)
    requires forall x :: x in r3.students <==>
      && x in r2.students && r2.students[x].member !in ms
      && (r2.students[x].fClass in r2.classes ==> r2.students[x].fClass in r3.classes)
    ensures forall x :: x in r3.students <==>
      && x in db.students && (db.students[x].member in db.members ==> db.students[x].member in r3.members)
      && (db.students[x].fClass in db.classes ==> db.students[x].fClass in r3.classes)
  {
    forall x | x in db.students
      ensures x in r3.students <==>
        && (db.students[x].member in db.members ==> db.students[x].member in r3.members)
        && (db.students[x].fClass in db.classes ==> db.students[x].fClass in r3.classes)
    {
      var f := db.students[x].fClass;
      assert f in r3.classes ==> f in r2.classes;
      assert x in r2.students ==> r2.students[x] == db.students[x];
    }
  }

  /** The PersonalInfo rows of the members `ms`. */
  function InfosOfMembers(db: Db, ms: set<Id>): set<Id> {
    set m | m in ms && m in db.members :: db.members[m].personalInfo
  }

  /** The usernames, hence the accounts, of the members `ms`. */
  function UsernamesOfMembers(db: Db, ms: set<Id>): set<string> {
    set m | m in ms && m in db.members && db.members[m].username.Some? :: db.members[m].username.value
  }

  // Each cascade only deletes rows, and leaves no foreign key dangling.

  lemma DropStudentsSound(db: Db, xs: set<Id>)
    ensures SubDb(DropStudents(db, xs), db)
    ensures Linked(db) ==> Linked(DropStudents(db, xs))
  {
  }

  lemma DropClassesSound(db: Db, cs: set<Id>)
    ensures SubDb(DropClasses(db, cs), db)
    ensures Linked(db) ==> Linked(DropClasses(db, cs))
  {
    var r1 := DropStudents(db, StudentsOfClasses(db, cs));
    DropStudentsSound(db, StudentsOfClasses(db, cs));
    var r := DropClasses(db, cs);
    assert r == r1.(classes := r1.classes - cs);
    SubDbTransitive(r, r1, db);
  }

  lemma DropTeachersSound(db: Db, ts: set<Id>)
    ensures SubDb(DropTeachers(db, ts), db)
    ensures Linked(db) ==> Linked(DropTeachers(db, ts))
  {
    var r1 := DropClasses(db, ClassesOfTeachers(db, ts));
    DropClassesSound(db, ClassesOfTeachers(db, ts));
    var r := DropTeachers(db, ts);
    assert r == r1.(teachers := r1.teachers - ts);
    SubDbTransitive(r, r1, db);
  }

  lemma DropHeadMastersSound(db: Db, hs: set<Id>)
    ensures SubDb(DropHeadMasters(db, hs), db)
    ensures Linked(db) ==> Linked(DropHeadMasters(db, hs))
  {
  }

  lemma DropMembersSubDb(db: Db, ms: set<Id>)
    ensures SubDb(DropMembers(db, ms), db)
  {
    var r1 := DropHeadMasters(db, HeadMastersOfMembers(db, ms));
    var r2 := DropTeachers(r1, TeachersOfMembers(r1, ms));
    var r3 := DropStudents(r2, StudentsOfMembers(r2, ms));
    DropHeadMastersSound(db, HeadMastersOfMembers(db, ms));
    DropTeachersSound(r1, TeachersOfMembers(r1, ms));
    DropStudentsSound(r2, StudentsOfMembers(r2, ms));
    SubDbTransitive(r2, r1, db);
    SubDbTransitive(r3, r2, db);
    var r := DropMembers(db, ms);
    assert r == r3.(members := r3.members - ms);
    SubDbTransitive(r, r3, db);
  }

  lemma DropMembersLinked(db: Db, ms: set<Id>)
    requires Linked(db)
    ensures Linked(DropMembers(db, ms))
  {
    var r1 := DropHeadMasters(db, HeadMastersOfMembers(db, ms));
    var r2 := DropTeachers(r1, TeachersOfMembers(r1, ms));
    var r3 := DropStudents(r2, StudentsOfMembers(r2, ms));
    DropHeadMastersSound(db, HeadMastersOfMembers(db, ms));
    DropTeachersSound(r1, TeachersOfMembers(r1, ms));
    DropStudentsSound(r2, StudentsOfMembers(r2, ms));
    assert r3.members == db.members && r3.schools == db.schools && r3.infos == db.infos;
    var r := DropMembers(db, ms);
    assert r == r3.(members := r3.members - ms);
  }

  lemma DropMembersSound(db: Db, ms: set<Id>)
    ensures SubDb(DropMembers(db, ms), db)
    ensures Linked(db) ==> Linked(DropMembers(db, ms))
  {
    DropMembersSubDb(db, ms);
    if Linked(db) {
      DropMembersLinked(db, ms);
    }
  }

  lemma DropInfosSound(db: Db, ps: set<Id>)
    ensures SubDb(DropInfos(db, ps), db)
    ensures Linked(db) ==> Linked(DropInfos(db, ps))
  {
    var owners := MembersOwning(db, ps);
    var r1 := DropMembers(db, owners);
    DropMembersSound(db, owners);
    var r := DropInfos(db, ps);
    assert r == r1.(infos := r1.infos - ps);
    SubDbTransitive(r, r1, db);
  }

  lemma DropSchoolsSubDb(db: Db, ss: set<Id>)
    ensures SubDb(DropSchools(db, ss), db)
  {
    var r1 := DropHeadMasters(db, HeadMastersOfSchools(db, ss));
    var r2 := DropClasses(r1, ClassesOfSchools(r1, ss));
    var r3 := DropMembers(r2, MembersOfSchools(r2, ss));
    DropHeadMastersSound(db, HeadMastersOfSchools(db, ss));
    DropClassesSound(r1, ClassesOfSchools(r1, ss));
    DropMembersSubDb(r2, MembersOfSchools(r2, ss));
    SubDbTransitive(r2, r1, db);
    SubDbTransitive(r3, r2, db);
    var r := DropSchools(db, ss);
    assert r == r3.(schools := r3.schools - ss);
    SubDbTransitive(r, r3, db);
  }

  /** Removing schools that no member, head master or class refers to leaves no foreign key dangling. */
  lemma RemoveSchoolsLinked(db: Db, ss: set<Id>)
    requires Linked(db)
    requires forall m :: m in db.members ==> db.members[m].school !in ss
    requires forall h :: h in db.headmasters ==> db.headmasters[h].school !in ss
    requires forall c :: c in db.classes ==> db.classes[c].school !in ss
    ensures Linked(db.(schools := db.schools - ss))
  {
  }

  lemma DropSchoolsLinked(db: Db, ss: set<Id>)
    requires Linked(db)
    ensures Linked(DropSchools(db, ss))
  {
    var r1 := DropHeadMasters(db, HeadMastersOfSchools(db, ss));
    var r2 := DropClasses(r1, ClassesOfSchools(r1, ss));
    var r3 := DropMembers(r2, MembersOfSchools(r2, ss));
    assert Linked(r3) by {
      DropHeadMastersSound(db, HeadMastersOfSchools(db, ss));
      DropClassesSound(r1, ClassesOfSchools(r1, ss));
      DropMembersLinked(r2, MembersOfSchools(r2, ss));
    }
    assert SubDb(r3, r2) by {
      DropMembersSubDb(r2, MembersOfSchools(r2, ss));
    }
    assert forall h :: h in r3.headmasters ==> r3.headmasters[h].school !in ss by {
      assert r2.headmasters == r1.headmasters;
    }
    RemoveSchoolsLinked(r3, ss);
    assert DropSchools(db, ss) == r3.(schools := r3.schools - ss);
  }

  lemma DropSchoolsSound(db: Db, ss: set<Id>)
    ensures SubDb(DropSchools(db, ss), db)
    ensures Linked(db) ==> Linked(DropSchools(db, ss))
  {
    DropSchoolsSubDb(db, ss);
    if Linked(db) {
      DropSchoolsLinked(db, ss);
    }
  }

  /** Deleting classes one batch after another deletes their union. */
  lemma DropClassesCompose(db: Db, a: set<Id>, b: set<Id>)
    ensures DropClasses(DropClasses(db, a), b) == DropClasses(db, a + b)
  {
    var d1 := DropClasses(db, a);
    var l := DropClasses(d1, b);
    var r := DropClasses(db, a + b);
    assert l.classes == r.classes;
    assert l.students == r.students by {
      forall x | x in l.students ensures x in r.students && l.students[x] == r.students[x] {
        assert x in d1.students;
      }
    }
  }

  /** Deleting a class that no student is in deletes only the class row. */
  lemma DropEmptyClass(db: Db, c: Id)
    requires forall x :: x in db.students ==> db.students[x].fClass != c
    ensures DropClasses(db, {c}) == db.(classes := db.classes - {c})
  {
    assert StudentsOfClasses(db, {c}) == {};
    assert db.students - {} == db.students;
  }

  /** Deleting members no subtype row refers to deletes only those members. */
  lemma DropUnreferencedMembers(db: Db, ms: set<Id>)
    requires forall h :: h in db.headmasters ==> db.headmasters[h].member !in ms
    requires forall t :: t in db.teachers ==> db.teachers[t].member !in ms
    requires forall x :: x in db.students ==> db.students[x].member !in ms
    ensures DropMembers(db, ms) == db.(members := db.members - ms)
  {
    var hs := HeadMastersOfMembers(db, ms);
    assert hs == {};
    var r1 := DropHeadMasters(db, hs);
    assert r1.headmasters == db.headmasters;
    var ts := TeachersOfMembers(r1, ms);
    assert ts == {};
    assert ClassesOfTeachers(r1, ts) == {};
    assert StudentsOfClasses(r1, {}) == {};
    var r2 := DropTeachers(r1, ts);
    assert r2.teachers == db.teachers && r2.classes == db.classes && r2.students == db.students;
    var xs := StudentsOfMembers(r2, ms);
    assert xs == {};
    var r3 := DropStudents(r2, xs);
    assert r3.students == db.students;
  }

  /** Deleting PersonalInfo rows no member owns deletes only those rows. */
  lemma DropUnownedInfos(db: Db, ps: set<Id>)
    requires forall m :: m in db.members ==> db.members[m].personalInfo !in ps
    ensures DropInfos(db, ps) == db.(infos := db.infos - ps)
  {
    var owners := MembersOwning(db, ps);
    assert owners == {};
    DropUnreferencedMembers(db, {});
    assert db.members - {} == db.members;
  }

  /** True when `u` is a username held by some member other than `id`. */
  predicate UsernameHeldByOther(db: Db, id: Id, u: Option<string>) {
    u.Some? && exists o :: o in db.members && o != id && db.members[o].username == u
  }

  // ---------------------------------------------------------------------------
  // The store
  // ---------------------------------------------------------------------------

  /**
   * The tables as the views see them through the ORM. Each method is one ORM
   * call: creating a row under the next key, saving a row, or deleting a row
   * together with everything that cascades from it.
   */
  class Store {
    var schools: map<Id, School>
    var infos: map<Id, PersonalInfo>
    var members: map<Id, Member>
    var headmasters: map<Id, HeadMaster>
    var teachers: map<Id, Teacher>
    var students: map<Id, Student>
    var classes: map<Id, Class>
    var accounts: map<string, bool>
    var next: Counters

    /** The current content of the tables as a value. */
    function Snapshot(): Db
      reads this
    {
      Db(schools, infos, members, headmasters, teachers, students, classes, accounts, next)
    }

    ghost predicate Valid()
      reads this
    {
      Consistent(Snapshot())
    }

    constructor ()
      ensures Snapshot() == Empty
    {
      schools, infos, members := map[], map[], map[];
      headmasters, teachers, students, classes := map[], map[], map[], map[];
      accounts := map[];
      next := Empty.next;
    }

    /** Replaces every table at once (how the cascade rules are applied). */
    method Load(db: Db)
      modifies this
      ensures Snapshot() == db
    {
      schools, infos, members := db.schools, db.infos, db.members;
      headmasters, teachers, students, classes := db.headmasters, db.teachers, db.students, db.classes;
      accounts, next := db.accounts, db.next;
    }

    method InsertSchoolRow(s: School) returns (id: Id)
      modifies this
      ensures id == old(next.schools)
      ensures Snapshot() == old(Snapshot()).(schools := old(schools)[id := s], next := old(next).(schools := id + 1))
    {
      id := next.schools;
      schools := schools[id := s];
      next := next.(schools := id + 1);
    }

    method InsertInfoRow(p: PersonalInfo) returns (id: Id)
      modifies this
      ensures id == old(next.infos)
      ensures Snapshot() == old(Snapshot()).(infos := old(infos)[id := p], next := old(next).(infos := id + 1))
    {
      id := next.infos;
      infos := infos[id := p];
      next := next.(infos := id + 1);
    }

    method InsertMemberRow(m: Member) returns (id: Id)
      modifies this
      ensures id == old(next.members)
      ensures Snapshot() == old(Snapshot()).(members := old(members)[id := m], next := old(next).(members := id + 1))
    {
      id := next.members;
      members := members[id := m];
      next := next.(members := id + 1);
    }

    method InsertHeadMasterRow(h: HeadMaster) returns (id: Id)
      modifies this
      ensures id == old(next.headmasters)
      ensures Snapshot() == old(Snapshot()).(headmasters := old(headmasters)[id := h], next := old(next).(headmasters := id + 1))
    {
      id := next.headmasters;
      headmasters := headmasters[id := h];
      next := next.(headmasters := id + 1);
    }

    method InsertTeacherRow(t: Teacher) returns (id: Id)
      modifies this
      ensures id == old(next.teachers)
      ensures Snapshot() == old(Snapshot()).(teachers := old(teachers)[id := t], next := old(next).(teachers := id + 1))
    {
      id := next.teachers;
      teachers := teachers[id := t];
      next := next.(teachers := id + 1);
    }

    method InsertStudentRow(x: Student) returns (id: Id)
      modifies this
      ensures id == old(next.students)
      ensures Snapshot() == old(Snapshot()).(students := old(students)[id := x], next := old(next).(students := id + 1))
    {
      id := next.students;
      students := students[id := x];
      next := next.(students := id + 1);
    }

    method InsertClassRow(c: Class) returns (id: Id)
      modifies this
      ensures id == old(next.classes)
      ensures Snapshot() == old(Snapshot()).(classes := old(classes)[id := c], next := old(next).(classes := id + 1))
    {
      id := next.classes;
      classes := classes[id := c];
      next := next.(classes := id + 1);
    }

    method SaveSchoolRow(id: Id, s: School)
      modifies this
      ensures Snapshot() == old(Snapshot()).(schools := old(schools)[id := s])
    {
      schools := schools[id := s];
    }

    method SaveInfoRow(id: Id, p: PersonalInfo)
      modifies this
      ensures Snapshot() == old(Snapshot()).(infos := old(infos)[id := p])
    {
      infos := infos[id := p];
    }

    /** Saving a member fails, writing nothing, when another member holds its username. */
    method SaveMemberRow(id: Id, m: Member) returns (ok: bool)
      modifies this
      ensures ok == !UsernameHeldByOther(old(Snapshot()), id, m.username)
      ensures Snapshot() == if ok then old(Snapshot()).(members := old(members)[id := m]) else old(Snapshot())
    {
      ok := !(m.username.Some? && exists o :: o in members && o != id && members[o].username == m.username);
      if ok {
        members := members[id := m];
      }
    }

    method SaveHeadMasterRow(id: Id, h: HeadMaster)
      modifies this
      ensures Snapshot() == old(Snapshot()).(headmasters := old(headmasters)[id := h])
    {
      headmasters := headmasters[id := h];
    }

    method SaveClassRow(id: Id, c: Class)
      modifies this
      ensures Snapshot() == old(Snapshot()).(classes := old(classes)[id := c])
    {
      classes := classes[id := c];
    }

    method DeleteSchoolRow(id: Id)
      modifies this
      ensures Snapshot() == DropSchools(old(Snapshot()), {id})
    {
      Load(DropSchools(Snapshot(), {id}));
    }

    method DeleteInfoRow(id: Id)
      modifies this
      ensures Snapshot() == DropInfos(old(Snapshot()), {id})
    {
      Load(DropInfos(Snapshot(), {id}));
    }

    method DeleteMemberRow(id: Id)
      modifies this
      ensures Snapshot() == DropMembers(old(Snapshot()), {id})
    {
      Load(DropMembers(Snapshot(), {id}));
    }

    method DeleteHeadMasterRow(id: Id)
      modifies this
      ensures Snapshot() == DropHeadMasters(old(Snapshot()), {id})
    {
      Load(DropHeadMasters(Snapshot(), {id}));
    }

    method DeleteTeacherRow(id: Id)
      modifies this
      ensures Snapshot() == DropTeachers(old(Snapshot()), {id})
    {
      Load(DropTeachers(Snapshot(), {id}));
    }

    method DeleteStudentRow(id: Id)
      modifies this
      ensures Snapshot() == DropStudents(old(Snapshot()), {id})
    {
      Load(DropStudents(Snapshot(), {id}));
    }

    method DeleteClassRow(id: Id)
      modifies this
      ensures Snapshot() == DropClasses(old(Snapshot()), {id})
    {
      Load(DropClasses(Snapshot(), {id}));
    }

    /** User.objects.create_user: fails, writing nothing, when the username is taken. */
    method InsertAccount(username: string, isStaff: bool) returns (ok: bool)
      modifies this
      ensures ok == (username !in old(accounts))
      ensures Snapshot() == if ok then old(Snapshot()).(accounts := old(accounts)[username := isStaff]) else old(Snapshot())
    {
      ok := username !in accounts;
      if ok {
        accounts := accounts[username := isStaff];
      }
    }

    method DeleteAccount(username: string)
      modifies this
      ensures Snapshot() == old(Snapshot()).(accounts := old(accounts) - {username})
    {
      accounts := accounts - {username};
    }
  }
}
