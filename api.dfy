/**
 * The shared view helpers (api.py): dictionary filtering, username
 * generation, account creation, the creation and deletion of a member
 * together with its subtype row, the role lookup and the bearer check; and
 * the response statuses every view returns.
 */
module Api {
  import opened Wrappers
  import opened Models
  import opened Schemas

  // ---------------------------------------------------------------------------
  // Responses
  // ---------------------------------------------------------------------------

  /** What a 404 response reports as missing. */
  datatype Missing =
    | NoSchool | NoClass | NoTeacher | NoStudent | NoHeadMaster
    | NoClassesFound   // "No Classes found."
    | RoleError        // the sentinel of get_subtype

  /** What a 409 response reports as clashing. */
  datatype Clash = UsernameExists | SchoolHasHeadMaster

  /** The outcome of a view: 200, 404, 409, or an uncaught exception (500). */
  datatype Status = Ok | NotFound(missing: Missing) | Conflict(clash: Clash) | ServerError {
    function Code(): int {
      match this
      case Ok => 200
      case NotFound(_) => 404
      case Conflict(_) => 409
      case ServerError => 500
    }
  }

  /** A view's status together with the database it leaves. */
  datatype Reply = Reply(status: Status, db: Db)

  /** What a read-only view answers: the value it serializes, or a 404. */
  datatype Lookup<T> = Found(value: T) | Lacking(missing: Missing)

  // ---------------------------------------------------------------------------
  // my_without_keys
  // ---------------------------------------------------------------------------

  /** `{x: d[x] for x in d if x not in keys}`. */
  function WithoutKeys<K(!new), V>(d: map<K, V>, keys: set<K>): (r: map<K, V>)
    ensures forall k :: k in r <==> k in d && k !in keys
    ensures forall k :: k in r ==> r[k] == d[k]
  {
    map k | k in d && k !in keys :: d[k]
  }

  /** Dropping keys twice is dropping their union; dropping nothing changes nothing. */
  lemma WithoutKeysCompose<K(!new), V>(d: map<K, V>, a: set<K>, b: set<K>)
    ensures WithoutKeys(WithoutKeys(d, a), b) == WithoutKeys(d, a + b)
    ensures WithoutKeys(d, {}) == d
  {
    assert WithoutKeys(WithoutKeys(d, a), b).Keys == WithoutKeys(d, a + b).Keys;
    assert WithoutKeys(d, {}).Keys == d.Keys;
  }

  // ---------------------------------------------------------------------------
  // Username generation
  // ---------------------------------------------------------------------------

  /** `str.lower()` on one character, for the ASCII letters. */
  function LowerChar(c: char): char {
    if 'A' <= c <= 'Z' then (c as int - 'A' as int + 'a' as int) as char else c
  }

  function Lower(s: string): (r: string)
    ensures |r| == |s|
    ensures forall i :: 0 <= i < |s| ==> r[i] == LowerChar(s[i])
  {
    seq(|s|, i requires 0 <= i < |s| => LowerChar(s[i]))
  }

  /** Python's `s[:n]` for a non-negative `n`. */
  function Take(s: string, n: nat): string {
    if n <= |s| then s[..n] else s
  }

  /** generate_username: `(first_name.lower()[:n] + last_name.lower())[:8]`. */
  function Candidate(first: string, last: string, n: nat): (u: string)
    ensures |u| <= 8
    ensures |u| == if n <= |first| then Min(8, n + |last|) else Min(8, |first| + |last|)
  {
    Take(Take(Lower(first), n) + Lower(last), 8)
  }

  function Min(a: int, b: int): int {
    if a <= b then a else b
  }

  /** `Member.objects.filter(username=u).exists()`. */
  predicate UsernameTaken(db: Db, u: string) {
    exists m :: m in db.members && db.members[m].username == Some(u)
  }

  /**
   * The `n` at which the loop of generate_username_password stops: the first
   * `n >= from` whose candidate is free, or the last `n` the loop tries,
   * `len(first_name) - 1`.
   */
  function FirstFree(db: Db, first: string, last: string, from: nat): (k: nat)
    requires 1 <= from < |first|
    ensures from <= k < |first|
    ensures forall j :: from <= j < k ==> UsernameTaken(db, Candidate(first, last, j))
    ensures k == |first| - 1 || !UsernameTaken(db, Candidate(first, last, k))
    decreases |first| - from
  {
    if from == |first| - 1 || !UsernameTaken(db, Candidate(first, last, from)) then from
    else FirstFree(db, first, last, from + 1)
  }

  /**
   * The username generate_username_password returns, or None when the loop
   * `for i in range(1, len(first_name))` runs no iteration: `username` is then
   * unbound and the call raises.
   */
  function GeneratedUsername(db: Db, first: string, last: string): (r: Option<string>)
    ensures r.None? <==> |first| <= 1
    ensures r.Some? ==> 1 <= |r.value| <= 8
  {
    if |first| <= 1 then None else Some(Candidate(first, last, FirstFree(db, first, last, 1)))
  }

  /** The password every generated account gets (DEFAULT_PASSWORD in the settings). */
  const DefaultPassword: string := "@42Bangkok"

  /** The loop stops at the first free candidate. */
  lemma GeneratedUsernameIsFirstFree(db: Db, first: string, last: string, k: nat)
    requires 1 <= k < |first|
    requires forall j :: 1 <= j < k ==> UsernameTaken(db, Candidate(first, last, j))
    requires !UsernameTaken(db, Candidate(first, last, k))
    ensures GeneratedUsername(db, first, last) == Some(Candidate(first, last, k))
  {
    var f := FirstFree(db, first, last, 1);
    var atF := Candidate(first, last, f);
    assert f < k ==> UsernameTaken(db, atF);
    assert f > k ==> UsernameTaken(db, Candidate(first, last, k));
  }

  /** When every candidate is taken the last one tried is returned anyway, though it is taken. */
  lemma GeneratedUsernameWhenAllTaken(db: Db, first: string, last: string)
    requires |first| >= 2
    requires forall j :: 1 <= j < |first| ==> UsernameTaken(db, Candidate(first, last, j))
    ensures GeneratedUsername(db, first, last) == Some(Candidate(first, last, |first| - 1))
    ensures UsernameTaken(db, GeneratedUsername(db, first, last).value)
  {
    var f := FirstFree(db, first, last, 1);
    var atF := Candidate(first, last, f);
    assert f < |first| - 1 ==> UsernameTaken(db, atF);
  }

  /**
   * A generated username is free unless every candidate the loop tries is
   * taken; the candidate for `n = len(first_name)` is never tried.
   */
  lemma GeneratedUsernameFreeOrExhausted(db: Db, first: string, last: string)
    requires |first| >= 2
    ensures var u := GeneratedUsername(db, first, last).value;
      !UsernameTaken(db, u)
      || forall j :: 1 <= j < |first| ==> UsernameTaken(db, Candidate(first, last, j))
  {
  }

  /** The first test of tests.py: an empty database gives "tliangso". */
  lemma GeneratedUsernameExample1()
    ensures GeneratedUsername(Empty, "Thanapol", "Liangsoonthornsit") == Some("tliangso")
  {
    var f, l := Lower("Thanapol"), Lower("Liangsoonthornsit");
    assert f[0] == 't';
    assert l[..7] == "liangso";
    assert Take(f, 1) + l == "t" + l;
    assert Candidate("Thanapol", "Liangsoonthornsit", 1) == "tliangso";
    GeneratedUsernameIsFirstFree(Empty, "Thanapol", "Liangsoonthornsit", 1);
  }

  /** The second test of tests.py: "aoudin", shorter than 8 characters. */
  lemma GeneratedUsernameExample2()
    ensures GeneratedUsername(Empty, "Armel", "Oudin") == Some("aoudin")
  {
    var f, l := Lower("Armel"), Lower("Oudin");
    assert f[..1] == "a";
    assert l == "oudin";
    assert Candidate("Armel", "Oudin", 1) == "aoudin";
    GeneratedUsernameIsFirstFree(Empty, "Armel", "Oudin", 1);
  }

  /** The third test of tests.py: "spoolpra", cut at 8 characters. */
  lemma GeneratedUsernameExample3()
    ensures GeneratedUsername(Empty, "Samboon", "Poolprasart") == Some("spoolpra")
  {
    var f, l := Lower("Samboon"), Lower("Poolprasart");
    assert f[..1] == "s";
    assert l[..7] == "poolpra";
    assert Take(f, 1) + l == "s" + l;
    assert Candidate("Samboon", "Poolprasart", 1) == "spoolpra";
    GeneratedUsernameIsFirstFree(Empty, "Samboon", "Poolprasart", 1);
  }

  /** With "tliangso" taken, the loop moves on to two letters of the first name. */
  lemma GeneratedUsernameSecondTry()
    ensures
      var db := Empty.(members := map[1 := Member(1, Some("tliangso"), ST, 1)]);
      GeneratedUsername(db, "Thanapol", "Liangsoonthornsit") == Some("thliangs")
  {
    var db := Empty.(members := map[1 := Member(1, Some("tliangso"), ST, 1)]);
    var f, l := Lower("Thanapol"), Lower("Liangsoonthornsit");
    assert f[0] == 't';
    assert f[..2] == "th";
    assert l[..7] == "liangso";
    assert Take(f, 1) + l == "t" + l;
    assert Candidate("Thanapol", "Liangsoonthornsit", 1) == "tliangso";
    assert UsernameTaken(db, "tliangso") by {
      assert db.members[1].username == Some("tliangso");
    }
    assert Candidate("Thanapol", "Liangsoonthornsit", 2) == "thliangs";
    assert !UsernameTaken(db, "thliangs");
    GeneratedUsernameIsFirstFree(db, "Thanapol", "Liangsoonthornsit", 2);
  }

  /** A one-letter first name leaves the loop without a username: the call raises. */
  lemma GeneratedUsernameOneLetter()
    ensures GeneratedUsername(Empty, "A", "Li") == None
  {
  }

  /**
   * generate_username_password: the loop over `n`, stopping at the first
   * candidate no member holds, and the constant password.
   */
  method GenerateUsernamePassword(store: Store, first: string, last: string)
    returns (username: Option<string>, password: string)
    ensures username == GeneratedUsername(store.Snapshot(), first, last)
    ensures password == DefaultPassword
  {
    username := None;
    var n := 1;
    while n < |first|
      invariant n == 1 || 1 < n <= |first|
      invariant forall j :: 1 <= j < n ==> UsernameTaken(store.Snapshot(), Candidate(first, last, j))
      invariant username == if n == 1 then None else Some(Candidate(first, last, n - 1))
    {
      username := Some(Candidate(first, last, n));
      if !UsernameTaken(store.Snapshot(), username.value) {
        GeneratedUsernameIsFirstFree(store.Snapshot(), first, last, n);
        break;
      }
      n := n + 1;
    }
    if |first| >= 2 && n == |first| {
      GeneratedUsernameWhenAllTaken(store.Snapshot(), first, last);
    }
    password := DefaultPassword;
  }

  // ---------------------------------------------------------------------------
  // create_django_user
  // ---------------------------------------------------------------------------

  /** Python truthiness of a nullable username: None and "" are false. */
  predicate NonEmptyName(u: Option<string>) {
    u.Some? && u.value != ""
  }

  /**
   * The username create_django_user gives the account, or None when the call
   * raises: it generates a username first, which raises for a first name
   * shorter than two characters even when the member already has a username;
   * a non-empty member username then replaces the generated one.
   */
  function DjangoUserName(db: Db, memberUsername: Option<string>, first: string, last: string): (r: Option<string>)
    ensures r.Some? <==> |first| >= 2
    ensures r.Some? ==> r.value != ""
    ensures r.Some? && NonEmptyName(memberUsername) ==> r == memberUsername
    ensures r.Some? && !NonEmptyName(memberUsername) ==> r == GeneratedUsername(db, first, last)
  {
    var generated := GeneratedUsername(db, first, last);
    if generated.None? then None
    else if NonEmptyName(memberUsername) then memberUsername
    else generated
  }

  /** The two tests of create_django_user: without a username, and with "earth". */
  lemma DjangoUserNameExamples()
    ensures DjangoUserName(Empty, None, "Thanapol", "Liangsoonthornsit") == Some("tliangso")
    ensures DjangoUserName(Empty, Some("earth"), "Thanapol", "Liangsoonthornsit") == Some("earth")
  {
    GeneratedUsernameExample1();
  }

  /**
   * create_django_user: creates the account, or raises when no name can be
   * generated or the account name is taken (the IntegrityError is re-raised).
   */
  method CreateDjangoUser(store: Store, memberUsername: Option<string>, first: string, last: string, isStaff: bool)
    returns (account: Option<string>)
    modifies store
    ensures var u := DjangoUserName(old(store.Snapshot()), memberUsername, first, last);
      account == if u.Some? && u.value !in old(store.accounts) then u else None
    ensures store.Snapshot() == if account.Some?
      then old(store.Snapshot()).(accounts := old(store.accounts)[account.value := isStaff])
      else old(store.Snapshot())
  {
    var username, password := GenerateUsernamePassword(store, first, last);
    if username.None? {
      return None;
    }
    if NonEmptyName(memberUsername) {
      username := memberUsername;
    }
    var ok := store.InsertAccount(username.value, isStaff);
    account := if ok then username else None;
  }

  // ---------------------------------------------------------------------------
  // get_subtype
  // ---------------------------------------------------------------------------

  /** get_subtype: the subtype table of a role code; None is the sentinel 404. */
  function GetSubtype(code: string): (r: Option<Role>)
    ensures r.Some? <==> code == "HM" || code == "TE" || code == "ST"
    ensures r.Some? ==> RoleCode(r.value) == code
  {
    if code == "HM" then Some(HM)
    else if code == "TE" then Some(TE)
    else if code == "ST" then Some(ST)
    else None
  }

  /** Every role's code maps back to that role. */
  lemma GetSubtypeRoundTrip(r: Role)
    ensures GetSubtype(RoleCode(r)) == Some(r)
  {
  }

  // ---------------------------------------------------------------------------
  // create_memberSubType
  // ---------------------------------------------------------------------------

  /** The integer codes create_memberSubType returns instead of a row. */
  datatype CreateError = SchoolMissing | HeadMasterExists | UsernameInUse | ClassMissing {
    function Code(): int {
      match this
      case SchoolMissing => 4041
      case HeadMasterExists => 4042
      case UsernameInUse => 409
      case ClassMissing => 4043
    }
  }

  /** The new subtype row's id, an error code, or an exception raised mid-way. */
  datatype CreateResult = Made(sub: Id) | Rejected(error: CreateError) | Raised

  datatype Creation = Creation(result: CreateResult, db: Db)

  /** The loop over `HeadMaster.objects.all()`: some head master has school `s`. */
  predicate HasHeadMaster(db: Db, s: Id) {
    exists h :: h in db.headmasters && db.headmasters[h].school == s
  }

  /**
   * `Member.objects.filter(username=u).exists()` with the payload's optional
   * username: a None matches the members whose username is null.
   */
  predicate UsernameFilterMatches(db: Db, u: Option<string>) {
    exists m :: m in db.members && db.members[m].username == u
  }

  function AddInfo(db: Db, p: PersonalInfo): Db {
    db.(infos := db.infos[db.next.infos := p], next := db.next.(infos := db.next.infos + 1))
  }

  function AddMember(db: Db, m: Member): Db {
    db.(members := db.members[db.next.members := m], next := db.next.(members := db.next.members + 1))
  }

  /** The id the subtype table of `role` hands out next. */
  function NextSubtypeId(db: Db, role: Role): Id {
    match role
    case HM => db.next.headmasters
    case TE => db.next.teachers
    case ST => db.next.students
  }

  /** The subtype row of a new member: HM carries the school, ST the class and intake year. */
  function AddSubtype(db: Db, role: Role, member: Id, p: SubtypeIn): Db {
    match role
    case HM =>
      db.(headmasters := db.headmasters[db.next.headmasters := HeadMaster(member, p.schoolId)],
          next := db.next.(headmasters := db.next.headmasters + 1))
    case TE =>
      db.(teachers := db.teachers[db.next.teachers := Teacher(member)],
          next := db.next.(teachers := db.next.teachers + 1))
    case ST =>
      db.(students := db.students[db.next.students := Student(member, p.intakeYear, p.classId)],
          next := db.next.(students := db.next.students + 1))
  }

  /** The database once the PersonalInfo, the Member and the subtype row are written. */
  function WithNewRows(db: Db, role: Role, p: SubtypeIn): Db {
    var d1 := AddInfo(db, p.personalInfo);
    var d2 := AddMember(d1, Member(p.schoolId, p.username, role, db.next.infos));
    AddSubtype(d2, role, db.next.members, p)
  }

  /**
   * create_memberSubType(role, payload), with account creation switched on or
   * off by `createUser`: four checks in order, each returning its code before
   * any row is written; then the rows; then the username; then the account;
   * then the final save of the member. An exception keeps the rows already
   * written.
   */
  function CreateMemberSubtypeEffect(db: Db, role: Role, p: SubtypeIn, createUser: bool): (c: Creation)
    ensures c.result == Rejected(SchoolMissing) <==> p.schoolId !in db.schools
    ensures c.result == Rejected(HeadMasterExists)
        <==> p.schoolId in db.schools && role == HM && HasHeadMaster(db, p.schoolId)
    ensures c.result == Rejected(UsernameInUse)
        <==> p.schoolId in db.schools && !(role == HM && HasHeadMaster(db, p.schoolId))
             && UsernameFilterMatches(db, p.username)
    ensures c.result == Rejected(ClassMissing)
        <==> p.schoolId in db.schools && !(role == HM && HasHeadMaster(db, p.schoolId))
             && !UsernameFilterMatches(db, p.username) && role == ST && p.classId !in db.classes
    ensures c.result.Rejected? ==> c.db == db
    ensures c.result.Made? ==> c.result.sub == NextSubtypeId(db, role)
  {
    var error := CreateCheck(db, role, p);
    if error.Some? then Creation(Rejected(error.value), db)
    else FinishCreate(WithNewRows(db, role, p), db.next.members, db.next.infos, NextSubtypeId(db, role), role, p, createUser)
  }

  /** The four checks of create_memberSubType all pass. */
  predicate CreateChecksPass(db: Db, role: Role, p: SubtypeIn) {
    && p.schoolId in db.schools
    && !(role == HM && HasHeadMaster(db, p.schoolId))
    && !UsernameFilterMatches(db, p.username)
    && !(role == ST && p.classId !in db.classes)
  }

  /** The code of the first check of create_memberSubType that fails, if any. */
  function CreateCheck(db: Db, role: Role, p: SubtypeIn): (e: Option<CreateError>)
    ensures e.None? <==> CreateChecksPass(db, role, p)
  {
    if p.schoolId !in db.schools then Some(SchoolMissing)
    else if role == HM && HasHeadMaster(db, p.schoolId) then Some(HeadMasterExists)
    else if UsernameFilterMatches(db, p.username) then Some(UsernameInUse)
    else if role == ST && p.classId !in db.classes then Some(ClassMissing)
    else None
  }

  /**
   * The part of create_memberSubType after the rows are written, on the
   * database `d` holding them: member `mem` with PersonalInfo `info`, and
   * subtype row `sub`. The username is generated when the payload has none,
   * the account is created, and the member is saved with the final username.
   */
  function FinishCreate(d: Db, mem: Id, info: Id, sub: Id, role: Role, p: SubtypeIn, createUser: bool): (c: Creation)
    ensures c.result == Made(sub) || c.result == Raised
  {
    var first, last := p.personalInfo.firstName, p.personalInfo.lastName;
    var name := if NonEmptyName(p.username) then p.username else GeneratedUsername(d, first, last);
    if name.None? then Creation(Raised, d)
    else
      var account := DjangoUserName(d, name, first, last);
      if createUser && (account.None? || account.value in d.accounts) then Creation(Raised, d)
      else
        var d4 := if createUser then d.(accounts := d.accounts[account.value := role != ST]) else d;
        var final := if createUser then account else name;
        if UsernameHeldByOther(d4, mem, final) then Creation(Raised, d4)
        else Creation(Made(sub), d4.(members := d4.members[mem := Member(p.schoolId, final, role, info)]))
  }

  /** The username a created member ends up with: the payload's when non-empty, else a generated one. */
  function ExpectedUsername(db: Db, p: SubtypeIn): Option<string> {
    if NonEmptyName(p.username) then p.username
    else GeneratedUsername(db, p.personalInfo.firstName, p.personalInfo.lastName)
  }

  /** Generation only asks which non-empty usernames are taken. */
  lemma {:induction false} FirstFreeDependsOnTaken(db1: Db, db2: Db, first: string, last: string, from: nat)
    requires 1 <= from < |first|
    requires forall u :: u != "" ==> (UsernameTaken(db1, u) <==> UsernameTaken(db2, u))
    ensures FirstFree(db1, first, last, from) == FirstFree(db2, first, last, from)
    decreases |first| - from
  {
    assert Candidate(first, last, from) != "";
    if from < |first| - 1 {
      FirstFreeDependsOnTaken(db1, db2, first, last, from + 1);
    }
  }

  lemma GeneratedUsernameDependsOnTaken(db1: Db, db2: Db, first: string, last: string)
    requires forall u :: u != "" ==> (UsernameTaken(db1, u) <==> UsernameTaken(db2, u))
    ensures GeneratedUsername(db1, first, last) == GeneratedUsername(db2, first, last)
  {
    if |first| >= 2 {
      FirstFreeDependsOnTaken(db1, db2, first, last, 1);
    }
  }

  /**
   * The rows written before the username is settled do not change which
   * non-empty usernames are taken when the payload's username is null or empty.
   */
  lemma NewRowsKeepTakenNames(db: Db, role: Role, p: SubtypeIn)
    requires KeysBelowNext(db)
    requires !NonEmptyName(p.username)
    ensures forall u :: u != "" ==> (UsernameTaken(WithNewRows(db, role, p), u) <==> UsernameTaken(db, u))
  {
    var d3 := WithNewRows(db, role, p);
    assert d3.members == db.members[db.next.members := Member(p.schoolId, p.username, role, db.next.infos)];
    forall u | u != ""
      ensures UsernameTaken(d3, u) <==> UsernameTaken(db, u)
    {
      if UsernameTaken(db, u) {
        var m :| m in db.members && db.members[m].username == Some(u);
        assert d3.members[m] == db.members[m];
      }
    }
  }

  /** The name FinishCreate settles on before the account: the payload's, or a generated one. */
  function SettledName(d: Db, p: SubtypeIn): Option<string> {
    if NonEmptyName(p.username) then p.username
    else GeneratedUsername(d, p.personalInfo.firstName, p.personalInfo.lastName)
  }

  /** What FinishCreate does, case by case. */
  lemma FinishCreateCases(d: Db, mem: Id, info: Id, sub: Id, role: Role, p: SubtypeIn, createUser: bool)
    ensures var c := FinishCreate(d, mem, info, sub, role, p, createUser);
      var u := SettledName(d, p);
      var first := p.personalInfo.firstName;
      var d4 := if createUser && u.Some? then d.(accounts := d.accounts[u.value := role != ST]) else d;
      && (u.None? ==> c == Creation(Raised, d))
      && (u.Some? && createUser && (|first| <= 1 || u.value in d.accounts) ==> c == Creation(Raised, d))
      && (u.Some? && !(createUser && (|first| <= 1 || u.value in d.accounts)) ==>
            c == if UsernameHeldByOther(d, mem, u) then Creation(Raised, d4)
                 else Creation(Made(sub), d4.(members := d.members[mem := Member(p.schoolId, u, role, info)])))
  {
  }

  /**
   * A successful create writes exactly one PersonalInfo, one Member and one
   * row of the role's subtype table under the next keys, and, when accounts
   * are created, one account named like the member, staff unless a student.
   */
  lemma CreateMemberSubtypeMade(db: Db, role: Role, p: SubtypeIn, createUser: bool)
    requires KeysBelowNext(db)
    requires CreateMemberSubtypeEffect(db, role, p, createUser).result.Made?
    ensures var c := CreateMemberSubtypeEffect(db, role, p, createUser);
      var u := ExpectedUsername(db, p);
      && u.Some? && u.value != ""
      && c.db.schools == db.schools && c.db.classes == db.classes
      && c.db.infos == db.infos[db.next.infos := p.personalInfo]
      && c.db.members == db.members[db.next.members := Member(p.schoolId, u, role, db.next.infos)]
      && c.db.headmasters == (if role == HM
           then db.headmasters[db.next.headmasters := HeadMaster(db.next.members, p.schoolId)]
           else db.headmasters)
      && c.db.teachers == (if role == TE then db.teachers[db.next.teachers := Teacher(db.next.members)] else db.teachers)
      && c.db.students == (if role == ST
           then db.students[db.next.students := Student(db.next.members, p.intakeYear, p.classId)]
           else db.students)
      && c.db.accounts == (if createUser then db.accounts[u.value := role != ST] else db.accounts)
  {
    var d3 := WithNewRows(db, role, p);
    var mem, info, sub := db.next.members, db.next.infos, NextSubtypeId(db, role);
    var c := CreateMemberSubtypeEffect(db, role, p, createUser);
    var u := ExpectedUsername(db, p);
    assert SettledName(d3, p) == u by {
      if !NonEmptyName(p.username) {
        NewRowsKeepTakenNames(db, role, p);
        GeneratedUsernameDependsOnTaken(d3, db, p.personalInfo.firstName, p.personalInfo.lastName);
      }
    }
    var d4 := if createUser then d3.(accounts := d3.accounts[u.value := role != ST]) else d3;
    assert c.db == d4.(members := d3.members[mem := Member(p.schoolId, u, role, info)]) by {
      assert c == FinishCreate(d3, mem, info, sub, role, p, createUser);
      FinishCreateCases(d3, mem, info, sub, role, p, createUser);
    }
    WithNewRowsFields(db, role, p);
  }

  /** The rows WithNewRows adds, table by table. */
  lemma WithNewRowsFields(db: Db, role: Role, p: SubtypeIn)
    ensures var d3 := WithNewRows(db, role, p);
      && d3.schools == db.schools && d3.classes == db.classes && d3.accounts == db.accounts
      && d3.infos == db.infos[db.next.infos := p.personalInfo]
      && d3.members == db.members[db.next.members := Member(p.schoolId, p.username, role, db.next.infos)]
      && d3.headmasters == (if role == HM
           then db.headmasters[db.next.headmasters := HeadMaster(db.next.members, p.schoolId)]
           else db.headmasters)
      && d3.teachers == (if role == TE then db.teachers[db.next.teachers := Teacher(db.next.members)] else db.teachers)
      && d3.students == (if role == ST
           then db.students[db.next.students := Student(db.next.members, p.intakeYear, p.classId)]
           else db.students)
  {
  }

  /**
   * Once the four checks pass, the call raises exactly when no username can
   * be generated, when an account cannot be created (a first name shorter
   * than two characters, or an account of that name exists), or when the
   * generated username is already a member's.
   */
  lemma CreateMemberSubtypeRaises(db: Db, role: Role, p: SubtypeIn, createUser: bool)
    requires KeysBelowNext(db)
    requires p.schoolId in db.schools && !(role == HM && HasHeadMaster(db, p.schoolId))
    requires !UsernameFilterMatches(db, p.username) && !(role == ST && p.classId !in db.classes)
    ensures var c := CreateMemberSubtypeEffect(db, role, p, createUser);
      var u := ExpectedUsername(db, p);
      && (c.result.Made? || c.result.Raised?)
      && (c.result.Raised? <==>
           || (|p.personalInfo.firstName| <= 1 && (createUser || !NonEmptyName(p.username)))
           || (u.Some? && createUser && u.value in db.accounts)
           || (u.Some? && !NonEmptyName(p.username) && UsernameTaken(db, u.value)))
  {
    var d3 := WithNewRows(db, role, p);
    var mem, info, sub := db.next.members, db.next.infos, NextSubtypeId(db, role);
    assert CreateMemberSubtypeEffect(db, role, p, createUser) == FinishCreate(d3, mem, info, sub, role, p, createUser);
    FinishCreateCases(d3, mem, info, sub, role, p, createUser);
    assert d3.members == db.members[mem := Member(p.schoolId, p.username, role, info)];
    assert d3.accounts == db.accounts;
    var u := ExpectedUsername(db, p);
    if !NonEmptyName(p.username) {
      NewRowsKeepTakenNames(db, role, p);
      GeneratedUsernameDependsOnTaken(d3, db, p.personalInfo.firstName, p.personalInfo.lastName);
      assert SettledName(d3, p) == u;
      if u.Some? {
        assert UsernameTaken(db, u.value) <==> UsernameHeldByOther(d3, mem, u) by {
          if UsernameTaken(db, u.value) {
            var m :| m in db.members && db.members[m].username == u;
            assert d3.members[m] == db.members[m];
          }
        }
      }
    } else {
      assert SettledName(d3, p) == u;
    }
  }

  /**
   * An exception after the checks leaves the PersonalInfo and the Member
   * already created, the member still carrying the payload's username.
   */
  lemma CreateMemberSubtypeCrashKeepsRows(db: Db, role: Role, p: SubtypeIn, createUser: bool)
    requires CreateMemberSubtypeEffect(db, role, p, createUser).result.Raised?
    ensures var c := CreateMemberSubtypeEffect(db, role, p, createUser);
      && c.db.infos == db.infos[db.next.infos := p.personalInfo]
      && c.db.members == db.members[db.next.members := Member(p.schoolId, p.username, role, db.next.infos)]
      && c.db.next.members == db.next.members + 1
  {
  }

  lemma WithNewRowsKeysBelowNext(db: Db, role: Role, p: SubtypeIn)
    requires KeysBelowNext(db)
    ensures KeysBelowNext(WithNewRows(db, role, p))
  {
    WithNewRowsFields(db, role, p);
  }

  lemma WithNewRowsLinked(db: Db, role: Role, p: SubtypeIn)
    requires Linked(db) && CreateChecksPass(db, role, p)
    ensures Linked(WithNewRows(db, role, p))
  {
    WithNewRowsFields(db, role, p);
  }

  lemma WithNewRowsOneHeadMasterPerSchool(db: Db, role: Role, p: SubtypeIn)
    requires KeysBelowNext(db) && OneHeadMasterPerSchool(db) && CreateChecksPass(db, role, p)
    ensures OneHeadMasterPerSchool(WithNewRows(db, role, p))
  {
    WithNewRowsFields(db, role, p);
  }

  lemma WithNewRowsOneMemberPerInfo(db: Db, role: Role, p: SubtypeIn)
    requires KeysBelowNext(db) && Linked(db) && OneMemberPerInfo(db)
    ensures OneMemberPerInfo(WithNewRows(db, role, p))
  {
    WithNewRowsFields(db, role, p);
  }

  lemma WithNewRowsUniqueUsernames(db: Db, role: Role, p: SubtypeIn)
    requires KeysBelowNext(db) && UniqueUsernames(db) && CreateChecksPass(db, role, p)
    ensures UniqueUsernames(WithNewRows(db, role, p))
  {
    var d3 := WithNewRows(db, role, p);
    WithNewRowsFields(db, role, p);
    var mem := db.next.members;
    forall m1, m2 | m1 in d3.members && m2 in d3.members
      && d3.members[m1].username.Some? && d3.members[m1].username == d3.members[m2].username
      ensures m1 == m2
    {
      if m1 != mem && m2 != mem {
        assert d3.members[m1] == db.members[m1] && d3.members[m2] == db.members[m2];
      }
    }
  }

  /** A new head master row's member is the fresh member, whose role is HM. */
  lemma NewHeadMasterMatchesRole(db: Db, p: SubtypeIn)
    requires SubtypesMatchRoles(db) && FreshKeysUnused(db)
    ensures SubtypesMatchRoles(WithNewRows(db, HM, p))
  {
    var d3 := WithNewRows(db, HM, p);
    var mem := db.next.members;
    assert d3.members == db.members[mem := Member(p.schoolId, p.username, HM, db.next.infos)];
    assert d3.headmasters == db.headmasters[db.next.headmasters := HeadMaster(mem, p.schoolId)];
    assert d3.teachers == db.teachers && d3.students == db.students;
  }

  /** A new teacher row's member is the fresh member, whose role is TE. */
  lemma NewTeacherMatchesRole(db: Db, p: SubtypeIn)
    requires SubtypesMatchRoles(db) && FreshKeysUnused(db)
    ensures SubtypesMatchRoles(WithNewRows(db, TE, p))
  {
    var d3 := WithNewRows(db, TE, p);
    var mem := db.next.members;
    assert d3.members == db.members[mem := Member(p.schoolId, p.username, TE, db.next.infos)];
    assert d3.teachers == db.teachers[db.next.teachers := Teacher(mem)];
    assert d3.headmasters == db.headmasters && d3.students == db.students;
  }

  /** A new student row's member is the fresh member, whose role is ST. */
  lemma NewStudentMatchesRole(db: Db, p: SubtypeIn)
    requires SubtypesMatchRoles(db) && FreshKeysUnused(db)
    ensures SubtypesMatchRoles(WithNewRows(db, ST, p))
  {
    var d3 := WithNewRows(db, ST, p);
    var mem := db.next.members;
    assert d3.members == db.members[mem := Member(p.schoolId, p.username, ST, db.next.infos)];
    assert d3.students == db.students[db.next.students := Student(mem, p.intakeYear, p.classId)];
    assert d3.headmasters == db.headmasters && d3.teachers == db.teachers;
  }

  /** The keys the create writes under are unused, and no subtype row refers to the new member. */
  ghost predicate FreshKeysUnused(db: Db) {
    && db.next.members !in db.members
    && db.next.headmasters !in db.headmasters
    && db.next.teachers !in db.teachers
    && db.next.students !in db.students
    && (forall h :: h in db.headmasters ==> db.headmasters[h].member != db.next.members)
    && (forall t :: t in db.teachers ==> db.teachers[t].member != db.next.members)
    && (forall x :: x in db.students ==> db.students[x].member != db.next.members)
  }

  lemma FreshKeysAreUnused(db: Db)
    requires KeysBelowNext(db) && Linked(db)
    ensures FreshKeysUnused(db)
  {
  }

  /** The rows written before the username is settled keep the invariant once the four checks pass. */
  lemma WithNewRowsConsistent(db: Db, role: Role, p: SubtypeIn)
    requires Consistent(db) && CreateChecksPass(db, role, p)
    ensures Consistent(WithNewRows(db, role, p))
  {
    WithNewRowsKeysBelowNext(db, role, p);
    WithNewRowsLinked(db, role, p);
    WithNewRowsOneHeadMasterPerSchool(db, role, p);
    WithNewRowsOneMemberPerInfo(db, role, p);
    WithNewRowsUniqueUsernames(db, role, p);
    FreshKeysAreUnused(db);
    match role {
      case HM => NewHeadMasterMatchesRole(db, p);
      case TE => NewTeacherMatchesRole(db, p);
      case ST => NewStudentMatchesRole(db, p);
    }
  }

  /** The steps after the row writes keep the invariant. */
  lemma FinishCreateConsistent(d: Db, mem: Id, info: Id, sub: Id, role: Role, p: SubtypeIn, createUser: bool)
    requires Consistent(d) && mem in d.members && d.members[mem] == Member(p.schoolId, p.username, role, info)
    ensures Consistent(FinishCreate(d, mem, info, sub, role, p, createUser).db)
  {
    FinishCreateCases(d, mem, info, sub, role, p, createUser);
    var u := SettledName(d, p);
    if u.Some? && !(createUser && (|p.personalInfo.firstName| <= 1 || u.value in d.accounts)) {
      var d4 := if createUser then d.(accounts := d.accounts[u.value := role != ST]) else d;
      AccountsDoNotMatter(d, d4.accounts);
      assert d4 == d.(accounts := d4.accounts);
      if !UsernameHeldByOther(d, mem, u) {
        SaveMemberConsistent(d4, mem, Member(p.schoolId, u, role, info));
      }
    }
  }

  /** create_memberSubType keeps the invariant, whether it succeeds, is rejected or raises. */
  lemma CreateMemberSubtypeConsistent(db: Db, role: Role, p: SubtypeIn, createUser: bool)
    requires Consistent(db)
    ensures Consistent(CreateMemberSubtypeEffect(db, role, p, createUser).db)
  {
    if CreateChecksPass(db, role, p) {
      var d3 := WithNewRows(db, role, p);
      var mem, info, sub := db.next.members, db.next.infos, NextSubtypeId(db, role);
      WithNewRowsConsistent(db, role, p);
      WithNewRowsFields(db, role, p);
      assert CreateMemberSubtypeEffect(db, role, p, createUser) == FinishCreate(d3, mem, info, sub, role, p, createUser);
      FinishCreateConsistent(d3, mem, info, sub, role, p, createUser);
    }
  }

  /**
   * create_memberSubType on the store: the checks (the head-master check as
   * the source's scan over all head masters), then the row writes, the
   * username, the account and the final save.
   */
  method CreateMemberSubtype(store: Store, role: Role, p: SubtypeIn, createUser: bool) returns (result: CreateResult)
    requires store.Valid()
    modifies store
    ensures Creation(result, store.Snapshot()) == CreateMemberSubtypeEffect(old(store.Snapshot()), role, p, createUser)
    ensures store.Valid()
  {
    ghost var db := store.Snapshot();
    CreateMemberSubtypeConsistent(db, role, p, createUser);
    var error := CheckCreate(store, role, p);
    if error.Some? {
      return Rejected(error.value);
    }
    var mem, info, sub := WriteNewRows(store, role, p);
    result := FinishCreating(store, mem, info, sub, role, p, createUser);
  }

  /** The four checks, the head-master one as the source's scan over all head masters. */
  method CheckCreate(store: Store, role: Role, p: SubtypeIn) returns (error: Option<CreateError>)
    requires KeysBelowNext(store.Snapshot())
    ensures error == CreateCheck(store.Snapshot(), role, p)
  {
    if p.schoolId !in store.schools {
      return Some(SchoolMissing);
    }
    if role == HM {
      var h := 0;
      while h < store.next.headmasters
        invariant 0 <= h <= store.next.headmasters
        invariant forall k :: k in store.headmasters && k < h ==> store.headmasters[k].school != p.schoolId
      {
        if h in store.headmasters && store.headmasters[h].school == p.schoolId {
          return Some(HeadMasterExists);
        }
        h := h + 1;
      }
    }
    if UsernameFilterMatches(store.Snapshot(), p.username) {
      return Some(UsernameInUse);
    }
    if role == ST && p.classId !in store.classes {
      return Some(ClassMissing);
    }
    error := None;
  }

  /** PersonalInfo.objects.create, Member.objects.create and the subtype's objects.create. */
  method WriteNewRows(store: Store, role: Role, p: SubtypeIn) returns (mem: Id, info: Id, sub: Id)
    modifies store
    ensures mem == old(store.next.members) && info == old(store.next.infos)
    ensures sub == NextSubtypeId(old(store.Snapshot()), role)
    ensures store.Snapshot() == WithNewRows(old(store.Snapshot()), role, p)
  {
    info := store.InsertInfoRow(p.personalInfo);
    mem := store.InsertMemberRow(Member(p.schoolId, p.username, role, info));
    match role {
      case HM => sub := store.InsertHeadMasterRow(HeadMaster(mem, p.schoolId));
      case TE => sub := store.InsertTeacherRow(Teacher(mem));
      case ST => sub := store.InsertStudentRow(Student(mem, p.intakeYear, p.classId));
    }
  }

  /** The username, the account and the final save of the member. */
  method FinishCreating(store: Store, mem: Id, info: Id, sub: Id, role: Role, p: SubtypeIn, createUser: bool)
    returns (result: CreateResult)
    modifies store
    ensures Creation(result, store.Snapshot()) == FinishCreate(old(store.Snapshot()), mem, info, sub, role, p, createUser)
  {
    ghost var d := store.Snapshot();
    var first, last := p.personalInfo.firstName, p.personalInfo.lastName;
    var name := p.username;
    if !NonEmptyName(name) {
      var password;
      name, password := GenerateUsernamePassword(store, first, last);
      if name.None? {
        return Raised;
      }
    }
    assert name == SettledName(d, p);
    if createUser {
      name := CreateDjangoUser(store, name, first, last, role != ST);
      if name.None? {
        return Raised;
      }
    }
    var saved := store.SaveMemberRow(mem, Member(p.schoolId, name, role, info));
    result := if saved then Made(sub) else Raised;
  }

  // ---------------------------------------------------------------------------
  // delete_memberSubType
  // ---------------------------------------------------------------------------

  /** A row of one of the three member subtype tables. */
  datatype SubtypeRow = HeadMasterRow(id: Id) | TeacherRow(id: Id) | StudentRow(id: Id)

  predicate RowExists(db: Db, row: SubtypeRow) {
    match row
    case HeadMasterRow(h) => h in db.headmasters
    case TeacherRow(t) => t in db.teachers
    case StudentRow(x) => x in db.students
  }

  /** The member a subtype row belongs to. */
  function RowMember(db: Db, row: SubtypeRow): Id
    requires RowExists(db, row)
  {
    match row
    case HeadMasterRow(h) => db.headmasters[h].member
    case TeacherRow(t) => db.teachers[t].member
    case StudentRow(x) => db.students[x].member
  }

  /** `memberSubType.delete()`, with what cascades from the row. */
  function DropRow(db: Db, row: SubtypeRow): (r: Db)
    ensures !RowExists(r, row)
    ensures r.members == db.members && r.infos == db.infos && r.accounts == db.accounts
  {
    match row
    case HeadMasterRow(h) => DropHeadMasters(db, {h})
    case TeacherRow(t) => DropTeachers(db, {t})
    case StudentRow(x) => DropStudents(db, {x})
  }

  /** Deleting a subtype row only deletes, and leaves no foreign key dangling. */
  lemma DropRowSound(db: Db, row: SubtypeRow)
    ensures SubDb(DropRow(db, row), db)
    ensures Linked(db) ==> Linked(DropRow(db, row))
  {
    match row
    case HeadMasterRow(h) => DropHeadMastersSound(db, {h});
    case TeacherRow(t) => DropTeachersSound(db, {t});
    case StudentRow(x) => DropStudentsSound(db, {x});
  }

  /**
   * delete_memberSubType: looks the account up by the member's username, then
   * deletes the subtype row, the member, the member's PersonalInfo and the
   * account, in that order.
   */
  function DeleteMemberSubtypeEffect(db: Db, row: SubtypeRow): (r: Db)
    requires RowExists(db, row) && RowMember(db, row) in db.members
    ensures !RowExists(r, row)
    ensures RowMember(db, row) !in r.members
    ensures db.members[RowMember(db, row)].personalInfo !in r.infos
    ensures r.schools == db.schools
    ensures var u := db.members[RowMember(db, row)].username;
      r.accounts == if u.Some? then db.accounts - {u.value} else db.accounts
  {
    var member := db.members[RowMember(db, row)];
    var accounts := AccountsWithout(db.accounts, member.username);
    var d1 := DropRow(db, row);
    var d2 := DropMembers(d1, {RowMember(db, row)});
    var d3 := DropInfos(d2, {member.personalInfo});
    d3.(accounts := accounts)
  }

  /** delete_memberSubType only deletes, and leaves no foreign key dangling. */
  lemma DeleteMemberSubtypeSound(db: Db, row: SubtypeRow)
    requires RowExists(db, row) && RowMember(db, row) in db.members
    ensures SubDb(DeleteMemberSubtypeEffect(db, row), db)
    ensures Linked(db) ==> Linked(DeleteMemberSubtypeEffect(db, row))
  {
    var member := db.members[RowMember(db, row)];
    var accounts := AccountsWithout(db.accounts, member.username);
    var d1 := DropRow(db, row);
    var d2 := DropMembers(d1, {RowMember(db, row)});
    var d3 := DropInfos(d2, {member.personalInfo});
    DropRowSound(db, row);
    DropMembersSound(d1, {RowMember(db, row)});
    DropInfosSound(d2, {member.personalInfo});
    SubDbTransitive(d2, d1, db);
    SubDbTransitive(d3, d2, db);
    ReplaceAccounts(d3, accounts);
    SubDbTransitive(d3.(accounts := accounts), d3, db);
  }

  /**
   * The accounts once the member's account, looked up by the member's
   * username, is deleted; a null username finds no account.
   */
  function AccountsWithout(accounts: map<string, bool>, u: Option<string>): (r: map<string, bool>)
    ensures r == if u.Some? then accounts - {u.value} else accounts
    ensures SubMap(r, accounts)
  {
    if u.Some? && u.value in accounts then accounts - {u.value} else accounts
  }

  /** delete_memberSubType keeps the invariant. */
  lemma DeleteMemberSubtypeConsistent(db: Db, row: SubtypeRow)
    requires Consistent(db) && RowExists(db, row)
    ensures Consistent(DeleteMemberSubtypeEffect(db, row)) && SubDb(DeleteMemberSubtypeEffect(db, row), db)
  {
    assert RowMember(db, row) in db.members;
    DeleteMemberSubtypeSound(db, row);
    SubDbConsistent(DeleteMemberSubtypeEffect(db, row), db);
  }

  /** Once its subtype row is gone, no subtype row refers to the member. */
  lemma DroppedRowWasTheOnlyOne(db: Db, row: SubtypeRow)
    requires RowExists(db, row) && RowMember(db, row) in db.members && SubtypesMatchRoles(db)
    ensures var d1 := DropRow(db, row);
      var m := RowMember(db, row);
      && (forall h :: h in d1.headmasters ==> d1.headmasters[h].member != m)
      && (forall t :: t in d1.teachers ==> d1.teachers[t].member != m)
      && (forall x :: x in d1.students ==> d1.students[x].member != m)
  {
    var m := RowMember(db, row);
    match row {
      case HeadMasterRow(h) =>
        assert db.members[m].role == HM;
      case TeacherRow(t) =>
        assert db.members[m].role == TE;
        assert forall c :: c in DropRow(db, row).students ==> c in db.students;
      case StudentRow(x) =>
        assert db.members[m].role == ST;
    }
  }

  /**
   * On a database where a member has one subtype row and a PersonalInfo one
   * member, the member cascade and the PersonalInfo cascade remove nothing
   * beyond the member and its PersonalInfo.
   */
  lemma DeleteMemberSubtypeShape(db: Db, row: SubtypeRow)
    requires RowExists(db, row) && RowMember(db, row) in db.members
    requires SubtypesMatchRoles(db) && OneMemberPerInfo(db)
    ensures var m := RowMember(db, row);
      var member := db.members[m];
      DeleteMemberSubtypeEffect(db, row)
        == DropRow(db, row).(members := db.members - {m}, infos := db.infos - {member.personalInfo},
                             accounts := AccountsWithout(db.accounts, member.username))
  {
    var m := RowMember(db, row);
    var member := db.members[m];
    var d1 := DropRow(db, row);
    DroppedRowWasTheOnlyOne(db, row);
    DropUnreferencedMembers(d1, {m});
    var d2 := DropMembers(d1, {m});
    assert d2 == d1.(members := db.members - {m});
    assert forall k :: k in d2.members ==> d2.members[k].personalInfo != member.personalInfo by {
      forall k | k in d2.members
        ensures d2.members[k].personalInfo != member.personalInfo
      {
        assert k in db.members && k != m && d2.members[k] == db.members[k];
      }
    }
    DropUnownedInfos(d2, {member.personalInfo});
  }

  /**
   * On a consistent database exactly one member and one PersonalInfo go: the
   * member's other rows are its one subtype row, and no other member shares
   * its PersonalInfo.
   */
  lemma DeleteMemberSubtypeRemovesOneMember(db: Db, row: SubtypeRow)
    requires Consistent(db) && RowExists(db, row)
    ensures var r := DeleteMemberSubtypeEffect(db, row);
      var m := RowMember(db, row);
      && r.members == db.members - {m}
      && r.infos == db.infos - {db.members[m].personalInfo}
  {
    DeleteMemberSubtypeShape(db, row);
  }

  /** Deleting a head master's or a student's row removes that row and nothing else of the subtype tables. */
  lemma DeleteMemberSubtypeLeavesOtherRows(db: Db, row: SubtypeRow)
    requires Consistent(db) && RowExists(db, row) && !row.TeacherRow?
    ensures var r := DeleteMemberSubtypeEffect(db, row);
      && r.headmasters == (if row.HeadMasterRow? then db.headmasters - {row.id} else db.headmasters)
      && r.students == (if row.StudentRow? then db.students - {row.id} else db.students)
      && r.teachers == db.teachers && r.classes == db.classes
  {
    DeleteMemberSubtypeShape(db, row);
  }

  /**
   * Deleting a teacher's row also deletes the teacher's classes and the
   * students of those classes, but not those students' members.
   */
  lemma DeleteTeacherRowCascade(db: Db, t: Id)
    requires Consistent(db) && t in db.teachers
    ensures var r := DeleteMemberSubtypeEffect(db, TeacherRow(t));
      && r.teachers == db.teachers - {t}
      && r.classes == db.classes - ClassesOfTeachers(db, {t})
      && r.students == db.students - StudentsOfClasses(db, ClassesOfTeachers(db, {t}))
      && r.headmasters == db.headmasters
  {
    DeleteMemberSubtypeShape(db, TeacherRow(t));
    var cs := ClassesOfTeachers(db, {t});
    var d1 := DropClasses(db, cs);
    assert d1 == DropStudents(db, StudentsOfClasses(db, cs)).(classes := db.classes - cs);
  }

  /** delete_memberSubType on the store. */
  method DeleteMemberSubtype(store: Store, row: SubtypeRow)
    requires store.Valid() && RowExists(store.Snapshot(), row)
    modifies store
    ensures store.Snapshot() == DeleteMemberSubtypeEffect(old(store.Snapshot()), row)
    ensures store.Valid()
  {
    DeleteMemberSubtypeConsistent(store.Snapshot(), row);
    var m := RowMember(store.Snapshot(), row);
    var member := store.members[m];
    var hasUser := member.username.Some? && member.username.value in store.accounts;
    ghost var accounts := AccountsWithout(store.accounts, member.username);
    match row {
      case HeadMasterRow(h) => store.DeleteHeadMasterRow(h);
      case TeacherRow(t) => store.DeleteTeacherRow(t);
      case StudentRow(x) => store.DeleteStudentRow(x);
    }
    store.DeleteMemberRow(m);
    store.DeleteInfoRow(member.personalInfo);
    if hasUser {
      store.DeleteAccount(member.username.value);
    }
  }

  /** One `delete_memberSubType` of a loop; a row an earlier delete already removed is passed over. */
  function DeleteStep(db: Db, row: SubtypeRow): (r: Db)
    ensures RowExists(db, row) && RowMember(db, row) in db.members ==> !RowExists(r, row)
    ensures !(RowExists(db, row) && RowMember(db, row) in db.members) ==> r == db
  {
    if RowExists(db, row) && RowMember(db, row) in db.members then DeleteMemberSubtypeEffect(db, row) else db
  }

  /** One step of the loop only deletes, and leaves no foreign key dangling. */
  lemma DeleteStepSound(db: Db, row: SubtypeRow)
    ensures SubDb(DeleteStep(db, row), db)
    ensures Linked(db) ==> Linked(DeleteStep(db, row))
  {
    if RowExists(db, row) && RowMember(db, row) in db.members {
      DeleteMemberSubtypeSound(db, row);
    }
  }

  /** `for row in rows: delete_memberSubType(row)`; it only deletes. */
  function DeleteRows(db: Db, rows: seq<SubtypeRow>): (r: Db)
    ensures SubDb(r, db)
    decreases |rows|
  {
    if rows == [] then db
    else
      var d := DeleteRows(db, rows[..|rows| - 1]);
      DeleteStepSound(d, rows[|rows| - 1]);
      SubDbTransitive(DeleteStep(d, rows[|rows| - 1]), d, db);
      DeleteStep(d, rows[|rows| - 1])
  }

  /** A loop of deletes leaves no foreign key dangling. */
  lemma {:induction false} DeleteRowsSound(db: Db, rows: seq<SubtypeRow>)
    ensures Linked(db) ==> Linked(DeleteRows(db, rows))
    decreases |rows|
  {
    if rows != [] {
      var d := DeleteRows(db, rows[..|rows| - 1]);
      DeleteRowsSound(db, rows[..|rows| - 1]);
      DeleteStepSound(d, rows[|rows| - 1]);
    }
  }

  /** A loop of deletes keeps the invariant. */
  lemma DeleteRowsConsistent(db: Db, rows: seq<SubtypeRow>)
    requires Consistent(db)
    ensures Consistent(DeleteRows(db, rows))
  {
    DeleteRowsSound(db, rows);
    SubDbConsistent(DeleteRows(db, rows), db);
  }

  /** A step deletes its row when no foreign key dangles. */
  lemma StepRemoves(db: Db, row: SubtypeRow)
    requires Linked(db)
    ensures !RowExists(DeleteStep(db, row), row)
  {
  }

  /** A step never brings back a row that is gone. */
  lemma StepKeepsGone(db: Db, row: SubtypeRow, other: SubtypeRow)
    requires !RowExists(db, other)
    ensures !RowExists(DeleteStep(db, row), other)
  {
    var r := DeleteStep(db, row);
    DeleteStepSound(db, row);
    assert SubMap(r.headmasters, db.headmasters) && SubMap(r.teachers, db.teachers) && SubMap(r.students, db.students);
  }

  /** A row of the list that still exists in the database is gone afterwards. */
  lemma {:induction false} DeleteRowsRemoves(db: Db, rows: seq<SubtypeRow>, i: nat)
    requires i < |rows|
    requires Linked(db)
    ensures !RowExists(DeleteRows(db, rows), rows[i])
    decreases |rows|
  {
    var init := rows[..|rows| - 1];
    var d := DeleteRows(db, init);
    assert DeleteRows(db, rows) == DeleteStep(d, rows[|rows| - 1]);
    if i < |rows| - 1 {
      assert init[i] == rows[i];
      DeleteRowsRemoves(db, init, i);
      StepKeepsGone(d, rows[|rows| - 1], rows[i]);
    } else {
      DeleteRowsSound(db, init);
      StepRemoves(d, rows[i]);
    }
  }

  /** One StudentRow per student id. */
  function StudentRows(xs: seq<Id>): (rows: seq<SubtypeRow>)
    ensures |rows| == |xs| && forall i :: 0 <= i < |xs| ==> rows[i] == StudentRow(xs[i])
  {
    seq(|xs|, i requires 0 <= i < |xs| => StudentRow(xs[i]))
  }

  /** The members of the students `xs`. */
  function MembersOfStudents(db: Db, xs: set<Id>): set<Id> {
    set x | x in xs && x in db.students :: db.students[x].member
  }

  /** The ids a list holds. */
  function IdSet(xs: seq<Id>): set<Id> {
    set y | y in xs
  }

  lemma MapMinusTwice<K, V>(m: map<K, V>, a: set<K>, b: set<K>)
    ensures (m - a) - b == m - (a + b)
  {
  }

  lemma IdSetSnoc(xs: seq<Id>)
    requires xs != []
    ensures IdSet(xs) == IdSet(xs[..|xs| - 1]) + {xs[|xs| - 1]}
  {
    assert xs == xs[..|xs| - 1] + [xs[|xs| - 1]];
  }

  lemma MembersOfStudentsAdd(db: Db, done: set<Id>, x: Id)
    requires x in db.students
    ensures MembersOfStudents(db, done + {x}) == MembersOfStudents(db, done) + {db.students[x].member}
  {
  }

  /**
   * The database once the students `done` and their members are deleted from
   * `db`, every other table of rows as in `db`.
   */
  ghost predicate StudentsDeleted(d: Db, db: Db, done: set<Id>) {
    && d.students == db.students - done
    && d.members == db.members - MembersOfStudents(db, done)
    && d.headmasters == db.headmasters && d.teachers == db.teachers && d.classes == db.classes
    && d.schools == db.schools
    && LoginsDeleted(d, db, MembersOfStudents(db, done))
  }

  /** The PersonalInfo rows and the accounts of the members `ms` of `db` are gone, and no other. */
  ghost predicate LoginsDeleted(d: Db, db: Db, ms: set<Id>) {
    && d.infos == db.infos - InfosOfMembers(db, ms)
    && d.accounts == db.accounts - UsernamesOfMembers(db, ms)
  }

  /** Deleting the PersonalInfo row and the account of one more member `m`. */
  lemma LoginsDeletedGrows(d: Db, r: Db, db: Db, ms: set<Id>, m: Id)
    requires LoginsDeleted(d, db, ms) && m in db.members
    requires r.infos == d.infos - {db.members[m].personalInfo}
    requires r.accounts == AccountsWithout(d.accounts, db.members[m].username)
    ensures LoginsDeleted(r, db, ms + {m})
  {
    var u := db.members[m].username;
    assert InfosOfMembers(db, ms + {m}) == InfosOfMembers(db, ms) + {db.members[m].personalInfo};
    assert UsernamesOfMembers(db, ms + {m}) == UsernamesOfMembers(db, ms) + (if u.Some? then {u.value} else {});
    MapMinusTwice(db.infos, InfosOfMembers(db, ms), {db.members[m].personalInfo});
    MapMinusTwice(db.accounts, UsernamesOfMembers(db, ms), if u.Some? then {u.value} else {});
  }

  /** One more student deleted at the end of a loop of deletes. */
  lemma DeleteOneMoreStudent(db: Db, rows: seq<SubtypeRow>, done: set<Id>, x: Id)
    requires Consistent(db) && StudentsDeleted(DeleteRows(db, rows), db, done)
    requires x in db.students && x !in done
    requires db.students[x].member in db.members && db.students[x].member !in MembersOfStudents(db, done)
    ensures StudentsDeleted(DeleteRows(db, rows + [StudentRow(x)]), db, done + {x})
  {
    DeleteRowsConsistent(db, rows);
    DeleteRowsSnoc(db, rows, StudentRow(x));
    DeleteStudentStep(DeleteRows(db, rows), db, done, x);
  }

  /** One more student deleted. */
  lemma DeleteStudentStep(d: Db, db: Db, done: set<Id>, x: Id)
    requires Consistent(d) && StudentsDeleted(d, db, done)
    requires x in db.students && x !in done
    requires db.students[x].member in db.members && db.students[x].member !in MembersOfStudents(db, done)
    ensures StudentsDeleted(DeleteStep(d, StudentRow(x)), db, done + {x})
  {
    assert x in d.students && d.students[x] == db.students[x];
    StudentRowGoes(d, x);
    StudentsDeletedGrows(d, DeleteStep(d, StudentRow(x)), db, done, x);
  }

  /** On a consistent database deleting one student removes that student and its member only. */
  lemma StudentRowGoes(d: Db, x: Id)
    requires Consistent(d) && x in d.students
    ensures var r := DeleteStep(d, StudentRow(x));
      && r.students == d.students - {x} && r.members == d.members - {d.students[x].member}
      && r.headmasters == d.headmasters && r.teachers == d.teachers
      && r.classes == d.classes && r.schools == d.schools
      && d.students[x].member in d.members
      && r.infos == d.infos - {d.members[d.students[x].member].personalInfo}
      && r.accounts == AccountsWithout(d.accounts, d.members[d.students[x].member].username)
  {
    var row := StudentRow(x);
    assert RowExists(d, row) && RowMember(d, row) == d.students[x].member && RowMember(d, row) in d.members;
    assert DeleteStep(d, row) == DeleteMemberSubtypeEffect(d, row);
    DeleteMemberSubtypeLeavesOtherRows(d, row);
    DeleteMemberSubtypeRemovesOneMember(d, row);
  }

  /** Removing one more student and its member from a database that lacks `done` makes it lack `done + {x}`. */
  lemma StudentsDeletedGrows(d: Db, r: Db, db: Db, done: set<Id>, x: Id)
    requires StudentsDeleted(d, db, done)
    requires x in db.students && x in d.students && d.students[x] == db.students[x]
    requires r.students == d.students - {x} && r.members == d.members - {d.students[x].member}
    requires r.headmasters == d.headmasters && r.teachers == d.teachers
    requires r.classes == d.classes && r.schools == d.schools
    requires db.students[x].member in db.members && db.students[x].member !in MembersOfStudents(db, done)
    requires r.infos == d.infos - {db.members[db.students[x].member].personalInfo}
    requires r.accounts == AccountsWithout(d.accounts, db.members[db.students[x].member].username)
    ensures StudentsDeleted(r, db, done + {x})
  {
    LoginsDeletedGrows(d, r, db, MembersOfStudents(db, done), db.students[x].member);
    MembersOfStudentsAdd(db, done, x);
    MapMinusTwice(db.students, done, {x});
    MapMinusTwice(db.members, MembersOfStudents(db, done), {db.students[x].member});
  }

  /** A loop of deletes with one more row at the end is one more step. */
  lemma DeleteRowsSnoc(db: Db, rows: seq<SubtypeRow>, row: SubtypeRow)
    ensures DeleteRows(db, rows + [row]) == DeleteStep(DeleteRows(db, rows), row)
  {
    assert (rows + [row])[..|rows|] == rows;
  }

  lemma StudentRowsSnoc(xs: seq<Id>)
    requires xs != []
    ensures StudentRows(xs) == StudentRows(xs[..|xs| - 1]) + [StudentRow(xs[|xs| - 1])]
  {
  }

  /** The last of a list of distinct students is none of the others, and neither is its member. */
  lemma LastStudentIsNew(db: Db, xs: seq<Id>)
    requires xs != [] && Linked(db) && SubtypesMatchRoles(db)
    requires forall i :: 0 <= i < |xs| ==> xs[i] in db.students
    requires forall i, j :: 0 <= i < j < |xs| ==> xs[i] != xs[j]
    ensures var x := xs[|xs| - 1];
      && x !in IdSet(xs[..|xs| - 1])
      && db.students[x].member in db.members
      && db.students[x].member !in MembersOfStudents(db, IdSet(xs[..|xs| - 1]))
  {
    var n := |xs| - 1;
    var init := xs[..n];
    var x := xs[n];
    assert x !in IdSet(init) by {
      forall i | 0 <= i < n ensures init[i] != x {
        assert xs[i] != xs[n];
      }
    }
    forall y | y in IdSet(init) && y in db.students ensures db.students[y].member != db.students[x].member {
      assert y != x;
    }
  }

  /**
   * Deleting a list of distinct students on a consistent database removes
   * exactly those students and their members, and no other row of the
   * member, subtype, class or school tables.
   */
  lemma {:induction false} DeleteStudentRowsShape(db: Db, xs: seq<Id>)
    requires Consistent(db)
    requires forall i :: 0 <= i < |xs| ==> xs[i] in db.students
    requires forall i, j :: 0 <= i < j < |xs| ==> xs[i] != xs[j]
    ensures StudentsDeleted(DeleteRows(db, StudentRows(xs)), db, IdSet(xs))
    decreases |xs|
  {
    if xs == [] {
      NoStudentsDeleted(db, xs);
    } else {
      var init := xs[..|xs| - 1];
      assert forall i :: 0 <= i < |init| ==> init[i] == xs[i];
      DeleteStudentRowsShape(db, init);
      DeleteOneMoreOfTheStudents(db, xs);
    }
  }

  /** The base case of DeleteStudentRowsShape: an empty loop deletes nothing. */
  lemma NoStudentsDeleted(db: Db, xs: seq<Id>)
    requires xs == []
    ensures StudentsDeleted(DeleteRows(db, StudentRows(xs)), db, IdSet(xs))
  {
    assert StudentRows(xs) == [];
    assert IdSet(xs) == {};
    assert MembersOfStudents(db, {}) == {};
    assert InfosOfMembers(db, {}) == {} && UsernamesOfMembers(db, {}) == {};
    assert db.students - {} == db.students && db.members - {} == db.members;
    assert db.infos - {} == db.infos && db.accounts - {} == db.accounts;
  }

  /** The inductive step of DeleteStudentRowsShape: the last student of the list. */
  lemma DeleteOneMoreOfTheStudents(db: Db, xs: seq<Id>)
    requires Consistent(db) && xs != []
    requires forall i :: 0 <= i < |xs| ==> xs[i] in db.students
    requires forall i, j :: 0 <= i < j < |xs| ==> xs[i] != xs[j]
    requires StudentsDeleted(DeleteRows(db, StudentRows(xs[..|xs| - 1])), db, IdSet(xs[..|xs| - 1]))
    ensures StudentsDeleted(DeleteRows(db, StudentRows(xs)), db, IdSet(xs))
  {
    var init := xs[..|xs| - 1];
    var x := xs[|xs| - 1];
    LastStudentIsNew(db, xs);
    DeleteOneMoreStudent(db, StudentRows(init), IdSet(init), x);
    assert StudentRows(xs) == StudentRows(init) + [StudentRow(x)] by {
      StudentRowsSnoc(xs);
    }
    assert IdSet(xs) == IdSet(init) + {x} by {
      IdSetSnoc(xs);
    }
  }

  /** One TeacherRow per teacher id. */
  function TeacherRows(ts: seq<Id>): (rows: seq<SubtypeRow>)
    ensures |rows| == |ts| && forall i :: 0 <= i < |ts| ==> rows[i] == TeacherRow(ts[i])
  {
    seq(|ts|, i requires 0 <= i < |ts| => TeacherRow(ts[i]))
  }

  /** The members of the teachers `ts`. */
  function MembersOfTeachers(db: Db, ts: set<Id>): set<Id> {
    set t | t in ts && t in db.teachers :: db.teachers[t].member
  }

  /**
   * The database once the teachers `done` are deleted from `db` with their
   * classes, the students of those classes, their members and the members'
   * PersonalInfo rows and accounts; the head masters and schools as in `db`.
   */
  ghost predicate TeachersDeleted(d: Db, db: Db, done: set<Id>) {
    && d.teachers == db.teachers - done
    && d.classes == db.classes - ClassesOfTeachers(db, done)
    && d.students == db.students - StudentsOfClasses(db, ClassesOfTeachers(db, done))
    && d.members == db.members - MembersOfTeachers(db, done)
    && d.headmasters == db.headmasters && d.schools == db.schools
    && LoginsDeleted(d, db, MembersOfTeachers(db, done))
  }

  /** On a consistent database deleting one teacher removes it, its classes and their students, and its member. */
  lemma TeacherRowGoes(d: Db, t: Id)
    requires Consistent(d) && t in d.teachers
    ensures var r := DeleteStep(d, TeacherRow(t));
      var m := d.teachers[t].member;
      && r.teachers == d.teachers - {t}
      && r.classes == d.classes - ClassesOfTeachers(d, {t})
      && r.students == d.students - StudentsOfClasses(d, ClassesOfTeachers(d, {t}))
      && r.headmasters == d.headmasters && r.schools == d.schools
      && m in d.members && r.members == d.members - {m}
      && r.infos == d.infos - {d.members[m].personalInfo}
      && r.accounts == AccountsWithout(d.accounts, d.members[m].username)
  {
    var row := TeacherRow(t);
    assert RowExists(d, row) && RowMember(d, row) == d.teachers[t].member && RowMember(d, row) in d.members;
    assert DeleteStep(d, row) == DeleteMemberSubtypeEffect(d, row);
    DeleteTeacherRowCascade(d, t);
    DeleteMemberSubtypeRemovesOneMember(d, row);
  }

  /** Removing one more teacher, with what goes with it, from a database that lacks `done` makes it lack `done + {t}`. */
  lemma TeachersDeletedGrows(d: Db, r: Db, db: Db, done: set<Id>, t: Id)
    requires TeachersDeleted(d, db, done)
    requires t in db.teachers && t !in done
    requires db.teachers[t].member in db.members && db.teachers[t].member !in MembersOfTeachers(db, done)
    requires r.teachers == d.teachers - {t}
    requires r.classes == d.classes - ClassesOfTeachers(d, {t})
    requires r.students == d.students - StudentsOfClasses(d, ClassesOfTeachers(d, {t}))
    requires r.headmasters == d.headmasters && r.schools == d.schools
    requires r.members == d.members - {db.teachers[t].member}
    requires r.infos == d.infos - {db.members[db.teachers[t].member].personalInfo}
    requires r.accounts == AccountsWithout(d.accounts, db.members[db.teachers[t].member].username)
    ensures TeachersDeleted(r, db, done + {t})
  {
    var m := db.teachers[t].member;
    var c0 := ClassesOfTeachers(db, done);
    var c1 := ClassesOfTeachers(db, {t});
    assert ClassesOfTeachers(d, {t}) == c1;
    assert ClassesOfTeachers(db, done + {t}) == c0 + c1;
    assert StudentsOfClasses(d, c1) == StudentsOfClasses(db, c1);
    assert StudentsOfClasses(db, c0 + c1) == StudentsOfClasses(db, c0) + StudentsOfClasses(db, c1);
    assert MembersOfTeachers(db, done + {t}) == MembersOfTeachers(db, done) + {m};
    MapMinusTwice(db.teachers, done, {t});
    MapMinusTwice(db.classes, c0, c1);
    MapMinusTwice(db.students, StudentsOfClasses(db, c0), StudentsOfClasses(db, c1));
    MapMinusTwice(db.members, MembersOfTeachers(db, done), {m});
    LoginsDeletedGrows(d, r, db, MembersOfTeachers(db, done), m);
  }

  /** One more teacher deleted. */
  lemma DeleteTeacherStep(d: Db, db: Db, done: set<Id>, t: Id)
    requires Consistent(d) && TeachersDeleted(d, db, done)
    requires t in db.teachers && t !in done
    requires db.teachers[t].member in db.members && db.teachers[t].member !in MembersOfTeachers(db, done)
    ensures TeachersDeleted(DeleteStep(d, TeacherRow(t)), db, done + {t})
  {
    assert t in d.teachers && d.teachers[t] == db.teachers[t];
    TeacherRowGoes(d, t);
    TeachersDeletedGrows(d, DeleteStep(d, TeacherRow(t)), db, done, t);
  }

  /** One more teacher deleted at the end of a loop of deletes. */
  lemma DeleteOneMoreTeacher(db: Db, rows: seq<SubtypeRow>, done: set<Id>, t: Id)
    requires Consistent(db) && TeachersDeleted(DeleteRows(db, rows), db, done)
    requires t in db.teachers && t !in done
    requires db.teachers[t].member in db.members && db.teachers[t].member !in MembersOfTeachers(db, done)
    ensures TeachersDeleted(DeleteRows(db, rows + [TeacherRow(t)]), db, done + {t})
  {
    DeleteRowsConsistent(db, rows);
    DeleteRowsSnoc(db, rows, TeacherRow(t));
    DeleteTeacherStep(DeleteRows(db, rows), db, done, t);
  }

  lemma TeacherRowsSnoc(ts: seq<Id>)
    requires ts != []
    ensures TeacherRows(ts) == TeacherRows(ts[..|ts| - 1]) + [TeacherRow(ts[|ts| - 1])]
  {
  }

  /** The last of a list of distinct teachers is none of the others, and neither is its member. */
  lemma LastTeacherIsNew(db: Db, ts: seq<Id>)
    requires ts != [] && Linked(db) && SubtypesMatchRoles(db)
    requires forall i :: 0 <= i < |ts| ==> ts[i] in db.teachers
    requires forall i, j :: 0 <= i < j < |ts| ==> ts[i] != ts[j]
    ensures var t := ts[|ts| - 1];
      && t !in IdSet(ts[..|ts| - 1])
      && db.teachers[t].member in db.members
      && db.teachers[t].member !in MembersOfTeachers(db, IdSet(ts[..|ts| - 1]))
  {
    var n := |ts| - 1;
    var init := ts[..n];
    var t := ts[n];
    assert t !in IdSet(init) by {
      forall i | 0 <= i < n ensures init[i] != t {
        assert ts[i] != ts[n];
      }
    }
    forall y | y in IdSet(init) && y in db.teachers ensures db.teachers[y].member != db.teachers[t].member {
      assert y != t;
    }
  }

  /**
   * Deleting a list of distinct teachers on a consistent database removes
   * exactly those teachers, their classes, the students of those classes,
   * the teachers' members and those members' PersonalInfo rows and accounts.
   */
  lemma {:induction false} DeleteTeacherRowsShape(db: Db, ts: seq<Id>)
    requires Consistent(db)
    requires forall i :: 0 <= i < |ts| ==> ts[i] in db.teachers
    requires forall i, j :: 0 <= i < j < |ts| ==> ts[i] != ts[j]
    ensures TeachersDeleted(DeleteRows(db, TeacherRows(ts)), db, IdSet(ts))
    decreases |ts|
  {
    if ts == [] {
      NoTeachersDeleted(db, ts);
    } else {
      var init := ts[..|ts| - 1];
      assert forall i :: 0 <= i < |init| ==> init[i] == ts[i];
      DeleteTeacherRowsShape(db, init);
      DeleteOneMoreOfTheTeachers(db, ts);
    }
  }

  /** The base case of DeleteTeacherRowsShape: an empty loop deletes nothing. */
  lemma NoTeachersDeleted(db: Db, ts: seq<Id>)
    requires ts == []
    ensures TeachersDeleted(DeleteRows(db, TeacherRows(ts)), db, IdSet(ts))
  {
    assert TeacherRows(ts) == [];
    assert IdSet(ts) == {};
    assert ClassesOfTeachers(db, {}) == {} && StudentsOfClasses(db, {}) == {} && MembersOfTeachers(db, {}) == {};
    assert InfosOfMembers(db, {}) == {} && UsernamesOfMembers(db, {}) == {};
    assert db.teachers - {} == db.teachers && db.classes - {} == db.classes;
    assert db.students - {} == db.students && db.members - {} == db.members;
    assert db.infos - {} == db.infos && db.accounts - {} == db.accounts;
  }

  /** The inductive step of DeleteTeacherRowsShape: the last teacher of the list. */
  lemma DeleteOneMoreOfTheTeachers(db: Db, ts: seq<Id>)
    requires Consistent(db) && ts != []
    requires forall i :: 0 <= i < |ts| ==> ts[i] in db.teachers
    requires forall i, j :: 0 <= i < j < |ts| ==> ts[i] != ts[j]
    requires TeachersDeleted(DeleteRows(db, TeacherRows(ts[..|ts| - 1])), db, IdSet(ts[..|ts| - 1]))
    ensures TeachersDeleted(DeleteRows(db, TeacherRows(ts)), db, IdSet(ts))
  {
    var init := ts[..|ts| - 1];
    var t := ts[|ts| - 1];
    LastTeacherIsNew(db, ts);
    DeleteOneMoreTeacher(db, TeacherRows(init), IdSet(init), t);
    assert TeacherRows(ts) == TeacherRows(init) + [TeacherRow(t)] by {
      TeacherRowsSnoc(ts);
    }
    assert IdSet(ts) == IdSet(init) + {t} by {
      IdSetSnoc(ts);
    }
  }

  /** The delete loop on the store, one `delete_memberSubType` per row. */
  method DeleteEach(store: Store, rows: seq<SubtypeRow>)
    requires store.Valid()
    modifies store
    ensures store.Snapshot() == DeleteRows(old(store.Snapshot()), rows)
    ensures store.Valid()
  {
    ghost var db := store.Snapshot();
    for i := 0 to |rows|
      invariant store.Snapshot() == DeleteRows(db, rows[..i])
      invariant store.Valid()
    {
      assert rows[..i + 1][..i] == rows[..i];
      if RowExists(store.Snapshot(), rows[i]) && RowMember(store.Snapshot(), rows[i]) in store.members {
        DeleteMemberSubtype(store, rows[i]);
      }
    }
    assert rows[..|rows|] == rows;
  }

  // ---------------------------------------------------------------------------
  // AuthBearer
  // ---------------------------------------------------------------------------

  /** AuthBearer.authenticate: a request is let in when its bearer token is the secret key. */
  function Authenticate(token: string, secretKey: string): (r: Option<string>)
    ensures r.Some? <==> token == secretKey
    ensures r.Some? ==> r.value == secretKey
  {
    if token == secretKey then Some(secretKey) else None
  }
}
