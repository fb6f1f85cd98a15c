/**
 * The head-master views (apis/headmaster.py): create, replace, patch and
 * delete a head master, and find a school's head master.
 */
module HeadMasterApi {
  import opened Wrappers
  import opened Models
  import opened Schemas
  import opened Api

  // ---------------------------------------------------------------------------
  // create_headmaster
  // ---------------------------------------------------------------------------

  /**
   * The response create_headmaster gives for what create_memberSubType("HM")
   * returned: 4041 is a 404, 4042 and 409 are 409s. The view's check of the
   * sentinel 404 cannot fire, since "HM" always names the HeadMaster table;
   * a code it does not check (4043) would reach `from_orm` and raise.
   */
  function HeadMasterCreateStatus(c: CreateResult): (r: Status)
    ensures r == Ok <==> c.Made?
    ensures r == NotFound(NoSchool) <==> c == Rejected(SchoolMissing)
    ensures r == Conflict(SchoolHasHeadMaster) <==> c == Rejected(HeadMasterExists)
    ensures r == Conflict(UsernameExists) <==> c == Rejected(UsernameInUse)
    ensures r.Code() in {200, 404, 409, 500}
  {
    match c
    case Made(_) => Ok
    case Raised => ServerError
    case Rejected(SchoolMissing) => NotFound(NoSchool)
    case Rejected(HeadMasterExists) => Conflict(SchoolHasHeadMaster)
    case Rejected(UsernameInUse) => Conflict(UsernameExists)
    case Rejected(ClassMissing) => ServerError
  }

  /** create_headmaster. */
  function CreateHeadMasterEffect(db: Db, p: SubtypeIn, createUser: bool): (r: Reply)
    ensures r.status == NotFound(NoSchool) <==> p.schoolId !in db.schools
    ensures r.status == Conflict(SchoolHasHeadMaster) <==> p.schoolId in db.schools && HasHeadMaster(db, p.schoolId)
    ensures r.status == Conflict(UsernameExists)
        <==> p.schoolId in db.schools && !HasHeadMaster(db, p.schoolId) && UsernameFilterMatches(db, p.username)
    ensures r.status.NotFound? || r.status.Conflict? ==> r.db == db
    ensures r.status == Ok <==> CreateMemberSubtypeEffect(db, HM, p, createUser).result.Made?
    ensures r.status == ServerError <==> CreateMemberSubtypeEffect(db, HM, p, createUser).result.Raised?
  {
    var c := CreateMemberSubtypeEffect(db, HM, p, createUser);
    Reply(HeadMasterCreateStatus(c.result), c.db)
  }

  /** A created head master is the one the school's lookup then finds. */
  lemma CreatedHeadMasterHeadsSchool(db: Db, p: SubtypeIn, createUser: bool)
    requires Consistent(db)
    requires CreateHeadMasterEffect(db, p, createUser).status == Ok
    ensures var r := CreateHeadMasterEffect(db, p, createUser).db;
      Consistent(r) && GetHeadMasterBySchool(r, p.schoolId) == Found(db.next.headmasters)
  {
    var r := CreateHeadMasterEffect(db, p, createUser).db;
    CreateMemberSubtypeConsistent(db, HM, p, createUser);
    CreateMemberSubtypeMade(db, HM, p, createUser);
    assert HeadsSchool(r, db.next.headmasters, p.schoolId);
    HeadMasterBySchoolIsTheOne(r, p.schoolId, db.next.headmasters);
  }

  method CreateHeadMaster(store: Store, p: SubtypeIn, createUser: bool) returns (status: Status)
    requires store.Valid()
    modifies store
    ensures Reply(status, store.Snapshot()) == CreateHeadMasterEffect(old(store.Snapshot()), p, createUser)
    ensures store.Valid()
  {
    var result := CreateMemberSubtype(store, HM, p, createUser);
    status := HeadMasterCreateStatus(result);
  }

  // ---------------------------------------------------------------------------
  // get_headmaster_by_school_id
  // ---------------------------------------------------------------------------

  /**
   * get_headmaster_by_school_id: 404 when the school does not exist, 404 when
   * `HeadMaster.objects.get(school=s)` finds no head master; otherwise the
   * school's head master.
   */
  function GetHeadMasterBySchool(db: Db, s: Id): (r: Lookup<Id>)
    ensures r == Lacking(NoSchool) <==> s !in db.schools
    ensures r.Found? ==> HeadsSchool(db, r.value, s)
    ensures KeysBelowNext(db) ==> (r == Lacking(NoHeadMaster) <==> s in db.schools && !HasHeadMaster(db, s))
  {
    if s !in db.schools then Lacking(NoSchool)
    else
      match ResolveHeadMaster(db, s)
      case None =>
        assert KeysBelowNext(db) ==> !HasHeadMaster(db, s) by {
          if KeysBelowNext(db) {
            forall h | h in db.headmasters ensures db.headmasters[h].school != s {
              assert h < db.next.headmasters;
              assert !HeadsSchool(db, h, s);
            }
          }
        }
        Lacking(NoHeadMaster)
      case Some(h) => Found(h)
  }

  /** On a consistent database the lookup finds the school's one head master. */
  lemma HeadMasterBySchoolIsTheOne(db: Db, s: Id, h: Id)
    requires Consistent(db) && HeadsSchool(db, h, s)
    ensures GetHeadMasterBySchool(db, s) == Found(h)
  {
    ResolveHeadMasterIsTheHeadMaster(db, s, h);
  }

  // ---------------------------------------------------------------------------
  // The loop of update_headmaster and patch_headmaster
  // ---------------------------------------------------------------------------

  /** The head master and PersonalInfo the loop leaves to save, or the response it returned early with. */
  datatype Edited = Edited(hm: HeadMaster, info: PersonalInfo) | Refused(status: Status)

  /**
   * `HeadMaster.objects.filter(school=s).exists()` and the head master found
   * is not `h`.
   */
  predicate SchoolHeldByOther(db: Db, h: Id, s: Id) {
    exists o :: o in db.headmasters && o != h && db.headmasters[o].school == s
  }

  /**
   * The loop over the payload's items: a `school_id` item returns a 404 when
   * the school does not exist and a 409 when another head master holds it,
   * and otherwise moves the head master; a `personal_info` item sets each of
   * its subfields on the PersonalInfo. A head master starting at an existing
   * school that no one else holds ends at one.
   */
  function SetHeadMasterAttrs(db: Db, h: Id, hm: HeadMaster, info: PersonalInfo, items: seq<MemberItem>): (r: Edited)
    ensures r.Refused? ==> r.status == NotFound(NoSchool) || r.status == Conflict(SchoolHasHeadMaster)
    ensures r.Edited? ==> r.hm.member == hm.member
    ensures r.Edited? && hm.school in db.schools ==> r.hm.school in db.schools
    ensures r.Edited? && !SchoolHeldByOther(db, h, hm.school) ==> !SchoolHeldByOther(db, h, r.hm.school)
    decreases |items|
  {
    if items == [] then Edited(hm, info)
    else
      match items[0]
      case SchoolIdItem(s) =>
        if s !in db.schools then Refused(NotFound(NoSchool))
        else if SchoolHeldByOther(db, h, s) then Refused(Conflict(SchoolHasHeadMaster))
        else SetHeadMasterAttrs(db, h, hm.(school := s), info, items[1..])
      case ClassIdItem(_) => SetHeadMasterAttrs(db, h, hm, info, items[1..])
      case InfoItem(attrs) => SetHeadMasterAttrs(db, h, hm, SetInfoAttrs(info, attrs, false), items[1..])
  }

  /** The head master holding school `s` is not `h`: the scan's answer when one head master holds a school. */
  lemma HeldByOtherIsFound(db: Db, h: Id, s: Id)
    requires KeysBelowNext(db) && OneHeadMasterPerSchool(db)
    ensures SchoolHeldByOther(db, h, s)
      <==> ResolveHeadMaster(db, s).Some? && ResolveHeadMaster(db, s).value != h
  {
    if SchoolHeldByOther(db, h, s) {
      var o :| o in db.headmasters && o != h && db.headmasters[o].school == s;
      assert o < db.next.headmasters && HeadsSchool(db, o, s);
    }
  }

  /** The loop on the store's tables, looking the school's head master up as `get(school=s)`. */
  method AssignHeadMasterAttrs(store: Store, h: Id, hm: HeadMaster, info: PersonalInfo, items: seq<MemberItem>)
    returns (r: Edited)
    requires KeysBelowNext(store.Snapshot()) && OneHeadMasterPerSchool(store.Snapshot())
    ensures r == SetHeadMasterAttrs(store.Snapshot(), h, hm, info, items)
  {
    ghost var db := store.Snapshot();
    var cur, pi := hm, info;
    var i := 0;
    while i < |items|
      invariant 0 <= i <= |items|
      invariant SetHeadMasterAttrs(db, h, cur, pi, items[i..]) == SetHeadMasterAttrs(db, h, hm, info, items)
    {
      assert items[i..][1..] == items[i + 1..];
      match items[i] {
        case SchoolIdItem(s) =>
          if s !in store.schools {
            return Refused(NotFound(NoSchool));
          }
          HeldByOtherIsFound(db, h, s);
          var holder := ResolveHeadMaster(store.Snapshot(), s);
          if holder.Some? && holder.value != h {
            return Refused(Conflict(SchoolHasHeadMaster));
          }
          cur := cur.(school := s);
        case ClassIdItem(_) =>
        case InfoItem(attrs) =>
          pi := AssignInfoAttrs(pi, attrs, false);
      }
      i := i + 1;
    }
    r := Edited(cur, pi);
  }

  /** PUT: the school and every PersonalInfo field are replaced, unless the school is missing or held. */
  lemma HeadMasterPutOverwrites(db: Db, h: Id, hm: HeadMaster, info: PersonalInfo, p: SubtypePut)
    ensures SetHeadMasterAttrs(db, h, hm, info, PutItems(p)) ==
      if p.schoolId !in db.schools then Refused(NotFound(NoSchool))
      else if SchoolHeldByOther(db, h, p.schoolId) then Refused(Conflict(SchoolHasHeadMaster))
      else Edited(hm.(school := p.schoolId), p.personalInfo)
  {
    var last := [InfoItem(InfoItems(p.personalInfo))];
    assert PutItems(p)[1..] == last;
    assert last[1..] == [];
    InfoPutOverwrites(info, p.personalInfo);
    if p.schoolId in db.schools && !SchoolHeldByOther(db, h, p.schoolId) {
      var moved := hm.(school := p.schoolId);
      assert SetHeadMasterAttrs(db, h, moved, info, last)
        == SetHeadMasterAttrs(db, h, moved, SetInfoAttrs(info, InfoItems(p.personalInfo), false), []);
    }
  }

  /** PATCH: a supplied school is checked and set; the PersonalInfo is patched field by field. */
  lemma HeadMasterPatchFieldwise(db: Db, h: Id, hm: HeadMaster, info: PersonalInfo, p: MemberPatch)
    ensures SetHeadMasterAttrs(db, h, hm, info, MemberPatchItems(p)) ==
      if p.schoolId.Some? && p.schoolId.value !in db.schools then Refused(NotFound(NoSchool))
      else if p.schoolId.Some? && SchoolHeldByOther(db, h, p.schoolId.value) then Refused(Conflict(SchoolHasHeadMaster))
      else Edited(hm.(school := p.schoolId.GetOr(hm.school)), PatchedInfo(info, p.personalInfo))
  {
    var last := [InfoItem(InfoPatchItems(p.personalInfo))];
    assert last[1..] == [];
    InfoPatchFieldwise(info, p.personalInfo);
    var moved := hm.(school := p.schoolId.GetOr(hm.school));
    assert SetHeadMasterAttrs(db, h, moved, info, last)
      == SetHeadMasterAttrs(db, h, moved, SetInfoAttrs(info, InfoPatchItems(p.personalInfo), false), []);
    if p.schoolId.Some? {
      assert MemberPatchItems(p)[1..] == last;
    } else {
      assert MemberPatchItems(p) == last;
      assert hm.(school := hm.school) == hm;
    }
  }

  // ---------------------------------------------------------------------------
  // update_headmaster and patch_headmaster
  // ---------------------------------------------------------------------------

  /** The id of the PersonalInfo of head master `h`'s member. */
  function InfoOf(db: Db, h: Id): Id
    requires h in db.headmasters && db.headmasters[h].member in db.members
  {
    db.members[db.headmasters[h].member].personalInfo
  }

  /**
   * The three saves after the loop: the PersonalInfo, the member, which the
   * views never change and so writes back as it was, and the head master.
   */
  function SaveHeadMasterEdit(db: Db, h: Id, e: Edited): Reply
    requires h in db.headmasters && db.headmasters[h].member in db.members
  {
    match e
    case Refused(st) => Reply(st, db)
    case Edited(hm, info) => Reply(Ok, db.(infos := db.infos[InfoOf(db, h) := info], headmasters := db.headmasters[h := hm]))
  }

  /**
   * update_headmaster: 404 for a missing head master or school, 409 for a
   * school another head master holds; otherwise the head master's school and
   * every field of its PersonalInfo are replaced. The member, and so its
   * school, is left as it was.
   */
  function UpdateHeadMasterEffect(db: Db, h: Id, p: SubtypePut): (r: Reply)
    requires Linked(db)
    ensures h !in db.headmasters ==> r == Reply(NotFound(NoHeadMaster), db)
    ensures h in db.headmasters && p.schoolId !in db.schools ==> r == Reply(NotFound(NoSchool), db)
    ensures h in db.headmasters && p.schoolId in db.schools && SchoolHeldByOther(db, h, p.schoolId) ==>
      r == Reply(Conflict(SchoolHasHeadMaster), db)
    ensures h in db.headmasters && p.schoolId in db.schools && !SchoolHeldByOther(db, h, p.schoolId) ==>
      r == Reply(Ok, db.(infos := db.infos[InfoOf(db, h) := p.personalInfo],
                         headmasters := db.headmasters[h := db.headmasters[h].(school := p.schoolId)]))
  {
    if h !in db.headmasters then Reply(NotFound(NoHeadMaster), db)
    else
      var hm := db.headmasters[h];
      HeadMasterPutOverwrites(db, h, hm, db.infos[InfoOf(db, h)], p);
      SaveHeadMasterEdit(db, h, SetHeadMasterAttrs(db, h, hm, db.infos[InfoOf(db, h)], PutItems(p)))
  }

  /**
   * patch_headmaster: the same checks for a supplied school; the school
   * changes only when supplied, and the PersonalInfo only in the subfields
   * the request set. The view declares only 200 and 404 (headmaster.py:137),
   * so its 409 for a school another head master holds is a status the
   * framework refuses to render: the client sees a server error, and nothing
   * has been saved.
   */
  function PatchHeadMasterEffect(db: Db, h: Id, p: MemberPatch): (r: Reply)
    requires Linked(db)
    ensures h !in db.headmasters ==> r == Reply(NotFound(NoHeadMaster), db)
    ensures h in db.headmasters && p.schoolId.Some? && p.schoolId.value !in db.schools ==>
      r == Reply(NotFound(NoSchool), db)
    ensures (h in db.headmasters && p.schoolId.Some? && p.schoolId.value in db.schools &&
             SchoolHeldByOther(db, h, p.schoolId.value)) ==> r == Reply(ServerError, db)
    ensures h in db.headmasters && (p.schoolId.None? || (p.schoolId.value in db.schools && !SchoolHeldByOther(db, h, p.schoolId.value))) ==>
      var hm := db.headmasters[h];
      r == Reply(Ok, db.(infos := db.infos[InfoOf(db, h) := PatchedInfo(db.infos[InfoOf(db, h)], p.personalInfo)],
                         headmasters := db.headmasters[h := hm.(school := p.schoolId.GetOr(hm.school))]))
  {
    if h !in db.headmasters then Reply(NotFound(NoHeadMaster), db)
    else
      var hm := db.headmasters[h];
      HeadMasterPatchFieldwise(db, h, hm, db.infos[InfoOf(db, h)], p);
      UndeclaredConflict(SaveHeadMasterEdit(db, h, SetHeadMasterAttrs(db, h, hm, db.infos[InfoOf(db, h)], MemberPatchItems(p))))
  }

  /** A 409 from a view that does not declare one reaches the client as a 500. */
  function UndeclaredConflict(r: Reply): (u: Reply)
    ensures u.db == r.db
    ensures u.status == (if r.status.Conflict? then ServerError else r.status)
  {
    if r.status.Conflict? then r.(status := ServerError) else r
  }

  /** An edit the loop let through keeps the invariant once saved. */
  lemma SaveHeadMasterEditConsistent(db: Db, h: Id, e: Edited)
    requires Consistent(db) && h in db.headmasters
    requires e.Edited? ==> e.hm.member == db.headmasters[h].member && e.hm.school in db.schools
    requires e.Edited? ==> !SchoolHeldByOther(db, h, e.hm.school)
    ensures Consistent(SaveHeadMasterEdit(db, h, e).db)
  {
    if e.Edited? {
      var pi := InfoOf(db, h);
      var d1 := db.(infos := db.infos[pi := e.info]);
      SaveInfoConsistent(db, pi, e.info);
      SaveHeadMasterConsistent(d1, h, e.hm);
      assert SaveHeadMasterEdit(db, h, e).db == d1.(headmasters := d1.headmasters[h := e.hm]);
    }
  }

  /** The loop, started from the stored head master, lets through only edits that keep the invariant. */
  lemma StoredHeadMasterEditIsSafe(db: Db, h: Id, info: PersonalInfo, items: seq<MemberItem>)
    requires Consistent(db) && h in db.headmasters
    ensures var e := SetHeadMasterAttrs(db, h, db.headmasters[h], info, items);
      e.Edited? ==> e.hm.member == db.headmasters[h].member && e.hm.school in db.schools
                    && !SchoolHeldByOther(db, h, e.hm.school)
  {
    var hm := db.headmasters[h];
    assert !SchoolHeldByOther(db, h, hm.school);
  }

  /** Replacing or patching a head master keeps the invariant. */
  lemma HeadMasterWritesConsistent(db: Db, h: Id, v: SubtypePut, p: MemberPatch)
    requires Consistent(db)
    ensures Consistent(UpdateHeadMasterEffect(db, h, v).db)
    ensures Consistent(PatchHeadMasterEffect(db, h, p).db)
  {
    if h in db.headmasters {
      var info := db.infos[InfoOf(db, h)];
      var hm := db.headmasters[h];
      StoredHeadMasterEditIsSafe(db, h, info, PutItems(v));
      StoredHeadMasterEditIsSafe(db, h, info, MemberPatchItems(p));
      SaveHeadMasterEditConsistent(db, h, SetHeadMasterAttrs(db, h, hm, info, PutItems(v)));
      SaveHeadMasterEditConsistent(db, h, SetHeadMasterAttrs(db, h, hm, info, MemberPatchItems(p)));
    }
  }

  /** Keeping one's own school is allowed: a PUT naming the head master's school is never a 409. */
  lemma HeadMasterKeepsOwnSchool(db: Db, h: Id, info: PersonalInfo)
    requires Consistent(db) && h in db.headmasters
    ensures UpdateHeadMasterEffect(db, h, SubtypePut(db.headmasters[h].school, info)).status == Ok
  {
    assert !SchoolHeldByOther(db, h, db.headmasters[h].school);
  }

  /** After a successful PUT the head master is the one its new school's lookup finds. */
  lemma UpdatedHeadMasterHeadsSchool(db: Db, h: Id, p: SubtypePut)
    requires Consistent(db)
    requires UpdateHeadMasterEffect(db, h, p).status == Ok
    ensures GetHeadMasterBySchool(UpdateHeadMasterEffect(db, h, p).db, p.schoolId) == Found(h)
  {
    var r := UpdateHeadMasterEffect(db, h, p).db;
    HeadMasterWritesConsistent(db, h, p, MemberPatch(None, PersonalInfoPatch(None, None, None, None, None, None)));
    assert HeadsSchool(r, h, p.schoolId);
    HeadMasterBySchoolIsTheOne(r, p.schoolId, h);
  }

  /** Every answer of the PATCH is one it declares (200 or 404) or a server error. */
  lemma PatchHeadMasterAnswersDeclared(db: Db, h: Id, p: MemberPatch)
    requires Linked(db)
    ensures PatchHeadMasterEffect(db, h, p).status.Code() in {200, 404, 500}
  {
  }

  /** A patch that sets nothing leaves the database as it was. */
  lemma PatchHeadMasterEmptyIsNoOp(db: Db, h: Id)
    requires Linked(db) && h in db.headmasters
    ensures PatchHeadMasterEffect(db, h, MemberPatch(None, PersonalInfoPatch(None, None, None, None, None, None)))
      == Reply(Ok, db)
  {
    var pi := InfoOf(db, h);
    assert db.infos[pi := db.infos[pi]] == db.infos;
    assert db.headmasters[h := db.headmasters[h]] == db.headmasters;
  }

  /**
   * The three saves on the store: the PersonalInfo, the member as it was,
   * which its own username never blocks, and the head master.
   */
  method WriteHeadMasterEdit(store: Store, h: Id, hm: HeadMaster, info: PersonalInfo)
    requires h in store.headmasters && store.headmasters[h].member in store.members
    requires UniqueUsernames(store.Snapshot())
    modifies store
    ensures store.Snapshot() == old(store.Snapshot()).(
      infos := old(store.infos)[InfoOf(old(store.Snapshot()), h) := info],
      headmasters := old(store.headmasters)[h := hm])
  {
    var m := store.headmasters[h].member;
    var member := store.members[m];
    OwnUsernameFree(store.Snapshot(), m);
    store.SaveInfoRow(member.personalInfo, info);
    var ok := store.SaveMemberRow(m, member);
    assert ok;
    assert store.members[m := member] == store.members;
    store.SaveHeadMasterRow(h, hm);
  }

  /** The saves of update_headmaster and patch_headmaster, on the store. */
  method SaveHeadMasterEdits(store: Store, h: Id, e: Edited) returns (status: Status)
    requires store.Valid() && h in store.headmasters
    requires e.Edited? ==> e.hm.member == store.headmasters[h].member && e.hm.school in store.schools
    requires e.Edited? ==> !SchoolHeldByOther(store.Snapshot(), h, e.hm.school)
    modifies store
    ensures Reply(status, store.Snapshot()) == SaveHeadMasterEdit(old(store.Snapshot()), h, e)
    ensures store.Valid()
  {
    SaveHeadMasterEditConsistent(store.Snapshot(), h, e);
    match e {
      case Refused(st) =>
        status := st;
      case Edited(hm, info) =>
        WriteHeadMasterEdit(store, h, hm, info);
        status := Ok;
    }
  }

  method UpdateHeadMaster(store: Store, h: Id, p: SubtypePut) returns (status: Status)
    requires store.Valid()
    modifies store
    ensures Reply(status, store.Snapshot()) == UpdateHeadMasterEffect(old(store.Snapshot()), h, p)
    ensures store.Valid()
  {
    if h !in store.headmasters {
      return NotFound(NoHeadMaster);
    }
    ghost var db := store.Snapshot();
    var hm := store.headmasters[h];
    var info := store.infos[store.members[hm.member].personalInfo];
    StoredHeadMasterEditIsSafe(db, h, info, PutItems(p));
    var e := AssignHeadMasterAttrs(store, h, hm, info, PutItems(p));
    status := SaveHeadMasterEdits(store, h, e);
  }

  method PatchHeadMaster(store: Store, h: Id, p: MemberPatch) returns (status: Status)
    requires store.Valid()
    modifies store
    ensures Reply(status, store.Snapshot()) == PatchHeadMasterEffect(old(store.Snapshot()), h, p)
    ensures store.Valid()
  {
    if h !in store.headmasters {
      return NotFound(NoHeadMaster);
    }
    ghost var db := store.Snapshot();
    var hm := store.headmasters[h];
    var info := store.infos[store.members[hm.member].personalInfo];
    StoredHeadMasterEditIsSafe(db, h, info, MemberPatchItems(p));
    var e := AssignHeadMasterAttrs(store, h, hm, info, MemberPatchItems(p));
    status := SaveHeadMasterEdits(store, h, e);
    if status.Conflict? {
      status := ServerError;
    }
  }

  // ---------------------------------------------------------------------------
  // delete_headmaster
  // ---------------------------------------------------------------------------

  /** delete_headmaster: 404 for a missing head master, otherwise delete_memberSubType. */
  function DeleteHeadMasterEffect(db: Db, h: Id): (r: Reply)
    requires Linked(db)
    ensures h !in db.headmasters ==> r == Reply(NotFound(NoHeadMaster), db)
    ensures h in db.headmasters ==> r.status == Ok && h !in r.db.headmasters && r.db.schools == db.schools
  {
    if h !in db.headmasters then Reply(NotFound(NoHeadMaster), db)
    else Reply(Ok, DeleteMemberSubtypeEffect(db, HeadMasterRow(h)))
  }

  /**
   * Deleting a head master frees its school: the school stays, its lookup
   * answers 404, and a new head master can be created for it.
   */
  lemma DeleteHeadMasterFreesSchool(db: Db, h: Id)
    requires Consistent(db) && h in db.headmasters
    ensures var r := DeleteHeadMasterEffect(db, h).db;
      var s := db.headmasters[h].school;
      && Consistent(r) && s in r.schools
      && !HasHeadMaster(r, s)
      && GetHeadMasterBySchool(r, s) == Lacking(NoHeadMaster)
  {
    var r := DeleteHeadMasterEffect(db, h).db;
    var s := db.headmasters[h].school;
    DeleteMemberSubtypeConsistent(db, HeadMasterRow(h));
    DeleteMemberSubtypeLeavesOtherRows(db, HeadMasterRow(h));
    forall o | o in r.headmasters
      ensures r.headmasters[o].school != s
    {
      assert o in db.headmasters && o != h;
    }
  }

  method DeleteHeadMaster(store: Store, h: Id) returns (status: Status)
    requires store.Valid()
    modifies store
    ensures Reply(status, store.Snapshot()) == DeleteHeadMasterEffect(old(store.Snapshot()), h)
    ensures store.Valid()
  {
    if h !in store.headmasters {
      return NotFound(NoHeadMaster);
    }
    DeleteMemberSubtype(store, HeadMasterRow(h));
    status := Ok;
  }
}
