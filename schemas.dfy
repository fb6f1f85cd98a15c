/**
 * The request and response schemas (schemas.py): the In/Put/Patch payloads,
 * the `setattr` loops that copy a payload's items onto a record, and the
 * derived read-side values (`resolve_*`) of SchoolOut, ClassOut and MemberOut.
 */
module Schemas {
  import opened Wrappers
  import opened Models

  // ---------------------------------------------------------------------------
  // Payloads
  // ---------------------------------------------------------------------------
  // SchoolIn and PersonalInfoIn are model schemas carrying every field of their
  // model, so they are the records School and PersonalInfo themselves.

  /** Every field optional; None stands for a field the request did not set. */
  datatype SchoolPatch = SchoolPatch(
    name: Option<string>, address: Option<string>,
    phone: Option<string>, email: Option<string>, website: Option<string>)

  /** Every field optional; None stands for a field the request did not set. */
  datatype PersonalInfoPatch = PersonalInfoPatch(
    firstName: Option<string>, middleName: Option<string>, lastName: Option<string>,
    email: Option<string>, phone: Option<string>, address: Option<string>)

  /** ClassIn: `year` comes from the model field and so defaults to 0 when absent. */
  datatype ClassIn = ClassIn(teacherId: Id, schoolId: Id, year: Option<int>)

  datatype ClassPut = ClassPut(teacherId: Id, schoolId: Id, year: int)

  /** ClassPatch carries `year` only. */
  datatype ClassPatch = ClassPatch(year: Option<int>)

  /**
   * HeadMasterIn, TeacherIn and StudentIn: the username is optional; the class
   * and the intake year are fields of StudentIn only and are read only for students.
   */
  datatype SubtypeIn = SubtypeIn(
    schoolId: Id, username: Option<string>, classId: Id, intakeYear: int,
    personalInfo: PersonalInfo)

  /** HeadMasterPut, TeacherPut and StudentPut carry only `school_id` and `personal_info`. */
  datatype SubtypePut = SubtypePut(schoolId: Id, personalInfo: PersonalInfo)

  /** HeadMasterPatch and TeacherPatch: an optional school and a nested patch. */
  datatype MemberPatch = MemberPatch(schoolId: Option<Id>, personalInfo: PersonalInfoPatch)

  /** StudentPatch: an optional school, an optional class and a nested patch. */
  datatype StudentPatch = StudentPatch(
    schoolId: Option<Id>, classId: Option<Id>, personalInfo: PersonalInfoPatch)


  // ---------------------------------------------------------------------------
  // setattr over a School
  // ---------------------------------------------------------------------------

  /** One `(attr, value)` item of a school payload. */
  datatype SchoolAttr =
    | SchoolName(name: string)
    | SchoolAddress(address: string)
    | SchoolPhone(phone: Option<string>)
    | SchoolEmail(email: Option<string>)
    | SchoolWebsite(website: Option<string>)

  function SetSchoolAttr(s: School, a: SchoolAttr): School {
    match a
    case SchoolName(v) => s.(name := v)
    case SchoolAddress(v) => s.(address := v)
    case SchoolPhone(v) => s.(phone := v)
    case SchoolEmail(v) => s.(email := v)
    case SchoolWebsite(v) => s.(website := v)
  }

  /** The record after `setattr` of each item in turn. */
  function SetSchoolAttrs(s: School, items: seq<SchoolAttr>): School
    decreases |items|
  {
    if items == [] then s else SetSchoolAttrs(SetSchoolAttr(s, items[0]), items[1..])
  }

  /** The one-item list of a supplied field, or the empty list. */
  function OptSchoolItem(supplied: bool, a: SchoolAttr): seq<SchoolAttr> {
    if supplied then [a] else []
  }

  /** `payload.dict().items()` of a SchoolIn: every field, in declaration order. */
  function SchoolItems(v: School): seq<SchoolAttr> {
    [SchoolName(v.name), SchoolAddress(v.address), SchoolPhone(v.phone),
     SchoolEmail(v.email), SchoolWebsite(v.website)]
  }

  /** `payload.dict(exclude_unset=True).items()` of a SchoolPatch: the fields it sets. */
  function SchoolPatchItems(p: SchoolPatch): seq<SchoolAttr> {
    OptSchoolItem(p.name.Some?, SchoolName(p.name.GetOr("")))
    + (OptSchoolItem(p.address.Some?, SchoolAddress(p.address.GetOr("")))
    + (OptSchoolItem(p.phone.Some?, SchoolPhone(p.phone))
    + (OptSchoolItem(p.email.Some?, SchoolEmail(p.email))
    + OptSchoolItem(p.website.Some?, SchoolWebsite(p.website)))))
  }

  /** A patched school, field by field: a field the patch sets is replaced, any other kept. */
  function PatchedSchool(s: School, p: SchoolPatch): School {
    School(
      p.name.GetOr(s.name), p.address.GetOr(s.address),
      if p.phone.Some? then p.phone else s.phone,
      if p.email.Some? then p.email else s.email,
      if p.website.Some? then p.website else s.website)
  }

  lemma SchoolStep(s: School, supplied: bool, a: SchoolAttr, rest: seq<SchoolAttr>)
    ensures SetSchoolAttrs(s, OptSchoolItem(supplied, a) + rest)
         == SetSchoolAttrs(if supplied then SetSchoolAttr(s, a) else s, rest)
  {
    var o := OptSchoolItem(supplied, a);
    if supplied {
      assert (o + rest)[1..] == rest;
    } else {
      assert o + rest == rest;
    }
  }

  /** PATCH: setting the items a patch supplies is the field-by-field patch. */
  lemma SchoolPatchFieldwise(s: School, p: SchoolPatch)
    ensures SetSchoolAttrs(s, SchoolPatchItems(p)) == PatchedSchool(s, p)
  {
    var a1, a2 := SchoolName(p.name.GetOr("")), SchoolAddress(p.address.GetOr(""));
    var a3, a4, a5 := SchoolPhone(p.phone), SchoolEmail(p.email), SchoolWebsite(p.website);
    var r5 := OptSchoolItem(p.website.Some?, a5);
    var r4 := OptSchoolItem(p.email.Some?, a4) + r5;
    var r3 := OptSchoolItem(p.phone.Some?, a3) + r4;
    var r2 := OptSchoolItem(p.address.Some?, a2) + r3;
    var s1 := if p.name.Some? then SetSchoolAttr(s, a1) else s;
    var s2 := if p.address.Some? then SetSchoolAttr(s1, a2) else s1;
    var s3 := if p.phone.Some? then SetSchoolAttr(s2, a3) else s2;
    var s4 := if p.email.Some? then SetSchoolAttr(s3, a4) else s3;
    SchoolStep(s, p.name.Some?, a1, r2);
    SchoolStep(s1, p.address.Some?, a2, r3);
    SchoolStep(s2, p.phone.Some?, a3, r4);
    SchoolStep(s3, p.email.Some?, a4, r5);
    SchoolStep(s4, p.website.Some?, a5, []);
    assert r5 + [] == r5;
  }

  /** PUT: setting every item of a SchoolIn yields exactly the payload, whatever the old school. */
  lemma SchoolPutOverwrites(s: School, v: School)
    ensures SetSchoolAttrs(s, SchoolItems(v)) == v
  {
    var a1, a2, a3 := SchoolName(v.name), SchoolAddress(v.address), SchoolPhone(v.phone);
    var a4, a5 := SchoolEmail(v.email), SchoolWebsite(v.website);
    assert SchoolItems(v) == OptSchoolItem(true, a1) + [a2, a3, a4, a5];
    assert [a2, a3, a4, a5] == OptSchoolItem(true, a2) + [a3, a4, a5];
    assert [a3, a4, a5] == OptSchoolItem(true, a3) + [a4, a5];
    assert [a4, a5] == OptSchoolItem(true, a4) + [a5];
    assert [a5] == OptSchoolItem(true, a5) + [];
    var s1 := SetSchoolAttr(s, a1);
    var s2 := SetSchoolAttr(s1, a2);
    var s3 := SetSchoolAttr(s2, a3);
    var s4 := SetSchoolAttr(s3, a4);
    SchoolStep(s, true, a1, [a2, a3, a4, a5]);
    SchoolStep(s1, true, a2, [a3, a4, a5]);
    SchoolStep(s2, true, a3, [a4, a5]);
    SchoolStep(s3, true, a4, [a5]);
    SchoolStep(s4, true, a5, []);
  }

  /** A patch that sets nothing leaves the school as it was. */
  lemma EmptySchoolPatchIsNoOp(s: School)
    ensures SetSchoolAttrs(s, SchoolPatchItems(SchoolPatch(None, None, None, None, None))) == s
  {
    SchoolPatchFieldwise(s, SchoolPatch(None, None, None, None, None));
  }

  /** Applying the same patch twice is applying it once. */
  lemma SchoolPatchIdempotent(s: School, p: SchoolPatch)
    ensures SetSchoolAttrs(SetSchoolAttrs(s, SchoolPatchItems(p)), SchoolPatchItems(p))
         == SetSchoolAttrs(s, SchoolPatchItems(p))
  {
    SchoolPatchFieldwise(s, p);
    SchoolPatchFieldwise(PatchedSchool(s, p), p);
  }

  /** `for attr, value in items: setattr(school, attr, value)`. */
  method AssignSchoolAttrs(s: School, items: seq<SchoolAttr>) returns (r: School)
    ensures r == SetSchoolAttrs(s, items)
  {
    r := s;
    var i := 0;
    while i < |items|
      invariant 0 <= i <= |items|
      invariant SetSchoolAttrs(r, items[i..]) == SetSchoolAttrs(s, items)
    {
      assert items[i..][1..] == items[i + 1..];
      r := SetSchoolAttr(r, items[i]);
      i := i + 1;
    }
  }

  // ---------------------------------------------------------------------------
  // setattr over a PersonalInfo
  // ---------------------------------------------------------------------------

  /** One `(attr, value)` item of a personal-info payload. */
  datatype InfoAttr =
    | FirstName(first: string)
    | MiddleName(middle: Option<string>)
    | LastName(last: string)
    | InfoEmail(email: Option<string>)
    | InfoPhone(phone: Option<string>)
    | InfoAddress(address: Option<string>)

  function SetInfoAttr(p: PersonalInfo, a: InfoAttr): PersonalInfo {
    match a
    case FirstName(v) => p.(firstName := v)
    case MiddleName(v) => p.(middleName := v)
    case LastName(v) => p.(lastName := v)
    case InfoEmail(v) => p.(email := v)
    case InfoPhone(v) => p.(phone := v)
    case InfoAddress(v) => p.(address := v)
  }

  /** Python truthiness of an item's value: None and the empty string are false. */
  predicate Truthy(a: InfoAttr) {
    match a
    case FirstName(v) => v != ""
    case MiddleName(v) => v.Some? && v.value != ""
    case LastName(v) => v != ""
    case InfoEmail(v) => v.Some? && v.value != ""
    case InfoPhone(v) => v.Some? && v.value != ""
    case InfoAddress(v) => v.Some? && v.value != ""
  }

  /**
   * The record after `setattr` of each item in turn; with `onlyTruthy`, after
   * `if value: setattr(...)`, which skips the items whose value is falsy.
   */
  function SetInfoAttrs(p: PersonalInfo, items: seq<InfoAttr>, onlyTruthy: bool): PersonalInfo
    decreases |items|
  {
    if items == [] then p
    else
      var q := if !onlyTruthy || Truthy(items[0]) then SetInfoAttr(p, items[0]) else p;
      SetInfoAttrs(q, items[1..], onlyTruthy)
  }

  /** The one-item list of a supplied field, or the empty list. */
  function OptInfoItem(supplied: bool, a: InfoAttr): seq<InfoAttr> {
    if supplied then [a] else []
  }

  /** `personal_info.dict().items()` of a PersonalInfoIn: every field, in declaration order. */
  function InfoItems(v: PersonalInfo): seq<InfoAttr> {
    [FirstName(v.firstName), MiddleName(v.middleName), LastName(v.lastName),
     InfoEmail(v.email), InfoPhone(v.phone), InfoAddress(v.address)]
  }

  /** `personal_info.dict(exclude_unset=True).items()` of a PersonalInfoPatch. */
  function InfoPatchItems(q: PersonalInfoPatch): seq<InfoAttr> {
    OptInfoItem(q.firstName.Some?, FirstName(q.firstName.GetOr("")))
    + (OptInfoItem(q.middleName.Some?, MiddleName(q.middleName))
    + (OptInfoItem(q.lastName.Some?, LastName(q.lastName.GetOr("")))
    + (OptInfoItem(q.email.Some?, InfoEmail(q.email))
    + (OptInfoItem(q.phone.Some?, InfoPhone(q.phone))
    + OptInfoItem(q.address.Some?, InfoAddress(q.address))))))
  }

  /** A patched record, field by field: a supplied field is replaced, any other kept. */
  function PatchedInfo(p: PersonalInfo, q: PersonalInfoPatch): PersonalInfo {
    PersonalInfo(
      q.firstName.GetOr(p.firstName),
      if q.middleName.Some? then q.middleName else p.middleName,
      q.lastName.GetOr(p.lastName),
      if q.email.Some? then q.email else p.email,
      if q.phone.Some? then q.phone else p.phone,
      if q.address.Some? then q.address else p.address)
  }

  /** The value a truthiness-guarded patch leaves in a required field. */
  function KeepUnlessNonEmpty(current: string, supplied: Option<string>): string {
    if supplied.Some? && supplied.value != "" then supplied.value else current
  }

  /** The value a truthiness-guarded patch leaves in a nullable field. */
  function KeepNullableUnlessNonEmpty(current: Option<string>, supplied: Option<string>): Option<string> {
    if supplied.Some? && supplied.value != "" then supplied else current
  }

  /** A record patched only where the supplied value is a non-empty string. */
  function TruthyPatchedInfo(p: PersonalInfo, q: PersonalInfoPatch): PersonalInfo {
    PersonalInfo(
      KeepUnlessNonEmpty(p.firstName, q.firstName),
      KeepNullableUnlessNonEmpty(p.middleName, q.middleName),
      KeepUnlessNonEmpty(p.lastName, q.lastName),
      KeepNullableUnlessNonEmpty(p.email, q.email),
      KeepNullableUnlessNonEmpty(p.phone, q.phone),
      KeepNullableUnlessNonEmpty(p.address, q.address))
  }

  /** The record one possibly supplied item leaves behind. */
  function InfoStepResult(p: PersonalInfo, supplied: bool, a: InfoAttr, onlyTruthy: bool): PersonalInfo {
    if supplied && (!onlyTruthy || Truthy(a)) then SetInfoAttr(p, a) else p
  }

  lemma InfoStep(p: PersonalInfo, supplied: bool, a: InfoAttr, rest: seq<InfoAttr>, onlyTruthy: bool)
    ensures SetInfoAttrs(p, OptInfoItem(supplied, a) + rest, onlyTruthy)
         == SetInfoAttrs(InfoStepResult(p, supplied, a, onlyTruthy), rest, onlyTruthy)
  {
    var o := OptInfoItem(supplied, a);
    if supplied {
      assert (o + rest)[1..] == rest;
    } else {
      assert o + rest == rest;
    }
  }

  /** The record the six possibly supplied items of a patch leave, one step after the other. */
  function InfoPatchChain(p: PersonalInfo, q: PersonalInfoPatch, onlyTruthy: bool): PersonalInfo {
    var p1 := InfoStepResult(p, q.firstName.Some?, FirstName(q.firstName.GetOr("")), onlyTruthy);
    var p2 := InfoStepResult(p1, q.middleName.Some?, MiddleName(q.middleName), onlyTruthy);
    var p3 := InfoStepResult(p2, q.lastName.Some?, LastName(q.lastName.GetOr("")), onlyTruthy);
    var p4 := InfoStepResult(p3, q.email.Some?, InfoEmail(q.email), onlyTruthy);
    var p5 := InfoStepResult(p4, q.phone.Some?, InfoPhone(q.phone), onlyTruthy);
    InfoStepResult(p5, q.address.Some?, InfoAddress(q.address), onlyTruthy)
  }

  /** Both loops over a patch's items leave the record of the step-by-step chain. */
  lemma InfoPatchSteps(p: PersonalInfo, q: PersonalInfoPatch, onlyTruthy: bool)
    ensures SetInfoAttrs(p, InfoPatchItems(q), onlyTruthy) == InfoPatchChain(p, q, onlyTruthy)
  {
    var a1, a2, a3 := FirstName(q.firstName.GetOr("")), MiddleName(q.middleName), LastName(q.lastName.GetOr(""));
    var a4, a5, a6 := InfoEmail(q.email), InfoPhone(q.phone), InfoAddress(q.address);
    var r6 := OptInfoItem(q.address.Some?, a6);
    var r5 := OptInfoItem(q.phone.Some?, a5) + r6;
    var r4 := OptInfoItem(q.email.Some?, a4) + r5;
    var r3 := OptInfoItem(q.lastName.Some?, a3) + r4;
    var r2 := OptInfoItem(q.middleName.Some?, a2) + r3;
    var p1 := InfoStepResult(p, q.firstName.Some?, a1, onlyTruthy);
    var p2 := InfoStepResult(p1, q.middleName.Some?, a2, onlyTruthy);
    var p3 := InfoStepResult(p2, q.lastName.Some?, a3, onlyTruthy);
    var p4 := InfoStepResult(p3, q.email.Some?, a4, onlyTruthy);
    var p5 := InfoStepResult(p4, q.phone.Some?, a5, onlyTruthy);
    InfoStep(p, q.firstName.Some?, a1, r2, onlyTruthy);
    InfoStep(p1, q.middleName.Some?, a2, r3, onlyTruthy);
    InfoStep(p2, q.lastName.Some?, a3, r4, onlyTruthy);
    InfoStep(p3, q.email.Some?, a4, r5, onlyTruthy);
    InfoStep(p4, q.phone.Some?, a5, r6, onlyTruthy);
    InfoStep(p5, q.address.Some?, a6, [], onlyTruthy);
    assert r6 + [] == r6;
  }

  /** PATCH: setting the items a patch supplies is the field-by-field patch. */
  lemma InfoPatchFieldwise(p: PersonalInfo, q: PersonalInfoPatch)
    ensures SetInfoAttrs(p, InfoPatchItems(q), false) == PatchedInfo(p, q)
  {
    InfoPatchSteps(p, q, false);
  }

  /** The truthiness-guarded loop over a patch's items writes only the non-empty values. */
  lemma InfoTruthyPatchFieldwise(p: PersonalInfo, q: PersonalInfoPatch)
    ensures SetInfoAttrs(p, InfoPatchItems(q), true) == TruthyPatchedInfo(p, q)
  {
    InfoPatchSteps(p, q, true);
    var p1 := InfoStepResult(p, q.firstName.Some?, FirstName(q.firstName.GetOr("")), true);
    assert p1 == p.(firstName := KeepUnlessNonEmpty(p.firstName, q.firstName));
    var p2 := InfoStepResult(p1, q.middleName.Some?, MiddleName(q.middleName), true);
    assert p2 == p1.(middleName := KeepNullableUnlessNonEmpty(p.middleName, q.middleName));
    var p3 := InfoStepResult(p2, q.lastName.Some?, LastName(q.lastName.GetOr("")), true);
    assert p3 == p2.(lastName := KeepUnlessNonEmpty(p.lastName, q.lastName));
    var p4 := InfoStepResult(p3, q.email.Some?, InfoEmail(q.email), true);
    assert p4 == p3.(email := KeepNullableUnlessNonEmpty(p.email, q.email));
    var p5 := InfoStepResult(p4, q.phone.Some?, InfoPhone(q.phone), true);
    assert p5 == p4.(phone := KeepNullableUnlessNonEmpty(p.phone, q.phone));
    var p6 := InfoStepResult(p5, q.address.Some?, InfoAddress(q.address), true);
    assert p6 == p5.(address := KeepNullableUnlessNonEmpty(p.address, q.address));
  }

  /** PUT: setting every item of a PersonalInfoIn yields exactly the payload. */
  lemma InfoPutOverwrites(p: PersonalInfo, v: PersonalInfo)
    ensures SetInfoAttrs(p, InfoItems(v), false) == v
  {
    var a1, a2, a3 := FirstName(v.firstName), MiddleName(v.middleName), LastName(v.lastName);
    var a4, a5, a6 := InfoEmail(v.email), InfoPhone(v.phone), InfoAddress(v.address);
    assert InfoItems(v) == OptInfoItem(true, a1) + [a2, a3, a4, a5, a6];
    assert [a2, a3, a4, a5, a6] == OptInfoItem(true, a2) + [a3, a4, a5, a6];
    assert [a3, a4, a5, a6] == OptInfoItem(true, a3) + [a4, a5, a6];
    assert [a4, a5, a6] == OptInfoItem(true, a4) + [a5, a6];
    assert [a5, a6] == OptInfoItem(true, a5) + [a6];
    assert [a6] == OptInfoItem(true, a6) + [];
    var p1 := SetInfoAttr(p, a1);
    var p2 := SetInfoAttr(p1, a2);
    var p3 := SetInfoAttr(p2, a3);
    var p4 := SetInfoAttr(p3, a4);
    var p5 := SetInfoAttr(p4, a5);
    InfoStep(p, true, a1, [a2, a3, a4, a5, a6], false);
    InfoStep(p1, true, a2, [a3, a4, a5, a6], false);
    InfoStep(p2, true, a3, [a4, a5, a6], false);
    InfoStep(p3, true, a4, [a5, a6], false);
    InfoStep(p4, true, a5, [a6], false);
    InfoStep(p5, true, a6, [], false);
  }

  /** With truthiness guarding, empty strings never overwrite a stored value. */
  lemma EmptyStringsNeverOverwrite(p: PersonalInfo)
    ensures SetInfoAttrs(p, InfoPatchItems(PersonalInfoPatch(Some(""), Some(""), Some(""), Some(""), Some(""), Some(""))), true) == p
  {
    InfoPatchSteps(p, PersonalInfoPatch(Some(""), Some(""), Some(""), Some(""), Some(""), Some("")), true);
  }

  /**
   * `for attr, value in items: setattr(personal_info, attr, value)`, and with
   * `onlyTruthy` the same loop guarded by `if value:`.
   */
  method AssignInfoAttrs(p: PersonalInfo, items: seq<InfoAttr>, onlyTruthy: bool) returns (r: PersonalInfo)
    ensures r == SetInfoAttrs(p, items, onlyTruthy)
  {
    r := p;
    var i := 0;
    while i < |items|
      invariant 0 <= i <= |items|
      invariant SetInfoAttrs(r, items[i..], onlyTruthy) == SetInfoAttrs(p, items, onlyTruthy)
    {
      assert items[i..][1..] == items[i + 1..];
      if !onlyTruthy || Truthy(items[i]) {
        r := SetInfoAttr(r, items[i]);
      }
      i := i + 1;
    }
  }

  // ---------------------------------------------------------------------------
  // The items of a head-master, teacher or student payload
  // ---------------------------------------------------------------------------

  /**
   * One `(attr, value)` item of a HeadMaster, Teacher or Student payload;
   * `personal_info` carries the items of its own dictionary.
   */
  datatype MemberItem = SchoolIdItem(school: Id) | ClassIdItem(cls: Id) | InfoItem(attrs: seq<InfoAttr>)

  /** `payload.dict().items()` of a HeadMasterPut, TeacherPut or StudentPut: both fields, in order. */
  function PutItems(p: SubtypePut): seq<MemberItem> {
    [SchoolIdItem(p.schoolId), InfoItem(InfoItems(p.personalInfo))]
  }

  /** The item of an optional `school_id`, when the request set it. */
  function OptSchoolIdItem(school: Option<Id>): seq<MemberItem> {
    if school.Some? then [SchoolIdItem(school.value)] else []
  }

  /**
   * `payload.dict(exclude_unset=True).items()` of a HeadMasterPatch or
   * TeacherPatch: `personal_info` is a required field, so it is always there,
   * holding the subfields the request set.
   */
  function MemberPatchItems(p: MemberPatch): seq<MemberItem> {
    OptSchoolIdItem(p.schoolId) + [InfoItem(InfoPatchItems(p.personalInfo))]
  }

  /** `payload.dict(exclude_unset=True).items()` of a StudentPatch, in field order. */
  function StudentPatchItems(p: StudentPatch): seq<MemberItem> {
    OptSchoolIdItem(p.schoolId)
    + (if p.classId.Some? then [ClassIdItem(p.classId.value)] else [])
    + [InfoItem(InfoPatchItems(p.personalInfo))]
  }

  // ---------------------------------------------------------------------------
  // Read side: the resolve_* values of SchoolOut, ClassOut and MemberOut
  // ---------------------------------------------------------------------------

  /**
   * The members of `keys` below `n`, in increasing order: a scan of a table in
   * id order that keeps the rows a filter selects.
   */
  function KeysBelow(keys: set<Id>, n: nat): (r: seq<Id>)
    ensures forall k: Id :: k in r <==> k < n && k in keys
  {
    if n == 0 then [] else KeysBelow(keys, n - 1) + (if n - 1 in keys then [n - 1] else [])
  }

  /** The scan lists the keys in increasing order. */
  lemma {:induction false} KeysBelowIncreasing(keys: set<Id>, n: nat)
    ensures forall i, j :: 0 <= i < j < |KeysBelow(keys, n)| ==> KeysBelow(keys, n)[i] < KeysBelow(keys, n)[j]
  {
    if n > 0 {
      KeysBelowIncreasing(keys, n - 1);
      var r' := KeysBelow(keys, n - 1);
      forall i | 0 <= i < |r'| ensures r'[i] < n - 1 {
        assert r'[i] in r';
      }
    }
  }

  /** The members of `keys` below `n`, as a set. */
  function Below(keys: set<Id>, n: nat): set<Id> {
    set k | k in keys && k < n
  }

  /** A scan in id order finds each key below the bound once. */
  lemma {:induction false} KeysBelowCount(keys: set<Id>, n: nat)
    ensures |KeysBelow(keys, n)| == |Below(keys, n)|
  {
    if n > 0 {
      var last: Id := n - 1;
      KeysBelowCount(keys, last);
      var prev, prevSet := KeysBelow(keys, last), Below(keys, last);
      if last in keys {
        assert last !in prevSet;
        assert Below(keys, n) == prevSet + {last};
        assert KeysBelow(keys, n) == prev + [last];
      } else {
        assert Below(keys, n) == prevSet;
        assert KeysBelow(keys, n) == prev;
      }
    }
  }

  /** When every key is below the bound, the scan finds all of them, each once. */
  lemma ScanFindsAll(keys: set<Id>, n: nat)
    requires forall k :: k in keys ==> k < n
    ensures |KeysBelow(keys, n)| == |keys|
  {
    KeysBelowCount(keys, n);
    assert Below(keys, n) == keys;
  }

  predicate HeadsSchool(db: Db, h: Id, s: Id) {
    h in db.headmasters && db.headmasters[h].school == s
  }

  /** `teacher.member.school.id == s`. */
  predicate TeachesAt(db: Db, t: Id, s: Id) {
    t in db.teachers && db.teachers[t].member in db.members
    && db.members[db.teachers[t].member].school == s
  }

  /** `student.member.school.id == s`. */
  predicate StudiesAt(db: Db, x: Id, s: Id) {
    x in db.students && db.students[x].member in db.members
    && db.members[db.students[x].member].school == s
  }

  /** `student.f_class.id == c`. */
  predicate InClass(db: Db, x: Id, c: Id) {
    x in db.students && db.students[x].fClass == c
  }

  /** `HeadMaster.objects.filter(school=s)`. */
  function HeadMastersOf(db: Db, s: Id): set<Id> {
    set h | h in db.headmasters && HeadsSchool(db, h, s)
  }

  /** `Teacher.objects.filter(member__school=s)`. */
  function TeachersOfSchool(db: Db, s: Id): set<Id> {
    set t | t in db.teachers && TeachesAt(db, t, s)
  }

  /** `Student.objects.filter(member__school=s)`. */
  function StudentsOfSchool(db: Db, s: Id): set<Id> {
    set x | x in db.students && StudiesAt(db, x, s)
  }

  /** `Student.objects.filter(f_class=c)`. */
  function StudentsOfClass(db: Db, c: Id): set<Id> {
    set x | x in db.students && InClass(db, x, c)
  }

  /** `school.class_set` and `Class.objects.filter(school=s)`. */
  function ClassesOfSchool(db: Db, s: Id): set<Id> {
    set c | c in db.classes && db.classes[c].school == s
  }

  /** resolve_head_master: the first head master, in id order, whose school is `s`. */
  function ResolveHeadMaster(db: Db, s: Id): (r: Option<Id>)
    ensures r.Some? ==> HeadsSchool(db, r.value, s)
    ensures r.Some? ==> forall h: Id :: h < db.next.headmasters && HeadsSchool(db, h, s) ==> r.value <= h
    ensures r.None? ==> forall h: Id :: h < db.next.headmasters ==> !HeadsSchool(db, h, s)
  {
    var hs := KeysBelow(HeadMastersOf(db, s), db.next.headmasters);
    assert forall h: Id :: h < db.next.headmasters ==> (h in hs <==> HeadsSchool(db, h, s)) by {
      forall h: Id | h < db.next.headmasters ensures h in hs <==> HeadsSchool(db, h, s) {
        assert h in HeadMastersOf(db, s) <==> HeadsSchool(db, h, s);
      }
    }
    if |hs| == 0 then None
    else
      assert hs[0] in hs;
      assert forall h: Id :: h < db.next.headmasters && HeadsSchool(db, h, s) ==> hs[0] <= h by {
        forall h: Id | h < db.next.headmasters && HeadsSchool(db, h, s) ensures hs[0] <= h {
          assert h in hs;
          var j :| 0 <= j < |hs| && hs[j] == h;
          KeysBelowIncreasing(HeadMastersOf(db, s), db.next.headmasters);
        }
      }
      Some(hs[0])
  }

  /** In a consistent database the scan finds exactly the school's one head master. */
  lemma ResolveHeadMasterIsTheHeadMaster(db: Db, s: Id, h: Id)
    requires Consistent(db)
    ensures ResolveHeadMaster(db, s) == Some(h) <==> HeadsSchool(db, h, s)
  {
    if HeadsSchool(db, h, s) {
      assert h < db.next.headmasters;
      var r := ResolveHeadMaster(db, s);
      assert r.Some?;
    }
  }

  /** resolve_teacher_count: the length of the list of teachers whose member is at `s`. */
  function ResolveTeacherCount(db: Db, s: Id): (n: nat)
    ensures (forall t :: t in db.teachers ==> t < db.next.teachers) ==> n == |TeachersOfSchool(db, s)|
  {
    ScanCount(TeachersOfSchool(db, s), db.next.teachers);
    |KeysBelow(TeachersOfSchool(db, s), db.next.teachers)|
  }

  /** resolve_student_count: the length of the list of students whose member is at `s`. */
  function ResolveStudentCount(db: Db, s: Id): (n: nat)
    ensures (forall x :: x in db.students ==> x < db.next.students) ==> n == |StudentsOfSchool(db, s)|
  {
    ScanCount(StudentsOfSchool(db, s), db.next.students);
    |KeysBelow(StudentsOfSchool(db, s), db.next.students)|
  }

  lemma ScanCount(keys: set<Id>, n: nat)
    ensures (forall k :: k in keys ==> k < n) ==> |KeysBelow(keys, n)| == |keys|
  {
    if forall k :: k in keys ==> k < n {
      ScanFindsAll(keys, n);
    }
  }

  /** ClassOut.resolve_students: the students of class `c`, in id order. */
  function ResolveStudents(db: Db, c: Id): (xs: seq<Id>)
    ensures forall x: Id :: x in xs <==> x in StudentsOfClass(db, c) && x < db.next.students
    ensures forall i, j :: 0 <= i < j < |xs| ==> xs[i] < xs[j]
  {
    KeysBelowIncreasing(StudentsOfClass(db, c), db.next.students);
    KeysBelow(StudentsOfClass(db, c), db.next.students)
  }

  datatype SchoolOut = SchoolOut(
    id: Id, school: School, headMaster: Option<Id>,
    studentCount: nat, teacherCount: nat, classCount: nat)

  datatype ClassOut = ClassOut(
    id: Id, year: int, teacher: Id, studentCount: nat, students: seq<Id>)

  /**
   * The SchoolOut a view returns for school `s`. Its counts, computed by
   * scanning every row, are the sizes of the ORM filters the listing views use.
   */
  function SchoolOutOf(db: Db, s: Id): (o: SchoolOut)
    requires s in db.schools
    ensures o.id == s && o.school == db.schools[s]
    ensures o.headMaster.Some? ==> HeadsSchool(db, o.headMaster.value, s)
    ensures o.headMaster.None? ==> forall h: Id :: h < db.next.headmasters ==> !HeadsSchool(db, h, s)
    ensures KeysBelowNext(db) && o.headMaster.None? ==>
      forall h :: h in db.headmasters ==> db.headmasters[h].school != s
    ensures o.classCount == |ClassesOfSchool(db, s)|
    ensures KeysBelowNext(db) ==>
      o.teacherCount == |TeachersOfSchool(db, s)| && o.studentCount == |StudentsOfSchool(db, s)|
  {
    var hm := ResolveHeadMaster(db, s);
    assert KeysBelowNext(db) && hm.None? ==> forall h :: h in db.headmasters ==> db.headmasters[h].school != s by {
      if KeysBelowNext(db) && hm.None? {
        forall h | h in db.headmasters ensures db.headmasters[h].school != s {
          assert h < db.next.headmasters;
          assert !HeadsSchool(db, h, s);
        }
      }
    }
    SchoolOut(s, db.schools[s], hm,
              ResolveStudentCount(db, s), ResolveTeacherCount(db, s), |ClassesOfSchool(db, s)|)
  }

  /** The ClassOut a view returns for class `c`. */
  function ClassOutOf(db: Db, c: Id): (o: ClassOut)
    requires c in db.classes
    ensures o.id == c && o.year == db.classes[c].year && o.teacher == db.classes[c].teacher
    ensures o.studentCount == |StudentsOfClass(db, c)|
    ensures forall x :: x in o.students ==> InClass(db, x, c)
  {
    ClassOut(c, db.classes[c].year, db.classes[c].teacher,
             |StudentsOfClass(db, c)|, ResolveStudents(db, c))
  }

  /**
   * The two student read-outs of a ClassOut agree: the list holds exactly the
   * class's students, each once, so its length is `student_count`.
   */
  lemma ClassOutStudents(db: Db, c: Id)
    requires KeysBelowNext(db)
    requires c in db.classes
    ensures forall x :: x in ClassOutOf(db, c).students <==> x in StudentsOfClass(db, c)
    ensures ClassOutOf(db, c).studentCount == |ClassOutOf(db, c).students|
  {
    ScanFindsAll(StudentsOfClass(db, c), db.next.students);
  }

  /**
   * `get_FOO_display()`: the label the choices give the stored code, or the
   * code itself when no choice has it.
   */
  function ChoiceLabel(choices: seq<(string, string)>, code: string): (shown: string)
    ensures (code, shown) in choices || (shown == code && forall i :: 0 <= i < |choices| ==> choices[i].0 != code)
  {
    if choices == [] then code
    else if choices[0].0 == code then choices[0].1
    else ChoiceLabel(choices[1..], code)
  }

  /** MemberOut.resolve_role: `get_role_display()`, the label ROLE_CHOICES gives the role's code. */
  function RoleLabel(r: Role): (shown: string)
    ensures (RoleCode(r), shown) in RoleChoices
  {
    ChoiceLabel(RoleChoices, RoleCode(r))
  }

  /** Distinct roles have distinct labels, so the label identifies the role. */
  lemma RoleLabelInjective(a: Role, b: Role)
    ensures RoleLabel(a) == RoleLabel(b) <==> a == b
  {
  }
}
