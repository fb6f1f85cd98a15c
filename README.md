# Lexnetic school backend — a Dafny model

The system is a Django REST backend for running schools. It stores schools and
their classes, plus the people attached to them. A person is a `Member` row
with one `PersonalInfo` row, a school, a role and an optional unique username.
Each member also has one subtype row:

- `HeadMaster`: at most one per school, through a one-to-one foreign key.
- `Teacher`.
- `Student`: carries an intake year and a class.

Creating a member also creates a Django login account named after the member.
The account is staff unless the member is a student. When the request gives no
username, one is generated from the person's names.

The model covers the data layer and the write side of the API:

- the tables and their `on_delete=CASCADE` rules;
- the shared helpers that create and delete members;
- every create, replace (PUT), patch (PATCH) and delete view for schools,
  classes, head masters, teachers and students;
- the lookup and listing views that take a school or a class;
- the counts that the read schemas compute.

## Layout

- `wrappers.dfy` (`Wrappers`): `Option`.
- `models.dfy` (`Models`):
  - the records of `models.py` as datatypes, and the whole database as a value `Db`;
  - the consistency invariant `Consistent`: keys below their counters, no dangling foreign key, one head master per school, one member per `PersonalInfo`, unique usernames, and each subtype row's member carrying that role;
  - the delete cascades `Drop*`;
  - the `Store` class, whose map fields are the tables and whose methods are the ORM row operations (`objects.create`, `save`, `delete`).
- `schemas.dfy` (`Schemas`):
  - the request payloads;
  - the `setattr` loops of PUT and PATCH, as folds with their loop methods;
  - the id-ordered scans of the read-side resolvers.
- `api.dfy` (`Api`): username generation, `create_django_user`, `get_subtype`, `create_memberSubType`, `delete_memberSubType` and the bearer-token check.
- One module per view file:
  - `school_api.dfy` (`SchoolApi`)
  - `class_api.dfy` (`ClassApi`)
  - `headmaster_api.dfy` (`HeadMasterApi`)
  - `teacher_api.dfy` (`TeacherApi`)
  - `student_api.dfy` (`StudentApi`)

Each view is written twice:

- a function `…Effect(db, …)` that returns the HTTP status and the new database;
- a method on `Store` that performs the view's ORM calls in order, including its loops.

Each method is proved to return the status of that function and to leave the
store holding exactly the function's database. Its `requires store.Valid()` and
`ensures store.Valid()` keep the consistency invariant across every view. The
lemmas beside each function state what the view promises.

Status codes are modelled as follows:

- `Ok`: a 200.
- `NotFound(…)`: a 404. It names what was missing.
- `Conflict(…)`: a 409.
- `ServerError`: a request that raises, which Django answers with a 500. Rows written before the exception stay, because Django runs in autocommit mode and the views are not atomic. The model takes the engine to be SQLite, Django's default, or any engine on which `select_for_update` does nothing outside a transaction (see "## Left out").

## Model

| member | source | states |
|---|---|---|
| Models.DropStudents | LexneticSchool/lexnetic_school/models.py:23-26 | deleting students removes exactly those student rows; nothing refers to a student, so nothing else changes |
| Models.DropClasses | LexneticSchool/lexnetic_school/models.py:15-26 | deleting classes removes them and every student whose `f_class` is one of them, and touches no other table |
| Models.DropTeachers | LexneticSchool/lexnetic_school/models.py:15-21 | deleting teachers removes exactly them, exactly the classes they teach and exactly the students of those classes; no other table changes |
| Models.DropHeadMasters | LexneticSchool/lexnetic_school/models.py:4-6 | deleting head masters removes exactly those rows |
| Models.DropMembers | LexneticSchool/lexnetic_school/models.py:4-40 | deleting members removes exactly them, the head master, teacher and student rows pointing at them, the classes of those teachers and the students of those classes; schools, PersonalInfo rows and accounts stay |
| Models.DropInfos | LexneticSchool/lexnetic_school/models.py:40-48 | deleting PersonalInfo rows removes exactly them, the members owning them, and then exactly what the member cascade removes; schools and accounts stay |
| Models.DropSchools | LexneticSchool/lexnetic_school/models.py:4-29 | deleting schools removes exactly them, their members, head masters and classes, and exactly the rows whose member or class the cascade removed; no member, class or head master of those schools is left |
| Models.DropStudentsSound | LexneticSchool/lexnetic_school/models.py:23-26 | the student cascade only deletes, and leaves no foreign key dangling |
| Models.DropClassesSound | LexneticSchool/lexnetic_school/models.py:15-18 | the class cascade only deletes, and leaves no foreign key dangling |
| Models.DropTeachersSound | LexneticSchool/lexnetic_school/models.py:20-21 | the teacher cascade only deletes, and leaves no foreign key dangling |
| Models.DropHeadMastersSound | LexneticSchool/lexnetic_school/models.py:4-6 | the head-master cascade only deletes, and leaves no foreign key dangling |
| Models.DropMembersSound | LexneticSchool/lexnetic_school/models.py:28-40 | the member cascade only deletes, and leaves no foreign key dangling |
| Models.DropInfosSound | LexneticSchool/lexnetic_school/models.py:42-48 | the PersonalInfo cascade only deletes, and leaves no foreign key dangling |
| Models.DropSchoolsSound | LexneticSchool/lexnetic_school/models.py:8-13 | the school cascade only deletes, and leaves no foreign key dangling |
| Models.DropClassesCompose | LexneticSchool/lexnetic_school/models.py:15-18 | deleting two batches of classes one after the other is deleting their union |
| Models.DropEmptyClass | LexneticSchool/lexnetic_school/models.py:26 | a class no student is in is deleted alone |
| Models.DropUnreferencedMembers | LexneticSchool/lexnetic_school/models.py:4-26 | members no subtype row refers to are deleted alone |
| Models.DropUnownedInfos | LexneticSchool/lexnetic_school/models.py:40 | PersonalInfo rows no member owns are deleted alone |
| Models.SubDbConsistent | LexneticSchool/lexnetic_school/models.py:4-48 | deleting rows keeps the consistency invariant as long as no foreign key is left dangling |
| Models.SaveSchoolConsistent | LexneticSchool/lexnetic_school/models.py:8-13 | saving new field values on an existing school keeps the invariant |
| Models.SaveInfoConsistent | LexneticSchool/lexnetic_school/models.py:42-48 | saving an existing PersonalInfo keeps the invariant |
| Models.InsertSchoolConsistent | LexneticSchool/lexnetic_school/models.py:8-13 | inserting a school under the next key keeps the invariant |
| Models.InsertClassConsistent | LexneticSchool/lexnetic_school/models.py:15-18 | inserting a class whose teacher and school exist keeps the invariant |
| Models.SaveClassConsistent | LexneticSchool/lexnetic_school/models.py:15-18 | saving a class whose teacher and school exist keeps the invariant |
| Models.SaveMemberConsistent | LexneticSchool/lexnetic_school/models.py:28-40 | saving a member that keeps its PersonalInfo and role, with an existing school and a username no other member holds, keeps the invariant (the `unique=True` of `username`) |
| Models.OwnUsernameFree | LexneticSchool/lexnetic_school/models.py:30 | under the uniqueness invariant no other member holds a member's own username |
| Models.SaveHeadMasterConsistent | LexneticSchool/lexnetic_school/models.py:4-6 | moving a head master to an existing school that no other head master holds keeps the one-to-one invariant |
| Models.Store.constructor | LexneticSchool/lexnetic_school/models.py:4-48 | a new store holds empty tables |
| Models.Store.Load | LexneticSchool/lexnetic_school/models.py:4-48 | replaces every table at once; this is how a cascade result is installed |
| Models.Store.InsertSchoolRow | LexneticSchool/lexnetic_school/models.py:8-13 | `School.objects.create` adds the row under the next key and changes nothing else |
| Models.Store.InsertInfoRow | LexneticSchool/lexnetic_school/models.py:42-48 | `PersonalInfo.objects.create` adds the row under the next key and changes nothing else |
| Models.Store.InsertMemberRow | LexneticSchool/lexnetic_school/models.py:28-40 | `Member.objects.create` adds the row under the next key and changes nothing else |
| Models.Store.InsertHeadMasterRow | LexneticSchool/lexnetic_school/models.py:4-6 | `HeadMaster.objects.create` adds the row under the next key and changes nothing else |
| Models.Store.InsertTeacherRow | LexneticSchool/lexnetic_school/models.py:20-21 | `Teacher.objects.create` adds the row under the next key and changes nothing else |
| Models.Store.InsertStudentRow | LexneticSchool/lexnetic_school/models.py:23-26 | `Student.objects.create` adds the row under the next key and changes nothing else |
| Models.Store.InsertClassRow | LexneticSchool/lexnetic_school/models.py:15-18 | `Class.objects.create` adds the row under the next key and changes nothing else |
| Models.Store.SaveSchoolRow | LexneticSchool/lexnetic_school/models.py:8-13 | `school.save()` overwrites that one row |
| Models.Store.SaveInfoRow | LexneticSchool/lexnetic_school/models.py:42-48 | `personal_info.save()` overwrites that one row |
| Models.Store.SaveMemberRow | LexneticSchool/lexnetic_school/models.py:28-40 | `member.save()` overwrites the row, or fails and writes nothing when another member holds the username (`unique=True`) |
| Models.Store.SaveHeadMasterRow | LexneticSchool/lexnetic_school/models.py:4-6 | `headmaster.save()` overwrites that one row |
| Models.Store.SaveClassRow | LexneticSchool/lexnetic_school/models.py:15-18 | `class_.save()` overwrites that one row |
| Models.Store.DeleteSchoolRow | LexneticSchool/lexnetic_school/models.py:4-29 | `school.delete()` applies the school cascade |
| Models.Store.DeleteInfoRow | LexneticSchool/lexnetic_school/models.py:40 | `personal_info.delete()` applies the PersonalInfo cascade |
| Models.Store.DeleteMemberRow | LexneticSchool/lexnetic_school/models.py:4-26 | `member.delete()` applies the member cascade |
| Models.Store.DeleteHeadMasterRow | LexneticSchool/lexnetic_school/models.py:4-6 | `headmaster.delete()` removes that row |
| Models.Store.DeleteTeacherRow | LexneticSchool/lexnetic_school/models.py:17 | `teacher.delete()` applies the teacher cascade |
| Models.Store.DeleteStudentRow | LexneticSchool/lexnetic_school/models.py:23-26 | `student.delete()` removes that row |
| Models.Store.DeleteClassRow | LexneticSchool/lexnetic_school/models.py:26 | `class_.delete()` applies the class cascade |
| Models.Store.InsertAccount | LexneticSchool/lexnetic_school/api.py:92-101 | `User.objects.create_user` adds the account, or fails and adds nothing when the name is taken |
| Models.Store.DeleteAccount | LexneticSchool/lexnetic_school/api.py:115-116 | `user.delete()` removes that account |
| Schemas.SchoolPatchFieldwise | LexneticSchool/lexnetic_school/schemas.py:31-36 | the `setattr` loop over the fields a PATCH supplies sets exactly those fields of the school |
| Schemas.SchoolPutOverwrites | LexneticSchool/lexnetic_school/schemas.py:67-70 | the loop over every `SchoolIn` field yields exactly the payload, whatever the old school |
| Schemas.EmptySchoolPatchIsNoOp | LexneticSchool/lexnetic_school/schemas.py:31-36 | a patch that supplies nothing leaves the school unchanged |
| Schemas.SchoolPatchIdempotent | LexneticSchool/lexnetic_school/schemas.py:31-36 | applying a school patch twice equals applying it once |
| Schemas.AssignSchoolAttrs | LexneticSchool/lexnetic_school/apis/school.py:55-56 | the `for attr, value in items: setattr(...)` loop computes the fold whose properties are proved above |
| Schemas.InfoPatchFieldwise | LexneticSchool/lexnetic_school/schemas.py:23-29 | the loop over the subfields a PATCH supplies sets exactly those fields of the PersonalInfo |
| Schemas.InfoTruthyPatchFieldwise | LexneticSchool/lexnetic_school/apis/teacher.py:137-146 | with the `if value:` guard, only the supplied non-empty subfields are written |
| Schemas.InfoPutOverwrites | LexneticSchool/lexnetic_school/schemas.py:62-65 | the loop over every `PersonalInfoIn` field yields exactly the payload |
| Schemas.EmptyStringsNeverOverwrite | LexneticSchool/lexnetic_school/apis/teacher.py:140 | with the truthiness guard, a patch of empty strings changes no stored value |
| Schemas.AssignInfoAttrs | LexneticSchool/lexnetic_school/apis/headmaster.py:122-124 | the subfield `setattr` loop, with or without the truthiness guard, computes the fold whose properties are proved above |
| Schemas.KeysBelow | LexneticSchool/lexnetic_school/schemas.py:241-257 | an id-ordered scan of a table lists exactly the selected keys below the bound |
| Schemas.KeysBelowIncreasing | LexneticSchool/lexnetic_school/schemas.py:241-257 | the scan lists keys in strictly increasing order, so no row is listed twice |
| Schemas.ScanFindsAll | LexneticSchool/lexnetic_school/schemas.py:247-253 | when every key is below the bound, the scan's length is the number of selected rows |
| Schemas.ResolveHeadMaster | LexneticSchool/lexnetic_school/schemas.py:241-245 | `resolve_head_master` returns the first head master, in id order, heading the school, and returns none only when no head master heads it |
| Schemas.ResolveHeadMasterIsTheHeadMaster | LexneticSchool/lexnetic_school/schemas.py:241-245 | on a consistent database the scan returns `h` exactly when `h` heads the school |
| Schemas.SchoolOutOf | LexneticSchool/lexnetic_school/schemas.py:231-257 | a SchoolOut carries the school; its head master heads the school, and it has none only when no head master heads it; `teacher_count`, `student_count` and `class_count` equal to the sizes of the school's teachers, students and classes |
| Schemas.ResolveTeacherCount | LexneticSchool/lexnetic_school/schemas.py:246-248 | counting by scanning every teacher gives the number of teachers whose member is at the school |
| Schemas.ResolveStudentCount | LexneticSchool/lexnetic_school/schemas.py:250-252 | counting by scanning every student gives the number of students whose member is at the school |
| Schemas.ResolveStudents | LexneticSchool/lexnetic_school/schemas.py:200-202 | the list holds exactly the students of the class, in increasing id order |
| Schemas.ClassOutOf | LexneticSchool/lexnetic_school/schemas.py:187-206 | a ClassOut carries the class's year and teacher, `student_count` equal to the number of its students, and only students of the class |
| Schemas.ClassOutStudents | LexneticSchool/lexnetic_school/schemas.py:200-206 | a ClassOut's `students` list holds exactly the class's students, each once, so its length is `student_count` |
| Schemas.ChoiceLabel | LexneticSchool/lexnetic_school/schemas.py:143-144 | `get_FOO_display()` shows the label the choices pair with the stored code, or the code itself when none does |
| Schemas.RoleLabel | LexneticSchool/lexnetic_school/models.py:34-39 | a member's role is shown with the label ROLE_CHOICES pairs with its code |
| Schemas.RoleLabelInjective | LexneticSchool/lexnetic_school/schemas.py:143-144 | distinct roles display distinct labels |
| Api.WithoutKeys | LexneticSchool/lexnetic_school/api.py:67-68 | a key is in the result iff it is in the dict and not dropped, with its value kept |
| Api.WithoutKeysCompose | LexneticSchool/lexnetic_school/api.py:67-68 | dropping two key sets in turn is dropping their union; dropping none changes nothing |
| Api.Lower | LexneticSchool/lexnetic_school/api.py:74 | lower-casing keeps the length and maps each character |
| Api.Candidate | LexneticSchool/lexnetic_school/api.py:73-74 | a candidate username has at most 8 characters, and the exact length that slicing the names gives |
| Api.FirstFree | LexneticSchool/lexnetic_school/api.py:76-81 | the loop stops at the first `n` whose candidate no member holds; if every candidate is taken it stops at the last `n` tried, `len(first_name) - 1` |
| Api.GeneratedUsername | LexneticSchool/lexnetic_school/api.py:72-83 | the generator returns no name exactly when the first name has at most one letter, because the loop then never runs; otherwise a name of 1 to 8 characters |
| Api.GeneratedUsernameIsFirstFree | LexneticSchool/lexnetic_school/api.py:76-81 | the name returned is the candidate for the first free `n` |
| Api.GeneratedUsernameWhenAllTaken | LexneticSchool/lexnetic_school/api.py:76-83 | when every tried candidate is taken, the last one is returned although a member holds it |
| Api.GeneratedUsernameFreeOrExhausted | LexneticSchool/lexnetic_school/api.py:76-83 | the generated name is free unless every candidate the loop tries is taken |
| Api.GeneratedUsernameExample1 | LexneticSchool/lexnetic_school/tests.py:13-24 | "Thanapol Liangsoonthornsit" on an empty database gives "tliangso" |
| Api.GeneratedUsernameExample2 | LexneticSchool/lexnetic_school/tests.py:27-38 | "Armel Oudin" gives "aoudin" |
| Api.GeneratedUsernameExample3 | LexneticSchool/lexnetic_school/tests.py:41-52 | "Samboon Poolprasart" gives "spoolpra" |
| Api.GeneratedUsernameSecondTry | LexneticSchool/lexnetic_school/api.py:76-81 | with "tliangso" taken, the loop moves on to "thliangs" |
| Api.GeneratedUsernameOneLetter | LexneticSchool/lexnetic_school/api.py:76 | a one-letter first name leaves `username` unbound |
| Api.GenerateUsernamePassword | LexneticSchool/lexnetic_school/api.py:72-83 | the loop, with its `filter(username=...).exists()` test on the store, returns the specified name and the constant password |
| Api.DjangoUserName | LexneticSchool/lexnetic_school/api.py:87-90 | the account name is the member's non-empty username if it has one, otherwise the generated one; the call fails whenever generation fails, even when a username is given |
| Api.DjangoUserNameExamples | LexneticSchool/lexnetic_school/tests.py:66-92 | with no username the account is "tliangso"; with "earth" it is "earth" |
| Api.CreateDjangoUser | LexneticSchool/lexnetic_school/api.py:87-102 | adds exactly one account (staff flag as asked) under that name, or raises and adds none when no name exists or the name is taken |
| Api.GetSubtype | LexneticSchool/lexnetic_school/api.py:119-127 | "HM", "TE" and "ST" give their role and every other code gives the sentinel; the role found has that code |
| Api.GetSubtypeRoundTrip | LexneticSchool/lexnetic_school/api.py:119-127 | every role's code maps back to the role |
| Api.CreateMemberSubtypeEffect | LexneticSchool/lexnetic_school/api.py:131-187 | the four rejections (missing school, school already headed, username in use, missing class) each hold exactly when the earlier checks pass and theirs fails; a rejection writes nothing; a success returns the new subtype key |
| Api.CreateCheck | LexneticSchool/lexnetic_school/api.py:137-153 | no check fails exactly when the school exists, a head master's school is free, the username is unused and a student's class exists |
| Api.FinishCreate | LexneticSchool/lexnetic_school/api.py:176-187 | after the rows are written the call either succeeds with the new subtype row or raises |
| Api.GeneratedUsernameDependsOnTaken | LexneticSchool/lexnetic_school/api.py:80 | generation depends only on which non-empty usernames are taken |
| Api.NewRowsKeepTakenNames | LexneticSchool/lexnetic_school/api.py:155-174 | the rows written before the username is settled do not change which names are taken |
| Api.FinishCreateCases | LexneticSchool/lexnetic_school/api.py:176-186 | the outcome of the username, account and save steps, case by case |
| Api.CreateMemberSubtypeMade | LexneticSchool/lexnetic_school/api.py:155-187 | a success adds exactly one PersonalInfo, one member with the expected non-empty username, one row of the role's table and, when accounts are created, one account named like the member, which is staff unless the member is a student |
| Api.CreateMemberSubtypeRaises | LexneticSchool/lexnetic_school/api.py:72-186 | once the checks pass, the call raises iff no name can be generated, the account name exists, or the generated name is already a member's |
| Api.CreateMemberSubtypeCrashKeepsRows | LexneticSchool/lexnetic_school/api.py:155-161 | an exception after the checks leaves the new PersonalInfo and member behind |
| Api.CreateMemberSubtypeConsistent | LexneticSchool/lexnetic_school/api.py:131-187 | the call keeps the invariant whether it succeeds, is rejected or raises |
| Api.CreateMemberSubtype | LexneticSchool/lexnetic_school/api.py:131-187 | the ORM steps in order, including the scan over all head masters, produce the specified result and database and keep the store valid |
| Api.CheckCreate | LexneticSchool/lexnetic_school/api.py:137-153 | the checks, with the head-master scan as a loop, return the first failing check |
| Api.WriteNewRows | LexneticSchool/lexnetic_school/api.py:155-174 | the three `objects.create` calls write the rows under the next keys |
| Api.FinishCreating | LexneticSchool/lexnetic_school/api.py:176-186 | the username, account and final save on the store |
| Api.DropRow | LexneticSchool/lexnetic_school/api.py:112 | `memberSubType.delete()` removes the row, with its cascade, and leaves members, PersonalInfo rows and accounts alone |
| Api.DeleteMemberSubtypeEffect | LexneticSchool/lexnetic_school/api.py:106-116 | the row, its member, the member's PersonalInfo and the account named like the member are gone; schools stay |
| Api.DeleteMemberSubtypeSound | LexneticSchool/lexnetic_school/api.py:106-116 | the helper only deletes, and leaves no foreign key dangling |
| Api.DeleteMemberSubtypeConsistent | LexneticSchool/lexnetic_school/api.py:106-116 | the helper keeps the invariant |
| Api.DeleteMemberSubtypeShape | LexneticSchool/lexnetic_school/api.py:106-116 | on a database with one subtype row per member and one member per PersonalInfo, the member and PersonalInfo cascades remove nothing more |
| Api.DeleteMemberSubtypeRemovesOneMember | LexneticSchool/lexnetic_school/api.py:113-114 | on a consistent database exactly one member and one PersonalInfo go |
| Api.DeleteMemberSubtypeLeavesOtherRows | LexneticSchool/lexnetic_school/api.py:112 | deleting a head master or a student removes that row and no other subtype row or class |
| Api.DeleteTeacherRowCascade | LexneticSchool/lexnetic_school/api.py:112 | deleting a teacher removes its classes and their students, but not those students' members |
| Api.DeleteMemberSubtype | LexneticSchool/lexnetic_school/api.py:106-116 | the four deletes on the store produce the specified database and keep the store valid |
| Api.DeleteStep | LexneticSchool/lexnetic_school/apis/class_.py:180-181 | one delete of a loop removes its row |
| Api.DeleteRowsSound | LexneticSchool/lexnetic_school/apis/class_.py:180-181 | a loop of deletes only deletes, and leaves no foreign key dangling |
| Api.DeleteRowsConsistent | LexneticSchool/lexnetic_school/apis/class_.py:180-181 | a loop of deletes keeps the invariant |
| Api.DeleteRowsRemoves | LexneticSchool/lexnetic_school/apis/class_.py:180-181 | every row the loop visits is gone afterwards |
| Api.DeleteRows | LexneticSchool/lexnetic_school/apis/class_.py:180-181 | a loop of `delete_memberSubType` calls only deletes: the result is a sub-database of the input |
| Api.DeleteStudentRowsShape | LexneticSchool/lexnetic_school/apis/class_.py:180-181 | deleting distinct students removes exactly those students, their members, and those members' PersonalInfo rows and accounts; nothing else changes |
| Api.DeleteTeacherRowsShape | LexneticSchool/lexnetic_school/apis/school.py:83-84 | deleting distinct teachers removes exactly those teachers, their classes, the students of those classes, the teachers' members and those members' PersonalInfo rows and accounts; schools and head masters stay |
| Api.DeleteEach | LexneticSchool/lexnetic_school/apis/class_.py:180-181 | the `for … delete_memberSubType(...)` loop on the store computes the specified fold and keeps the store valid |
| Api.Authenticate | LexneticSchool/lexnetic_school/api.py:195-198 | a request is let in iff its bearer token is the secret key |
| SchoolApi.GetSchool | LexneticSchool/lexnetic_school/apis/school.py:35-40 | 404 iff the school does not exist |
| SchoolApi.CreateSchoolEffect | LexneticSchool/lexnetic_school/apis/school.py:44-46 | always succeeds and adds the payload as a new school |
| SchoolApi.CreateSchoolConsistent | LexneticSchool/lexnetic_school/apis/school.py:44-46 | creating a school keeps the invariant |
| SchoolApi.CreatedSchoolIsEmpty | LexneticSchool/lexnetic_school/apis/school.py:44-46 | a new school has no head master, teacher, student or class |
| SchoolApi.CreateSchool | LexneticSchool/lexnetic_school/apis/school.py:44-46 | the view on the store matches its specification and keeps the store valid |
| SchoolApi.UpdateSchoolEffect | LexneticSchool/lexnetic_school/apis/school.py:50-58 | 404 iff the school is missing; otherwise the school becomes exactly the payload |
| SchoolApi.PatchSchoolEffect | LexneticSchool/lexnetic_school/apis/school.py:62-70 | 404 iff the school is missing; otherwise only the supplied fields change |
| SchoolApi.SchoolWritesConsistent | LexneticSchool/lexnetic_school/apis/school.py:50-70 | replacing or patching a school keeps the invariant |
| SchoolApi.PatchSchoolEmptyIsNoOp | LexneticSchool/lexnetic_school/apis/school.py:62-70 | an empty patch leaves the database unchanged |
| SchoolApi.PatchSchoolIdempotent | LexneticSchool/lexnetic_school/apis/school.py:62-70 | the same patch twice equals once |
| SchoolApi.UpdateSchool | LexneticSchool/lexnetic_school/apis/school.py:50-58 | the view on the store matches its specification and keeps the store valid |
| SchoolApi.PatchSchool | LexneticSchool/lexnetic_school/apis/school.py:62-70 | the view on the store matches its specification and keeps the store valid |
| SchoolApi.WithoutClassesOf | LexneticSchool/lexnetic_school/apis/school.py:79-81 | deleting the school's classes removes exactly them and their students, changes no other table and keeps the invariant |
| SchoolApi.WithoutHeadMasterOf | LexneticSchool/lexnetic_school/apis/school.py:88-90 | deleting the school's head master removes exactly it, its member, and that member's PersonalInfo row and account |
| SchoolApi.TeacherRowsOf | LexneticSchool/lexnetic_school/apis/school.py:82-84 | the teacher loop visits exactly the teachers whose member is at the school |
| SchoolApi.StudentRowsOf | LexneticSchool/lexnetic_school/apis/school.py:85-87 | the student loop visits exactly the students whose member is at the school |
| SchoolApi.DeleteSchoolEffect | LexneticSchool/lexnetic_school/apis/school.py:74-92 | the view as written: 404 for a missing school, with nothing changed; the school's classes go first; it fails exactly when a teacher or student member of the school remains, and then the database is the one without the classes and the school is still present; on success no member of the school remains; the invariant is kept |
| SchoolApi.DeleteSchoolShape | LexneticSchool/lexnetic_school/apis/school.py:74-92 | after a successful delete as written: the school row is gone and every other school is unchanged; exactly the school's members, head master and classes are gone, with the rows that pointed at them; only the head master's PersonalInfo row and account are deleted |
| SchoolApi.DeleteClassesOf | LexneticSchool/lexnetic_school/apis/school.py:79-81 | the class loop on the store deletes every class of the school, with its students |
| SchoolApi.DeleteSchool | LexneticSchool/lexnetic_school/apis/school.py:74-92 | the view on the store matches its as-written specification, whose failure and success states are exact (DeleteSchoolEffect, DeleteSchoolShape), and keeps the store valid |
| SchoolApi.DeleteSchoolIntended | LexneticSchool/lexnetic_school/apis/school.py:74-92 | the corrected view: deletes the school and everything of it, and always succeeds for an existing school |
| SchoolApi.DeleteSchoolIntendedShape | LexneticSchool/lexnetic_school/apis/school.py:74-92 | the corrected view removes the same rows as a successful delete as written, and every other school stays; it also deletes the PersonalInfo rows and accounts of the school's teachers and of the students its loop reaches |
| SchoolApi.DeleteSchoolFailsWithTeacher | LexneticSchool/lexnetic_school/apis/school.py:82-84 | with a teacher present the view as written fails and keeps the school, while the corrected view deletes it |
| SchoolApi.GetSchoolByHeadMaster | LexneticSchool/lexnetic_school/apis/school.py:96-102 | 404 iff the head master does not exist; otherwise that head master's school |
| SchoolApi.SchoolByHeadMasterNamesIt | LexneticSchool/lexnetic_school/apis/school.py:96-102 | the school found through a head master names that head master back |
| ClassApi.GetClass | LexneticSchool/lexnetic_school/apis/class_.py:63-68 | 404 iff the class does not exist |
| ClassApi.NewClass | LexneticSchool/lexnetic_school/apis/class_.py:89-90 | the created class has the payload's teacher and school, and the payload's year or the model default (models.py) when none is given |
| ClassApi.CreateClassEffect | LexneticSchool/lexnetic_school/apis/class_.py:80-94 | 404 for a missing teacher, then for a missing school; otherwise one new class and nothing else |
| ClassApi.CreateClassConsistent | LexneticSchool/lexnetic_school/apis/class_.py:80-94 | creating a class keeps the invariant |
| ClassApi.CreatedClassIsListed | LexneticSchool/lexnetic_school/apis/class_.py:80-94 | the new class joins its school's classes |
| ClassApi.CreatedClassIsEmpty | LexneticSchool/lexnetic_school/apis/class_.py:80-94 | the new class has its teacher, its year and no students |
| ClassApi.CreateClass | LexneticSchool/lexnetic_school/apis/class_.py:80-94 | the view on the store matches its specification and keeps the store valid |
| ClassApi.SetClassAttrs | LexneticSchool/lexnetic_school/apis/class_.py:111-124 | a `teacher_id` or `school_id` item whose row is missing gives a 404; otherwise a class whose teacher and school exist keeps that property |
| ClassApi.SaveClassAttrs | LexneticSchool/lexnetic_school/apis/class_.py:111-126 | the loop ends with 200, or 404 for a missing teacher or school with nothing saved; on 200 only the class's own row changes, and a class whose teacher and school exist still has an existing teacher and school |
| ClassApi.ClassPutOverwrites | LexneticSchool/lexnetic_school/apis/class_.py:106-130 | a PUT replaces every field once the teacher and the school are found, and 404s on the first missing one |
| ClassApi.ClassPatchFieldwise | LexneticSchool/lexnetic_school/apis/class_.py:142-163 | a PATCH can change only the year, and only when the request sets it |
| ClassApi.AssignClassAttrs | LexneticSchool/lexnetic_school/apis/class_.py:111-124 | the loop on the store computes the specified fold |
| ClassApi.UpdateClassEffect | LexneticSchool/lexnetic_school/apis/class_.py:106-130 | 404 for a missing class, teacher or school, in that order; otherwise the class becomes the payload |
| ClassApi.PatchClassEffect | LexneticSchool/lexnetic_school/apis/class_.py:142-163 | 404 for a missing class; otherwise only a supplied year changes |
| ClassApi.ClassWritesConsistent | LexneticSchool/lexnetic_school/apis/class_.py:106-163 | replacing or patching a class keeps the invariant |
| ClassApi.PatchClassEmptyIsNoOp | LexneticSchool/lexnetic_school/apis/class_.py:142-163 | an empty patch leaves the database unchanged |
| ClassApi.PatchClassIdempotent | LexneticSchool/lexnetic_school/apis/class_.py:142-163 | the same patch twice equals once |
| ClassApi.PutOwnValuesIsNoOp | LexneticSchool/lexnetic_school/apis/class_.py:106-130 | a PUT of the class's own values changes nothing |
| ClassApi.UpdateClass | LexneticSchool/lexnetic_school/apis/class_.py:106-130 | the view on the store matches its specification and keeps the store valid |
| ClassApi.PatchClass | LexneticSchool/lexnetic_school/apis/class_.py:142-163 | the view on the store matches its specification and keeps the store valid |
| ClassApi.DeleteClassEffect | LexneticSchool/lexnetic_school/apis/class_.py:175-183 | 404 for a missing class; otherwise each student of the class is deleted, then the class |
| ClassApi.ResolveStudentsAreTheClass | LexneticSchool/lexnetic_school/apis/class_.py:180 | the students the loop visits are exactly the class's students, each once |
| ClassApi.DeleteClassShape | LexneticSchool/lexnetic_school/apis/class_.py:175-183 | on a consistent database exactly the class, its students, their members and those members' PersonalInfo rows and accounts go; the teacher, the school, every other class and student, and every other PersonalInfo row and account stay |
| ClassApi.DeleteClass | LexneticSchool/lexnetic_school/apis/class_.py:175-183 | the view on the store matches its specification and keeps the store valid |
| ClassApi.ListClassesBySchool | LexneticSchool/lexnetic_school/apis/class_.py:194-203 | 404 iff the school is missing or has no class; otherwise exactly its classes, in increasing id order |
| HeadMasterApi.CreateHeadMasterEffect | LexneticSchool/lexnetic_school/apis/headmaster.py:82-95 | 404 iff the school is missing, 409 iff it already has a head master or the username is in use; the "Role Error" branch is never taken |
| HeadMasterApi.HeadMasterCreateStatus | LexneticSchool/lexnetic_school/apis/headmaster.py:83-95 | 200 iff a head master was made; 404 iff the school was missing; 409 iff the school had a head master, or iff the username was taken; the answer is always 200, 404, 409 or 500 |
| HeadMasterApi.CreatedHeadMasterHeadsSchool | LexneticSchool/lexnetic_school/apis/headmaster.py:82-95 | a created head master is the one the school's lookup then finds, and the invariant holds |
| HeadMasterApi.CreateHeadMaster | LexneticSchool/lexnetic_school/apis/headmaster.py:82-95 | the view on the store matches its specification and keeps the store valid |
| HeadMasterApi.GetHeadMasterBySchool | LexneticSchool/lexnetic_school/apis/headmaster.py:196-205 | 404 for a missing school; a head master found heads the school; "no head master" iff none heads it |
| HeadMasterApi.HeadMasterBySchoolIsTheOne | LexneticSchool/lexnetic_school/apis/headmaster.py:196-205 | on a consistent database the lookup finds `h` iff `h` heads the school |
| HeadMasterApi.SetHeadMasterAttrs | LexneticSchool/lexnetic_school/apis/headmaster.py:112-124 | the loop refuses only with a 404 for a missing school or a 409 for a school another head master holds; it keeps the member and an existing, unshared school |
| HeadMasterApi.HeldByOtherIsFound | LexneticSchool/lexnetic_school/apis/headmaster.py:118-120 | the `get(school=...)` test agrees with "another head master holds the school" |
| HeadMasterApi.AssignHeadMasterAttrs | LexneticSchool/lexnetic_school/apis/headmaster.py:112-124 | the loop on the store computes the specified fold |
| HeadMasterApi.HeadMasterPutOverwrites | LexneticSchool/lexnetic_school/apis/headmaster.py:107-131 | a PUT replaces the school and every PersonalInfo field unless the school is missing or held |
| HeadMasterApi.HeadMasterPatchFieldwise | LexneticSchool/lexnetic_school/apis/headmaster.py:143-167 | a PATCH checks and sets a supplied school, and patches the PersonalInfo field by field |
| HeadMasterApi.UpdateHeadMasterEffect | LexneticSchool/lexnetic_school/apis/headmaster.py:107-131 | 404 for a missing head master or school, 409 for a held school; otherwise the head master's school and every PersonalInfo field are replaced, and the member's own school is left as it was |
| HeadMasterApi.PatchHeadMasterEffect | LexneticSchool/lexnetic_school/apis/headmaster.py:143-167 | the same checks for a supplied school; only supplied fields change; the undeclared 409 for a school another head master holds reaches the client as a 500 with nothing saved |
| HeadMasterApi.PatchHeadMasterAnswersDeclared | LexneticSchool/lexnetic_school/apis/headmaster.py:135-156 | every answer of the PATCH is a declared status (200, 404) or a server error |
| HeadMasterApi.SaveHeadMasterEditConsistent | LexneticSchool/lexnetic_school/apis/headmaster.py:125-127 | saving an edit the loop let through keeps the invariant |
| HeadMasterApi.StoredHeadMasterEditIsSafe | LexneticSchool/lexnetic_school/apis/headmaster.py:112-124 | the loop, started from the stored head master, lets through only edits that keep the invariant |
| HeadMasterApi.HeadMasterWritesConsistent | LexneticSchool/lexnetic_school/apis/headmaster.py:107-167 | replacing or patching a head master keeps the invariant |
| HeadMasterApi.HeadMasterKeepsOwnSchool | LexneticSchool/lexnetic_school/apis/headmaster.py:118-120 | a PUT naming the head master's own school is never a 409 |
| HeadMasterApi.UpdatedHeadMasterHeadsSchool | LexneticSchool/lexnetic_school/apis/headmaster.py:107-131 | after a successful PUT the head master is the one its new school's lookup finds |
| HeadMasterApi.PatchHeadMasterEmptyIsNoOp | LexneticSchool/lexnetic_school/apis/headmaster.py:143-167 | an empty patch leaves the database unchanged |
| HeadMasterApi.WriteHeadMasterEdit | LexneticSchool/lexnetic_school/apis/headmaster.py:125-127 | the three saves write exactly the PersonalInfo and the head master, and the member's own username never blocks its save |
| HeadMasterApi.SaveHeadMasterEdits | LexneticSchool/lexnetic_school/apis/headmaster.py:125-127 | the saves on the store match the specification and keep the store valid |
| HeadMasterApi.UpdateHeadMaster | LexneticSchool/lexnetic_school/apis/headmaster.py:107-131 | the view on the store matches its specification and keeps the store valid |
| HeadMasterApi.PatchHeadMaster | LexneticSchool/lexnetic_school/apis/headmaster.py:143-167 | the view on the store matches its specification and keeps the store valid |
| HeadMasterApi.DeleteHeadMasterEffect | LexneticSchool/lexnetic_school/apis/headmaster.py:179-185 | 404 iff the head master is missing; otherwise the head master, its member, PersonalInfo and account go |
| HeadMasterApi.DeleteHeadMasterFreesSchool | LexneticSchool/lexnetic_school/apis/headmaster.py:179-185 | the school stays and is free: its lookup answers "no head master" and it accepts a new one |
| HeadMasterApi.DeleteHeadMaster | LexneticSchool/lexnetic_school/apis/headmaster.py:179-185 | the view on the store matches its specification and keeps the store valid |
| TeacherApi.CreateTeacherEffect | LexneticSchool/lexnetic_school/apis/teacher.py:80-91 | 404 iff the school is missing, 409 iff the username is in use; the "already a Teacher" branch is never taken |
| TeacherApi.TeacherCreateStatus | LexneticSchool/lexnetic_school/apis/teacher.py:81-91 | 200 iff a teacher was made; 404 iff the school was missing; 409 iff the username was taken; the answer is always 200, 404, 409 or 500 |
| TeacherApi.AddedTeacherJoinsSchool | LexneticSchool/lexnetic_school/apis/teacher.py:80-91 | a new teacher row for a new member joins that member's school only |
| TeacherApi.CreatedTeacherJoinsSchool | LexneticSchool/lexnetic_school/apis/teacher.py:80-91 | a created teacher joins its school's teachers and no other school's |
| TeacherApi.CreateTeacher | LexneticSchool/lexnetic_school/apis/teacher.py:80-91 | the view on the store matches its specification and keeps the store valid |
| TeacherApi.AssignTeacherAttrs | LexneticSchool/lexnetic_school/apis/teacher.py:108-116 | the loop computes the specified fold: only `personal_info` items write anything |
| TeacherApi.TeacherPutOverwrites | LexneticSchool/lexnetic_school/apis/teacher.py:108-116 | a PUT replaces every PersonalInfo field, whatever `school_id` says |
| TeacherApi.TeacherPatchTruthy | LexneticSchool/lexnetic_school/apis/teacher.py:137-146 | a PATCH writes only the subfields the request set to a non-empty value |
| TeacherApi.UpdateTeacherEffect | LexneticSchool/lexnetic_school/apis/teacher.py:103-120 | 404 iff the teacher is missing; otherwise only its PersonalInfo changes, and `school_id` is neither checked nor stored |
| TeacherApi.PatchTeacherEffect | LexneticSchool/lexnetic_school/apis/teacher.py:132-150 | 404 iff the teacher is missing; otherwise only non-empty supplied subfields change |
| TeacherApi.TeacherInfoWriteConsistent | LexneticSchool/lexnetic_school/apis/teacher.py:117-119 | writing a teacher's PersonalInfo keeps the invariant and keeps every teacher at its school |
| TeacherApi.TeacherWritesConsistent | LexneticSchool/lexnetic_school/apis/teacher.py:103-150 | replacing or patching a teacher keeps the invariant and every school's teachers |
| TeacherApi.PatchTeacherBlankIsNoOp | LexneticSchool/lexnetic_school/apis/teacher.py:140 | a patch of unset or empty subfields leaves the database unchanged |
| TeacherApi.WriteTeacherInfo | LexneticSchool/lexnetic_school/apis/teacher.py:117-119 | the saves write exactly the new PersonalInfo |
| TeacherApi.UpdateTeacher | LexneticSchool/lexnetic_school/apis/teacher.py:103-120 | the view on the store matches its specification and keeps the store valid |
| TeacherApi.PatchTeacher | LexneticSchool/lexnetic_school/apis/teacher.py:132-150 | the view on the store matches its specification and keeps the store valid |
| TeacherApi.DeleteTeacherEffect | LexneticSchool/lexnetic_school/apis/teacher.py:162-168 | 404 iff the teacher is missing; otherwise the teacher row, its member, PersonalInfo and account are gone |
| TeacherApi.DeleteTeacherCascades | LexneticSchool/lexnetic_school/apis/teacher.py:162-168 | exactly the teacher, its member, its classes and their students go; no other teacher does, and the invariant holds |
| TeacherApi.DeleteTeacher | LexneticSchool/lexnetic_school/apis/teacher.py:162-168 | the view on the store matches its specification and keeps the store valid |
| TeacherApi.ListTeachersBySchool | LexneticSchool/lexnetic_school/apis/teacher.py:179-187 | 404 iff the school is missing; otherwise exactly the school's teachers, in increasing id order, possibly none |
| StudentApi.CreateStudentEffect | LexneticSchool/lexnetic_school/apis/student.py:81-92 | 404 iff the school is missing, 409 iff the username is in use, 404 iff the class is missing, checked in that order |
| StudentApi.StudentCreateStatus | LexneticSchool/lexnetic_school/apis/student.py:82-92 | 200 iff a student was made; 404 iff the school was missing, or iff the class was missing; 409 iff the username was taken; the answer is always 200, 404, 409 or 500 |
| StudentApi.AddedStudentJoins | LexneticSchool/lexnetic_school/apis/student.py:81-92 | a new student row joins its class and its member's school only |
| StudentApi.CreatedStudentJoins | LexneticSchool/lexnetic_school/apis/student.py:81-92 | a created student joins the students of its class and of its school, and of no other |
| StudentApi.CreateStudent | LexneticSchool/lexnetic_school/apis/student.py:81-92 | the view on the store matches its specification and keeps the store valid |
| StudentApi.SetStudentAttrs | LexneticSchool/lexnetic_school/apis/student.py:109-126 | the loop refuses only with a 404 for a missing school or class; it changes only the member's school, always to an existing school |
| StudentApi.AssignStudentAttrs | LexneticSchool/lexnetic_school/apis/student.py:109-126 | the loop on the store computes the specified fold |
| StudentApi.StudentPutOverwrites | LexneticSchool/lexnetic_school/apis/student.py:104-133 | a PUT assigns an existing school and replaces every PersonalInfo field |
| StudentApi.StudentPatchFieldwise | LexneticSchool/lexnetic_school/apis/student.py:145-174 | a PATCH checks a supplied school and then a supplied class, and patches the PersonalInfo field by field |
| StudentApi.UpdateStudentEffect | LexneticSchool/lexnetic_school/apis/student.py:104-133 | 404 for a missing student or school; otherwise the member moves to the school and the PersonalInfo is replaced, while the class stays |
| StudentApi.PatchStudentEffect | LexneticSchool/lexnetic_school/apis/student.py:145-174 | school 404 before class 404; a supplied school moves the member, a supplied class changes nothing, only supplied subfields change |
| StudentApi.MovedStudentOnly | LexneticSchool/lexnetic_school/apis/student.py:118 | moving one student's member moves that student only and leaves every class's students |
| StudentApi.SaveStudentEditConsistent | LexneticSchool/lexnetic_school/apis/student.py:127-129 | saving an edit keeps the invariant |
| StudentApi.StoredStudentEditIsSafe | LexneticSchool/lexnetic_school/apis/student.py:109-126 | the loop, started from the stored member, lets through only edits that keep the invariant |
| StudentApi.StudentWritesConsistent | LexneticSchool/lexnetic_school/apis/student.py:104-174 | replacing or patching a student keeps the invariant and moves that student only |
| StudentApi.UpdatedStudentMoves | LexneticSchool/lexnetic_school/apis/student.py:104-133 | after a successful PUT the student studies at the new school, in the same class, and no other student moved |
| StudentApi.PatchStudentClassIsNoOp | LexneticSchool/lexnetic_school/apis/student.py:160-165 | a patch that supplies only an existing class changes nothing |
| StudentApi.WriteStudentEdit | LexneticSchool/lexnetic_school/apis/student.py:127-129 | the saves write exactly the PersonalInfo and the member |
| StudentApi.SaveStudentEdits | LexneticSchool/lexnetic_school/apis/student.py:127-129 | the saves on the store match the specification and keep the store valid |
| StudentApi.UpdateStudent | LexneticSchool/lexnetic_school/apis/student.py:104-133 | the view on the store matches its specification and keeps the store valid |
| StudentApi.PatchStudent | LexneticSchool/lexnetic_school/apis/student.py:145-174 | the view on the store matches its specification and keeps the store valid |
| StudentApi.DeleteStudentEffect | LexneticSchool/lexnetic_school/apis/student.py:186-192 | 404 iff the student is missing; otherwise the student row, its member, PersonalInfo and account are gone |
| StudentApi.RemovedStudentLeavesClass | LexneticSchool/lexnetic_school/apis/student.py:186-192 | removing a student's row removes it from its class and leaves every class's other students |
| StudentApi.DeleteStudentLeavesOthers | LexneticSchool/lexnetic_school/apis/student.py:186-192 | no other subtype row and no class goes, and the class loses only that student |
| StudentApi.DeleteStudent | LexneticSchool/lexnetic_school/apis/student.py:186-192 | the view on the store matches its specification and keeps the store valid |
| StudentApi.ListStudentsBySchool | LexneticSchool/lexnetic_school/apis/student.py:203-211 | 404 iff the school is missing; otherwise exactly the school's students, in increasing id order |
| StudentApi.ListStudentsByClass | LexneticSchool/lexnetic_school/apis/student.py:222-230 | 404 iff the class is missing; otherwise exactly the class's students, in increasing id order |

## Left out

- The `…Out` projections of single rows (`get_member`, `get_teacher`, `get_student`, `get_headmaster`) are left out. So are the unfiltered list views (`list_schools`, `list_members`, …) and the member views of `api.py`. They only read. Of the read side, the model keeps the counts, the student list and the head-master resolver of the schemas.
- Pagination and the response messages are left out. The model returns only the status and the new database.
- Password hashing and the account's names and email are left out. An account is its username and staff flag. `DEFAULT_PASSWORD` is the constant `"@42Bangkok"`.
- The settings `CREATE_USER_ON_POST` and `SECRET_KEY` are parameters (`createUser`, `secretKey`). The settings module is not part of this model.
- `select_for_update` and transactions are left out. The database engine and `ATOMIC_REQUESTS` are not part of this model. The model follows autocommit, so a request that raises keeps the rows it already wrote. Autocommit and a working `select_for_update` go together only on SQLite, or on an engine where `select_for_update` does nothing outside a transaction. The model assumes such an engine. On PostgreSQL, MySQL or Oracle, `select_for_update().get(...)` outside a transaction raises TransactionManagementError. `my_get_object_for_update_or_404` (api.py:49-62) turns that error into a 404. So on those engines seven views would always answer 404: update_school, patch_school, update_class, patch_class, update_teacher, update_student and patch_student. Their 200 outcomes in the model (SchoolApi.UpdateSchoolEffect, SchoolApi.PatchSchoolEffect, ClassApi.UpdateClassEffect, ClassApi.PatchClassEffect, TeacherApi.UpdateTeacherEffect, StudentApi.UpdateStudentEffect, StudentApi.PatchStudentEffect) hold only on the engine assumed here. With `ATOMIC_REQUESTS` those views would work on any engine. But a request that raises would then roll back, and Api.CreateMemberSubtypeCrashKeepsRows would not hold.
- An explicit `null` in a PATCH body is read as "not supplied". The model does not distinguish `None` sent on purpose from an absent field.
- `str.lower()` is modelled on ASCII letters only (`Api.Lower`). Unicode case mapping is not modelled.
- `objects.all()` and `filter()` are taken to return rows in increasing id order. The scans and listings are modelled that way.
- `objects.get()` matching several rows (`MultipleObjectsReturned`) does not arise: the one-to-one and unique constraints are part of the invariant.
- Saves that write back a row unchanged are not modelled as writes. These are `teacher.save()`, `student.save()` and the member save of the teacher views. They change nothing in the tables.
- Api.DeleteStep: a row that is gone, or whose member is gone, is passed over. It does not model what the source does on such a row. No loop of the views visits one: each loop's rows are distinct, and on a consistent database deleting one student or teacher removes no student or teacher of the rows still to come.
- The sentinel 404 of `get_subtype` for an unknown role code is never returned by the views. They only pass `"HM"`, `"TE"` and `"ST"`. `Api.GetSubtype` models it, and the views' matching branches ("Role Error", "already a Teacher") are unreachable.
- Schemas.ResolveTeacherCount, Schemas.ResolveStudentCount, Schemas.SchoolOutOf: the scan counts equal the set sizes only when every key is below its table's counter. `Consistent` guarantees this; the scan is bounded by the counter because a map has no order of its own.
- apis/class_.py and apis/student.py import their models and schemas from `lexnetic_school.models.models` and `lexnetic_school.models.schemas`, a package the repository does not contain. apis/teacher.py imports the same names from `lexnetic_school/models.py` and `lexnetic_school/schemas.py`. As shipped, the URLconf that imports those two routers would fail to load. The model assumes both views use the definitions of models.py and schemas.py.
- The web framework's request parsing and form validation are left out. Payloads arrive already typed.

## Findings

| source | as written | input that shows it | evidently intended | confidence | as-written member | corrected member |
|---|---|---|---|---|---|---|
| LexneticSchool/lexnetic_school/apis/school.py:82-87 | `delete_school` guards the teacher and student loops with `filter(member__school=school)` but loops over `Teacher.objects.filter(school=school)` and `Student.objects.filter(school=school)`. Teacher and Student have no `school` field, so the lookup raises. The classes are already deleted at that point, and the school stays | a school with one teacher (or one student whose class belongs to another school) | loop over `filter(member__school=school)`, delete every teacher, student and head master of the school, then the school | high (not executed) | SchoolApi.DeleteSchoolEffect, SchoolApi.DeleteSchoolFailsWithTeacher | SchoolApi.DeleteSchoolIntended, SchoolApi.DeleteSchoolIntendedShape |
