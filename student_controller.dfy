/** The student handlers (controllers/studentController.js). The caller is the identity the
    authentication middleware attached; handlers mounted behind the admin-role check
    require an admin caller. */
module StudentController {
  import opened Common
  import opened StudentModel
  import opened Users
  import opened Http
  import ErrorTranslation
  import Listing
  import opened Database

  const ProfileNotFound := "Student profile not found"
  const DuplicateStudent := "Student with this email already exists"
  const StudentNotFound := "Student not found"
  const StudentNotFoundWithId := "Student not found with id of "
  const ViewForbidden := "You can only view your own student record"
  const UpdateForbidden := "You can only update your own student record"
  const FetchFailed := "Failed to fetch student details"
  const UpdateFailed := "Failed to update student"
  const StudentDeleted := "Student deleted successfully"
  /** The message of a document save that fails its validators. */
  const SaveValidationPrefix := "Student validation failed"
  /** The message of an update that fails its validators. */
  const UpdateValidationPrefix := "Validation failed"
  /** What `student.owner.toString()` throws when the record has no owner, in the wording
      of Node 16 and later (older versions word the TypeError differently). */
  const OwnerTypeError := "Cannot read properties of undefined (reading 'toString')"

  /** Outcome of the inline ownership check. */
  datatype Access = Allowed | Denied | OwnerMissing

  /** `req.user.role === 'student' && student.owner.toString() !== req.user._id.toString()`:
      a caller whose role is not `student` passes for any record; a `student` caller
      passes only on the record it owns, and on a record without owner the `toString`
      call throws. */
  function OwnershipCheck(caller: Caller, s: Student): (a: Access)
    ensures a == Allowed <==> caller.role != StudentRole || s.owner == Some(caller.id)
    ensures a == Denied <==> caller.role == StudentRole && s.owner.Some? && s.owner.value != caller.id
    ensures a == OwnerMissing <==> caller.role == StudentRole && s.owner.None?
  {
    if caller.role != StudentRole then Allowed
    else if s.owner.None? then OwnerMissing
    else if s.owner.value != caller.id then Denied
    else Allowed
  }

  /** How `student.owner` reads on a document of the schema as declared: `owner` is not a
      path of the schema, so the property is absent whatever the database holds. */
  function OwnerAsDeclared(s: Student): Option<Id> {
    None
  }

  /** With the schema as declared, a `student` caller never passes the ownership check,
      not even on the record the database says it owns; with `owner` read from the record,
      it passes exactly there. */
  lemma StudentCallerLockedOut(caller: Caller, s: Student)
    requires caller.role == StudentRole && s.owner == Some(caller.id)
    ensures OwnershipCheck(caller, s.(owner := OwnerAsDeclared(s))) == OwnerMissing
    ensures OwnershipCheck(caller, s) == Allowed
  {
  }

  /** `getCurrentStudent`: the student whose owner is the caller, or 404. */
  method GetCurrentStudent(db: Db, caller: Caller) returns (resp: Response)
    ensures resp.status == 200 <==> exists k :: k in db.students && db.students[k].owner == Some(caller.id)
    ensures resp.status == 200 ==>
      resp.body.StudentData? && resp.body.student in db.students.Values && resp.body.student.owner == Some(caller.id)
    ensures resp.status != 200 ==> resp == Response(404, ErrorField(ProfileNotFound))
  {
    if exists k :: k in db.students && db.students[k].owner == Some(caller.id) {
      var k :| k in db.students && db.students[k].owner == Some(caller.id);
      resp := Response(200, StudentData(db.students[k]));
    } else {
      resp := Response(404, ErrorField(ProfileNotFound));
    }
  }

  /** `createStudent` (admin only): refuse an email some student already has, otherwise
      save a new owner-less record; a record that fails the schema's validators reaches
      the error translator as a ValidationError. `newId` is the id the database assigns,
      `stack` the stack trace of the thrown error. */
  method CreateStudent(db: Db, caller: Caller, f: StudentFields, newId: Id, now: Timestamp,
                       development: bool, stack: string) returns (resp: Response)
    requires caller.role == AdminRole
    requires db.Valid() && newId !in db.students
    modifies db
    ensures db.Valid() && db.users == old(db.users)
    ensures f.email.Some? && EmailTaken(old(db.students), f.email.value) ==>
      resp == Response(400, ErrorField(DuplicateStudent)) && db.students == old(db.students)
    ensures !(f.email.Some? && EmailTaken(old(db.students), f.email.value)) && CreateErrors(f) != [] ==>
      db.students == old(db.students) &&
      resp == Response(400, Translated(ErrorTranslation.ValidationMessageText,
                                       if development then Some(stack) else None,
                                       Some(Messages(MessagesOf(CreateErrors(f))))))
    ensures !(f.email.Some? && EmailTaken(old(db.students), f.email.value)) && CreateErrors(f) == [] ==>
      f.name.Some? && f.email.Some? && f.age.Some? && f.course.Some? &&
      db.students == old(db.students)[newId := Build(f, newId, now)] &&
      resp == Response(201, StudentData(Build(f, newId, now)))
  {
    if f.email.Some? && EmailTaken(db.students, f.email.value) {
      return Response(400, ErrorField(DuplicateStudent));
    }
    var errs := CreateErrors(f);
    if errs != [] {
      var err := ErrorTranslation.ErrorShape(ErrorTranslation.ValidationErrorName, None, None,
        ValidationMessage(SaveValidationPrefix, errs), "", Some(errs), stack);
      resp := ErrorTranslation.Translate(err, development);
      return;
    }
    CreateErrorsMeaning(f);
    var s := Build(f, newId, now);
    InsertKeepsInvariant(db.students, f, newId, now);
    db.students := db.students[newId := s];
    resp := Response(201, StudentData(s));
  }

  function CreatedAt(s: Student): int { s.createdAt }
  function StudentIdOf(s: Student): Id { s.id }
  function Everyone(s: Student): bool { true }

  /** `getAllStudents` (admin only): every student exactly once, newest first. */
  method GetAllStudents(db: Db, caller: Caller) returns (resp: Response)
    requires caller.role == AdminRole
    requires db.Valid()
    ensures resp.status == 200 && resp.body.StudentArray?
    ensures var r := resp.body.students;
      && (forall i :: 0 <= i < |r| ==> r[i].id in db.students && db.students[r[i].id] == r[i])
      && (forall k :: k in db.students ==> exists i :: 0 <= i < |r| && r[i].id == k)
      && (forall i, j :: 0 <= i < j < |r| ==> r[i].id != r[j].id)
      && (forall i, j :: 0 <= i < j < |r| ==> r[i].createdAt >= r[j].createdAt)
  {
    var r := Listing.SelectNewestFirst(db.students, Everyone, CreatedAt, StudentIdOf);
    resp := Response(200, StudentArray(r));
  }

  /** `getStudentById`: 404 for an unknown id, then the ownership check, then the record.
      The check's TypeError is caught by the handler itself and answered with 500. */
  function GetStudentById(db: Db, caller: Caller, id: Id, development: bool): (resp: Response)
    reads db
    ensures id !in db.students <==> resp == Response(404, ErrorField(StudentNotFound))
    ensures resp.status == 200 <==> id in db.students && (caller.role != StudentRole || db.students[id].owner == Some(caller.id))
    ensures resp.status == 200 ==> resp.body == StudentData(db.students[id])
    ensures resp.status == 403 <==>
      id in db.students && caller.role == StudentRole && db.students[id].owner.Some? && db.students[id].owner.value != caller.id
    ensures resp.status == 403 ==> resp.body == ErrorField(ViewForbidden)
    ensures resp.status == 500 <==> id in db.students && caller.role == StudentRole && db.students[id].owner.None?
    ensures resp.status == 500 ==> resp.body == Failure(FetchFailed, Detail(development, OwnerTypeError))
  {
    if id !in db.students then Response(404, ErrorField(StudentNotFound))
    else match OwnershipCheck(caller, db.students[id])
      case Denied => Response(403, ErrorField(ViewForbidden))
      case OwnerMissing => Response(500, Failure(FetchFailed, Detail(development, OwnerTypeError)))
      case Allowed => Response(200, StudentData(db.students[id]))
  }

  /** `updateStudent`: the same two checks before any write; then only `name`, `age` and
      `course` are copied from the body, checked by the update validators (a failure is
      caught by the handler and answered with 500) and written. */
  method UpdateStudent(db: Db, caller: Caller, id: Id, body: StudentFields, now: Timestamp, development: bool)
    returns (resp: Response)
    requires db.Valid()
    modifies db
    ensures db.Valid() && db.users == old(db.users)
    // Only the target record may change, and never its email, owner or creation time.
    ensures db.students.Keys == old(db.students).Keys
    ensures forall k :: k in db.students && k != id ==> db.students[k] == old(db.students)[k]
    ensures id in db.students ==>
      db.students[id].email == old(db.students)[id].email &&
      db.students[id].owner == old(db.students)[id].owner &&
      db.students[id].createdAt == old(db.students)[id].createdAt
    ensures id !in old(db.students) ==> resp == Response(404, ErrorField(StudentNotFound))
    ensures id in old(db.students) && OwnershipCheck(caller, old(db.students)[id]) == Denied ==>
      resp == Response(403, ErrorField(UpdateForbidden)) && db.students == old(db.students)
    ensures id in old(db.students) && OwnershipCheck(caller, old(db.students)[id]) == OwnerMissing ==>
      resp == Response(500, Failure(UpdateFailed, Detail(development, OwnerTypeError))) &&
      db.students == old(db.students)
    ensures id in old(db.students) && OwnershipCheck(caller, old(db.students)[id]) == Allowed &&
            UpdateErrors(Whitelist(body)) != [] ==>
      resp == Response(500, Failure(UpdateFailed,
                Detail(development, ValidationMessage(UpdateValidationPrefix, UpdateErrors(Whitelist(body)))))) &&
      db.students == old(db.students)
    ensures id in old(db.students) && OwnershipCheck(caller, old(db.students)[id]) == Allowed &&
            UpdateErrors(Whitelist(body)) == [] ==>
      var updated := ApplyPatch(old(db.students)[id], Whitelist(body), now);
      resp == Response(200, StudentData(updated)) && db.students == old(db.students)[id := updated]
  {
    if id !in db.students {
      return Response(404, ErrorField(StudentNotFound));
    }
    var s := db.students[id];
    var access := OwnershipCheck(caller, s);
    if access == Denied {
      return Response(403, ErrorField(UpdateForbidden));
    } else if access == OwnerMissing {
      return Response(500, Failure(UpdateFailed, Detail(development, OwnerTypeError)));
    }
    var patch := Whitelist(body);
    var errs := UpdateErrors(patch);
    if errs != [] {
      return Response(500, Failure(UpdateFailed, Detail(development, ValidationMessage(UpdateValidationPrefix, errs))));
    }
    var updated := ApplyPatch(s, patch, now);
    PatchKeepsValid(s, patch, now);
    ReplaceKeepsInvariant(db.students, id, updated);
    db.students := db.students[id := updated];
    resp := Response(200, StudentData(updated));
  }

  /** `deleteStudent` (admin only): remove the student, then the user that owns it, if any. */
  method DeleteStudent(db: Db, caller: Caller, id: Id) returns (resp: Response)
    requires caller.role == AdminRole
    requires db.Valid()
    modifies db
    ensures db.Valid()
    ensures id !in old(db.students) ==>
      resp == Response(404, ErrorField(StudentNotFoundWithId + id)) &&
      db.students == old(db.students) && db.users == old(db.users)
    ensures id in old(db.students) ==>
      resp == Response(200, Deleted(StudentDeleted)) &&
      db.students == old(db.students) - {id} &&
      db.users == match old(db.students)[id].owner
                  case Some(u) => old(db.users) - {u}
                  case None => old(db.users)
  {
    if id !in db.students {
      return Response(404, ErrorField(StudentNotFoundWithId + id));
    }
    var s := db.students[id];
    RemoveKeepsInvariant(db.students, {id});
    db.students := db.students - {id};
    if s.owner.Some? {
      RemoveKeepsUsersInvariant(db.users, {s.owner.value});
      db.users := db.users - {s.owner.value};
    }
    resp := Response(200, Deleted(StudentDeleted));
  }
}
