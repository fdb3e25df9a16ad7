/** The Student document (models/Student.js): its fields, what the schema's setters store,
    what its validators refuse, and the store-level invariant that every handler keeps. */
module StudentModel {
  import opened Common
  import opened Text

  const NameMaxLength := 100
  const CourseMaxLength := 100

  const NameRequired := "Please provide a name"
  const NameTooLong := "Name cannot be more than 100 characters"
  const EmailRequired := "Please provide an email"
  const AgeRequired := "Please provide age"
  const CourseRequired := "Please provide course name"
  const CourseTooLong := "Course name cannot be more than 100 characters"

  /** A stored student. `owner` is not declared by the schema although the controllers
      read it (the user whose credential may manage this record); `None` is an absent
      owner. `createdAt`/`updatedAt` come from the schema's `timestamps` option. */
  datatype Student = Student(
    id: Id,
    name: string,
    email: string,
    age: int,
    course: string,
    owner: Option<Id>,
    createdAt: Timestamp,
    updatedAt: Timestamp)

  /** The `name`, `email`, `age` and `course` of a request body; `None` is `undefined`. */
  datatype StudentFields = StudentFields(
    name: Option<string>,
    email: Option<string>,
    age: Option<int>,
    course: Option<string>)

  /** What a stored record satisfies: each string required (non-empty) and stored as its
      setters leave it (trimmed; the email also lower-cased), name and course at most
      100 characters. `age` is only required to be a number. */
  ghost predicate SchemaValid(s: Student) {
    && s.name != "" && Trimmed(s.name) && |s.name| <= NameMaxLength
    && s.email != "" && EmailForm(s.email)
    && s.course != "" && Trimmed(s.course) && |s.course| <= CourseMaxLength
  }

  /** The store invariant: every record is keyed by its own id and valid, and no two
      records share an email (the `unique` index on `email`). */
  ghost predicate StoreInvariant(students: map<Id, Student>) {
    RecordsValid(students) && UniqueEmails(students)
  }

  ghost predicate RecordsValid(students: map<Id, Student>) {
    forall k :: k in students ==> students[k].id == k && SchemaValid(students[k])
  }

  ghost predicate UniqueEmails(students: map<Id, Student>) {
    forall k1, k2 :: k1 in students && k2 in students && students[k1].email == students[k2].email ==> k1 == k2
  }

  /** Whether some stored student has email `e` once the setters have normalised it. */
  predicate EmailTaken(students: map<Id, Student>, e: string) {
    exists k :: k in students && students[k].email == NormalizeEmail(e)
  }

  /** The validators of one trimmed string path, in the order Mongoose runs them:
      `required` first (an empty string fails it), then `maxlength`; the first failure
      ends that path. */
  function StringPathErrors(path: string, v: Option<string>, requiredMsg: string, max: nat, tooLongMsg: string): (r: seq<FieldError>)
    ensures |r| <= 1
    ensures r == [] <==> v.Some? && Trim(v.value) != "" && |Trim(v.value)| <= max
    ensures r != [] ==> r[0].path == path
  {
    match v
    case None => [FieldError(path, requiredMsg)]
    case Some(x) =>
      var t := Trim(x);
      if t == "" then [FieldError(path, requiredMsg)]
      else if |t| > max then [FieldError(path, tooLongMsg)]
      else []
  }

  function NameErrors(v: Option<string>): seq<FieldError> {
    StringPathErrors("name", v, NameRequired, NameMaxLength, NameTooLong)
  }

  function EmailErrors(v: Option<string>): seq<FieldError> {
    if v.Some? && NormalizeEmail(v.value) != "" then [] else [FieldError("email", EmailRequired)]
  }

  function AgeErrors(v: Option<int>): seq<FieldError> {
    if v.Some? then [] else [FieldError("age", AgeRequired)]
  }

  function CourseErrors(v: Option<string>): seq<FieldError> {
    StringPathErrors("course", v, CourseRequired, CourseMaxLength, CourseTooLong)
  }

  /** The record `new Student({ name, email, age, course })` holds once the setters ran;
      it is only meaningful when `CreateErrors` finds nothing. */
  function Build(f: StudentFields, id: Id, now: Timestamp): Student
    requires f.name.Some? && f.email.Some? && f.age.Some? && f.course.Some?
  {
    Student(id, Trim(f.name.value), NormalizeEmail(f.email.value), f.age.value, Trim(f.course.value), None, now, now)
  }

  /** The field errors of `save()` on a new document, one per failing path, in schema
      order. */
  function CreateErrors(f: StudentFields): (r: seq<FieldError>)
    ensures |r| <= 4
    ensures forall i :: 0 <= i < |r| ==> r[i].path in ["name", "email", "age", "course"]
    // At most one error per path ...
    ensures DistinctPaths(r)
    // ... and exactly the paths whose validators fail.
    ensures HasPath(r, "name") <==>
      !(f.name.Some? && Trim(f.name.value) != "" && |Trim(f.name.value)| <= NameMaxLength)
    ensures HasPath(r, "email") <==> !(f.email.Some? && NormalizeEmail(f.email.value) != "")
    ensures HasPath(r, "age") <==> f.age.None?
    ensures HasPath(r, "course") <==>
      !(f.course.Some? && Trim(f.course.value) != "" && |Trim(f.course.value)| <= CourseMaxLength)
  {
    var n, e, a, c := NameErrors(f.name), EmailErrors(f.email), AgeErrors(f.age), CourseErrors(f.course);
    SchemaOrderPaths(n, e, a, c);
    SchemaOrderFailing(n, e, a, c);
    n + e + a + c
  }

  /** Some entry of `r` is on path `p`. */
  ghost predicate HasPath(r: seq<FieldError>, p: string) {
    exists i :: 0 <= i < |r| && r[i].path == p
  }

  /** No two entries of `r` are on the same path. */
  ghost predicate DistinctPaths(r: seq<FieldError>) {
    forall i, j :: 0 <= i < j < |r| ==> r[i].path != r[j].path
  }

  /** Four per-path error lists, joined in schema order: no path twice, and no path
      other than those four. */
  lemma SchemaOrderPaths(n: seq<FieldError>, e: seq<FieldError>, a: seq<FieldError>, c: seq<FieldError>)
    requires |n| <= 1 && (n != [] ==> n[0].path == "name")
    requires |e| <= 1 && (e != [] ==> e[0].path == "email")
    requires |a| <= 1 && (a != [] ==> a[0].path == "age")
    requires |c| <= 1 && (c != [] ==> c[0].path == "course")
    ensures DistinctPaths(n + e + a + c)
    ensures forall i :: 0 <= i < |n + e + a + c| ==> (n + e + a + c)[i].path in ["name", "email", "age", "course"]
  {
    AppendPath([], n, [], "name");
    assert [] + n == n;
    AppendPath(n, e, ["name"], "email");
    AppendPath(n + e, a, ["name", "email"], "age");
    AppendPath(n + e + a, c, ["name", "email", "age"], "course");
  }

  /** ... and each of the four paths has an entry exactly when its own list has one. */
  lemma SchemaOrderFailing(n: seq<FieldError>, e: seq<FieldError>, a: seq<FieldError>, c: seq<FieldError>)
    requires |n| <= 1 && (n != [] ==> n[0].path == "name")
    requires |e| <= 1 && (e != [] ==> e[0].path == "email")
    requires |a| <= 1 && (a != [] ==> a[0].path == "age")
    requires |c| <= 1 && (c != [] ==> c[0].path == "course")
    ensures HasPath(n + e + a + c, "name") <==> n != []
    ensures HasPath(n + e + a + c, "email") <==> e != []
    ensures HasPath(n + e + a + c, "age") <==> a != []
    ensures HasPath(n + e + a + c, "course") <==> c != []
  {
    SinglePath(n, "name");
    SinglePath(e, "email");
    SinglePath(a, "age");
    SinglePath(c, "course");
    HasPathJoin(n, e, a, c, "name");
    HasPathJoin(n, e, a, c, "email");
    HasPathJoin(n, e, a, c, "age");
    HasPathJoin(n, e, a, c, "course");
  }

  /** A list with at most one entry, on path `q`, has path `p` exactly when it is not
      empty and `p` is `q`. */
  lemma SinglePath(y: seq<FieldError>, q: string)
    requires |y| <= 1 && (y != [] ==> y[0].path == q)
    ensures forall p :: HasPath(y, p) <==> y != [] && p == q
  {
    if y != [] {
      assert HasPath(y, q) by { assert y[0].path == q; }
    }
  }

  /** The paths of four lists joined are the paths of the four. */
  lemma HasPathJoin(n: seq<FieldError>, e: seq<FieldError>, a: seq<FieldError>, c: seq<FieldError>, p: string)
    ensures HasPath(n + e + a + c, p) <==> HasPath(n, p) || HasPath(e, p) || HasPath(a, p) || HasPath(c, p)
  {
    HasPathAppend(n, e, p);
    HasPathAppend(n + e, a, p);
    HasPathAppend(n + e + a, c, p);
  }

  lemma HasPathAppend(x: seq<FieldError>, y: seq<FieldError>, p: string)
    ensures HasPath(x + y, p) <==> HasPath(x, p) || HasPath(y, p)
  {
    var r := x + y;
    if HasPath(r, p) {
      var i :| 0 <= i < |r| && r[i].path == p;
      if i < |x| { assert x[i] == r[i]; } else { assert y[i - |x|] == r[i]; }
    }
    if HasPath(x, p) {
      var i :| 0 <= i < |x| && x[i].path == p;
      assert r[i] == x[i];
    }
    if HasPath(y, p) {
      var j :| 0 <= j < |y| && y[j].path == p;
      assert r[|x| + j] == y[j];
    }
  }

  /** Appending the errors of one more path `q` to errors on the paths `seen`, which do
      not include `q`, keeps the paths distinct. */
  lemma AppendPath(x: seq<FieldError>, y: seq<FieldError>, seen: seq<string>, q: string)
    requires DistinctPaths(x) && q !in seen
    requires forall i :: 0 <= i < |x| ==> x[i].path in seen
    requires |y| <= 1 && (y != [] ==> y[0].path == q)
    ensures forall i :: 0 <= i < |x + y| ==> (x + y)[i].path in seen + [q]
    ensures DistinctPaths(x + y)
  {
    var r := x + y;
    forall i, j | 0 <= i < j < |r| ensures r[i].path != r[j].path {
      if j < |x| {
        assert r[i] == x[i] && r[j] == x[j];
      } else {
        assert r[i] == x[i] && r[j] == y[0];
      }
    }
  }

  /** `save()` finds no error exactly when every field is present and the record that
      would be stored is valid. */
  lemma CreateErrorsMeaning(f: StudentFields)
    ensures CreateErrors(f) == [] <==>
      f.name.Some? && f.email.Some? && f.age.Some? && f.course.Some? &&
      forall id, now :: SchemaValid(Build(f, id, now))
  {
    if CreateErrors(f) == [] {
      forall id, now ensures SchemaValid(Build(f, id, now)) {
        BuildIsValid(f, id, now);
      }
    } else if f.name.Some? && f.email.Some? && f.age.Some? && f.course.Some? {
      var b := Build(f, "", 0);
      assert !SchemaValid(b) by {
        if NameErrors(f.name) != [] { assert b.name == Trim(f.name.value); }
        else if EmailErrors(f.email) != [] { }
        else { assert CourseErrors(f.course) != []; assert b.course == Trim(f.course.value); }
      }
    }
  }

  lemma BuildIsValid(f: StudentFields, id: Id, now: Timestamp)
    requires f.name.Some? && f.email.Some? && f.age.Some? && f.course.Some?
    requires NameErrors(f.name) == [] && EmailErrors(f.email) == [] && CourseErrors(f.course) == []
    ensures SchemaValid(Build(f, id, now))
  {
    NormalizeEmailForm(f.email.value);
  }

  /** The fields `updateStudent` copies out of a request body: `name`, `age`, `course`.
      `email` and `owner` are not among them. */
  datatype StudentPatch = StudentPatch(name: Option<string>, age: Option<int>, course: Option<string>)

  function Whitelist(f: StudentFields): StudentPatch {
    StudentPatch(f.name, f.age, f.course)
  }

  /** The update validators (`runValidators: true`): they run only on the paths the
      update sets, which are the ones present (`undefined` keys are stripped). */
  function UpdateErrors(p: StudentPatch): (r: seq<FieldError>)
    ensures r == [] <==>
      (p.name.Some? ==> Trim(p.name.value) != "" && |Trim(p.name.value)| <= NameMaxLength) &&
      (p.course.Some? ==> Trim(p.course.value) != "" && |Trim(p.course.value)| <= CourseMaxLength)
  {
    (if p.name.Some? then NameErrors(p.name) else []) +
    (if p.course.Some? then CourseErrors(p.course) else [])
  }

  /** `findByIdAndUpdate` with the whitelisted fields: present fields are set (through
      the `trim` setter), absent ones kept, and the timestamps plugin moves `updatedAt`. */
  function ApplyPatch(s: Student, p: StudentPatch, now: Timestamp): (r: Student)
    ensures r.id == s.id && r.email == s.email && r.owner == s.owner && r.createdAt == s.createdAt
    ensures r.updatedAt == now
    ensures r.name == (if p.name.Some? then Trim(p.name.value) else s.name)
    ensures r.age == p.age.GetOr(s.age)
    ensures r.course == (if p.course.Some? then Trim(p.course.value) else s.course)
  {
    s.(name := if p.name.Some? then Trim(p.name.value) else s.name,
       age := p.age.GetOr(s.age),
       course := if p.course.Some? then Trim(p.course.value) else s.course,
       updatedAt := now)
  }

  /** An update that passes its validators leaves a valid record valid. */
  lemma PatchKeepsValid(s: Student, p: StudentPatch, now: Timestamp)
    requires SchemaValid(s) && UpdateErrors(p) == []
    ensures SchemaValid(ApplyPatch(s, p, now))
  {
  }

  /** Inserting a record built from error-free fields under a fresh id, with an email no
      stored record has, keeps the store invariant. */
  lemma InsertKeepsInvariant(students: map<Id, Student>, f: StudentFields, id: Id, now: Timestamp)
    requires StoreInvariant(students) && id !in students
    requires CreateErrors(f) == [] && !EmailTaken(students, f.email.value)
    ensures StoreInvariant(students[id := Build(f, id, now)])
  {
    var b := Build(f, id, now);
    CreateErrorsMeaning(f);
    PutKeepsValid(students, id, b);
    InsertKeepsUnique(students, id, b);
  }

  /** Replacing a record by a valid one with the same id and email keeps the invariant. */
  lemma ReplaceKeepsInvariant(students: map<Id, Student>, id: Id, s: Student)
    requires StoreInvariant(students) && id in students
    requires s.id == id && s.email == students[id].email && SchemaValid(s)
    ensures StoreInvariant(students[id := s])
  {
    PutKeepsValid(students, id, s);
    ReplaceKeepsUnique(students, id, s);
  }

  lemma PutKeepsValid(students: map<Id, Student>, id: Id, s: Student)
    requires RecordsValid(students) && s.id == id && SchemaValid(s)
    ensures RecordsValid(students[id := s])
  {
    var m := students[id := s];
    forall k | k in m ensures m[k].id == k && SchemaValid(m[k]) {
      if k != id { assert m[k] == students[k]; }
    }
  }

  lemma InsertKeepsUnique(students: map<Id, Student>, id: Id, s: Student)
    requires UniqueEmails(students) && id !in students
    requires forall k :: k in students ==> students[k].email != s.email
    ensures UniqueEmails(students[id := s])
  {
  }

  lemma ReplaceKeepsUnique(students: map<Id, Student>, id: Id, s: Student)
    requires UniqueEmails(students) && id in students && s.email == students[id].email
    ensures UniqueEmails(students[id := s])
  {
    var m := students[id := s];
    forall k1, k2 | k1 in m && k2 in m && m[k1].email == m[k2].email ensures k1 == k2 {
      assert students[k1].email == m[k1].email && students[k2].email == m[k2].email;
    }
  }

  /** Removing records keeps the invariant. */
  lemma RemoveKeepsInvariant(students: map<Id, Student>, ids: set<Id>)
    requires StoreInvariant(students)
    ensures StoreInvariant(students - ids)
  {
    var m := students - ids;
    forall k | k in m ensures m[k].id == k && SchemaValid(m[k]) {
      assert m[k] == students[k];
    }
  }
}
