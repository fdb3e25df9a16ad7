# Student management backend: a verified model

This project models the decision logic of a small REST backend that manages students
and user accounts. The backend's handlers validate a request, read or write one or two
documents, and answer with a status code and a JSON body. The model holds the two
collections, `users` and `students`, as maps from id to record. They live in a `Db`
object that the writing handlers update in place.

Each handler becomes one Dafny member. It takes the caller's identity and the request
fields and returns a `Response`: a status code and one of the body shapes the handlers
send. A writing handler has a `modifies db` frame. Its postcondition gives the new
maps for every outcome and keeps the store invariant `Db.Valid`:

- every record is keyed by its own id;
- no two users and no two students share an email;
- every student is as the schema's validators and setters leave it.

Modules, in dependency order:

- `Common`: optional values (`undefined`), ids, field errors.
- `Text`: ECMAScript whitespace, `trim` and `toLowerCase`.
- `EmailPattern`: the unanchored regular expression `\S+@\S+\.\S+` that registration
  uses. A left-to-right scan is proved equal to the pattern's meaning.
- `StudentModel`: the Student schema. It covers the required and maximum-length
  validators with their messages, the trim and lowercase setters, and the timestamps.
  It also holds the store invariant and the lemmas showing that inserts, updates and
  deletes keep it.
- `Users`: the user record and the users' invariant.
- `Http`: responses.
- `ErrorTranslation`: the central error middleware. It is a straight-line sequence of
  overwrites, and the decisive rule is the last one that matches.
- `Listing`: `find(...).sort({ createdAt: -1 })`. A loop inserts each selected record
  at its place, and it is proved to return every selected record exactly once, newest
  first.
- `Database`: the `Db` class.
- `StudentController`, `AuthController`, `AdminController`: the handlers.

The following are parameters of the handlers:

- the libraries the handlers call: password hashing and comparison, and token signing;
- the id the database assigns and the clock;
- the development flag;
- a thrown error's stack trace;
- the outcome of the admin body validation.

## Model

| member | source | states |
|---|---|---|
| Common.MessagesOf | middleware/errorHandler.js:33 | one message per field error, in the same order, each the error's own `message` |
| Text.SkipSpace | models/Student.js:7 | the leading whitespace run ends at the first non-whitespace character |
| Text.SkipSpaceBack | models/Student.js:7 | the trailing whitespace run starts after the last non-whitespace character |
| Text.Trim | models/Student.js:7 | the trimmed value has no whitespace at either end and is no longer than the input |
| Text.TrimIsSlice | models/Student.js:7 | trimming only removes whitespace: the result is a slice with whitespace alone on both sides |
| Text.TrimIdempotent | models/Student.js:7 | a value is left unchanged by trimming exactly when it has no whitespace at either end |
| Text.Lower | models/Student.js:15 | lower-casing keeps the length and maps every character on its own |
| Text.LowerProperties | models/Student.js:15 | lower-casing leaves no upper-case letter, changes nothing in a string without one, and keeps a trimmed string trimmed |
| Text.NormalizeEmail | models/Student.js:14-15 | what the email setters store is no longer than the input |
| Text.NormalizeEmailForm | models/Student.js:14-15 | the setters always store a trimmed, lower-case value, and they leave a value unchanged exactly when it already has that form |
| Text.NormalizeEmailIdempotent | models/Student.js:14-15 | setting a stored email again stores the same value |
| EmailPattern.LooksLikeEmail | controllers/authController.js:110 | the scan accepts exactly the strings the pattern matches somewhere |
| EmailPattern.DotEndStep | controllers/authController.js:110 | a non-whitespace run up to the `.` is its first character followed by a shorter run |
| EmailPattern.DotAheadIff | controllers/authController.js:110 | the inner scan finds a `.` followed by non-whitespace exactly when the pattern's tail `\S*\.\S` matches there |
| EmailPattern.MatchAtIff | controllers/authController.js:110 | the scan's test at one `@` position holds exactly when a match has its `@` there |
| EmailPattern.AtFromIff | controllers/authController.js:110 | the outer scan from a position succeeds exactly when a match has its `@` at or after it |
| EmailPattern.UnanchoredMatch | controllers/authController.js:110 | any text before or after a matching address still matches |
| StudentModel.StringPathErrors | models/Student.js:4-9 | a string path fails exactly when it is absent, empty after trimming, or longer than its maximum after trimming; at most one error, on that path |
| StudentModel.CreateErrors | models/Student.js:3-26 | saving a new document reports errors only on the four schema paths, never two on the same path, and an error on a path exactly when that path's validators fail: name or course absent, blank once trimmed, or too long; email absent or blank once normalised; age absent |
| StudentModel.CreateErrorsMeaning | models/Student.js:3-26 | saving reports no error exactly when every field is present and the record built from them satisfies the schema |
| StudentModel.BuildIsValid | models/Student.js:3-26 | fields that pass all validators build a valid record |
| StudentModel.UpdateErrors | controllers/studentController.js:175-179 | the update validators fail exactly when a present name or course is empty or too long once trimmed; absent paths are not checked |
| StudentModel.ApplyPatch | controllers/studentController.js:170-179 | an update sets the present fields (trimmed), keeps the absent ones, moves `updatedAt`, and never touches id, email, owner or `createdAt` |
| StudentModel.PatchKeepsValid | controllers/studentController.js:175-179 | an update that passes its validators keeps a valid record valid |
| StudentModel.InsertKeepsInvariant | models/Student.js:10-16 | inserting a record built from error-free fields, with an email no student has, keeps every record valid and the emails unique |
| StudentModel.ReplaceKeepsInvariant | controllers/studentController.js:175-179 | replacing a record by a valid one with the same id and email keeps the store invariant |
| StudentModel.PutKeepsValid | models/Student.js:3-26 | writing a valid record under its own id keeps every record valid |
| StudentModel.InsertKeepsUnique | models/Student.js:13 | a new email under a fresh id keeps the emails unique |
| StudentModel.ReplaceKeepsUnique | models/Student.js:13 | replacing a record without changing its email keeps the emails unique |
| StudentModel.RemoveKeepsInvariant | controllers/studentController.js:214 | removing records keeps the store invariant |
| Users.InsertKeepsUsersInvariant | controllers/authController.js:126-144 | adding a user under a fresh id with an email no user has keeps the users' invariant |
| Users.ReplaceKeepsUsersInvariant | controllers/adminController.js:89-104 | replacing a user by one whose email no other user has keeps the users' invariant |
| Users.RemoveKeepsUsersInvariant | controllers/adminController.js:122 | removing users keeps the users' invariant |
| ErrorTranslation.Translate | middleware/errorHandler.js:8-57 | status and message come from the last matching check, in the order cast, duplicate key, validation, malformed token, expired token. With no match they are the error's own status (or 500) and message (or `Server Error`). A ValidationError's `errors` are its field messages in order. The stack appears only in development mode, and the error text is never empty |
| Listing.InsertionPoint | controllers/studentController.js:82 | the insertion point has every strictly newer record before it and none after it |
| Listing.InsertKeepsNewestFirst | controllers/studentController.js:82 | inserting at the insertion point keeps the sequence newest first |
| Listing.SelectNewestFirst | controllers/studentController.js:82 | the result holds each selected record of the map exactly once and nothing else, ordered by non-increasing `createdAt` |
| Listing.InsertStep | controllers/studentController.js:82 | one insertion keeps the loop's view: records drawn from the map, every processed selected key present, no id twice |
| Listing.InsertedAt | controllers/studentController.js:82 | where each element of a sequence with one inserted element comes from |
| Database.Db.constructor | models/Student.js:3-29 | an empty store satisfies the invariant |
| StudentController.OwnershipCheck | controllers/studentController.js:110 | a caller that is not a student passes for any record; a student passes exactly on the record it owns, is refused on another's, and fails on a record without owner |
| StudentController.StudentCallerLockedOut | controllers/studentController.js:110 | with `owner` read as the declared schema exposes it, a student fails even on its own record; with the stored owner, it passes there |
| StudentController.GetCurrentStudent | controllers/studentController.js:13-30 | 200 with a record the caller owns exactly when one exists, else 404; nothing is written |
| StudentController.CreateStudent | controllers/studentController.js:42-72 | an email some student has (after the setters) gives 400 and no write. Failing validators give the translated 400 with one message per failing path and no write. Otherwise exactly one owner-less record built from the trimmed fields and the normalised email is added and returned with 201. The invariant is kept and users are untouched |
| StudentController.GetAllStudents | controllers/studentController.js:80-83 | every student exactly once, newest first |
| StudentController.GetStudentById | controllers/studentController.js:94-136 | 404 for an unknown id. Then 403 for a student caller on another's record, 500 for a student caller on an owner-less record, else 200 with the record |
| StudentController.UpdateStudent | controllers/studentController.js:144-201 | 404 and 403 and the owner-less 500 come before any write. Failing update validators give 500 and no write. Otherwise only name, age and course of the target change. Email, owner and `createdAt` are kept, no other record changes, and the invariant holds |
| StudentController.DeleteStudent | controllers/studentController.js:209-235 | an unknown id gives 404 and no write. Otherwise the student is removed, and so is the user it names as owner, if any. Nothing else changes |
| AuthController.Login | controllers/authController.js:14-64 | a missing field gives 400 before any lookup. Only admins are matched. An unknown email, a non-admin and a wrong password all give the same 401 body. An admin stored without password gives the translated 500. A token is issued only for an admin whose stored password the check accepts, and the body carries id, email, name, role and token |
| AuthController.GetMe | controllers/authController.js:66-86 | 404 exactly when the caller's id is not a user; otherwise only its id, name, email and role |
| AuthController.RegisterGuard | controllers/authController.js:99-132 | the checks run in order: missing fields, the email pattern, password shorter than 6, an existing email. The first failing one decides the message |
| AuthController.RegisterGuardPasses | controllers/authController.js:102-132 | registration passes every check exactly when all three fields are present, the email matches, the password has at least 6 characters and no user has the email |
| AuthController.Register | controllers/authController.js:97-157 | a failing check gives 400 with its message and no write. Otherwise exactly one user is added. Its stored password is the hash of the given one, and its role is the body's, or `user` when absent. The 201 body carries id, email, role and a token. The invariant is kept |
| AdminController.GetAllAdmins | controllers/adminController.js:9-12 | exactly the users whose role is `admin`, each once, newest first |
| AdminController.GetAdminById | controllers/adminController.js:26-32 | 404 exactly for an unknown id; otherwise that user, whatever its role |
| AdminController.CreateAdmin | controllers/adminController.js:46-63 | a rejected body or an email some user has gives 400 and no write. Otherwise one user is added with role `admin` whatever the body says, and returned with 201 |
| AdminController.UpdateAdmin | controllers/adminController.js:77-106 | a rejected body gives 400, before an unknown id gives 404. A new email that another user has gives 400; one's own email is allowed. Otherwise only the target's name and email change. Passwords, roles and `createdAt` never change, and the invariant holds |
| AdminController.DeleteAdmin | controllers/adminController.js:120-126 | an unknown id gives 404. Otherwise exactly that user is removed, whatever its role, and no student is touched |

## Left out

- Database I/O, `async`/`await`, logging, and the generic 500 replies when the store fails. The stores are maps that always answer.
- Concurrent requests. Each handler runs alone, so a lookup and the write that follows it see the same map. The duplicate-key error (code 11000) of two racing inserts therefore never arises from the handlers. It is modelled only inside `ErrorTranslation.Translate`.
- The authentication and role middleware are not part of this model. The caller's id and role are parameters. The admin-only student handlers require an admin caller.
- The user schema is not part of this model. Its validators, setters and defaults are unknown, so `User.create` and `findByIdAndUpdate` on users always succeed. The user `email` is stored and compared as given. The 500 "Server error during registration" reply is not modelled. Admin replies carry the whole stored record, as the handlers send the document; whether the schema hides the password is unknown.
- Password hashing, password comparison and token signing are the fields of `AuthController.Crypto`, with no property assumed. The random salt is inside `hash`. `getMe`'s own 500 reply (a store failure) is not modelled.
- The admin body validation is a library schema. Its outcome is the parameter `verdict`. Only the facts the handlers rely on are required of an accepting verdict: for creation, a name, an email and no role but `admin`; for update, name or email present, neither empty, and no role. The name length and email format rules of that schema are not modelled.
- Malformed ids (the `CastError` of `findById`) are not modelled in the handlers: ids are plain strings.
- Non-string values for the string fields are not modelled, for example an object for `email`: `name`, `email` and `course` are each a string or absent, and `age` an integer or absent.
- StudentController.CreateStudent, StudentController.UpdateStudent: `age` is modelled as an unbounded integer, while the schema declares it a Number. So the model does not capture three cases: a fractional age such as 20.5, which is stored as it is; a numeric string such as "20", which is converted to 20; and any other string, which fails the cast. On create, that cast failure is one more ValidationError entry on `age`, which the error middleware answers with 400. On update, it is the handler's own 500 reply.
- Lengths count Dafny characters, not UTF-16 code units. Lower-casing is ASCII only.
- `updateStudent` drops `undefined` keys from the update, as recent versions of the database library do. Older versions would set those paths to `null`.
- `owner` is modelled as if it were a declared path of the Student schema. See "## Findings" for what the schema as declared does to the ownership checks of `getStudent` and `updateStudent`, to `getCurrentStudent`'s filter on `owner` and to the delete cascade. `StudentController.GetCurrentStudent` and `StudentController.DeleteStudent` are modelled with the owner stored.
- A ValidationError without an `errors` property makes the error middleware throw. The model reads the missing property as an empty list.
- The admin router is not mounted by the server. Also, `controllers/adminController.js` ends with a CommonJS `module.exports` in a file that uses `import`. Both are outside the handlers' logic and are not modelled.
- Registration never creates a linked student record, and deleting an admin does not cascade to students. The handlers do neither, so neither is modelled.
- The registration role is taken from the body without restriction. `AuthController.Register` stores it as given, so a caller can register with role `admin` and then log in.

## Findings

| source | as written | input that shows it | evidently intended | confidence | as-written member | corrected member |
|---|---|---|---|---|---|---|
| controllers/studentController.js:110 | `getStudent` reads `student.owner` from a document whose schema (models/Student.js:3-29) declares no `owner` path. The property is absent, so `toString` throws for every `student` caller. The same undeclared path also makes `getCurrentStudent`'s filter on `owner` (line 16) a filter on a path the schema does not know, and makes the delete cascade (line 225) never fire, so deleting a student leaves its owning user behind | a `student` caller asking for the record whose stored owner is its own id gets 500 instead of the record | `owner` declared in the schema, so the owner passes the check, and deleting a student also deletes its user | medium, not executed | StudentController.StudentCallerLockedOut | StudentController.OwnershipCheck |
| controllers/studentController.js:161 | `updateStudent` runs the same ownership check on the same undeclared `owner`, so it throws for every `student` caller in the same way | a `student` caller updating the record whose stored owner is its own id gets 500 and nothing is written | `owner` declared in the schema, so the owner may update its record | medium, not executed | StudentController.StudentCallerLockedOut | StudentController.OwnershipCheck |

