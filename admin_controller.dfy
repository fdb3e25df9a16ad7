/** The admin handlers (controllers/adminController.js) over the user collection. Their
    router mounts no authentication, so they take no caller. The body validation is a
    schema library's; its outcome is the parameter `verdict`: `None` when the body
    passes, or the first error message. */
module AdminController {
  import opened Common
  import opened Users
  import opened Http
  import Listing
  import opened Database

  const AdminNotFound := "Admin not found"
  const AdminExists := "Admin with this email already exists"
  const EmailInUse := "Email already in use by another admin"
  const AdminDeleted := "Admin deleted successfully"

  /** The keys of an admin request body; `None` is `undefined`. */
  datatype AdminFields = AdminFields(name: Option<string>, email: Option<string>, role: Option<string>)

  /** What a body the create schema accepts has: a non-empty name and email, and no
      role other than `admin`. */
  predicate CreateShape(body: AdminFields) {
    Truthy(body.name) && Truthy(body.email) && (body.role.None? || body.role == Some(AdminRole))
  }

  /** What a body the update schema accepts has: at least one of name and email, neither
      of them empty, and no role. */
  predicate UpdateShape(body: AdminFields) {
    (body.name.Some? || body.email.Some?) && body.name != Some("") && body.email != Some("") && body.role.None?
  }

  function IsAdmin(u: User): bool { u.role == AdminRole }
  function UserCreatedAt(u: User): int { u.createdAt }
  function UserIdOf(u: User): Id { u.id }

  /** `getAllAdmins`: exactly the users whose role is `admin`, each once, newest first. */
  method GetAllAdmins(db: Db) returns (resp: Response)
    requires db.Valid()
    ensures resp.status == 200 && resp.body.UserArray?
    ensures var r := resp.body.users;
      && (forall i :: 0 <= i < |r| ==> r[i].id in db.users && db.users[r[i].id] == r[i] && r[i].role == AdminRole)
      && (forall k :: k in db.users && db.users[k].role == AdminRole ==> exists i :: 0 <= i < |r| && r[i].id == k)
      && (forall i, j :: 0 <= i < j < |r| ==> r[i].id != r[j].id)
      && (forall i, j :: 0 <= i < j < |r| ==> r[i].createdAt >= r[j].createdAt)
  {
    var r := Listing.SelectNewestFirst(db.users, IsAdmin, UserCreatedAt, UserIdOf);
    resp := Response(200, UserArray(r));
  }

  /** `getAdminById`: the record with that id, whatever its role, or 404. */
  function GetAdminById(db: Db, id: Id): (resp: Response)
    requires db.Valid()
    reads db
    ensures resp.status == 200 <==> id in db.users
    ensures id !in db.users ==> resp == Response(404, BareMessage(AdminNotFound))
    ensures resp.status == 200 ==> resp.body.UserDoc? && resp.body.user.id == id && resp.body.user in db.users.Values
  {
    if id !in db.users then Response(404, BareMessage(AdminNotFound)) else Response(200, UserDoc(db.users[id]))
  }

  /** `createAdmin`: a rejected body, then an email some user already has, each answer
      400 and write nothing; otherwise one user is added whose role is `admin` whatever
      the body says. The body carries no password, so none is stored. `newId` is the id
      the database assigns. */
  method CreateAdmin(db: Db, body: AdminFields, verdict: Option<string>, newId: Id, now: Timestamp)
    returns (resp: Response)
    requires db.Valid() && newId !in db.users
    requires verdict.None? ==> CreateShape(body)
    modifies db
    ensures db.Valid() && db.students == old(db.students)
    ensures verdict.Some? ==> resp == Response(400, BareMessage(verdict.value)) && db.users == old(db.users)
    ensures verdict.None? && UserEmailTaken(old(db.users), body.email.value) ==>
      resp == Response(400, BareMessage(AdminExists)) && db.users == old(db.users)
    ensures verdict.None? && !UserEmailTaken(old(db.users), body.email.value) ==>
      var u := User(newId, body.name.value, body.email.value, None, AdminRole, now);
      db.users == old(db.users)[newId := u] && resp == Response(201, UserDoc(u))
    ensures resp.status == 201 ==> db.users[newId].role == AdminRole
  {
    if verdict.Some? {
      return Response(400, BareMessage(verdict.value));
    }
    if UserEmailTaken(db.users, body.email.value) {
      return Response(400, BareMessage(AdminExists));
    }
    var u := User(newId, body.name.value, body.email.value, None, AdminRole, now);
    InsertKeepsUsersInvariant(db.users, u);
    db.users := db.users[newId := u];
    resp := Response(201, UserDoc(u));
  }

  /** `updateAdmin`: a rejected body (400) before the lookup (404), then a new email that a
      DIFFERENT user has (400); keeping one's own email is allowed. Only the target's name
      and email change, and no other record. */
  method UpdateAdmin(db: Db, id: Id, body: AdminFields, verdict: Option<string>) returns (resp: Response)
    requires db.Valid()
    requires verdict.None? ==> UpdateShape(body)
    modifies db
    ensures db.Valid() && db.students == old(db.students)
    ensures verdict.Some? ==> resp == Response(400, BareMessage(verdict.value)) && db.users == old(db.users)
    ensures verdict.None? && id !in old(db.users) ==>
      resp == Response(404, BareMessage(AdminNotFound)) && db.users == old(db.users)
    ensures verdict.None? && id in old(db.users) && body.email.Some? &&
            (exists k :: k in old(db.users) && k != id && old(db.users)[k].email == body.email.value) ==>
      resp == Response(400, BareMessage(EmailInUse)) && db.users == old(db.users)
    ensures verdict.None? && id in old(db.users) &&
            !(body.email.Some? && exists k :: k in old(db.users) && k != id && old(db.users)[k].email == body.email.value) ==>
      var u := old(db.users)[id];
      var updated := u.(name := body.name.GetOr(u.name), email := body.email.GetOr(u.email));
      db.users == old(db.users)[id := updated] && resp == Response(200, UserDoc(updated))
    // Whatever happens, ids, passwords, roles and creation times stay as they were.
    ensures db.users.Keys == old(db.users).Keys
    ensures forall k :: k in db.users ==>
      db.users[k].password == old(db.users)[k].password && db.users[k].role == old(db.users)[k].role &&
      db.users[k].createdAt == old(db.users)[k].createdAt
  {
    if verdict.Some? {
      return Response(400, BareMessage(verdict.value));
    }
    if id !in db.users {
      return Response(404, BareMessage(AdminNotFound));
    }
    if Truthy(body.email) && exists k :: k in db.users && k != id && db.users[k].email == body.email.value {
      return Response(400, BareMessage(EmailInUse));
    }
    var u := db.users[id];
    var updated := u.(name := body.name.GetOr(u.name), email := body.email.GetOr(u.email));
    ReplaceKeepsUsersInvariant(db.users, updated);
    db.users := db.users[id := updated];
    resp := Response(200, UserDoc(updated));
  }

  /** `deleteAdmin`: 404 for an unknown id; otherwise exactly that user goes, whatever its
      role, and no student record is touched. */
  method DeleteAdmin(db: Db, id: Id) returns (resp: Response)
    requires db.Valid()
    modifies db
    ensures db.Valid() && db.students == old(db.students)
    ensures id !in old(db.users) ==> resp == Response(404, BareMessage(AdminNotFound)) && db.users == old(db.users)
    ensures id in old(db.users) ==> resp == Response(200, BareMessage(AdminDeleted)) && db.users == old(db.users) - {id}
  {
    if id !in db.users {
      return Response(404, BareMessage(AdminNotFound));
    }
    RemoveKeepsUsersInvariant(db.users, {id});
    db.users := db.users - {id};
    resp := Response(200, BareMessage(AdminDeleted));
  }
}
