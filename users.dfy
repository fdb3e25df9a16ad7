/** The user (credential) record the controllers read and write. Its schema file is not
    part of this model; only the fields the controllers use are kept. */
module Users {
  import opened Common

  const AdminRole := "admin"
  const StudentRole := "student"
  const DefaultRole := "user"

  /** A stored user. `password` is the stored (hashed) password, `None` when the record
      was created without one, as `createAdmin` does. */
  datatype User = User(
    id: Id,
    name: string,
    email: string,
    password: Option<string>,
    role: string,
    createdAt: Timestamp)

  /** The identity the authentication middleware attaches to a request (`req.user`). */
  datatype Caller = Caller(id: Id, role: string)

  /** Every user is keyed by its own id and no two users share an email. */
  ghost predicate UsersInvariant(users: map<Id, User>) {
    && (forall k :: k in users ==> users[k].id == k)
    && (forall k1, k2 :: k1 in users && k2 in users && users[k1].email == users[k2].email ==> k1 == k2)
  }

  /** `User.findOne({ email })` finds something. */
  predicate UserEmailTaken(users: map<Id, User>, e: string) {
    exists k :: k in users && users[k].email == e
  }

  /** `User.findOne({ email, role: 'admin' })` finds something. */
  predicate AdminWithEmail(users: map<Id, User>, e: string) {
    exists k :: k in users && users[k].email == e && users[k].role == AdminRole
  }

  lemma InsertKeepsUsersInvariant(users: map<Id, User>, u: User)
    requires UsersInvariant(users) && u.id !in users
    requires forall k :: k in users ==> users[k].email != u.email
    ensures UsersInvariant(users[u.id := u])
  {
  }

  /** Replacing a user by one whose email no other user has keeps the invariant. */
  lemma ReplaceKeepsUsersInvariant(users: map<Id, User>, u: User)
    requires UsersInvariant(users) && u.id in users
    requires forall k :: k in users && k != u.id ==> users[k].email != u.email
    ensures UsersInvariant(users[u.id := u])
  {
  }

  lemma RemoveKeepsUsersInvariant(users: map<Id, User>, ids: set<Id>)
    requires UsersInvariant(users)
    ensures UsersInvariant(users - ids)
  {
    var m := users - ids;
    forall k | k in m ensures m[k].id == k {
      assert m[k] == users[k];
    }
  }
}
