/** The two collections the handlers read and write, held in memory as maps from id to
    document. Every handler updates them in place. */
module Database {
  import opened Common
  import opened StudentModel
  import opened Users

  class Db {
    var users: map<Id, User>
    var students: map<Id, Student>

    /** The store-level invariants: records keyed by their ids, unique emails in each
        collection, and every student valid under its schema. */
    ghost predicate Valid()
      reads this
    {
      UsersInvariant(users) && StoreInvariant(students)
    }

    constructor ()
      ensures Valid() && users == map[] && students == map[]
    {
      users := map[];
      students := map[];
    }
  }
}
