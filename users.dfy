/**
 The users endpoints: the generic store bound to the users table, whose
 lookups fail with "User not found". The table is a module-level dictionary
 in the service; here it is the `db` object every endpoint is given.
 */
module Users {
  import opened Records
  import opened ResourceStore

  /** The detail of the 404 answer to a lookup of an absent user. */
  const UserNotFound: string := "User not found"

  /** `db` is the users table: a consistent store labelled for users. */
  ghost predicate IsUsersDb(db: Store)
    reads db
  {
    db.Valid() && db.notFoundLabel == UserNotFound
  }

  /** `users_db = {}`: the table as the process starts with it. */
  method NewUsersDb() returns (db: Store)
    ensures fresh(db)
    ensures IsUsersDb(db)
    ensures db.Size() == 0
  {
    db := new Store(UserNotFound);
  }

  /** `GET /users/?skip=&limit=`: at most `limit` users, oldest first, from position `skip` on. */
  function ListUsers(db: Store, skip: nat := DefaultSkip, limit: nat := DefaultLimit): (r: seq<Record>)
    reads db
    requires IsUsersDb(db)
    ensures |r| == Min(limit, Max(0, db.Size() - skip))
    ensures forall i :: 0 <= i < |r| ==> r[i] == db.Values()[skip + i]
  {
    db.List(skip, limit)
  }

  /** `POST /users/`: stores the client's fields under the new id `userId` and answers with the stored record. */
  method CreateUser(db: Store, userId: string, user: Record) returns (created: Record)
    requires IsUsersDb(db)
    requires userId !in db.table
    modifies db
    ensures IsUsersDb(db)
    ensures db.table == old(db.table)[userId := created]
    ensures db.order == old(db.order) + [userId]
    ensures db.Values() == old(db.Values()) + [created]
    ensures forall k :: k in user ==> k in created && created[k] == user[k]
    ensures created.Keys == user.Keys + {IdField}
    ensures IdField !in user ==> created[IdField] == Str(userId)
    ensures GetUser(db, userId) == Found(created)
  {
    created := db.Create(userId, user);
  }

  /** `GET /users/{user_id}`: the stored user, or a 404 saying "User not found". */
  function GetUser(db: Store, userId: string): (r: Lookup)
    reads db
    requires IsUsersDb(db)
    ensures userId in db.table ==> r == Found(db.table[userId])
    ensures userId !in db.table ==> r == NotFound(UserNotFound)
  {
    db.Get(userId)
  }
}
