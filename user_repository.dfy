/**
 * The user repository: the statements issued against the users table. fetchById returns every
 * column of a live row; remove only sets the deletion flag.
 */
module UserRepository {
  import opened Common
  import opened Tables
  import opened Query

  /** fetchById: the user with that key and all its columns, unless absent or soft-deleted. */
  function FetchById(users: map<int, User>, userId: int): (r: Option<Keyed<User>>)
    ensures r.Some? <==> userId in users && !users[userId].isDeleted
    ensures r.Some? ==> r.value == Keyed(userId, users[userId])
  {
    Lookup(users, userId, (u: User) => !u.isDeleted, (u: User) => u)
  }

  /** create: inserts the row under the next id of the table's sequence and returns that id. */
  method Create(db: Db, data: User) returns (userId: int)
    requires db.Valid()
    modifies db`users, db`nextUserId
    ensures db.Valid()
    ensures userId == old(db.nextUserId) && userId !in old(db.users)
    ensures db.users == old(db.users)[userId := data]
    ensures db.nextUserId == userId + 1
  {
    userId := db.nextUserId;
    db.users := db.users[userId := data];
    db.nextUserId := userId + 1;
  }

  /** update: writes the given columns into the row with that key; reports how many rows matched. */
  method Update(db: Db, data: UserPatch, userId: int) returns (count: nat)
    requires db.Valid()
    modifies db`users
    ensures db.Valid()
    ensures count <= 1 && (count == 1 <==> userId in old(db.users))
    ensures db.users == UpdateAt(old(db.users), userId, (u: User) => PatchUser(u, data))
  {
    count := if userId in db.users then 1 else 0;
    db.users := UpdateAt(db.users, userId, (u: User) => PatchUser(u, data));
  }

  /** remove: sets `isdeleted` on the row with that key and on no other; the row stays. */
  method Remove(db: Db, userId: int) returns (count: nat)
    requires db.Valid()
    modifies db`users
    ensures db.Valid()
    ensures count <= 1 && (count == 1 <==> userId in old(db.users))
    ensures db.users == UpdateAt(old(db.users), userId, (u: User) => u.(isDeleted := true))
  {
    count := if userId in db.users then 1 else 0;
    db.users := UpdateAt(db.users, userId, (u: User) => u.(isDeleted := true));
  }

  /** A created user is fetched back by the new key, unless the inserted row is itself deleted. */
  lemma CreateThenFetch(users: map<int, User>, userId: int, data: User)
    ensures FetchById(users[userId := data], userId) == if data.isDeleted then None else Some(Keyed(userId, data))
  {
  }

  /** An update that leaves the flag alone is seen by fetchById exactly as written. */
  lemma UpdateThenFetch(users: map<int, User>, userId: int, data: UserPatch)
    requires userId in users && !users[userId].isDeleted
    requires data.isDeleted == None
    ensures FetchById(UpdateAt(users, userId, (u: User) => PatchUser(u, data)), userId) == Some(Keyed(userId, PatchUser(users[userId], data)))
  {
  }

  /** After remove the user is no longer fetched, and every other user reads as before. */
  lemma RemoveHides(users: map<int, User>, userId: int, other: int)
    requires other != userId
    ensures FetchById(UpdateAt(users, userId, (u: User) => u.(isDeleted := true)), userId) == None
    ensures FetchById(UpdateAt(users, userId, (u: User) => u.(isDeleted := true)), other) == FetchById(users, other)
  {
  }
}
