/**
 * The `user` table reached through the ORM client (`prisma.user`), as the
 * controller uses it: look a record up by e-mail, create a record.
 */
module UserStore {
  import opened Wrappers

  /** One stored account. `password` holds the digest produced at registration. */
  datatype UserRecord = UserRecord(
    id: nat,
    firstname: string,
    lastname: string,
    email: string,
    password: string,
    role: string)

  /**
   * The table is keyed by e-mail, every record sits under its own e-mail,
   * and identifiers are distinct and below the next one to be assigned.
   */
  ghost predicate WellFormed(users: map<string, UserRecord>, nextId: nat) {
    && (forall e | e in users :: users[e].email == e && users[e].id < nextId)
    && (forall e1, e2 | e1 in users && e2 in users && e1 != e2 :: users[e1].id != users[e2].id)
  }

  /** `after` is `before` plus one record `rec` under a key `before` did not have; nothing else changes. */
  ghost predicate InsertedOne(before: map<string, UserRecord>, after: map<string, UserRecord>, rec: UserRecord) {
    && rec.email !in before
    && after.Keys == before.Keys + {rec.email}
    && after[rec.email] == rec
    && (forall e | e in before :: after[e] == before[e])
  }

  class UserTable {
    var users: map<string, UserRecord>
    /** The identifier the store will give the next record it creates. */
    var nextId: nat

    ghost predicate Valid()
      reads this
    {
      WellFormed(users, nextId)
    }

    constructor ()
      ensures Valid() && users == map[] && nextId == 0
    {
      users := map[];
      nextId := 0;
    }

    /** `findUnique({ where: { email } })`: the record stored under `email`, if any. */
    method FindUnique(email: string) returns (found: Option<UserRecord>)
      requires Valid()
      ensures found.Some? <==> email in users
      ensures found.Some? ==> found.value == users[email] && found.value.email == email
    {
      if email in users {
        found := Some(users[email]);
      } else {
        found := None;
      }
    }

    /**
     * `create({ data })`: stores a new record with a fresh identifier and
     * returns it. The controller only calls it after `FindUnique` found nothing.
     */
    method Create(firstname: string, lastname: string, email: string, password: string, role: string)
      returns (created: UserRecord)
      requires Valid() && email !in users
      modifies this
      ensures Valid()
      ensures created == UserRecord(old(nextId), firstname, lastname, email, password, role)
      ensures InsertedOne(old(users), users, created)
      ensures nextId == old(nextId) + 1
    {
      created := UserRecord(nextId, firstname, lastname, email, password, role);
      users := users[email := created];
      nextId := nextId + 1;
    }
  }

}
