/** The two user-table writes the file controller relies on: provisioning a
    recipient account by e-mail, and writing an owner's storage usage. */
module UserService {
  import opened Common
  import opened Records
  import opened Store

  /** The account created for an unknown recipient: a free-tier, unverified,
      password-less user with the free tier's storage allowance and nothing used. */
  function Placeholder(id: Id, email: string, freeMaxStorage: int): UserRecord
  {
    UserRecord(id, email, UserRole, false, false, Free, freeMaxStorage, 0, None, None)
  }

  /** `upsertUserByEmail({ email }, { totalStorage, usedStorage: 0 }, {})`: an
      existing account is returned untouched (the update part is empty);
      otherwise a placeholder with a fresh id is appended. The id generator never
      reissues an id; `issued` holds ids it handed out that the tables do not show. */
  method UpsertUserByEmail(db: Database, email: string, freeMaxStorage: int, issued: set<Id>) returns (u: UserRecord)
    requires db.Valid()
    modifies db`users
    ensures db.Valid()
    ensures u.email == email
    ensures FindUserByEmail(old(db.users), email).Some? ==>
              db.users == old(db.users) && u == old(db.users)[FindUserByEmail(old(db.users), email).value]
    ensures FindUserByEmail(old(db.users), email).None? ==>
              && u == Placeholder(u.id, email, freeMaxStorage)
              && u.id !in old(db.UsedIds()) + issued
              && db.users == old(db.users) + [u]
    ensures u in db.users
  {
    var found := FindUserByEmail(db.users, email);
    if found.Some? {
      u := db.users[found.value];
      assert db.users[found.value] == u;
      return;
    }
    var id := FreshId(db.UsedIds() + issued);
    u := Placeholder(id, email, freeMaxStorage);
    forall i | 0 <= i < |db.users| ensures db.users[i].id != id {
      assert db.users[i] in db.users;
    }
    UniqueAppend(db.users, u, UserIdOf);
    UniqueAppend(db.users, u, EmailOf);
    db.users := db.users + [u];
    assert db.users[|db.users| - 1] == u;
  }

  /** `updateUserById({ id }, { usedStorage })`: fails when no such user exists,
      otherwise writes that one field of that one user. */
  method SetUsedStorage(db: Database, id: Id, usedStorage: int) returns (ok: bool)
    requires db.Valid()
    modifies db`users
    ensures db.Valid()
    ensures ok <==> FindUser(old(db.users), id).Some?
    ensures !ok ==> db.users == old(db.users)
    ensures ok ==> var i := FindUser(old(db.users), id).value;
              db.users == old(db.users)[i := old(db.users)[i].(usedStorage := usedStorage)]
  {
    var found := FindUser(db.users, id);
    if found.None? {
      return false;
    }
    var i := found.value;
    var users := db.users[i := db.users[i].(usedStorage := usedStorage)];
    assert UniqueBy(users, UserIdOf) && UniqueBy(users, EmailOf) by {
      forall a, b | 0 <= a < b < |users| ensures users[a].id != users[b].id && users[a].email != users[b].email {
        assert users[a].id == db.users[a].id && users[a].email == db.users[a].email;
        assert users[b].id == db.users[b].id && users[b].email == db.users[b].email;
      }
    }
    db.users := users;
    ok := true;
  }
}
