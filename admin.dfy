/** The record-editing handlers of the admin controller: `updateUser` with its
    sensitive-field stripping, `updateFile` with its name trimming,
    `claimRewards`, and the two soft deletes. */
module Admin {
  import opened Common
  import opened Strings
  import opened Records
  import opened Store
  import opened FileService

  // ---------------------------------------------------------------------------
  // updateUser

  /** A request body for `updateUser`: any subset of the user's fields. */
  datatype UserPatch = UserPatch(
    email: Option<string>,
    role: Option<Role>,
    isVerified: Option<bool>,
    isDeleted: Option<bool>,
    tier: Option<Tier>,
    totalStorage: Option<int>,
    usedStorage: Option<int>,
    password: Option<string>,
    refreshToken: Option<string>)

  /** `const { password, refreshToken, ...safeUpdateData } = updateData`. */
  function StripSensitive(p: UserPatch): (r: UserPatch)
    ensures r.password.None? && r.refreshToken.None?
  {
    p.(password := None, refreshToken := None)
  }

  /** `prisma.user.update({ data })`: the fields present in the patch replace the stored ones. */
  function ApplyPatch(u: UserRecord, p: UserPatch): (r: UserRecord)
    ensures r.id == u.id
    ensures p == UserPatch(None, None, None, None, None, None, None, None, None) ==> r == u
    ensures p.password.None? && p.refreshToken.None? ==> r.password == u.password && r.refreshToken == u.refreshToken
  {
    UserRecord(
      id := u.id,
      email := ValueOr(p.email, u.email),
      role := ValueOr(p.role, u.role),
      isVerified := ValueOr(p.isVerified, u.isVerified),
      isDeleted := ValueOr(p.isDeleted, u.isDeleted),
      tier := ValueOr(p.tier, u.tier),
      totalStorage := ValueOr(p.totalStorage, u.totalStorage),
      usedStorage := ValueOr(p.usedStorage, u.usedStorage),
      password := if p.password.Some? then p.password else u.password,
      refreshToken := if p.refreshToken.Some? then p.refreshToken else u.refreshToken)
  }

  /** A patch field when the patch carries it, else the stored value. */
  function ValueOr<T>(a: Option<T>, b: T): T
  {
    if a.Some? then a.value else b
  }

  /** A stripped patch keeps the stored credentials whatever the request carried. */
  lemma StrippedPatchKeepsCredentials(u: UserRecord, p: UserPatch)
    ensures ApplyPatch(u, StripSensitive(p)).password == u.password
    ensures ApplyPatch(u, StripSensitive(p)).refreshToken == u.refreshToken
    ensures ApplyPatch(u, StripSensitive(p)).id == u.id
  {
  }

  /** The user as `updateUser` returns it: everything but the two credentials. */
  datatype SafeUser = SafeUser(
    id: Id, email: string, role: Role, isVerified: bool, isDeleted: bool,
    tier: Tier, totalStorage: int, usedStorage: int)

  /** `const { password, refreshToken, ...safeUser } = updatedUser`. */
  function Redact(u: UserRecord): (r: SafeUser)
    ensures r.id == u.id && r.email == u.email && r.role == u.role && r.isVerified == u.isVerified
    ensures r.isDeleted == u.isDeleted && r.tier == u.tier
    ensures r.totalStorage == u.totalStorage && r.usedStorage == u.usedStorage
  {
    SafeUser(u.id, u.email, u.role, u.isVerified, u.isDeleted, u.tier, u.totalStorage, u.usedStorage)
  }

  /** Two users that differ only in their credentials redact to the same reply. */
  lemma RedactHidesCredentials(u: UserRecord, password: Option<string>, refreshToken: Option<string>)
    ensures Redact(u.(password := password, refreshToken := refreshToken)) == Redact(u)
  {
  }

  /** Conversely, equal replies come from users that differ at most in their credentials. */
  lemma RedactDeterminesUser(u: UserRecord, v: UserRecord)
    requires Redact(u) == Redact(v)
    ensures v == u.(password := v.password, refreshToken := v.refreshToken)
  {
  }

  datatype UserReply =
    | UserUpdated(user: SafeUser)
    | UserNotFound            // 404 'User not found' (Prisma "Record to update not found")
    | UserUpdateFailed        // 500 'Failed to update user' (the e-mail is taken by another user)

  /** The user table after `updateUser`; `None` when the write fails. */
  function PatchUsers(users: seq<UserRecord>, id: Id, p: UserPatch): (r: Option<seq<UserRecord>>)
    requires UniqueBy(users, UserIdOf) && UniqueBy(users, EmailOf)
    ensures FindUser(users, id).None? ==> r.None?
    ensures r.Some? ==> UniqueBy(r.value, UserIdOf) && UniqueBy(r.value, EmailOf)
    ensures FindUser(users, id).Some? ==>
              var i := FindUser(users, id).value;
              && (r.None? <==> exists j :: 0 <= j < |users| && j != i
                                          && users[j].email == ApplyPatch(users[i], StripSensitive(p)).email)
              && (r.Some? ==> r.value == users[i := ApplyPatch(users[i], StripSensitive(p))])
    ensures r.Some? ==> forall j :: 0 <= j < |users| ==>
              r.value[j].password == users[j].password && r.value[j].refreshToken == users[j].refreshToken
  {
    match FindUser(users, id)
    case None => None
    case Some(i) =>
      var updated := ApplyPatch(users[i], StripSensitive(p));
      if exists j :: 0 <= j < |users| && j != i && users[j].email == updated.email then None
      else
        var r := users[i := updated];
        assert UniqueBy(r, UserIdOf) && UniqueBy(r, EmailOf) by {
          forall a, b | 0 <= a < b < |r| ensures r[a].id != r[b].id && r[a].email != r[b].email {
            if a != i && b != i {
              assert r[a] == users[a] && r[b] == users[b];
            }
          }
        }
        Some(r)
  }

  /** `updateUser`. */
  method UpdateUser(db: Database, id: Id, p: UserPatch) returns (reply: UserReply)
    requires db.Valid()
    modifies db`users
    ensures db.Valid()
    ensures FindUser(old(db.users), id).None? ==> reply == UserNotFound
    ensures reply.UserUpdated? <==> PatchUsers(old(db.users), id, p).Some?
    ensures !reply.UserUpdated? ==> db.users == old(db.users)
    ensures reply.UserUpdated? ==>
              && db.users == PatchUsers(old(db.users), id, p).value
              && reply.user == Redact(db.users[FindUser(old(db.users), id).value])
  {
    var found := FindUser(db.users, id);
    if found.None? {
      return UserNotFound;
    }
    var r := PatchUsers(db.users, id, p);
    if r.None? {
      return UserUpdateFailed;
    }
    var i := found.value;
    db.users := r.value;
    reply := UserUpdated(Redact(db.users[i]));
  }

  // ---------------------------------------------------------------------------
  // updateFile

  datatype RenameReply =
    | FileRenamed(id: Id, originalName: string)
    | FileNameRequired        // 400 'File name is required'
    | Crash                   // the handler's catch branch names an undeclared `Prisma` and throws

  /** `!originalName?.trim()`: the name is absent or all white space. */
  predicate NameMissing(originalName: Option<string>): (m: bool)
    ensures m <==> originalName.None? || AllSpace(originalName.value)
  {
    if originalName.Some? then
      TrimEmptyIff(originalName.value);
      Trim(originalName.value) == ""
    else true
  }

  /** `updateFile`: rejects a missing or blank name; otherwise stores the trimmed
      name and nothing else; fails when there is no such file. */
  method UpdateFile(db: Database, id: Id, originalName: Option<string>) returns (reply: RenameReply)
    requires db.Valid()
    modifies db`files
    ensures db.Valid()
    ensures NameMissing(originalName) ==> reply == FileNameRequired && db.files == old(db.files)
    ensures !NameMissing(originalName) && FindFile(old(db.files), id).None? ==> reply == Crash && db.files == old(db.files)
    ensures reply.FileRenamed? ==>
              && originalName.Some? && reply.id == id && reply.originalName == Trim(originalName.value)
              && IsTrimmed(reply.originalName) && reply.originalName != ""
              && FindFile(old(db.files), id).Some?
              && var i := FindFile(old(db.files), id).value;
                 db.files == old(db.files)[i := old(db.files)[i].(originalName := reply.originalName)]
    ensures !NameMissing(originalName) && FindFile(old(db.files), id).Some? ==> reply.FileRenamed?
  {
    if NameMissing(originalName) {
      return FileNameRequired;
    }
    var name := Trim(originalName.value);
    var found := FindFile(db.files, id);
    if found.None? {
      return Crash;
    }
    UpdateByIdIsPointUpdate(db.files, found.value, SetOriginalName(name));
    FirstIndexByUniqueKey(db.files, FileIdOf, id, found.value);
    var updated := UpdateFileById(db, FileWhere(id, None, None), SetOriginalName(name));
    reply := FileRenamed(id, name);
  }

  // ---------------------------------------------------------------------------
  // claimRewards and the soft deletes

  datatype AdminReply = Done(file: Option<FileRecord>) | RecordNotFound

  /** `claimRewards`: `{ claims: { decrement: -1 * claims } }` adds `claims` to the file's claims. */
  method ClaimRewards(db: Database, id: Id, claims: int) returns (reply: AdminReply)
    requires db.Valid()
    modifies db`files
    ensures db.Valid()
    ensures reply.Done? <==> FindFile(old(db.files), id).Some?
    ensures reply == RecordNotFound ==> db.files == old(db.files)
    ensures reply.Done? ==>
              var i := FindFile(old(db.files), id).value;
              && db.files == old(db.files)[i := old(db.files)[i].(claims := old(db.files)[i].claims + claims)]
              && reply.file == Some(db.files[i])
  {
    var found := FindFile(db.files, id);
    if found.None? {
      return RecordNotFound;
    }
    UpdateByIdIsPointUpdate(db.files, found.value, DecrementClaims(-1 * claims));
    var updated := UpdateFileById(db, FileWhere(id, None, None), DecrementClaims(-1 * claims));
    reply := Done(Some(db.files[found.value]));
  }

  /** Two claims add up. */
  lemma ClaimsAccumulate(f: FileRecord, a: int, b: int)
    ensures ApplyUpdate(ApplyUpdate(f, DecrementClaims(-1 * a)), DecrementClaims(-1 * b)).claims == f.claims + a + b
    ensures ApplyUpdate(ApplyUpdate(f, DecrementClaims(-1 * a)), DecrementClaims(-1 * b))
            == f.(claims := f.claims + a + b)
  {
  }

  /** The admin `deleteFile`: soft-deletes the file with that id, whoever owns it. */
  method DeleteFileById(db: Database, id: Id) returns (reply: AdminReply)
    requires db.Valid()
    modifies db`files
    ensures db.Valid()
    ensures reply.Done? <==> FindFile(old(db.files), id).Some?
    ensures reply == RecordNotFound ==> db.files == old(db.files)
    ensures reply.Done? ==>
              var i := FindFile(old(db.files), id).value;
              db.files == old(db.files)[i := old(db.files)[i].(isDeleted := true)] && reply.file == None
  {
    var found := FindFile(db.files, id);
    if found.None? {
      return RecordNotFound;
    }
    UpdateByIdIsPointUpdate(db.files, found.value, MarkDeleted);
    var updated := UpdateFileById(db, FileWhere(id, None, None), MarkDeleted);
    reply := Done(None);
  }

  /** The admin `deleteUser`: soft-deletes the user with that id. */
  method DeleteUser(db: Database, id: Id) returns (reply: AdminReply)
    requires db.Valid()
    modifies db`users
    ensures db.Valid()
    ensures reply.Done? <==> FindUser(old(db.users), id).Some?
    ensures reply == RecordNotFound ==> db.users == old(db.users)
    ensures reply.Done? ==>
              var i := FindUser(old(db.users), id).value;
              db.users == old(db.users)[i := old(db.users)[i].(isDeleted := true)] && reply.file == None
  {
    var found := FindUser(db.users, id);
    if found.None? {
      return RecordNotFound;
    }
    var i := found.value;
    var users := db.users[i := db.users[i].(isDeleted := true)];
    assert UniqueBy(users, UserIdOf) && UniqueBy(users, EmailOf) by {
      forall a, b | 0 <= a < b < |users| ensures users[a].id != users[b].id && users[a].email != users[b].email {
        assert users[a].id == db.users[a].id && users[a].email == db.users[a].email;
        assert users[b].id == db.users[b].id && users[b].email == db.users[b].email;
      }
    }
    db.users := users;
    reply := Done(None);
  }
}
