/** The file-table operations of the file service: batch creation, the owner and
    shared-with queries, and the conditional single-record update. */
module FileService {
  import opened Common
  import opened Records
  import opened Store

  /** One element of the `files` array a client submits with a link or mail request. */
  datatype FileInput = FileInput(originalName: string, name: string, fileType: string, size: int)

  /** The row `prisma.file.create` writes for one input: the four copied fields,
      the batch-wide expiry, owner and shared-with set, and the schema defaults. */
  function NewFile(id: Id, userId: Id, expiresAt: Time, input: FileInput, sharedTo: set<Id>): FileRecord
  {
    FileRecord(
      id := id, userId := userId,
      originalName := input.originalName, name := input.name, fileType := input.fileType, size := input.size,
      downloads := 0, claims := 0, isExpired := false, isDeleted := false,
      expiredAt := expiresAt, sharedToUserIds := sharedTo,
      downloadedBy := [], downloadedAt := [])
  }

  /** `created` is the batch one `createFiles` call writes: one row per input, in input order. */
  predicate IsBatch(created: seq<FileRecord>, userId: Id, expiresAt: Time, inputs: seq<FileInput>, sharedTo: set<Id>)
  {
    && |created| == |inputs|
    && forall i :: 0 <= i < |created| ==> created[i] == NewFile(created[i].id, userId, expiresAt, inputs[i], sharedTo)
  }

  /** `n` distinct ids outside `used`, one per row a batch creates. */
  method FreshIds(used: set<Id>, n: nat) returns (ids: seq<Id>)
    ensures |ids| == n
    ensures forall i :: 0 <= i < n ==> ids[i] !in used
    ensures forall i, j :: 0 <= i < j < n ==> ids[i] != ids[j]
  {
    ids := [];
    var taken := used;
    while |ids| < n
      invariant |ids| <= n
      invariant used <= taken
      invariant forall i :: 0 <= i < |ids| ==> ids[i] in taken && ids[i] !in used
      invariant forall i, j :: 0 <= i < j < |ids| ==> ids[i] != ids[j]
    {
      var id := FreshId(taken);
      ids := ids + [id];
      taken := taken + {id};
    }
  }

  predicate UsersExist(users: seq<UserRecord>, ids: set<Id>)
  {
    forall id :: id in ids ==> FindUser(users, id).Some?
  }

  /** `createFiles`: all rows of the batch are created in one transaction. The
      transaction fails, writing nothing, when a row's owner or shared-with user
      cannot be connected; an empty batch is an empty transaction, which runs no
      query and so succeeds whoever the owner is. */
  method CreateFiles(db: Database, userId: Id, expiresAt: Time, inputs: seq<FileInput>, sharedTo: set<Id>)
    returns (r: Option<seq<FileRecord>>)
    requires db.Valid()
    modifies db`files
    ensures db.Valid()
    ensures r.None? <==> inputs != [] && (FindUser(db.users, userId).None? || !UsersExist(db.users, sharedTo))
    ensures inputs == [] ==> r == Some([])
    ensures r.None? ==> db.files == old(db.files)
    ensures r.Some? ==> db.files == old(db.files) + r.value
    ensures r.Some? ==> IsBatch(r.value, userId, expiresAt, inputs, sharedTo)
    ensures r.Some? ==> forall f :: f in r.value ==> f.id !in old(db.UsedIds())
  {
    if inputs == [] {
      return Some([]);
    }
    if FindUser(db.users, userId).None? || !UsersExist(db.users, sharedTo) {
      return None;
    }
    var existing := db.files;
    assert forall i :: 0 <= i < |existing| ==> existing[i].id in db.UsedIds() by {
      forall i | 0 <= i < |existing| ensures existing[i].id in db.UsedIds() {
        assert existing[i] in db.files;
      }
    }
    var ids := FreshIds(db.UsedIds(), |inputs|);
    var created := seq(|inputs|, i requires 0 <= i < |inputs| => NewFile(ids[i], userId, expiresAt, inputs[i], sharedTo));
    assert forall i :: 0 <= i < |created| ==> FileIdOf(created[i]) == ids[i];
    UniqueConcat(existing, created, FileIdOf);
    db.files := existing + created;
    r := Some(created);
  }

  predicate MatchesType(f: FileRecord, fileType: Option<string>)
  {
    fileType.None? || f.fileType == fileType.value
  }

  /** The `where` of `getFilesByUserId`; an absent `type` filters nothing. */
  predicate OwnedVisible(f: FileRecord, userId: Id, fileType: Option<string>)
  {
    f.userId == userId && !f.isDeleted && MatchesType(f, fileType)
  }

  /** `getFilesByUserId`: the owner's non-deleted files of the given type, in table order. */
  function FilesByUserId(files: seq<FileRecord>, userId: Id, fileType: Option<string>): (r: seq<FileRecord>)
    ensures forall f :: f in r <==> f in files && f.userId == userId && !f.isDeleted && MatchesType(f, fileType)
  {
    Filter(files, (f: FileRecord) => OwnedVisible(f, userId, fileType))
  }

  /** The user's `sharedFiles` relation: files whose shared-with set names the user. */
  function SharedWith(files: seq<FileRecord>, userId: Id): (r: seq<FileRecord>)
    ensures forall f :: f in r <==> f in files && userId in f.sharedToUserIds
  {
    Filter(files, (f: FileRecord) => userId in f.sharedToUserIds)
  }

  /** The `every` filter of `getSharedFilesByUserId`. */
  predicate AllShownable(shared: seq<FileRecord>, fileType: Option<string>)
  {
    forall f :: f in shared ==> !f.isDeleted && MatchesType(f, fileType)
  }

  /** `getSharedFilesByUserId`: Prisma finds the user only if EVERY shared file is
      non-deleted (and of the given type); otherwise, or for a missing user, `[]`. */
  function SharedFilesByUserId(users: seq<UserRecord>, files: seq<FileRecord>, userId: Id, fileType: Option<string>)
    : (r: seq<FileRecord>)
    ensures forall f :: f in r ==> f in files && userId in f.sharedToUserIds && !f.isDeleted && MatchesType(f, fileType)
    ensures r != [] ==> r == SharedWith(files, userId)
    ensures FindUser(users, userId).Some? && AllShownable(SharedWith(files, userId), fileType)
            ==> r == SharedWith(files, userId)
    ensures FindUser(users, userId).None? ==> r == []
  {
    var shared := SharedWith(files, userId);
    if FindUser(users, userId).Some? && AllShownable(shared, fileType) then shared else []
  }

  /** One deleted (or mistyped) shared file empties the whole answer. */
  lemma SharedAllOrNothing(users: seq<UserRecord>, files: seq<FileRecord>, userId: Id, fileType: Option<string>, f: FileRecord)
    requires f in files && userId in f.sharedToUserIds
    requires f.isDeleted || !MatchesType(f, fileType)
    ensures SharedFilesByUserId(users, files, userId, fileType) == []
  {
  }

  /** A created batch is exactly what the owner's listing gains. */
  lemma BatchListedForOwner(files: seq<FileRecord>, created: seq<FileRecord>, userId: Id, expiresAt: Time,
                            inputs: seq<FileInput>, sharedTo: set<Id>)
    requires IsBatch(created, userId, expiresAt, inputs, sharedTo)
    ensures FilesByUserId(files + created, userId, None) == FilesByUserId(files, userId, None) + created
  {
    var p := (f: FileRecord) => OwnedVisible(f, userId, None);
    FilterConcat(files, created, p);
    forall f | f in created ensures p(f) {
      var i :| 0 <= i < |created| && created[i] == f;
    }
    FilterAll(created, p);
  }

  /** A created batch is what every shared-with user's relation gains. */
  lemma BatchSharedWithRecipients(files: seq<FileRecord>, created: seq<FileRecord>, userId: Id, expiresAt: Time,
                                  inputs: seq<FileInput>, sharedTo: set<Id>, recipient: Id)
    requires IsBatch(created, userId, expiresAt, inputs, sharedTo)
    requires recipient in sharedTo
    ensures SharedWith(files + created, recipient) == SharedWith(files, recipient) + created
  {
    var p := (f: FileRecord) => recipient in f.sharedToUserIds;
    FilterConcat(files, created, p);
    forall f | f in created ensures p(f) {
      var i :| 0 <= i < |created| && created[i] == f;
    }
    FilterAll(created, p);
  }

  /** The `where` of `updateFileById`: the id, plus owner and type when given. */
  datatype FileWhere = FileWhere(fileId: Id, userId: Option<Id>, fileType: Option<string>)

  predicate MatchesWhere(f: FileRecord, w: FileWhere)
  {
    && f.id == w.fileId
    && (w.userId.None? || f.userId == w.userId.value)
    && (w.fileType.None? || f.fileType == w.fileType.value)
  }

  /** The update payloads the core sends to `prisma.file.update`. */
  datatype FileUpdate =
    | MarkDeleted                                               // { isDeleted: true }
    | DecrementClaims(amount: int)                              // { claims: { decrement: amount } }
    | SetOriginalName(originalName: string)                     // { originalName }
    | LogDownload(downloadedBy: seq<string>, downloadedAt: seq<Time>) // lists, { downloads: { increment: 1 } }

  function ApplyUpdate(f: FileRecord, u: FileUpdate): (r: FileRecord)
    ensures r.id == f.id && r.userId == f.userId && r.fileType == f.fileType && r.name == f.name
  {
    match u
    case MarkDeleted => f.(isDeleted := true)
    case DecrementClaims(amount) => f.(claims := f.claims - amount)
    case SetOriginalName(n) => f.(originalName := n)
    case LogDownload(fps, stamps) => f.(downloadedBy := fps, downloadedAt := stamps, downloads := f.downloads + 1)
  }

  /** The table after `prisma.file.update`: `None` when no record matches (Prisma
      throws "Record to update not found"), else exactly the matching record updated. */
  function UpdateFiles(files: seq<FileRecord>, w: FileWhere, u: FileUpdate): (r: Option<seq<FileRecord>>)
    requires UniqueBy(files, FileIdOf)
    ensures r.None? <==> forall j :: 0 <= j < |files| ==> !MatchesWhere(files[j], w)
    ensures r.Some? ==> |r.value| == |files|
    ensures r.Some? ==> forall j :: 0 <= j < |files| ==>
              r.value[j] == if MatchesWhere(files[j], w) then ApplyUpdate(files[j], u) else files[j]
    ensures r.Some? ==> UniqueBy(r.value, FileIdOf)
  {
    match FindFile(files, w.fileId)
    case None => None
    case Some(i) =>
      if MatchesWhere(files[i], w) then
        var updated := files[i := ApplyUpdate(files[i], u)];
        assert forall j :: 0 <= j < |files| && j != i ==> !MatchesWhere(files[j], w) by {
          forall j | 0 <= j < |files| && j != i ensures files[j].id != files[i].id {
            if j < i { assert FileIdOf(files[j]) != FileIdOf(files[i]); }
            else { assert FileIdOf(files[i]) != FileIdOf(files[j]); }
          }
        }
        assert forall j :: 0 <= j < |files| ==> FileIdOf(updated[j]) == FileIdOf(files[j]);
        Some(updated)
      else
        assert forall j :: 0 <= j < |files| ==> !MatchesWhere(files[j], w) by {
          forall j | 0 <= j < |files| && files[j].id == w.fileId ensures j == i {
          }
        }
        None
  }

  /** An update selected by id alone changes exactly the record at that id's position. */
  lemma UpdateByIdIsPointUpdate(files: seq<FileRecord>, i: nat, u: FileUpdate)
    requires UniqueBy(files, FileIdOf) && i < |files|
    ensures UpdateFiles(files, FileWhere(files[i].id, None, None), u) == Some(files[i := ApplyUpdate(files[i], u)])
  {
    var w := FileWhere(files[i].id, None, None);
    var r := UpdateFiles(files, w, u);
    assert MatchesWhere(files[i], w);
    forall j | 0 <= j < |files| && j != i ensures !MatchesWhere(files[j], w) {
      if j < i { assert FileIdOf(files[j]) != FileIdOf(files[i]); }
      else { assert FileIdOf(files[i]) != FileIdOf(files[j]); }
    }
    assert r.value == files[i := ApplyUpdate(files[i], u)];
  }

  /** `updateFileById`. */
  method UpdateFileById(db: Database, w: FileWhere, u: FileUpdate) returns (r: Option<FileRecord>)
    requires db.Valid()
    modifies db`files
    ensures db.Valid()
    ensures UpdateFiles(old(db.files), w, u).None? ==> r.None? && db.files == old(db.files)
    ensures UpdateFiles(old(db.files), w, u).Some? ==> db.files == UpdateFiles(old(db.files), w, u).value
    ensures r.Some? <==> UpdateFiles(old(db.files), w, u).Some?
    ensures r.Some? ==> exists i :: 0 <= i < |old(db.files)| && MatchesWhere(old(db.files)[i], w)
                                    && r.value == ApplyUpdate(old(db.files)[i], u)
  {
    match FindFile(db.files, w.fileId)
    case None =>
      r := None;
    case Some(i) =>
      if MatchesWhere(db.files[i], w) {
        var updated := ApplyUpdate(db.files[i], u);
        db.files := db.files[i := updated];
        r := Some(updated);
      } else {
        r := None;
      }
  }
}
