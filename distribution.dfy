/** Sharing files by link and by mail (the file controller's `generateFileLink`,
    `sendFileMail`, `getLink`, `deleteFile` and the two listing handlers): the
    recipient list, the expiry, the owner's storage write, recipient accounts,
    and the public URL every returned file carries. */
module Distribution {
  import opened Common
  import opened Strings
  import opened Records
  import opened Store
  import opened FileService
  import opened UserService
  import Env

  /** `24 * 60 * 60 * 1000`, one day in milliseconds. */
  const MsPerDay: int := 24 * 60 * 60 * 1000

  /** `expiresInDays * 24 * 60 * 60 * 1000`. */
  function ExpiresInMs(expiresInDays: int): int
  {
    expiresInDays * MsPerDay
  }

  /** The sum of the sizes of a list of files (the handlers' `reduce`). */
  function TotalSize(files: seq<FileInput>): int
    decreases |files|
  {
    if files == [] then 0 else files[0].size + TotalSize(files[1..])
  }

  // ---------------------------------------------------------------------------
  // Recipients

  /** `to.split(",").map(email => email.trim())`. */
  function ParseRecipients(to: string): (r: seq<string>)
    ensures |r| == Occurrences(to, ',') + 1
    ensures forall i :: 0 <= i < |r| ==> IsTrimmed(r[i]) && ',' !in r[i]
  {
    var pieces := Split(to, ',');
    var r := seq(|pieces|, i requires 0 <= i < |pieces| => Trim(pieces[i]));
    assert forall i :: 0 <= i < |r| ==> ',' !in r[i] by {
      forall i | 0 <= i < |r| ensures ',' !in r[i] {
        if ',' in r[i] {
          TrimWithin(pieces[i], ',');
        }
      }
    }
    r
  }

  /** The address list written around the commas with any white space: parsing
      gives back exactly the addresses, in order. */
  function Padded(lead: seq<string>, emails: seq<string>, trail: seq<string>): seq<string>
    requires |lead| == |emails| == |trail|
  {
    seq(|emails|, i requires 0 <= i < |emails| => lead[i] + emails[i] + trail[i])
  }

  lemma ParsePaddedRecipients(lead: seq<string>, emails: seq<string>, trail: seq<string>)
    requires 0 < |emails| && |lead| == |emails| == |trail|
    requires forall i :: 0 <= i < |emails| ==> AllSpace(lead[i]) && AllSpace(trail[i])
    requires forall i :: 0 <= i < |emails| ==> IsTrimmed(emails[i]) && ',' !in emails[i]
    ensures ParseRecipients(Join(Padded(lead, emails, trail), ',')) == emails
  {
    var pieces := Padded(lead, emails, trail);
    SplitJoin(pieces, ',');
    var r := ParseRecipients(Join(pieces, ','));
    forall i | 0 <= i < |emails| ensures r[i] == emails[i] {
      TrimPadded(lead[i], emails[i], trail[i]);
    }
  }

  // ---------------------------------------------------------------------------
  // Public URLs

  function UrlPrefix(bucket: string, region: string): string
  {
    "https://" + bucket + ".s3." + region + ".wasabisys.com/"
  }

  /** `https://${bucket}.s3.${region}.wasabisys.com/${file.name}`. */
  function PublicUrl(bucket: string, region: string, name: string): (url: string)
    ensures |url| == |UrlPrefix(bucket, region)| + |name|
    ensures url[|UrlPrefix(bucket, region)|..] == name
  {
    UrlPrefix(bucket, region) + name
  }

  /** Within one bucket and region, the URL names its object key exactly. */
  lemma PublicUrlInjective(bucket: string, region: string, a: string, b: string)
    ensures PublicUrl(bucket, region, a) == PublicUrl(bucket, region, b) <==> a == b
  {
    var n := |UrlPrefix(bucket, region)|;
    if PublicUrl(bucket, region, a) == PublicUrl(bucket, region, b) {
      assert a == PublicUrl(bucket, region, a)[n..];
    }
  }

  /** A file as the handlers return it: the record plus its public URL. */
  datatype SharedFile = SharedFile(file: FileRecord, url: string)

  /** What the handlers read from the environment, and the free tier's storage quota. */
  datatype ShareConfig = ShareConfig(bucket: string, region: string, clientBaseUrl: string, freeMaxStorage: int)

  /** `${env[key]}` for a string variable of the parsed environment: its value when
      the parse kept the key, "undefined" when it did not. */
  function EnvText(parsed: Env.Config, key: string): string
  {
    if key in parsed.strings then parsed.strings[key] else "undefined"
  }

  /** The configuration the handlers run with: `env.WASABI_BUCKET`,
      `env.WASABI_REGION` and `env.CLIENT_BASE_URL` of the parsed environment. */
  function HandlerConfig(parsed: Env.Config, freeMaxStorage: int): ShareConfig
  {
    ShareConfig(EnvText(parsed, "WASABI_BUCKET"), EnvText(parsed, "WASABI_REGION"),
                EnvText(parsed, "CLIENT_BASE_URL"), freeMaxStorage)
  }

  /** The environment schema declares neither `WASABI_BUCKET` nor `WASABI_REGION`,
      so the parse drops both, whatever the process environment holds: every
      public URL the handlers build is `https://undefined.s3.undefined.wasabisys.com/`
      followed by the object key, while the preview links use the client base
      URL as set. */
  lemma HandlerUrlsUndefined(env: map<string, string>, isEmail: string -> bool, isUrl: string -> bool,
                             freeMaxStorage: int, name: string)
    requires Env.ParseEnv(env, isEmail, isUrl).Some?
    ensures var cfg := HandlerConfig(Env.ParseEnv(env, isEmail, isUrl).value, freeMaxStorage);
              && cfg.bucket == "undefined" && cfg.region == "undefined"
              && PublicUrl(cfg.bucket, cfg.region, name) == UrlPrefix("undefined", "undefined") + name
    ensures HandlerConfig(Env.ParseEnv(env, isEmail, isUrl).value, freeMaxStorage).clientBaseUrl == env["CLIENT_BASE_URL"]
  {
    Env.ParseEnvFields(env, isEmail, isUrl);
    WasabiUndeclared();
  }

  /** The Wasabi variables are not among the schema's strings; the client base URL is. */
  lemma WasabiUndeclared()
    ensures "WASABI_BUCKET" !in Env.RequiredStringKeys() && "WASABI_REGION" !in Env.RequiredStringKeys()
    ensures "CLIENT_BASE_URL" in Env.RequiredStringKeys()
  {
  }

  /** `files.map(file => ({ ...file, url }))`. */
  function WithUrls(files: seq<FileRecord>, cfg: ShareConfig): (r: seq<SharedFile>)
    ensures |r| == |files|
    ensures forall i :: 0 <= i < |r| ==> r[i].file == files[i]
    ensures forall i :: 0 <= i < |r| ==> r[i].url == PublicUrl(cfg.bucket, cfg.region, files[i].name)
  {
    seq(|files|, i requires 0 <= i < |files| => SharedFile(files[i], PublicUrl(cfg.bucket, cfg.region, files[i].name)))
  }

  function FilesOf(shared: seq<SharedFile>): (r: seq<FileRecord>)
    ensures |r| == |shared| && forall i :: 0 <= i < |r| ==> r[i] == shared[i].file
  {
    seq(|shared|, i requires 0 <= i < |shared| => shared[i].file)
  }

  function IdsOf(files: seq<FileRecord>): (r: seq<Id>)
    ensures |r| == |files| && forall i :: 0 <= i < |r| ==> r[i] == files[i].id
  {
    seq(|files|, i requires 0 <= i < |files| => files[i].id)
  }

  // ---------------------------------------------------------------------------
  // Listing handlers

  /** `getUserSharedFiles`: the caller's own non-deleted files, each with its URL. */
  function UserSharedFiles(files: seq<FileRecord>, userId: Id, cfg: ShareConfig): (r: seq<SharedFile>)
    ensures forall s :: s in r ==> s.file in files && OwnedVisible(s.file, userId, None)
    ensures forall f :: f in files && OwnedVisible(f, userId, None) ==> exists s :: s in r && s.file == f
    ensures forall s :: s in r ==> s.url == PublicUrl(cfg.bucket, cfg.region, s.file.name)
  {
    var owned := FilesByUserId(files, userId, None);
    var r := WithUrls(owned, cfg);
    assert forall f :: f in owned ==> exists i :: 0 <= i < |r| && r[i].file == f;
    r
  }

  /** `getUserReceivedFiles`: the files shared with the caller, each with its URL,
      under the all-or-nothing rule of the shared-files query. */
  function UserReceivedFiles(users: seq<UserRecord>, files: seq<FileRecord>, userId: Id, cfg: ShareConfig)
    : (r: seq<SharedFile>)
    ensures FilesOf(r) == SharedFilesByUserId(users, files, userId, None)
    ensures forall s :: s in r ==> s.url == PublicUrl(cfg.bucket, cfg.region, s.file.name)
  {
    WithUrls(SharedFilesByUserId(users, files, userId, None), cfg)
  }

  datatype LinkReply = LinkNotFound | LinkFound(link: Link, files: seq<SharedFile>)

  /** `getLink`: the link with the given id and the files attached to it, with URLs. */
  function GetLink(links: seq<Link>, files: seq<FileRecord>, linkId: Id, cfg: ShareConfig): (r: LinkReply)
    ensures r.LinkNotFound? <==> forall j :: 0 <= j < |links| ==> links[j].id != linkId
    ensures r.LinkFound? ==> r.link in links && r.link.id == linkId
    ensures r.LinkFound? ==> forall s :: s in r.files <==>
              (s.file in files && s.file.id in r.link.fileIds && s.url == PublicUrl(cfg.bucket, cfg.region, s.file.name))
  {
    match FirstIndex(links, (l: Link) => l.id == linkId)
    case None => LinkNotFound
    case Some(i) =>
      var attached := Filter(files, (f: FileRecord) => f.id in links[i].fileIds);
      WithUrlsMembers(attached, cfg);
      LinkFound(links[i], WithUrls(attached, cfg))
  }

  /** The entries of `WithUrls(files, cfg)` are the files of `files`, each with its own URL. */
  lemma WithUrlsMembers(files: seq<FileRecord>, cfg: ShareConfig)
    ensures forall s: SharedFile :: s in WithUrls(files, cfg) <==> s.file in files && s.url == PublicUrl(cfg.bucket, cfg.region, s.file.name)
  {
    var r := WithUrls(files, cfg);
    forall s: SharedFile | s.file in files && s.url == PublicUrl(cfg.bucket, cfg.region, s.file.name) ensures s in r {
      var k :| 0 <= k < |files| && files[k] == s.file;
      assert r[k] == s;
    }
  }

  // ---------------------------------------------------------------------------
  // Owner deletes a file

  datatype DeleteReply = Deleted(file: FileRecord) | DeleteFailed

  /** The `where` of the owner's delete: the file id and the caller as owner. */
  function OwnFile(fileId: Id, userId: Id): FileWhere
  {
    FileWhere(fileId, Some(userId), None)
  }

  /** A successful owner delete hides exactly that file from the owner's listing. */
  lemma {:induction false} DeleteHidesFile(files: seq<FileRecord>, fileId: Id, userId: Id, fileType: Option<string>)
    requires UniqueBy(files, FileIdOf)
    requires UpdateFiles(files, OwnFile(fileId, userId), MarkDeleted).Some?
    ensures forall f :: f in FilesByUserId(UpdateFiles(files, OwnFile(fileId, userId), MarkDeleted).value, userId, fileType)
                        ==> f.id != fileId && f in FilesByUserId(files, userId, fileType)
  {
    var r := UpdateFiles(files, OwnFile(fileId, userId), MarkDeleted).value;
    forall f | f in FilesByUserId(r, userId, fileType)
      ensures f.id != fileId && f in FilesByUserId(files, userId, fileType)
    {
      var j :| 0 <= j < |r| && r[j] == f;
      assert !MatchesWhere(files[j], OwnFile(fileId, userId));
      assert f == files[j];
    }
  }

  /** Another user's file cannot be deleted through the owner's handler. */
  lemma DeleteNeedsOwner(files: seq<FileRecord>, fileId: Id, userId: Id)
    requires UniqueBy(files, FileIdOf)
    requires forall j :: 0 <= j < |files| && files[j].id == fileId ==> files[j].userId != userId
    ensures UpdateFiles(files, OwnFile(fileId, userId), MarkDeleted).None?
  {
  }

  /** `deleteFile`: soft-deletes the caller's file; fails when the caller owns no file with that id. */
  method DeleteFile(db: Database, requester: UserRecord, fileId: Id) returns (reply: DeleteReply)
    requires db.Valid()
    modifies db`files
    ensures db.Valid()
    ensures reply.Deleted? <==> UpdateFiles(old(db.files), OwnFile(fileId, requester.id), MarkDeleted).Some?
    ensures reply.DeleteFailed? ==> db.files == old(db.files)
    ensures reply.Deleted? ==> db.files == UpdateFiles(old(db.files), OwnFile(fileId, requester.id), MarkDeleted).value
    ensures reply.Deleted? ==> exists i :: 0 <= i < |old(db.files)| && old(db.files)[i].id == fileId
                                          && old(db.files)[i].userId == requester.id
                                          && reply.file == old(db.files)[i].(isDeleted := true)
  {
    var r := UpdateFileById(db, OwnFile(fileId, requester.id), MarkDeleted);
    if r.None? {
      return DeleteFailed;
    }
    reply := Deleted(r.value);
  }

  // ---------------------------------------------------------------------------
  // Link and mail creation

  /** The parsed request body (`generateFileLinkBodySchema` / `sendFileMailBodySchema`). */
  datatype ShareRequest = ShareRequest(title: string, message: string, expiresInDays: int, files: seq<FileInput>)

  /** The message handed to the mailer (`sendFiles`), which delivers it out of band. */
  datatype Notice = Notice(senderEmail: string, recipientEmail: string, title: string, message: string, link: string)

  datatype ShareReply =
    | ValidationFailed                           // the body schema throws
    | ConstraintsRejected                        // `validateFileConstraints` throws
    | WriteFailed                                // a Prisma write fails: the caller's account is gone
    | LinkCreated(link: Link, files: seq<SharedFile>)
    | MailSent(mail: Mail, files: seq<SharedFile>, notice: Notice)

  /** `validateFileConstraints({ userTier, totalFileSize, expiresInMs, usedStorage })`
      accepts its arguments; the tier rules themselves are not part of this model. */
  type Constraints = (Tier, int, int, int) -> bool

  /** The constraint check as both handlers call it: `totalFileSize` is the sum
      over `rawFiles`, which both handlers declare as the empty list. */
  predicate Admits(allowed: Constraints, requester: UserRecord, body: ShareRequest)
  {
    allowed(requester.tier, TotalSize([]), ExpiresInMs(body.expiresInDays), requester.usedStorage)
  }

  /** The owner's row after `updateUserById({ id }, { usedStorage: request.user.usedStorage + totalFileSize })`. */
  function UsageWritten(users: seq<UserRecord>, requester: UserRecord): seq<UserRecord>
    requires FindUser(users, requester.id).Some?
  {
    var i := FindUser(users, requester.id).value;
    users[i := users[i].(usedStorage := requester.usedStorage + TotalSize([]))]
  }

  /** The usage write stores the caller's usage as it was when the request was
      authenticated: no file size is ever added. When that snapshot is still the
      stored usage, the table is left exactly as it was. */
  lemma UsageWriteKeepsUsage(users: seq<UserRecord>, requester: UserRecord)
    requires FindUser(users, requester.id).Some?
    ensures |UsageWritten(users, requester)| == |users|
    ensures forall j :: 0 <= j < |users| ==>
              UsageWritten(users, requester)[j] ==
                if j == FindUser(users, requester.id).value then users[j].(usedStorage := requester.usedStorage) else users[j]
    ensures users[FindUser(users, requester.id).value].usedStorage == requester.usedStorage ==>
              UsageWritten(users, requester) == users
  {
    var i := FindUser(users, requester.id).value;
    if users[i].usedStorage == requester.usedStorage {
      assert users[i].(usedStorage := requester.usedStorage) == users[i];
      assert users[i := users[i]] == users;
    }
  }

  /** The two writes of the `Promise.all`: the batch, and the owner's usage. The
      usage write needs the caller's account and so does a non-empty batch (it
      connects the account as owner); when either is rejected the `Promise.all`
      is, so either both land or neither does. */
  method CreateBatchAndWriteUsage(db: Database, requester: UserRecord, expiresAt: Time, inputs: seq<FileInput>,
                                  sharedTo: set<Id>)
    returns (created: Option<seq<FileRecord>>)
    requires db.Valid()
    requires UsersExist(db.users, sharedTo)
    modifies db`files, db`users
    ensures db.Valid()
    ensures created.Some? <==> FindUser(old(db.users), requester.id).Some?
    ensures created.None? ==> db.files == old(db.files) && db.users == old(db.users)
    ensures created.Some? ==>
              && db.files == old(db.files) + created.value
              && IsBatch(created.value, requester.id, expiresAt, inputs, sharedTo)
              && (forall f :: f in created.value ==> f.id !in old(db.UsedIds()))
              && db.users == UsageWritten(old(db.users), requester)
  {
    var rawFiles: seq<FileInput> := [];
    var totalFileSize := TotalSize(rawFiles);
    created := CreateFiles(db, requester.id, expiresAt, inputs, sharedTo);
    if created.Some? {
      var ok := SetUsedStorage(db, requester.id, requester.usedStorage + totalFileSize);
      if !ok {
        assert inputs == [] && created.value == [];
        assert db.files == old(db.files) + [];
        created := None;
      }
    }
  }

  /** `generateFileLink`. */
  method GenerateFileLink(db: Database, requester: UserRecord, body: Option<ShareRequest>, now: Time,
                          allowed: Constraints, cfg: ShareConfig)
    returns (reply: ShareReply)
    requires db.Valid()
    modifies db`files, db`users, db`links
    ensures db.Valid()
    ensures body.None? ==> reply == ValidationFailed
    ensures body.Some? && !Admits(allowed, requester, body.value) ==> reply == ConstraintsRejected
    ensures (body.Some? && Admits(allowed, requester, body.value) && FindUser(old(db.users), requester.id).None?)
              ==> reply == WriteFailed
    ensures !reply.LinkCreated? ==>
              db.files == old(db.files) && db.users == old(db.users) && db.links == old(db.links)
    ensures reply.LinkCreated? ==>
              && body.Some? && FindUser(old(db.users), requester.id).Some?
              && var created := FilesOf(reply.files);
              && db.files == old(db.files) + created
              && IsBatch(created, requester.id, now + ExpiresInMs(body.value.expiresInDays), body.value.files, {})
              && reply.files == WithUrls(created, cfg)
              && db.users == UsageWritten(old(db.users), requester)
              && db.links == old(db.links) + [reply.link]
              && reply.link == Link(reply.link.id, requester.id, body.value.title, body.value.message, IdsOf(created))
  {
    if body.None? {
      return ValidationFailed;
    }
    var req := body.value;
    var expiresInMs := ExpiresInMs(req.expiresInDays);
    if !Admits(allowed, requester, req) {
      return ConstraintsRejected;
    }
    var expiresAt := now + expiresInMs;
    reply := RecordLink(db, requester, req, expiresAt, cfg);
  }

  /** The batch, the usage write and the link record. */
  method RecordLink(db: Database, requester: UserRecord, req: ShareRequest, expiresAt: Time, cfg: ShareConfig)
    returns (reply: ShareReply)
    requires db.Valid()
    modifies db`files, db`users, db`links
    ensures db.Valid()
    ensures reply.LinkCreated? || reply.WriteFailed?
    ensures reply.LinkCreated? <==> FindUser(old(db.users), requester.id).Some?
    ensures reply.WriteFailed? ==>
              db.files == old(db.files) && db.users == old(db.users) && db.links == old(db.links)
    ensures reply.LinkCreated? ==>
              && var created := FilesOf(reply.files);
              && db.files == old(db.files) + created
              && IsBatch(created, requester.id, expiresAt, req.files, {})
              && reply.files == WithUrls(created, cfg)
              && db.users == UsageWritten(old(db.users), requester)
              && db.links == old(db.links) + [reply.link]
              && reply.link == Link(reply.link.id, requester.id, req.title, req.message, IdsOf(created))
  {
    var created := CreateBatchAndWriteUsage(db, requester, expiresAt, req.files, {});
    if created.None? {
      return WriteFailed;
    }
    var linkId := FreshId(db.UsedIds());
    var link := Link(linkId, requester.id, req.title, req.message, IdsOf(created.value));
    db.links := db.links + [link];
    reply := LinkCreated(link, WithUrls(created.value, cfg));
    assert FilesOf(reply.files) == created.value;
  }

  /** The account ids behind the recipient addresses, one per address. */
  predicate Provisioned(users: seq<UserRecord>, email: string, id: Id)
  {
    exists j :: 0 <= j < |users| && users[j].email == email && users[j].id == id
  }

  /** The recipients' `upsertUserByEmail` calls, one per address in order. Existing
      accounts are kept; every new account is a placeholder for one of the addresses. */
  method ProvisionRecipients(db: Database, emails: seq<string>, freeMaxStorage: int, issued: set<Id>)
    returns (ids: seq<Id>)
    requires db.Valid()
    modifies db`users
    ensures db.Valid()
    ensures |ids| == |emails|
    ensures ProvisionedSoFar(old(db.users), db.users, emails, ids, freeMaxStorage, old(db.UsedIds()) + issued)
  {
    ids := [];
    var avoid := db.UsedIds() + issued;
    var i := 0;
    while i < |emails|
      invariant 0 <= i <= |emails| && |ids| == i
      invariant db.Valid()
      invariant ProvisionedSoFar(old(db.users), db.users, emails[..i], ids, freeMaxStorage, avoid)
    {
      ghost var before := db.users;
      var u := UpsertUserByEmail(db, emails[i], freeMaxStorage, avoid);
      ProvisionStep(old(db.users), before, db.users, emails[..i], ids, emails[i], u, freeMaxStorage, avoid);
      PrefixSnoc(emails, i);
      ids := ids + [u.id];
      i := i + 1;
    }
    assert emails[..i] == emails;
  }

  /** The loop invariant of the provisioning: `users` extends `base` with
      placeholders only, and each address seen so far has its account id in `ids`. */
  predicate ProvisionedSoFar(base: seq<UserRecord>, users: seq<UserRecord>, emails: seq<string>, ids: seq<Id>,
                             freeMaxStorage: int, avoid: set<Id>)
  {
    && |ids| == |emails|
    && (forall k :: 0 <= k < |emails| ==> Provisioned(users, emails[k], ids[k]))
    && |base| <= |users| && users[..|base|] == base
    && (forall j :: |base| <= j < |users| ==>
          users[j] == Placeholder(users[j].id, users[j].email, freeMaxStorage)
          && users[j].email in emails && users[j].id !in avoid)
  }

  lemma ProvisionStep(base: seq<UserRecord>, before: seq<UserRecord>, after: seq<UserRecord>, emails: seq<string>,
                      ids: seq<Id>, email: string, u: UserRecord, freeMaxStorage: int, avoid: set<Id>)
    requires ProvisionedSoFar(base, before, emails, ids, freeMaxStorage, avoid)
    requires u in after && u.email == email
    requires FindUserByEmail(before, email).Some? ==> after == before
    requires FindUserByEmail(before, email).None? ==>
               after == before + [u] && u == Placeholder(u.id, email, freeMaxStorage) && u.id !in avoid
    ensures ProvisionedSoFar(base, after, emails + [email], ids + [u.id], freeMaxStorage, avoid)
  {
    var emails' := emails + [email];
    var ids' := ids + [u.id];
    assert |before| <= |after| && after[..|before|] == before;
    forall k | 0 <= k < |emails'| ensures Provisioned(after, emails'[k], ids'[k]) {
      if k < |emails| {
        var j :| 0 <= j < |before| && before[j].email == emails[k] && before[j].id == ids[k];
        assert after[j] == before[j];
      } else {
        var j :| 0 <= j < |after| && after[j] == u;
      }
    }
    assert after[..|base|] == base by {
      assert after[..|before|][..|base|] == after[..|base|];
    }
    forall j | |base| <= j < |after|
      ensures after[j] == Placeholder(after[j].id, after[j].email, freeMaxStorage)
      ensures after[j].email in emails' && after[j].id !in avoid
    {
      if j < |before| {
        assert after[j] == before[j];
      }
    }
  }

  /** With unique e-mails, the account a recipient address names is determined:
      the ids of the recipient accounts are exactly the set the files are shared with. */
  function RecipientIds(users: seq<UserRecord>, to: seq<string>): set<Id>
  {
    set j | 0 <= j < |users| && users[j].email in to :: users[j].id
  }

  lemma ProvisionedIds(users: seq<UserRecord>, to: seq<string>, ids: seq<Id>)
    requires UniqueBy(users, EmailOf)
    requires |ids| == |to|
    requires forall k :: 0 <= k < |to| ==> Provisioned(users, to[k], ids[k])
    ensures Elements(ids) == RecipientIds(users, to)
    ensures UsersExist(users, RecipientIds(users, to))
  {
    var s := Elements(ids);
    forall id | id in RecipientIds(users, to) ensures id in s {
      var j :| 0 <= j < |users| && users[j].email in to && users[j].id == id;
      var k :| 0 <= k < |to| && to[k] == users[j].email;
      var j' :| 0 <= j' < |users| && users[j'].email == to[k] && users[j'].id == ids[k];
      UniqueKeyIndex(users, EmailOf, j, j');
    }
    forall id | id in s ensures id in RecipientIds(users, to) {
      var k :| 0 <= k < |ids| && ids[k] == id;
      var j :| 0 <= j < |users| && users[j].email == to[k] && users[j].id == ids[k];
      assert users[j].email in to;
    }
    forall id | id in RecipientIds(users, to) ensures FindUser(users, id).Some? {
      var j :| 0 <= j < |users| && users[j].email in to && users[j].id == id;
    }
  }

  /** What the mail notice says: the sender, the recipients joined with ", ", the
      title or "File Shared" when it is empty, and the preview link of the mail. */
  function MailNotice(requester: UserRecord, mail: Mail, clientBaseUrl: string): (r: Notice)
    ensures r.title != "" && (mail.title != "" ==> r.title == mail.title)
    ensures r.senderEmail == requester.email && r.message == mail.message
  {
    Notice(requester.email, JoinWith(mail.to, ", "),
           if mail.title == "" then "File Shared" else mail.title,
           mail.message, clientBaseUrl + "/preview/" + mail.id)
  }

  /** The recipient accounts after provisioning: `users` extends `base` with
      placeholders for some of the addresses, with ids outside `avoid`, and every
      address has an account. */
  predicate AccountsFor(base: seq<UserRecord>, users: seq<UserRecord>, emails: seq<string>, freeMaxStorage: int,
                        avoid: set<Id>)
  {
    && |base| <= |users| && users[..|base|] == base
    && (forall j :: |base| <= j < |users| ==>
          users[j] == Placeholder(users[j].id, users[j].email, freeMaxStorage)
          && users[j].email in emails && users[j].id !in avoid)
    && (forall k :: 0 <= k < |emails| ==> FindUserByEmail(users, emails[k]).Some?)
  }

  /** What a delivered mail consists of: one batch row per input file, shared with
      every recipient account and expiring at `expiresAt`, the mail record, the
      files with their URLs, and the notice for the mailer. */
  predicate MailOutcome(files0: seq<FileRecord>, files: seq<FileRecord>, mails0: seq<Mail>, mails: seq<Mail>,
                        sharedTo: set<Id>, requester: UserRecord, recipients: seq<string>, req: ShareRequest,
                        expiresAt: Time, cfg: ShareConfig, mail: Mail, shared: seq<SharedFile>, notice: Notice)
  {
    var created := FilesOf(shared);
    && files == files0 + created
    && IsBatch(created, requester.id, expiresAt, req.files, sharedTo)
    && shared == WithUrls(created, cfg)
    && mails == mails0 + [mail]
    && mail == Mail(mail.id, requester.id, recipients, req.title, req.message, IdsOf(created))
    && notice == MailNotice(requester, mail, cfg.clientBaseUrl)
  }

  /** `sendFileMail`. The recipient string is parsed before the body schema runs;
      `schema` stands for that schema applied to the rest of the body. Recipient
      accounts are created before the batch is written and are kept even when the
      batch write fails; `provisioned` is the user table between the two. */
  method SendFileMail(db: Database, requester: UserRecord, to: string, schema: seq<string> -> Option<ShareRequest>,
                      now: Time, allowed: Constraints, cfg: ShareConfig)
    returns (reply: ShareReply, ghost provisioned: seq<UserRecord>)
    requires db.Valid()
    modifies db`files, db`users, db`mails
    ensures db.Valid()
    ensures schema(ParseRecipients(to)).None? ==> reply == ValidationFailed
    ensures (schema(ParseRecipients(to)).Some? && !Admits(allowed, requester, schema(ParseRecipients(to)).value))
              ==> reply == ConstraintsRejected
    ensures reply.ValidationFailed? || reply.ConstraintsRejected? ==> db.users == old(db.users)
    ensures !reply.MailSent? ==> db.files == old(db.files) && db.mails == old(db.mails)
    ensures reply.MailSent? <==> schema(ParseRecipients(to)).Some?
                                 && Admits(allowed, requester, schema(ParseRecipients(to)).value)
                                 && FindUser(old(db.users), requester.id).Some?
    ensures reply.MailSent? || reply.WriteFailed? ==>
              AccountsFor(old(db.users), provisioned, ParseRecipients(to), cfg.freeMaxStorage,
                          old(db.UsedIds()) + {requester.id})
    ensures reply.WriteFailed? ==> db.users == provisioned
    ensures reply.MailSent? ==>
              && FindUser(provisioned, requester.id) == FindUser(old(db.users), requester.id)
              && db.users == UsageWritten(provisioned, requester)
              && MailOutcome(old(db.files), db.files, old(db.mails), db.mails, RecipientIds(provisioned, ParseRecipients(to)), requester,
                             ParseRecipients(to), schema(ParseRecipients(to)).value,
                             now + ExpiresInMs(schema(ParseRecipients(to)).value.expiresInDays), cfg,
                             reply.mail, reply.files, reply.notice)
  {
    provisioned := db.users;
    var recipients := ParseRecipients(to);
    var body := schema(recipients);
    if body.None? {
      return ValidationFailed, provisioned;
    }
    var req := body.value;
    var expiresInMs := ExpiresInMs(req.expiresInDays);
    if !Admits(allowed, requester, req) {
      return ConstraintsRejected, provisioned;
    }
    var expiresAt := now + expiresInMs;
    reply, provisioned := ShareByMail(db, requester, recipients, req, expiresAt, cfg);
  }

  /** `sendFileMail` once the body is accepted: provision the recipients, write
      the batch and the usage, record the mail. */
  method ShareByMail(db: Database, requester: UserRecord, recipients: seq<string>, req: ShareRequest,
                     expiresAt: Time, cfg: ShareConfig)
    returns (reply: ShareReply, ghost provisioned: seq<UserRecord>)
    requires db.Valid()
    modifies db`files, db`users, db`mails
    ensures db.Valid()
    ensures reply.MailSent? || reply.WriteFailed?
    ensures reply.MailSent? <==> FindUser(old(db.users), requester.id).Some?
    ensures !reply.MailSent? ==> db.files == old(db.files) && db.mails == old(db.mails)
    ensures AccountsFor(old(db.users), provisioned, recipients, cfg.freeMaxStorage, old(db.UsedIds()) + {requester.id})
    ensures reply.WriteFailed? ==> db.users == provisioned
    ensures reply.MailSent? ==>
              && FindUser(provisioned, requester.id) == FindUser(old(db.users), requester.id)
              && db.users == UsageWritten(provisioned, requester)
              && MailOutcome(old(db.files), db.files, old(db.mails), db.mails, RecipientIds(provisioned, recipients), requester,
                             recipients, req, expiresAt, cfg, reply.mail, reply.files, reply.notice)
  {
    var sharedTo := ProvisionForMail(db, requester, recipients, cfg.freeMaxStorage);
    provisioned := db.users;
    reply := RecordMail(db, requester, recipients, sharedTo, req, expiresAt, cfg);
  }

  /** The recipients' accounts, found or created; `sharedTo` is their ids. The
      caller's own account is where it was. */
  method ProvisionForMail(db: Database, requester: UserRecord, recipients: seq<string>, freeMaxStorage: int)
    returns (sharedTo: set<Id>)
    requires db.Valid()
    modifies db`users
    ensures db.Valid()
    ensures AccountsFor(old(db.users), db.users, recipients, freeMaxStorage, old(db.UsedIds()) + {requester.id})
    ensures sharedTo == RecipientIds(db.users, recipients) && UsersExist(db.users, sharedTo)
    ensures FindUser(db.users, requester.id) == FindUser(old(db.users), requester.id)
  {
    ghost var avoid := db.UsedIds() + {requester.id};
    ghost var users0 := db.users;
    // The caller's id is one the generator has issued, so no new account takes it.
    var ids := ProvisionRecipients(db, recipients, freeMaxStorage, {requester.id});
    ProvisionedAccounts(users0, db.users, recipients, ids, freeMaxStorage, avoid);
    ProvisionedIds(db.users, recipients, ids);
    ProvisionedOwner(users0, db.users, requester.id, avoid);
    sharedTo := Elements(ids);
  }

  /** The batch shared with `sharedTo`, the usage write and the mail record. */
  method RecordMail(db: Database, requester: UserRecord, recipients: seq<string>, sharedTo: set<Id>,
                    req: ShareRequest, expiresAt: Time, cfg: ShareConfig)
    returns (reply: ShareReply)
    requires db.Valid() && UsersExist(db.users, sharedTo)
    modifies db`files, db`users, db`mails
    ensures db.Valid()
    ensures reply.MailSent? || reply.WriteFailed?
    ensures reply.MailSent? <==> FindUser(old(db.users), requester.id).Some?
    ensures !reply.MailSent? ==> db.files == old(db.files) && db.mails == old(db.mails) && db.users == old(db.users)
    ensures reply.MailSent? ==>
              && db.users == UsageWritten(old(db.users), requester)
              && MailOutcome(old(db.files), db.files, old(db.mails), db.mails, sharedTo, requester,
                             recipients, req, expiresAt, cfg, reply.mail, reply.files, reply.notice)
  {
    var created := CreateBatchAndWriteUsage(db, requester, expiresAt, req.files, sharedTo);
    if created.None? {
      return WriteFailed;
    }
    var mailId := FreshId(db.UsedIds());
    var mail := Mail(mailId, requester.id, recipients, req.title, req.message, IdsOf(created.value));
    db.mails := db.mails + [mail];
    reply := MailSent(mail, WithUrls(created.value, cfg), MailNotice(requester, mail, cfg.clientBaseUrl));
    assert FilesOf(reply.files) == created.value;
  }

  lemma ProvisionedAccounts(base: seq<UserRecord>, users: seq<UserRecord>, emails: seq<string>, ids: seq<Id>,
                            freeMaxStorage: int, avoid: set<Id>)
    requires ProvisionedSoFar(base, users, emails, ids, freeMaxStorage, avoid)
    ensures AccountsFor(base, users, emails, freeMaxStorage, avoid)
  {
    forall k | 0 <= k < |emails| ensures FindUserByEmail(users, emails[k]).Some? {
      var j :| 0 <= j < |users| && users[j].email == emails[k] && users[j].id == ids[k];
    }
  }

  /** Provisioning only adds accounts with fresh ids, so the caller's account is
      found after it exactly when it was found before, at the same position. */
  lemma ProvisionedOwner(before: seq<UserRecord>, after: seq<UserRecord>, id: Id, used: set<Id>)
    requires |before| <= |after| && after[..|before|] == before
    requires forall j :: |before| <= j < |after| ==> after[j].id !in used
    requires id in used
    ensures FindUser(after, id).Some? <==> FindUser(before, id).Some?
    ensures FindUser(before, id).Some? ==> FindUser(after, id) == FindUser(before, id)
  {
    if FindUser(before, id).Some? {
      var i := FindUser(before, id).value;
      assert after[i] == before[i];
      forall j | 0 <= j < i ensures after[j].id != id {
        assert after[j] == before[j];
      }
    } else {
      forall j | 0 <= j < |after| ensures after[j].id != id {
        if j < |before| {
          assert after[j] == before[j];
        }
      }
    }
  }
}
