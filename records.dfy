/** The persistent entities the handlers read and write, as the Prisma client
    returns them, and the lookups Prisma's unique indexes provide. */
module Records {
  import opened Common

  /** Account subscription class (the Prisma enum `Tier`). */
  datatype Tier = Free | Pro | Premium

  /** Account role (the Prisma enum `Role`: `USER`, `ADMIN`). */
  datatype Role = UserRole | AdminRole

  /** A stored file. `downloadedBy` holds download fingerprints and `downloadedAt`
      the matching timestamps; `sharedToUserIds` is the shared-with relation. */
  datatype FileRecord = FileRecord(
    id: Id,
    userId: Id,
    originalName: string,
    name: string,
    fileType: string,
    size: int,
    downloads: int,
    claims: int,
    isExpired: bool,
    isDeleted: bool,
    expiredAt: Time,
    sharedToUserIds: set<Id>,
    downloadedBy: seq<string>,
    downloadedAt: seq<Time>)

  datatype UserRecord = UserRecord(
    id: Id,
    email: string,
    role: Role,
    isVerified: bool,
    isDeleted: bool,
    tier: Tier,
    totalStorage: int,
    usedStorage: int,
    password: Option<string>,
    refreshToken: Option<string>)

  /** The JSON object stored under the `monetization` setting; every field may be
      absent (a `Partial<MonetizationSettings>`). */
  datatype MonetizationFields = MonetizationFields(
    value: Option<string>,
    redirectUrl: Option<string>,
    bannerUrl: Option<string>)

  /** A `Setting` document; the timestamps are nullable in documents written before
      the schema had them, which is what the repair scripts deal with. */
  datatype Setting = Setting(
    id: Id,
    key: string,
    value: Option<MonetizationFields>,
    createdAt: Option<Time>,
    updatedAt: Option<Time>)

  /** An `AdView` or `AdClick` document, linked to its setting. */
  datatype AdEvent = AdEvent(id: Id, settingId: Id, createdAt: Option<Time>)

  datatype Link = Link(id: Id, userId: Id, title: string, message: string, fileIds: seq<Id>)

  datatype Mail = Mail(id: Id, userId: Id, to: seq<string>, title: string, message: string, fileIds: seq<Id>)

  const MonetizationKey: string := "monetization"

  function FileIdOf(f: FileRecord): Id { f.id }
  function UserIdOf(u: UserRecord): Id { u.id }
  function EmailOf(u: UserRecord): string { u.email }
  function SettingIdOf(s: Setting): Id { s.id }
  function SettingKeyOf(s: Setting): string { s.key }

  /** `prisma.file.findUnique({ where: { id } })`, as a position in the table. */
  function FindFile(files: seq<FileRecord>, id: Id): (r: Option<nat>)
    ensures r.Some? ==> r.value < |files| && files[r.value].id == id
    ensures r.None? <==> forall j :: 0 <= j < |files| ==> files[j].id != id
  {
    FirstIndex(files, (f: FileRecord) => f.id == id)
  }

  /** `prisma.user.findUnique({ where: { id } })`. */
  function FindUser(users: seq<UserRecord>, id: Id): (r: Option<nat>)
    ensures r.Some? ==> r.value < |users| && users[r.value].id == id
    ensures r.None? <==> forall j :: 0 <= j < |users| ==> users[j].id != id
  {
    FirstIndex(users, (u: UserRecord) => u.id == id)
  }

  /** `prisma.user.findUnique({ where: { email } })`. */
  function FindUserByEmail(users: seq<UserRecord>, email: string): (r: Option<nat>)
    ensures r.Some? ==> r.value < |users| && users[r.value].email == email
    ensures r.None? <==> forall j :: 0 <= j < |users| ==> users[j].email != email
  {
    FirstIndex(users, (u: UserRecord) => u.email == email)
  }

  /** `prisma.setting.findUnique({ where: { key } })`. */
  function FindSetting(settings: seq<Setting>, key: string): (r: Option<nat>)
    ensures r.Some? ==> r.value < |settings| && settings[r.value].key == key
    ensures r.None? <==> forall j :: 0 <= j < |settings| ==> settings[j].key != key
  {
    FirstIndex(settings, (s: Setting) => s.key == key)
  }

  /** With unique setting keys, the lookup by key finds the one setting holding it. */
  lemma FindSettingByUniqueKey(settings: seq<Setting>, key: string)
    ensures UniqueBy(settings, SettingKeyOf) ==>
              forall j :: 0 <= j < |settings| && settings[j].key == key ==> FindSetting(settings, key) == Some(j)
  {
    if UniqueBy(settings, SettingKeyOf) {
      forall j | 0 <= j < |settings| && settings[j].key == key
        ensures FindSetting(settings, key) == Some(j)
      {
        var i := FindSetting(settings, key).value;
        assert SettingKeyOf(settings[i]) == SettingKeyOf(settings[j]);
        UniqueKeyIndex(settings, SettingKeyOf, i, j);
      }
    }
  }
}
