/** The timestamp repairs for documents written before the schema had
    `createdAt`/`updatedAt`: the per-record loops of `scripts/fix-settings.ts`,
    the bulk `updateMany` of `src/scripts/fix-settings.ts`, and the raw `$set`
    commands of `fix-all-collections.ts`. A null and an unset field are both
    `None` here. */
module TimestampRepair {
  import opened Common
  import opened Records
  import opened Store

  /** Which timestamp a statement repairs. */
  datatype Stamp = CreatedAt | UpdatedAt

  function StampOf(s: Setting, f: Stamp): Option<Time>
  {
    match f
    case CreatedAt => s.createdAt
    case UpdatedAt => s.updatedAt
  }

  /** The setting with timestamp `f` set to `t` and nothing else changed. */
  function WithStamp(s: Setting, f: Stamp, t: Time): (r: Setting)
    ensures StampOf(r, f) == Some(t)
    ensures r.id == s.id && r.key == s.key && r.value == s.value
    ensures f.CreatedAt? ==> r.updatedAt == s.updatedAt
    ensures f.UpdatedAt? ==> r.createdAt == s.createdAt
  {
    match f
    case CreatedAt => s.(createdAt := Some(t))
    case UpdatedAt => s.(updatedAt := Some(t))
  }

  /** The `where: { createdAt: null }` (or `updatedAt`) filter. */
  predicate Missing(s: Setting, f: Stamp)
  {
    StampOf(s, f).None?
  }

  // ---------------------------------------------------------------------------
  // Bulk repairs: one timestamp for every match

  /** `updateMany({ where: { f: null }, data: { f: t } })`. */
  function FillNulls(settings: seq<Setting>, f: Stamp, t: Time): seq<Setting>
  {
    seq(|settings|, j requires 0 <= j < |settings| => if Missing(settings[j], f) then WithStamp(settings[j], f, t) else settings[j])
  }

  /** After the statement no setting lacks the timestamp; the ones that had it keep
      it and every repaired one carries the statement's single time; ids, keys,
      values and the other timestamp are kept; nothing is created or deleted. */
  lemma FillNullsSpec(settings: seq<Setting>, f: Stamp, t: Time)
    ensures |FillNulls(settings, f, t)| == |settings|
    ensures forall j :: 0 <= j < |settings| ==> !Missing(FillNulls(settings, f, t)[j], f)
    ensures forall j :: 0 <= j < |settings| && !Missing(settings[j], f) ==> FillNulls(settings, f, t)[j] == settings[j]
    ensures forall j :: 0 <= j < |settings| && Missing(settings[j], f) ==> StampOf(FillNulls(settings, f, t)[j], f) == Some(t)
    ensures forall j :: 0 <= j < |settings| ==> SameButStamp(settings[j], FillNulls(settings, f, t)[j], f)
  {
  }

  /** `b` is `a` except possibly for timestamp `f`. */
  predicate SameButStamp(a: Setting, b: Setting, f: Stamp)
  {
    && b.id == a.id && b.key == a.key && b.value == a.value
    && (f.CreatedAt? ==> b.updatedAt == a.updatedAt)
    && (f.UpdatedAt? ==> b.createdAt == a.createdAt)
  }

  /** Running the statement again changes nothing, whatever time it reads. */
  lemma FillNullsIdempotent(settings: seq<Setting>, f: Stamp, t: Time, t': Time)
    ensures FillNulls(FillNulls(settings, f, t), f, t') == FillNulls(settings, f, t)
  {
  }

  /** Repairing one timestamp never undoes the repair of the other. */
  lemma FillNullsKeepsOther(settings: seq<Setting>, t1: Time, t2: Time)
    ensures var r := FillNulls(FillNulls(settings, CreatedAt, t1), UpdatedAt, t2);
            forall j :: 0 <= j < |r| ==> !Missing(r[j], CreatedAt) && !Missing(r[j], UpdatedAt)
  {
  }

  /** Timestamp repairs keep the unique indexes of the Setting collection. */
  lemma SameIdsKeepUnique(a: seq<Setting>, b: seq<Setting>)
    requires |a| == |b| && forall j :: 0 <= j < |a| ==> b[j].id == a[j].id && b[j].key == a[j].key
    requires UniqueBy(a, SettingIdOf) && UniqueBy(a, SettingKeyOf)
    ensures UniqueBy(b, SettingIdOf) && UniqueBy(b, SettingKeyOf)
  {
    assert forall j :: 0 <= j < |a| ==> SettingIdOf(b[j]) == SettingIdOf(a[j]) && SettingKeyOf(b[j]) == SettingKeyOf(a[j]);
  }

  /** `src/scripts/fix-settings.ts`: the two `updateMany` statements, each reading
      the clock once. */
  method FixSettingsBulk(db: Database, createdNow: Time, updatedNow: Time)
    requires db.Valid()
    modifies db`settings
    ensures db.Valid()
    ensures db.settings == FillNulls(FillNulls(old(db.settings), CreatedAt, createdNow), UpdatedAt, updatedNow)
  {
    var first := FillNulls(db.settings, CreatedAt, createdNow);
    SameIdsKeepUnique(db.settings, first);
    var second := FillNulls(first, UpdatedAt, updatedNow);
    SameIdsKeepUnique(first, second);
    db.settings := second;
  }

  // ---------------------------------------------------------------------------
  // Per-record repairs: one clock reading per update

  /** The number of settings before position `j` that lack timestamp `f`: the
      position of setting `j` among those the `findMany` returns. */
  function Rank(settings: seq<Setting>, j: nat, f: Stamp): nat
    requires j <= |settings|
  {
    |Filter(settings[..j], (s: Setting) => Missing(s, f))|
  }

  /** The settings after the loop: the `k`-th one lacking timestamp `f` gets the
      clock's `k`-th reading. */
  function StampedInOrder(settings: seq<Setting>, f: Stamp, clock: nat -> Time): seq<Setting>
  {
    seq(|settings|, j requires 0 <= j < |settings| =>
      if Missing(settings[j], f) then WithStamp(settings[j], f, clock(Rank(settings, j, f))) else settings[j])
  }

  /** The per-record loop leaves no setting without the timestamp, keeps the
      timestamps that were there, and changes nothing else. */
  lemma StampedInOrderSpec(settings: seq<Setting>, f: Stamp, clock: nat -> Time)
    ensures |StampedInOrder(settings, f, clock)| == |settings|
    ensures forall j :: 0 <= j < |settings| ==> !Missing(StampedInOrder(settings, f, clock)[j], f)
    ensures forall j :: 0 <= j < |settings| && !Missing(settings[j], f) ==> StampedInOrder(settings, f, clock)[j] == settings[j]
    ensures forall j :: 0 <= j < |settings| ==> SameButStamp(settings[j], StampedInOrder(settings, f, clock)[j], f)
  {
    var r := StampedInOrder(settings, f, clock);
    forall j | 0 <= j < |settings| ensures !Missing(r[j], f) && SameButStamp(settings[j], r[j], f) {
      if Missing(settings[j], f) {
        assert r[j] == WithStamp(settings[j], f, clock(Rank(settings, j, f)));
      }
    }
  }

  /** A rerun of the loop finds nothing to repair. */
  lemma StampedInOrderIdempotent(settings: seq<Setting>, f: Stamp, clock: nat -> Time, clock': nat -> Time)
    ensures StampedInOrder(StampedInOrder(settings, f, clock), f, clock') == StampedInOrder(settings, f, clock)
  {
    var r := StampedInOrder(settings, f, clock);
    StampedInOrderSpec(settings, f, clock);
    assert forall j :: 0 <= j < |r| ==> StampedInOrder(r, f, clock')[j] == r[j];
  }

  /** With a clock that reads the same time throughout, the per-record loop and
      the bulk statement agree. */
  lemma ConstantClockIsBulk(settings: seq<Setting>, f: Stamp, t: Time)
    ensures StampedInOrder(settings, f, (k: nat) => t) == FillNulls(settings, f, t)
  {
  }

  /** The `Setting` with that id. */
  function FindSettingById(settings: seq<Setting>, id: Id): (r: Option<nat>)
    ensures r.Some? ==> r.value < |settings| && settings[r.value].id == id
    ensures r.None? ==> forall j :: 0 <= j < |settings| ==> settings[j].id != id
  {
    FirstIndex(settings, (s: Setting) => s.id == id)
  }

  lemma FindSettingAt(settings: seq<Setting>, p: nat)
    requires UniqueBy(settings, SettingIdOf) && p < |settings|
    ensures FindSettingById(settings, settings[p].id) == Some(p)
  {
    var r := FindSettingById(settings, settings[p].id);
    UniqueKeyIndex(settings, SettingIdOf, r.value, p);
  }

  /** `prisma.setting.update({ where: { id }, data: { f: t } })` on an existing setting. */
  method SetStamp(db: Database, id: Id, f: Stamp, t: Time)
    requires db.Valid() && FindSettingById(db.settings, id).Some?
    modifies db`settings
    ensures db.Valid()
    ensures var p := FindSettingById(old(db.settings), id).value;
            db.settings == old(db.settings)[p := WithStamp(old(db.settings)[p], f, t)]
  {
    var p := FindSettingById(db.settings, id).value;
    var settings := db.settings[p := WithStamp(db.settings[p], f, t)];
    SameIdsKeepUnique(db.settings, settings);
    db.settings := settings;
  }

  /** Filtering order: a setting lacking the timestamp is found in the `findMany`
      result at its rank. */
  lemma {:induction false} FilterAtRank(settings: seq<Setting>, f: Stamp, p: nat)
    requires p < |settings| && Missing(settings[p], f)
    ensures Rank(settings, p, f) < |Filter(settings, (s: Setting) => Missing(s, f))|
    ensures Filter(settings, (s: Setting) => Missing(s, f))[Rank(settings, p, f)] == settings[p]
  {
    var P := (s: Setting) => Missing(s, f);
    assert settings == settings[..p] + ([settings[p]] + settings[p + 1..]);
    FilterConcat(settings[..p], [settings[p]] + settings[p + 1..], P);
    FilterConcat([settings[p]], settings[p + 1..], P);
    assert Filter([settings[p]], P) == [settings[p]];
  }

  /** The settings at rank below `i` are repaired with their clock reading; the
      others are as they were. */
  ghost predicate StampedBelow(orig: seq<Setting>, cur: seq<Setting>, f: Stamp, clock: nat -> Time, i: nat)
  {
    && |cur| == |orig|
    && forall j :: 0 <= j < |orig| ==>
         cur[j] == if Missing(orig[j], f) && Rank(orig, j, f) < i then WithStamp(orig[j], f, clock(Rank(orig, j, f))) else orig[j]
  }

  /** The `i`-th setting the `findMany` returned sits at position `p`, has rank `i`,
      and no other setting has that rank. */
  lemma Locate(orig: seq<Setting>, f: Stamp, i: nat) returns (p: nat)
    requires UniqueBy(orig, SettingIdOf)
    requires i < |Filter(orig, (s: Setting) => Missing(s, f))|
    ensures p < |orig| && orig[p] == Filter(orig, (s: Setting) => Missing(s, f))[i]
    ensures Missing(orig[p], f) && Rank(orig, p, f) == i
    ensures forall j :: 0 <= j < |orig| && Missing(orig[j], f) && Rank(orig, j, f) == i ==> j == p
  {
    var P := (s: Setting) => Missing(s, f);
    var nulls := Filter(orig, P);
    FilterUnique(orig, P, SettingIdOf);
    assert nulls[i] in nulls;
    p :| 0 <= p < |orig| && orig[p] == nulls[i];
    FilterAtRank(orig, f, p);
    UniqueKeyIndex(nulls, SettingIdOf, Rank(orig, p, f), i);
    forall j | 0 <= j < |orig| && Missing(orig[j], f) && Rank(orig, j, f) == i ensures j == p {
      FilterAtRank(orig, f, j);
      UniqueKeyIndex(orig, SettingIdOf, j, p);
    }
  }

  lemma StampStep(orig: seq<Setting>, cur: seq<Setting>, f: Stamp, clock: nat -> Time, i: nat, p: nat)
    requires StampedBelow(orig, cur, f, clock, i)
    requires p < |orig| && Missing(orig[p], f) && Rank(orig, p, f) == i
    requires forall j :: 0 <= j < |orig| && Missing(orig[j], f) && Rank(orig, j, f) == i ==> j == p
    ensures cur[p] == orig[p]
    ensures StampedBelow(orig, cur[p := WithStamp(cur[p], f, clock(i))], f, clock, i + 1)
  {
  }

  /** One loop of `scripts/fix-settings.ts`: find the settings lacking timestamp
      `f`, then update each by id with a fresh clock reading. */
  method StampEach(db: Database, f: Stamp, clock: nat -> Time)
    requires db.Valid()
    modifies db`settings
    ensures db.Valid()
    ensures db.settings == StampedInOrder(old(db.settings), f, clock)
  {
    ghost var orig := db.settings;
    var nulls := Filter(db.settings, (s: Setting) => Missing(s, f));
    var i := 0;
    while i < |nulls|
      invariant 0 <= i <= |nulls|
      invariant db.Valid()
      invariant StampedBelow(orig, db.settings, f, clock, i)
    {
      var setting := nulls[i];
      ghost var p := Locate(orig, f, i);
      StampStep(orig, db.settings, f, clock, i, p);
      FindSettingAt(db.settings, p);
      SetStamp(db, setting.id, f, clock(i));
      i := i + 1;
    }
    StampedAll(orig, db.settings, f, clock);
  }

  /** Once every setting the `findMany` returned is updated, the loop's result is reached. */
  lemma StampedAll(orig: seq<Setting>, cur: seq<Setting>, f: Stamp, clock: nat -> Time)
    requires StampedBelow(orig, cur, f, clock, |Filter(orig, (s: Setting) => Missing(s, f))|)
    ensures cur == StampedInOrder(orig, f, clock)
  {
    forall j | 0 <= j < |orig| && Missing(orig[j], f) ensures Rank(orig, j, f) < |Filter(orig, (s: Setting) => Missing(s, f))| {
      FilterAtRank(orig, f, j);
    }
  }

  /** `scripts/fix-settings.ts`: the `createdAt` loop, then the `updatedAt` loop. */
  method FixSettingsPerRecord(db: Database, createdClock: nat -> Time, updatedClock: nat -> Time)
    requires db.Valid()
    modifies db`settings
    ensures db.Valid()
    ensures db.settings == StampedInOrder(StampedInOrder(old(db.settings), CreatedAt, createdClock), UpdatedAt, updatedClock)
  {
    StampEach(db, CreatedAt, createdClock);
    StampEach(db, UpdatedAt, updatedClock);
  }

  /** After both loops every setting has both timestamps. */
  lemma BothLoopsRepairBoth(settings: seq<Setting>, createdClock: nat -> Time, updatedClock: nat -> Time)
    ensures var r := StampedInOrder(StampedInOrder(settings, CreatedAt, createdClock), UpdatedAt, updatedClock);
            && |r| == |settings|
            && forall j :: 0 <= j < |r| ==> !Missing(r[j], CreatedAt) && !Missing(r[j], UpdatedAt)
  {
    var first := StampedInOrder(settings, CreatedAt, createdClock);
    StampedInOrderSpec(settings, CreatedAt, createdClock);
    StampedInOrderSpec(first, UpdatedAt, updatedClock);
  }

  // ---------------------------------------------------------------------------
  // fix-all-collections

  /** `$set: { createdAt: t }` on every event whose `createdAt` is null or unset. */
  function FillEventCreatedAt(events: seq<AdEvent>, t: Time): seq<AdEvent>
  {
    seq(|events|, j requires 0 <= j < |events| => if events[j].createdAt.None? then events[j].(createdAt := Some(t)) else events[j])
  }

  /** Every event ends with a `createdAt`; events that had one are unchanged; the
      id and the setting link are never written; none is created or deleted. */
  lemma FillEventCreatedAtSpec(events: seq<AdEvent>, t: Time)
    ensures |FillEventCreatedAt(events, t)| == |events|
    ensures forall j :: 0 <= j < |events| ==> FillEventCreatedAt(events, t)[j].createdAt.Some?
    ensures forall j :: 0 <= j < |events| && events[j].createdAt.Some? ==> FillEventCreatedAt(events, t)[j] == events[j]
    ensures forall j :: 0 <= j < |events| ==>
              FillEventCreatedAt(events, t)[j].id == events[j].id && FillEventCreatedAt(events, t)[j].settingId == events[j].settingId
    ensures FillEventCreatedAt(FillEventCreatedAt(events, t), t) == FillEventCreatedAt(events, t)
  {
  }

  /** `fix-all-collections.ts`: the Setting repair twice, then AdView and AdClick,
      each command reading the clock once. The second Setting pass finds nothing. */
  method FixAllCollections(db: Database, t1: Time, t2: Time, t3: Time, t4: Time)
    requires db.Valid()
    modifies db`settings, db`adViews, db`adClicks
    ensures db.Valid()
    ensures db.settings == FillNulls(FillNulls(old(db.settings), CreatedAt, t1), CreatedAt, t2)
    ensures db.settings == FillNulls(old(db.settings), CreatedAt, t1)
    ensures db.adViews == FillEventCreatedAt(old(db.adViews), t3)
    ensures db.adClicks == FillEventCreatedAt(old(db.adClicks), t4)
  {
    var first := FillNulls(db.settings, CreatedAt, t1);
    SameIdsKeepUnique(db.settings, first);
    db.settings := first;
    var second := FillNulls(db.settings, CreatedAt, t2);
    FillNullsIdempotent(old(db.settings), CreatedAt, t1, t2);
    db.settings := second;
    db.adViews := FillEventCreatedAt(db.adViews, t3);
    db.adClicks := FillEventCreatedAt(db.adClicks, t4);
  }
}
