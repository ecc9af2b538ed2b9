/** The deleting repairs: `final-data-clean.ts` removes ad events without a
    creation time, `emergency-clean.ts` removes settings whose creation time is
    missing or not after the Unix epoch. */
module Cleanup {
  import opened Common
  import opened Records
  import opened Store

  /** The events the raw `delete` with `q: { createdAt: null }` keeps: those with a
      `createdAt` (MongoDB's null match also covers an unset field). */
  predicate Dated(e: AdEvent)
  {
    e.createdAt.Some?
  }

  /** `final-data-clean.ts`: both deletes, `limit: 0` meaning every match. */
  method FinalDataClean(db: Database)
    requires db.Valid()
    modifies db`adViews, db`adClicks
    ensures db.Valid()
    ensures db.adViews == Filter(old(db.adViews), Dated)
    ensures db.adClicks == Filter(old(db.adClicks), Dated)
  {
    db.adViews := Filter(db.adViews, Dated);
    db.adClicks := Filter(db.adClicks, Dated);
  }

  /** What the delete leaves: every remaining event has a `createdAt`, every event
      that had one remains, unchanged and in order, and a second run deletes nothing. */
  lemma DatedEventsKept(events: seq<AdEvent>)
    ensures forall e :: e in Filter(events, Dated) ==> e.createdAt.Some?
    ensures forall e :: e in events && e.createdAt.Some? ==> e in Filter(events, Dated)
    ensures Filter(Filter(events, Dated), Dated) == Filter(events, Dated)
    ensures (forall e :: e in events ==> e.createdAt.Some?) ==> Filter(events, Dated) == events
  {
    FilterAll(Filter(events, Dated), Dated);
    if forall e :: e in events ==> e.createdAt.Some? {
      FilterAll(events, Dated);
    }
  }

  /** The number of events deleted is the number without a `createdAt`. */
  lemma {:induction false} DeletedCount(events: seq<AdEvent>)
    ensures |Filter(events, Dated)| + |Filter(events, (e: AdEvent) => !Dated(e))| == |events|
    decreases |events|
  {
    if events != [] {
      DeletedCount(events[1..]);
    }
  }

  /** `new Date('1970-01-01')`: a date-only string is read as UTC midnight, 0 ms. */
  const Epoch: Time := 0

  /** The settings `deleteMany` keeps: those whose `createdAt` is set and after the epoch. */
  predicate KeepSetting(s: Setting)
  {
    s.createdAt.Some? && s.createdAt.value > Epoch
  }

  /** `emergencyClean`: deletes every setting with `createdAt` null or at most the epoch. */
  method EmergencyClean(db: Database)
    requires db.Valid()
    modifies db`settings
    ensures db.Valid()
    ensures db.settings == Filter(old(db.settings), KeepSetting)
  {
    FilterUnique(db.settings, KeepSetting, SettingIdOf);
    FilterUnique(db.settings, KeepSetting, SettingKeyOf);
    db.settings := Filter(db.settings, KeepSetting);
  }

  /** A setting is deleted exactly when its `createdAt` is null or not after the
      epoch; the kept ones are unchanged and in order; a second run deletes nothing. */
  lemma EmergencyCleanSpec(settings: seq<Setting>)
    ensures forall s :: s in Filter(settings, KeepSetting) <==>
              s in settings && s.createdAt.Some? && s.createdAt.value > Epoch
    ensures Filter(Filter(settings, KeepSetting), KeepSetting) == Filter(settings, KeepSetting)
    ensures (forall s :: s in settings ==> s.createdAt.Some? && s.createdAt.value > 0) ==>
              Filter(settings, KeepSetting) == settings
  {
    FilterAll(Filter(settings, KeepSetting), KeepSetting);
    if forall s :: s in settings ==> s.createdAt.Some? && s.createdAt.value > 0 {
      FilterAll(settings, KeepSetting);
    }
  }
}
