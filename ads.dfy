/** Ad tracking (`trackAdView`, `trackAdClick`, `getAdStats`): events are recorded
    only while monetization is switched on, and the statistics count the events
    linked to the `monetization` setting. */
module Ads {
  import opened Common
  import opened Records
  import opened Store

  /** `monetizationSetting && monetizationSetting.value?.value === 'ON'`. */
  predicate MonetizationOn(settings: seq<Setting>): (on: bool)
    ensures (forall j :: 0 <= j < |settings| ==> settings[j].key != MonetizationKey) ==> !on
    ensures UniqueBy(settings, SettingKeyOf) ==>
              forall j :: 0 <= j < |settings| && settings[j].key == MonetizationKey ==>
                (on <==> settings[j].value.Some? && settings[j].value.value.value == Some("ON"))
  {
    FindSettingByUniqueKey(settings, MonetizationKey);
    match FindSetting(settings, MonetizationKey)
    case None => false
    case Some(i) => settings[i].value.Some? && settings[i].value.value.value == Some("ON")
  }

  datatype TrackReply = Tracked | MonetizationNotActive

  /** The event `adView.create` / `adClick.create` writes: connected to the
      `monetization` setting, stamped with the creation time. */
  function NewEvent(settings: seq<Setting>, id: Id, now: Time): AdEvent
    requires FindSetting(settings, MonetizationKey).Some?
  {
    AdEvent(id, settings[FindSetting(settings, MonetizationKey).value].id, Some(now))
  }

  /** `trackAdView`: one view is appended exactly when monetization is on. */
  method TrackAdView(db: Database, now: Time) returns (reply: TrackReply)
    modifies db`adViews
    ensures reply == Tracked <==> MonetizationOn(db.settings)
    ensures reply == MonetizationNotActive ==> db.adViews == old(db.adViews)
    ensures reply == Tracked ==>
              && |db.adViews| == |old(db.adViews)| + 1
              && db.adViews == old(db.adViews) + [NewEvent(db.settings, db.adViews[|old(db.adViews)|].id, now)]
              && db.adViews[|old(db.adViews)|].id !in old(db.UsedIds())
    ensures db.adClicks == old(db.adClicks)
  {
    if !MonetizationOn(db.settings) {
      return MonetizationNotActive;
    }
    var id := FreshId(db.UsedIds());
    db.adViews := db.adViews + [NewEvent(db.settings, id, now)];
    reply := Tracked;
  }

  /** `trackAdClick`: one click is appended exactly when monetization is on. */
  method TrackAdClick(db: Database, now: Time) returns (reply: TrackReply)
    modifies db`adClicks
    ensures reply == Tracked <==> MonetizationOn(db.settings)
    ensures reply == MonetizationNotActive ==> db.adClicks == old(db.adClicks)
    ensures reply == Tracked ==>
              && |db.adClicks| == |old(db.adClicks)| + 1
              && db.adClicks == old(db.adClicks) + [NewEvent(db.settings, db.adClicks[|old(db.adClicks)|].id, now)]
              && db.adClicks[|old(db.adClicks)|].id !in old(db.UsedIds())
    ensures db.adViews == old(db.adViews)
  {
    if !MonetizationOn(db.settings) {
      return MonetizationNotActive;
    }
    var id := FreshId(db.UsedIds());
    db.adClicks := db.adClicks + [NewEvent(db.settings, id, now)];
    reply := Tracked;
  }

  /** The events linked to setting `settingId` (the `createdAt: { not: undefined }`
      condition is dropped by Prisma and filters nothing). */
  function LinkedCount(events: seq<AdEvent>, settingId: Id): (n: nat)
    ensures n <= |events|
    ensures n == 0 <==> forall j :: 0 <= j < |events| ==> events[j].settingId != settingId
    ensures n == |events| <==> forall j :: 0 <= j < |events| ==> events[j].settingId == settingId
  {
    var p := (e: AdEvent) => e.settingId == settingId;
    var linked := Filter(events, p);
    assert linked != [] ==> linked[0] in linked;
    assert forall j :: 0 <= j < |events| && p(events[j]) ==> events[j] in linked;
    FilterKeepsAllIff(events, p);
    |linked|
  }

  datatype AdStats = AdStats(views: nat, clicks: nat)

  /** `getAdStats`: zeros without a setting, otherwise the linked counts. */
  function GetAdStats(settings: seq<Setting>, views: seq<AdEvent>, clicks: seq<AdEvent>): (r: AdStats)
    ensures FindSetting(settings, MonetizationKey).None? ==> r == AdStats(0, 0)
    ensures r.views <= |views| && r.clicks <= |clicks|
    ensures UniqueBy(settings, SettingKeyOf) ==>
              forall j :: 0 <= j < |settings| && settings[j].key == MonetizationKey ==>
                r == AdStats(LinkedCount(views, settings[j].id), LinkedCount(clicks, settings[j].id))
    ensures views == [] && clicks == [] ==> r == AdStats(0, 0)
  {
    FindSettingByUniqueKey(settings, MonetizationKey);
    match FindSetting(settings, MonetizationKey)
    case None => AdStats(0, 0)
    case Some(i) => AdStats(LinkedCount(views, settings[i].id), LinkedCount(clicks, settings[i].id))
  }

  /** Appending an event counts once for its own setting and not for any other. */
  lemma LinkedCountAppend(events: seq<AdEvent>, e: AdEvent, settingId: Id)
    ensures LinkedCount(events + [e], settingId) == LinkedCount(events, settingId) + (if e.settingId == settingId then 1 else 0)
  {
    var p := (x: AdEvent) => x.settingId == settingId;
    FilterConcat(events, [e], p);
    assert Filter([e], p) == if p(e) then [e] else [];
  }

  /** A tracked view raises the view statistic by one and leaves the clicks alone;
      a tracked click does the converse. */
  lemma TrackedViewCounts(settings: seq<Setting>, views: seq<AdEvent>, clicks: seq<AdEvent>, id: Id, now: Time)
    requires FindSetting(settings, MonetizationKey).Some?
    ensures GetAdStats(settings, views + [NewEvent(settings, id, now)], clicks)
            == GetAdStats(settings, views, clicks).(views := GetAdStats(settings, views, clicks).views + 1)
  {
    var i := FindSetting(settings, MonetizationKey).value;
    LinkedCountAppend(views, NewEvent(settings, id, now), settings[i].id);
  }

  lemma TrackedClickCounts(settings: seq<Setting>, views: seq<AdEvent>, clicks: seq<AdEvent>, id: Id, now: Time)
    requires FindSetting(settings, MonetizationKey).Some?
    ensures GetAdStats(settings, views, clicks + [NewEvent(settings, id, now)])
            == GetAdStats(settings, views, clicks).(clicks := GetAdStats(settings, views, clicks).clicks + 1)
  {
    var i := FindSetting(settings, MonetizationKey).value;
    LinkedCountAppend(clicks, NewEvent(settings, id, now), settings[i].id);
  }

  /** Events linked to other settings do not count. */
  lemma UnlinkedEventsIgnored(settings: seq<Setting>, views: seq<AdEvent>, clicks: seq<AdEvent>, e: AdEvent)
    requires FindSetting(settings, MonetizationKey).Some?
    requires e.settingId != settings[FindSetting(settings, MonetizationKey).value].id
    ensures GetAdStats(settings, views + [e], clicks + [e]) == GetAdStats(settings, views, clicks)
  {
    var i := FindSetting(settings, MonetizationKey).value;
    LinkedCountAppend(views, e, settings[i].id);
    LinkedCountAppend(clicks, e, settings[i].id);
  }
}
