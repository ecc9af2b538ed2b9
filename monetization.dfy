/** The `monetization` setting the admin edits (`getMonetizationSettings`,
    `updateMonetizationSettings`): defaults, the field-wise merge, the ON/OFF
    check and the upsert by key. */
module Monetization {
  import opened Common
  import opened Records
  import opened Store

  /** `defaultMonetizationSettings`. */
  function Defaults(): MonetizationFields
  {
    MonetizationFields(Some("OFF"), Some(""), Some(""))
  }

  /** The value of the stored `monetization` setting, when the setting exists and
      its value is not null. */
  function StoredValue(settings: seq<Setting>): Option<MonetizationFields>
  {
    match FindSetting(settings, MonetizationKey)
    case None => None
    case Some(i) => settings[i].value
  }

  /** `settings?.value ? settings.value : defaultMonetizationSettings`; the update
      handler computes its base values the same way. A stored value is returned as
      stored, even when some of its fields are missing. */
  function CurrentSettings(settings: seq<Setting>): (r: MonetizationFields)
    ensures StoredValue(settings).None? ==> r == Defaults()
    ensures StoredValue(settings).Some? ==> r == StoredValue(settings).value
    ensures (forall j :: 0 <= j < |settings| ==> settings[j].key != MonetizationKey) ==> r == Defaults()
    ensures UniqueBy(settings, SettingKeyOf) ==>
              forall j :: 0 <= j < |settings| && settings[j].key == MonetizationKey ==>
                r == if settings[j].value.Some? then settings[j].value.value else Defaults()
  {
    FindSettingByUniqueKey(settings, MonetizationKey);
    match StoredValue(settings)
    case None => Defaults()
    case Some(v) => v
  }

  /** `a ?? b`: a null or undefined `a` gives way to `b`. */
  function Coalesce<T>(a: Option<T>, b: Option<T>): Option<T>
  {
    if a.Some? then a else b
  }

  /** The `updatedValue` object: each field from the request unless it is null or
      undefined there, else from the base values. */
  function Merge(request: MonetizationFields, base: MonetizationFields): (r: MonetizationFields)
    ensures request.value.Some? && request.redirectUrl.Some? && request.bannerUrl.Some? ==> r == request
    ensures request == MonetizationFields(None, None, None) ==> r == base
    ensures r.value.None? <==> request.value.None? && base.value.None?
  {
    MonetizationFields(
      Coalesce(request.value, base.value),
      Coalesce(request.redirectUrl, base.redirectUrl),
      Coalesce(request.bannerUrl, base.bannerUrl))
  }

  /** Two updates in turn are one update in which the later request's fields win
      and the earlier request fills the fields the later one leaves out. */
  lemma MergeCompose(first: MonetizationFields, second: MonetizationFields, base: MonetizationFields)
    ensures Merge(second, Merge(first, base)) == Merge(Merge(second, first), base)
  {
  }

  /** Merging the same request again changes nothing, and an empty request keeps the base. */
  lemma MergeIdempotent(request: MonetizationFields, base: MonetizationFields)
    ensures Merge(request, Merge(request, base)) == Merge(request, base)
    ensures Merge(MonetizationFields(None, None, None), base) == base
  {
  }

  /** `['ON', 'OFF'].includes(updatedValue.value)`. */
  predicate AcceptedValue(m: MonetizationFields)
  {
    m.value == Some("ON") || m.value == Some("OFF")
  }

  /** `prisma.setting.upsert({ where: { key: 'monetization' }, update: { value },
      create: { key: 'monetization', value } })`: the existing setting gets the new
      value and keeps everything else; otherwise a setting with id `freshId` and
      both timestamps `now` is appended. */
  function Upsert(settings: seq<Setting>, merged: MonetizationFields, freshId: Id, now: Time): (r: seq<Setting>)
    ensures |settings| <= |r| <= |settings| + 1
    ensures forall j :: 0 <= j < |settings| && settings[j].key != MonetizationKey ==> r[j] == settings[j]
    ensures UniqueBy(settings, SettingKeyOf) ==>
              forall j :: 0 <= j < |r| && r[j].key == MonetizationKey ==> r[j].value == Some(merged)
  {
    FindSettingByUniqueKey(settings, MonetizationKey);
    match FindSetting(settings, MonetizationKey)
    case Some(i) => settings[i := settings[i].(value := Some(merged))]
    case None => settings + [Setting(freshId, MonetizationKey, Some(merged), Some(now), Some(now))]
  }

  /** After the upsert, the setting read back is the merged value; there is exactly
      one `monetization` setting; every other setting is unchanged. */
  lemma UpsertThenRead(settings: seq<Setting>, merged: MonetizationFields, freshId: Id, now: Time)
    requires UniqueBy(settings, SettingKeyOf)
    ensures FindSetting(Upsert(settings, merged, freshId, now), MonetizationKey).Some?
    ensures CurrentSettings(Upsert(settings, merged, freshId, now)) == merged
    ensures UniqueBy(Upsert(settings, merged, freshId, now), SettingKeyOf)
    ensures var r := Upsert(settings, merged, freshId, now);
            forall j :: 0 <= j < |settings| && settings[j].key != MonetizationKey ==> r[j] == settings[j]
  {
    var r := Upsert(settings, merged, freshId, now);
    match FindSetting(settings, MonetizationKey)
    case Some(i) =>
      assert forall j :: 0 <= j < |r| ==> SettingKeyOf(r[j]) == SettingKeyOf(settings[j]);
      FirstIndexByUniqueKey(r, SettingKeyOf, MonetizationKey, i);
    case None =>
      UniqueAppend(settings, r[|settings|], SettingKeyOf);
      assert forall j :: 0 <= j < |settings| ==> r[j].key != MonetizationKey;
      FirstIndexByUniqueKey(r, SettingKeyOf, MonetizationKey, |settings|);
  }

  /** Repeating the same update leaves the settings as the first one left them. */
  lemma UpsertIdempotent(settings: seq<Setting>, merged: MonetizationFields, id1: Id, now1: Time, id2: Id, now2: Time)
    requires UniqueBy(settings, SettingKeyOf)
    ensures Upsert(Upsert(settings, merged, id1, now1), merged, id2, now2) == Upsert(settings, merged, id1, now1)
  {
    var r := Upsert(settings, merged, id1, now1);
    UpsertThenRead(settings, merged, id1, now1);
    var i := FindSetting(r, MonetizationKey).value;
    assert r[i].value == Some(merged);
    assert r[i := r[i].(value := Some(merged))] == r;
  }

  /** The upsert keeps setting ids unique when the id of a created setting is new. */
  lemma UpsertKeepsIds(settings: seq<Setting>, merged: MonetizationFields, freshId: Id, now: Time)
    requires UniqueBy(settings, SettingIdOf)
    requires FindSetting(settings, MonetizationKey).None? ==>
               forall j :: 0 <= j < |settings| ==> settings[j].id != freshId
    ensures UniqueBy(Upsert(settings, merged, freshId, now), SettingIdOf)
  {
    var updated := Upsert(settings, merged, freshId, now);
    match FindSetting(settings, MonetizationKey)
    case Some(i) =>
      assert forall j :: 0 <= j < |updated| ==> SettingIdOf(updated[j]) == SettingIdOf(settings[j]);
    case None =>
      UniqueAppend(settings, updated[|settings|], SettingIdOf);
  }

  datatype UpdateReply = SettingsUpdated | InvalidMonetizationValue

  /** `updateMonetizationSettings`. */
  method UpdateMonetizationSettings(db: Database, request: MonetizationFields, now: Time) returns (reply: UpdateReply)
    requires db.Valid()
    modifies db`settings
    ensures db.Valid()
    ensures reply == SettingsUpdated <==> AcceptedValue(Merge(request, CurrentSettings(old(db.settings))))
    ensures reply == InvalidMonetizationValue ==> db.settings == old(db.settings)
    ensures reply == SettingsUpdated ==>
              && |db.settings| >= |old(db.settings)|
              && (FindSetting(old(db.settings), MonetizationKey).None? ==>
                    |db.settings| == |old(db.settings)| + 1 && db.settings[|old(db.settings)|].id !in old(db.UsedIds()))
              && db.settings == Upsert(old(db.settings), Merge(request, CurrentSettings(old(db.settings))),
                                       if |db.settings| > |old(db.settings)| then db.settings[|old(db.settings)|].id else "",
                                       now)
  {
    var updatedValue := Merge(request, CurrentSettings(db.settings));
    if !AcceptedValue(updatedValue) {
      return InvalidMonetizationValue;
    }
    var freshId := "";
    if FindSetting(db.settings, MonetizationKey).None? {
      freshId := FreshId(db.UsedIds());
      forall j | 0 <= j < |db.settings| ensures db.settings[j].id != freshId {
        assert db.settings[j] in db.settings;
      }
    }
    var updated := Upsert(db.settings, updatedValue, freshId, now);
    UpsertThenRead(db.settings, updatedValue, freshId, now);
    UpsertKeepsIds(db.settings, updatedValue, freshId, now);
    db.settings := updated;
    reply := SettingsUpdated;
  }
}
