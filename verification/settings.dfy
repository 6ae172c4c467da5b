/** The settings router (`site_settings`): a key/value store. Reading is
    public; writing sits behind the admin token. The upsert is taken to
    resolve conflicts on `key`, so the table is a map from key to row. */
module Settings {
  import opened Common

  /** A row; `value` is `None` when it was never given. `updatedAt` is the
      time of the last write, an input of the model. */
  datatype Setting = Setting(key: string, value: Option<string>, updatedAt: int)

  type SettingsTable = map<string, Setting>

  predicate WellKeyed(t: SettingsTable) {
    forall k :: k in t ==> t[k].key == k
  }

  const NotFound: string := "设置项不存在"

  /** `GET /:key`: the row, or 404 when no row has the key. */
  function GetSetting(t: SettingsTable, key: string): (r: Reply<Setting>)
    ensures r.Ok? <==> key in t
    ensures r.Ok? ==> r == Ok(200, t[key])
    ensures r.Fail? ==> r == Fail(404, NotFound)
    ensures !r.Denied?
  {
    if key in t then Ok(200, t[key]) else Fail(404, NotFound)
  }

  /** `PUT /:key`: insert or overwrite the row of `key`, stamped `now`. A body
      without `value` leaves an existing value as it is. */
  function PutSetting(t: SettingsTable, authed: bool, key: string, value: Option<string>, now: int)
    : (o: (SettingsTable, Reply<Setting>))
    ensures !authed ==> o == (t, Denied)
    ensures authed ==> o.1.Ok? && o.1.status == 200 && o.0 == t[key := o.1.value]
    ensures authed ==> o.1.value.key == key && o.1.value.updatedAt == now
    ensures authed && value.Some? ==> o.1.value.value == value
    ensures authed && value.None? ==> o.1.value.value == (if key in t then t[key].value else None)
  {
    if !authed then (t, Denied)
    else
      var row := Setting(key, Merge(if key in t then t[key].value else None, value), now);
      (t[key := row], Ok(200, row))
  }

  /** Writing a value then reading the key gives that value back, stamped
      with the write time; every other key reads as before; and the table
      stays keyed by its rows' keys. */
  lemma PutThenGet(t: SettingsTable, key: string, v: string, now: int, other: string)
    requires WellKeyed(t)
    requires other != key
    ensures var t' := PutSetting(t, true, key, Some(v), now).0;
      && GetSetting(t', key) == Ok(200, Setting(key, Some(v), now))
      && GetSetting(t', other) == GetSetting(t, other)
      && WellKeyed(t')
  {
  }

  /** A key is missing until it is written, and found from then on. */
  lemma MissingUntilWritten(t: SettingsTable, key: string, value: Option<string>, now: int)
    requires key !in t
    ensures GetSetting(t, key) == Fail(404, NotFound)
    ensures GetSetting(PutSetting(t, true, key, value, now).0, key).Ok?
  {
  }

  /** Writing the same value twice changes only the stamp. */
  lemma PutTwice(t: SettingsTable, key: string, value: Option<string>, now: int, later: int)
    ensures var t1 := PutSetting(t, true, key, value, now).0;
      PutSetting(t1, true, key, value, later).0 == t1[key := t1[key].(updatedAt := later)]
  {
  }
}
