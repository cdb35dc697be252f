/** The Setting model: the default record and get-or-create, the one way a
    settings row comes into being outside an explicit update. */
module SettingModel {
  import opened Wrappers
  import opened Schema

  /** `Setting::getDefaults()`, owned by `u`. */
  function Defaults(u: UserId): (r: Settings)
    ensures r.userId == u
    ensures r.timezone == Some("UTC") && r.dateFormat == "Y-m-d" && r.timeFormat == "H:i"
    ensures r.emailNotifications && !r.browserNotifications
  {
    Settings(u, Some("UTC"), "Y-m-d", "H:i", true, false)
  }

  /** A store together with the settings row read from (or written to) it. */
  datatype Fetched = Fetched(store: Store, settings: Settings)

  /** `firstOrCreate(['user_id' => u], getDefaults())`: the user's row when one
      exists (and the store as it was), otherwise a new row equal to the
      defaults, which is stored. Nothing else in the store changes. */
  function GetOrCreate(s: Store, u: UserId): (r: Fetched)
    ensures u in r.store.settings && r.store.settings[u] == r.settings
    ensures u in s.settings ==> r.store == s && r.settings == s.settings[u]
    ensures u !in s.settings ==> r.settings == Defaults(u) && r.store == s.(settings := s.settings[u := Defaults(u)])
  {
    if u in s.settings then Fetched(s, s.settings[u])
    else
      var d := Defaults(u);
      Fetched(s.(settings := s.settings[u := d]), d)
  }

  /** Get-or-create adds exactly the user's key, and for a registered user
      keeps the schema's constraints. */
  lemma GetOrCreateValid(s: Store, u: UserId)
    ensures GetOrCreate(s, u).store.settings.Keys == s.settings.Keys + {u}
    ensures Valid(s) && u in s.users ==> Valid(GetOrCreate(s, u).store)
  {
  }

  /** Repeating get-or-create neither creates a second row nor changes the first. */
  lemma GetOrCreateIdempotent(s: Store, u: UserId)
    ensures GetOrCreate(GetOrCreate(s, u).store, u) == GetOrCreate(s, u)
  {
  }

  /** The `CreateUserSettings` listener on registration: a row equal to the
      defaults for the new user. The store holds at most one settings row
      per user, so for a user who already has one there is no result. */
  function OnRegistered(s: Store, u: UserId): (r: Option<Store>)
    ensures u in s.settings <==> r.None?
    ensures r.Some? ==> u in r.value.settings && r.value.settings[u] == Defaults(u)
    ensures r.Some? ==> r.value == s.(settings := r.value.settings)
    ensures r.Some? ==> forall v :: v in s.settings ==> v in r.value.settings && r.value.settings[v] == s.settings[v]
    ensures r.Some? && Valid(s) && u in s.users ==> Valid(r.value)
  {
    if u in s.settings then None
    else Some(s.(settings := s.settings[u := Defaults(u)]))
  }

  /** On a user without a row, the listener stores what get-or-create would
      have stored, so a later get-or-create finds the listener's row. */
  lemma OnRegisteredIsGetOrCreate(s: Store, u: UserId)
    ensures OnRegistered(s, u).Some? ==>
      && OnRegistered(s, u).value == GetOrCreate(s, u).store
      && GetOrCreate(OnRegistered(s, u).value, u) == GetOrCreate(s, u)
  {
  }
}
