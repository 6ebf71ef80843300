/**
 * ExternalSettingsService of src/kopf/services/external_settings.js: the
 * console's settings, read lazily from kopf_external_settings.json and
 * overlaid with the user preferences kept in the browser's local storage.
 * Only `refresh_rate` and `theme` ever travel to or from local storage.
 */
module ExternalSettings {
  import opened Wrappers

  /** A setting's value, as the JSON files and local storage hold it. */
  datatype Value = Undefined | Null | Bool(b: bool) | Number(n: int) | Text(s: string)

  const ES_HOST := "location"
  const OPENSEARCH_ROOT_PATH := "opensearch_root_path"
  const ES_ROOT_PATH := "elasticsearch_root_path"
  const WITH_CREDENTIALS := "with_credentials"
  const REFRESH_RATE := "refresh_rate"
  const THEME := "theme"
  const UPDATABLE_SETTINGS: seq<string> := [REFRESH_RATE, THEME]

  /** `UPDATABLE_SETTINGS.indexOf(setting) >= 0`. */
  predicate Updatable(setting: string) {
    setting in UPDATABLE_SETTINGS
  }

  /** `isDefined(v)`: neither `undefined` nor `null`. */
  predicate IsDefined(v: Value) {
    !v.Undefined? && !v.Null?
  }

  /** `settings[key]`: `undefined` when the key is absent. */
  function Get(settings: map<string, Value>, key: string): Value {
    if key in settings then settings[key] else Undefined
  }

  /** The object `saveSettings` builds: the whitelisted entries of `settings` and nothing else. */
  function Persisted(settings: map<string, Value>): (saved: map<string, Value>)
    ensures saved.Keys == set k | k in settings && Updatable(k)
    ensures forall k :: k in saved ==> saved[k] == settings[k]
    ensures saved.Keys <= {REFRESH_RATE, THEME}
  {
    map k | k in settings && Updatable(k) :: settings[k]
  }

  /**
   * What local storage gives back for `m` after `JSON.stringify` and
   * `JSON.parse`: an entry whose value is `undefined` is not written.
   */
  function Serialized(m: map<string, Value>): (r: map<string, Value>)
    ensures r.Keys == set k | k in m && !m[k].Undefined?
    ensures forall k :: k in r ==> r[k] == m[k]
  {
    map k | k in m && !m[k].Undefined? :: m[k]
  }

  /** `settings` after `updateSettings(incoming)`: the whitelisted entries of `incoming` overwrite, all else stays. */
  function Merged(settings: map<string, Value>, incoming: map<string, Value>): (r: map<string, Value>)
    ensures forall k :: !Updatable(k) ==> Get(r, k) == Get(settings, k)
    ensures forall k :: Updatable(k) && k in incoming ==> k in r && r[k] == incoming[k]
    ensures forall k :: k !in incoming ==> Get(r, k) == Get(settings, k)
    ensures r.Keys == settings.Keys + Persisted(incoming).Keys
  {
    settings + Persisted(incoming)
  }

  /** `getOpenSearchRootPath` on given settings: the new key whenever it is defined, else the legacy key. */
  function RootPath(settings: map<string, Value>): (path: Value)
    ensures IsDefined(Get(settings, OPENSEARCH_ROOT_PATH)) ==> path == settings[OPENSEARCH_ROOT_PATH]
    ensures !IsDefined(Get(settings, OPENSEARCH_ROOT_PATH)) ==> path == Get(settings, ES_ROOT_PATH)
  {
    if IsDefined(Get(settings, OPENSEARCH_ROOT_PATH)) then settings[OPENSEARCH_ROOT_PATH]
    else Get(settings, ES_ROOT_PATH)
  }

  /** An empty `opensearch_root_path` still wins over the legacy key: only null and undefined fall back. */
  lemma EmptyRootPathWins(settings: map<string, Value>)
    requires Get(settings, OPENSEARCH_ROOT_PATH) == Text("")
    ensures RootPath(settings) == Text("")
  {
  }

  /**
   * Saving and loading back changes nothing: what `saveSettings` stores and
   * `loadLocalSettings` reads back, `updateSettings` re-applies as is; an
   * entry lost to `undefined` keeps its present value.
   */
  lemma {:induction false} SaveLoadRoundTrip(settings: map<string, Value>)
    ensures Merged(settings, Serialized(Persisted(settings))) == settings
  {
    var stored := Serialized(Persisted(settings));
    var r := Merged(settings, stored);
    assert r.Keys == settings.Keys;
    forall k | k in settings ensures r[k] == settings[k] {
      if Updatable(k) && k in stored {
        assert k in Persisted(settings);
      }
    }
  }

  /** Loading the same preferences twice has the effect of loading them once. */
  lemma MergeIdempotent(settings: map<string, Value>, incoming: map<string, Value>)
    ensures Merged(Merged(settings, incoming), incoming) == Merged(settings, incoming)
  {
  }

  /** What is saved after loading preferences is what was saved before, overwritten by those preferences. */
  lemma PersistedAfterMerge(settings: map<string, Value>, incoming: map<string, Value>)
    ensures Persisted(Merged(settings, incoming)) == Persisted(settings) + Persisted(incoming)
  {
    var l := Persisted(Merged(settings, incoming));
    var r := Persisted(settings) + Persisted(incoming);
    assert l.Keys == r.Keys;
  }

  /** Adding one entry adds it to what is persisted exactly when it is whitelisted. */
  lemma PersistedAdd(settings: map<string, Value>, key: string, v: Value)
    ensures Persisted(settings[key := v]) ==
      if Updatable(key) then Persisted(settings)[key := v] else Persisted(settings)
  {
    if Updatable(key) {
      assert Persisted(settings[key := v]).Keys == Persisted(settings)[key := v].Keys;
    } else {
      assert Persisted(settings[key := v]).Keys == Persisted(settings).Keys;
    }
  }

  /** The service; `settings` is `None` (null) until first use. */
  class SettingsService {
    var settings: Option<map<string, Value>>
    /** Local storage under `kopfSettings`, as parsed; `None` when absent, empty or unreadable. */
    var storage: Option<map<string, Value>>
    /** The contents of kopf_external_settings.json, which `fetchSettings` copies. */
    const remote: map<string, Value>

    constructor (remote: map<string, Value>, storage: Option<map<string, Value>>)
      ensures this.remote == remote && this.storage == storage && settings.None?
    {
      this.remote := remote;
      this.storage := storage;
      settings := None;
    }

    /** What `loadLocalSettings` returns: the parsed object, or `{}`. */
    function Loaded(): map<string, Value>
      reads this
    {
      if storage.Some? then storage.value else map[]
    }

    /** What `getSettings` returns from this state: the held settings, or fresh ones. */
    function Current(): map<string, Value>
      reads this
    {
      if settings.Some? then settings.value else Merged(remote, Loaded())
    }

    method GetSettings() returns (s: map<string, Value>)
      modifies this
      ensures s == old(Current()) && settings == Some(s)
      ensures old(settings).Some? ==> s == old(settings).value
      ensures storage == old(storage)
    {
      if settings.None? {
        settings := Some(remote);
        var local := LoadLocalSettings();
        var thrown := UpdateSettings(Some(local));
      }
      s := settings.value;
    }

    method LoadLocalSettings() returns (local: map<string, Value>)
      ensures local == Loaded()
    {
      local := if storage.Some? then storage.value else map[];
    }

    /**
     * `updateSettings(incoming)`; `None` stands for a null or undefined
     * argument, which changes nothing. While the settings are still null,
     * the first whitelisted entry's write throws (`thrown`), before anything
     * is changed.
     */
    method UpdateSettings(incoming: Option<map<string, Value>>) returns (thrown: bool)
      modifies this
      ensures thrown <==> old(settings).None? && incoming.Some? && Persisted(incoming.value) != map[]
      ensures settings == if old(settings).Some? && incoming.Some?
        then Some(Merged(old(settings).value, incoming.value)) else old(settings)
      ensures storage == old(storage)
    {
      thrown := false;
      if incoming.Some? {
        var source := incoming.value;
        var pending := source.Keys;
        while pending != {}
          invariant storage == old(storage) && pending <= source.Keys
          invariant old(settings).None? ==> settings.None? && Persisted(source - pending) == map[]
          invariant old(settings).Some? ==>
            settings.Some? && settings.value == old(settings).value + Persisted(source - pending)
          decreases pending
        {
          var setting :| setting in pending;
          ghost var done := source - pending;
          assert source - (pending - {setting}) == done[setting := source[setting]];
          PersistedAdd(done, setting, source[setting]);
          if Updatable(setting) {
            if settings.None? {
              assert setting in Persisted(source);
              return true;
            }
            assert old(settings).value + Persisted(done)[setting := source[setting]] ==
              (old(settings).value + Persisted(done))[setting := source[setting]];
            settings := Some(settings.value[setting := source[setting]]);
          }
          pending := pending - {setting};
        }
        assert source - pending == source;
      }
    }

    method SaveSettings()
      modifies this
      ensures storage == Some(Serialized(Persisted(if old(settings).Some? then old(settings).value else map[])))
      ensures settings == old(settings)
    {
      var current := if settings.Some? then settings.value else map[];
      var saved: map<string, Value> := map[];
      var pending := current.Keys;
      while pending != {}
        invariant settings == old(settings)
        invariant pending <= current.Keys
        invariant saved == Persisted(current - pending)
        decreases pending
      {
        var setting :| setting in pending;
        assert current - (pending - {setting}) == (current - pending)[setting := current[setting]];
        PersistedAdd(current - pending, setting, current[setting]);
        if Updatable(setting) {
          saved := saved[setting := current[setting]];
        }
        pending := pending - {setting};
      }
      assert current - pending == current;
      storage := Some(Serialized(saved));
    }

    method GetOpenSearchHost() returns (host: Value)
      modifies this
      ensures host == Get(old(Current()), ES_HOST)
      ensures settings == Some(old(Current())) && storage == old(storage)
    {
      var s := GetSettings();
      host := Get(s, ES_HOST);
    }

    /** Deprecated name of `GetOpenSearchHost`. */
    method GetElasticsearchHost() returns (host: Value)
      modifies this
      ensures host == Get(old(Current()), ES_HOST)
      ensures settings == Some(old(Current())) && storage == old(storage)
    {
      host := GetOpenSearchHost();
    }

    method GetOpenSearchRootPath() returns (path: Value)
      modifies this
      ensures path == RootPath(old(Current()))
      ensures settings == Some(old(Current())) && storage == old(storage)
    {
      var s := GetSettings();
      if IsDefined(Get(s, OPENSEARCH_ROOT_PATH)) {
        return s[OPENSEARCH_ROOT_PATH];
      }
      path := Get(s, ES_ROOT_PATH);
    }

    /** Deprecated name of `GetOpenSearchRootPath`. */
    method GetElasticsearchRootPath() returns (path: Value)
      modifies this
      ensures path == RootPath(old(Current()))
      ensures settings == Some(old(Current())) && storage == old(storage)
    {
      path := GetOpenSearchRootPath();
    }

    method WithCredentials() returns (v: Value)
      modifies this
      ensures v == Get(old(Current()), WITH_CREDENTIALS)
      ensures settings == Some(old(Current())) && storage == old(storage)
    {
      var s := GetSettings();
      v := Get(s, WITH_CREDENTIALS);
    }

    method GetRefreshRate() returns (rate: Value)
      modifies this
      ensures rate == Get(old(Current()), REFRESH_RATE)
      ensures settings == Some(old(Current())) && storage == old(storage)
    {
      var s := GetSettings();
      rate := Get(s, REFRESH_RATE);
    }

    method SetRefreshRate(rate: Value)
      modifies this
      ensures settings == Some(old(Current())[REFRESH_RATE := rate])
      ensures storage == Some(Serialized(Persisted(settings.value)))
    {
      var s := GetSettings();
      settings := Some(s[REFRESH_RATE := rate]);
      SaveSettings();
    }

    method GetTheme() returns (theme: Value)
      modifies this
      ensures theme == Get(old(Current()), THEME)
      ensures settings == Some(old(Current())) && storage == old(storage)
    {
      var s := GetSettings();
      theme := Get(s, THEME);
    }

    method SetTheme(theme: Value)
      modifies this
      ensures settings == Some(old(Current())[THEME := theme])
      ensures storage == Some(Serialized(Persisted(settings.value)))
    {
      var s := GetSettings();
      settings := Some(s[THEME := theme]);
      SaveSettings();
    }
  }

  /**
   * A preference set through the service survives a reload: a new service
   * over the same remote file and the storage just written sees it. An
   * `undefined` rate is not written, so the reload sees the remote file's.
   */
  method PreferenceSurvivesReload(remote: map<string, Value>, storage: Option<map<string, Value>>, rate: Value)
    returns (seen: Value)
    ensures rate != Undefined ==> seen == rate
    ensures rate == Undefined ==> seen == Get(remote, REFRESH_RATE)
  {
    var service := new SettingsService(remote, storage);
    service.SetRefreshRate(rate);
    var reloaded := new SettingsService(remote, service.storage);
    seen := reloaded.GetRefreshRate();
  }
}
