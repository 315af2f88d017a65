/** The plugin's settings: defaults overlaid by whatever the host storage
    returned, and the settings tab's edit of the one text setting. */
module PluginSettings {
  import opened Wrappers

  /** A settings object as a map from property name to value. */
  type Settings = map<string, string>

  const MySettingKey: string := "mySetting"

  /** The plugin's built-in defaults. */
  const DefaultSettings: Settings := map[MySettingKey := "default"]

  /** Every default key has a value. */
  predicate HasDefaultKeys(s: Settings) {
    forall k :: k in DefaultSettings ==> k in s
  }

  /** Copying the defaults and then the loaded object into a fresh object:
      a loaded property wins over the default of the same name, and no
      loaded data at all leaves the defaults. */
  function Merge(defaults: Settings, loaded: Option<Settings>): (r: Settings)
    ensures forall k :: k in r <==> k in defaults || (loaded.Some? && k in loaded.value)
    ensures forall k :: loaded.Some? && k in loaded.value ==> r[k] == loaded.value[k]
    ensures forall k :: k in defaults && !(loaded.Some? && k in loaded.value) ==> r[k] == defaults[k]
  {
    match loaded
    case None => defaults
    case Some(data) => defaults + data
  }

  /** Without stored data the settings are exactly the defaults. */
  lemma LoadNothing()
    ensures Merge(DefaultSettings, None) == DefaultSettings
  {
  }

  /** Whatever was stored, every default key is present afterwards. */
  lemma LoadHasDefaults(loaded: Option<Settings>)
    ensures HasDefaultKeys(Merge(DefaultSettings, loaded))
  {
  }

  /** Loading settings that already hold every default key gives them back:
      storing the settings and loading them again changes nothing. */
  lemma ReloadSaved(s: Settings)
    ensures Merge(DefaultSettings, Some(s)) == s <==> HasDefaultKeys(s)
  {
    var r := Merge(DefaultSettings, Some(s));
    if HasDefaultKeys(s) {
      assert r.Keys == s.Keys;
    } else {
      var k :| k in DefaultSettings && k !in s;
      assert k in r;
    }
  }

  /** Loading is idempotent: loading the result of a load again is the same. */
  lemma LoadIdempotent(loaded: Option<Settings>)
    ensures Merge(DefaultSettings, Some(Merge(DefaultSettings, loaded))) == Merge(DefaultSettings, loaded)
  {
    LoadHasDefaults(loaded);
    ReloadSaved(Merge(DefaultSettings, loaded));
  }

  /** The plugin object and its `settings` field. */
  class MyPlugin {
    var settings: Settings

    /** Plugin start-up: the first thing it does is load the settings. */
    constructor(loaded: Option<Settings>)
      ensures settings == Merge(DefaultSettings, loaded)
    {
      settings := Merge(DefaultSettings, loaded);
    }

    predicate Valid()
      reads this
    {
      HasDefaultKeys(settings)
    }

    /** The current value of the text setting, shown in the settings tab. */
    function MySetting(): (v: string)
      reads this
      requires Valid()
      ensures v == settings[MySettingKey]
    {
      settings[MySettingKey]
    }

    /** Replaces the settings with the defaults overlaid by the stored data. */
    method LoadSettings(loaded: Option<Settings>)
      modifies this
      ensures settings == Merge(DefaultSettings, loaded)
      ensures Valid()
    {
      settings := Merge(DefaultSettings, loaded);
      LoadHasDefaults(loaded);
    }

    /** The object handed to the host storage: the settings as they are.
        Loading it back restores them exactly when every default key is
        present. */
    method SaveSettings() returns (data: Settings)
      ensures data == settings
      ensures Merge(DefaultSettings, Some(data)) == settings <==> Valid()
    {
      data := settings;
      ReloadSaved(data);
    }

    /** The settings tab's change handler: stores the typed text as the
        text setting, keeps every other key, and saves. */
    method SetMySetting(value: string) returns (data: Settings)
      modifies this
      ensures settings == old(settings)[MySettingKey := value]
      ensures Valid() && MySetting() == value
      ensures forall k :: k in old(settings) && k != MySettingKey ==> k in settings && settings[k] == old(settings)[k]
      ensures data == settings
    {
      settings := settings[MySettingKey := value];
      data := SaveSettings();
    }
  }

  /** After an edit, saving and loading again yields the edited settings. */
  lemma EditThenReload(s: Settings, value: string)
    ensures Merge(DefaultSettings, Some(s[MySettingKey := value])) == s[MySettingKey := value]
  {
    ReloadSaved(s[MySettingKey := value]);
  }
}
