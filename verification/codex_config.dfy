/** How the Codex files are derived from a provider: the provider's
    `settings_config` JSON holds the `auth.json` object and the
    `config.toml` text, and a tool-wide common TOML is merged under the
    provider's TOML, key by key at the top level. */
module CodexConfig {
  import opened Wrappers
  import opened Json
  import opened Text

  datatype TomlValue =
    | TStr(s: string)
    | TInt(i: int)
    | TBool(b: bool)
    | TArr(items: seq<TomlValue>)
    | TTable(table: map<string, TomlValue>)
    | TOther(text: string)    // floats and datetimes, not interpreted

  type TomlTable = map<string, TomlValue>

  /** The `toml` crate: parsing text into a top-level table (`None` on a
      syntax error) and pretty-printing a table (`None` when it cannot be
      serialised). */
  datatype TomlCodec = TomlCodec(parse: string -> Option<TomlTable>, serialize: TomlTable -> Option<string>)

  datatype ConfigError =
    | ParseCommonToml        // "Failed to parse common TOML: …"
    | ParseProviderToml      // "Failed to parse provider TOML: …"
    | SerializeMergedToml    // "Failed to serialize merged TOML: …"
    | ParseProviderConfig    // "Failed to parse provider config: …"

  /** The top-level union of `merge_toml_configs`: every key of either
      table, the provider's whole value wherever the provider has the key
      (nested tables are replaced, not merged), common's value elsewhere. */
  function MergeTables(common: TomlTable, provider: TomlTable): (m: TomlTable)
    ensures m.Keys == common.Keys + provider.Keys
    ensures forall k :: k in provider ==> m[k] == provider[k]
    ensures forall k :: k in common && k !in provider ==> m[k] == common[k]
  {
    common + provider
  }

  /** Merging the provider's table a second time changes nothing. */
  lemma MergeTablesIdempotent(common: TomlTable, provider: TomlTable)
    ensures MergeTables(MergeTables(common, provider), provider) == MergeTables(common, provider)
  {
  }

  /** `merge_toml_configs(common, provider)`. */
  function MergeTomlConfigs(common: string, provider: string, toml: TomlCodec): (r: Result<string, ConfigError>)
    ensures IsBlank(common) ==> r == Ok(provider)
    ensures !IsBlank(common) && IsBlank(provider) ==> r == Ok(common)
    ensures !IsBlank(common) && !IsBlank(provider) ==>
      && (toml.parse(common).None? ==> r == Err(ParseCommonToml))
      && (toml.parse(common).Some? && toml.parse(provider).None? ==> r == Err(ParseProviderToml))
      && (toml.parse(common).Some? && toml.parse(provider).Some? ==>
            var merged := MergeTables(toml.parse(common).value, toml.parse(provider).value);
            r == (if toml.serialize(merged).Some? then Ok(toml.serialize(merged).value) else Err(SerializeMergedToml)))
  {
    if IsBlank(common) then Ok(provider)
    else if IsBlank(provider) then Ok(common)
    else
      match toml.parse(common)
      case None => Err(ParseCommonToml)
      case Some(commonTable) =>
        match toml.parse(provider)
        case None => Err(ParseProviderToml)
        case Some(providerTable) =>
          match toml.serialize(MergeTables(commonTable, providerTable))
          case None => Err(SerializeMergedToml)
          case Some(text) => Ok(text)
  }

  /** With a serializer whose output parses back, the merged text reads as
      the provider's table laid over common's: every provider key keeps the
      provider's whole value, every common-only key keeps common's value. */
  lemma MergedTextReadsBack(common: string, provider: string, toml: TomlCodec)
    requires forall t :: toml.serialize(t).Some? && toml.parse(toml.serialize(t).value) == Some(t)
    requires !IsBlank(common) && !IsBlank(provider)
    requires toml.parse(common).Some? && toml.parse(provider).Some?
    ensures MergeTomlConfigs(common, provider, toml).Ok?
    ensures var c := toml.parse(common).value;
            var p := toml.parse(provider).value;
            var m := toml.parse(MergeTomlConfigs(common, provider, toml).value);
            && m.Some?
            && m.value.Keys == c.Keys + p.Keys
            && (forall k :: k in p ==> m.value[k] == p[k])
            && (forall k :: k in c && k !in p ==> m.value[k] == c[k])
  {
    var merged := MergeTables(toml.parse(common).value, toml.parse(provider).value);
    assert toml.serialize(merged).Some? && toml.parse(toml.serialize(merged).value) == Some(merged);
  }

  /** Merging a config with itself gives its own table back. */
  lemma MergeWithItself(text: string, toml: TomlCodec)
    requires !IsBlank(text) && toml.parse(text).Some?
    requires toml.serialize(toml.parse(text).value).Some?
    ensures MergeTomlConfigs(text, text, toml) == Ok(toml.serialize(toml.parse(text).value).value)
  {
    var t := toml.parse(text).value;
    assert MergeTables(t, t) == t;
  }

  /** The contents of `auth.json` (a JSON value) and `config.toml` (text). */
  datatype CodexFiles = CodexFiles(auth: Json, config: string)

  /** The auth object of a provider's settings: its `auth` field, `{}` when
      absent. */
  function SettingsAuth(settings: Json): Json {
    Get(settings, "auth").GetOr(Obj(map[]))
  }

  /** The TOML text of a provider's settings: its `config` field when that is
      a string, `""` otherwise. */
  function SettingsToml(settings: Json): string {
    AsStr(Get(settings, "config")).GetOr("")
  }

  /** The file contents `apply_config_to_file_public` writes for a provider
      whose `settings_config` is `settingsConfig`, given the text of the
      common config record (`None` when there is none). */
  function DeriveFiles(settingsConfig: string, common: Option<string>, json: JsonCodec, toml: TomlCodec): (r: Result<CodexFiles, ConfigError>)
    ensures json.parse(settingsConfig).None? ==> r == Err(ParseProviderConfig)
    ensures json.parse(settingsConfig).Some? ==>
      var settings := json.parse(settingsConfig).value;
      && (r.Ok? ==> r.value.auth == (if settings.Obj? && "auth" in settings.fields then settings.fields["auth"] else Obj(map[])))
      && (common.None? || IsBlank(common.value) ==>
            r == Ok(CodexFiles(SettingsAuth(settings), if settings.Obj? && "config" in settings.fields && settings.fields["config"].Str? then settings.fields["config"].s else "")))
      && (common.Some? && !IsBlank(common.value) ==>
            match MergeTomlConfigs(common.value, SettingsToml(settings), toml)
            case Ok(text) => r == Ok(CodexFiles(SettingsAuth(settings), text))
            case Err(e) => r == Err(e))
  {
    match json.parse(settingsConfig)
    case None => Err(ParseProviderConfig)
    case Some(settings) =>
      var auth := SettingsAuth(settings);
      var config := SettingsToml(settings);
      if common.Some? && !IsBlank(common.value) then
        match MergeTomlConfigs(common.value, config, toml)
        case Err(e) => Err(e)
        case Ok(merged) => Ok(CodexFiles(auth, merged))
      else Ok(CodexFiles(auth, config))
  }

  /** A blank provider TOML under a non-blank common config writes the
      common text verbatim, whatever the TOML codec. */
  lemma BlankProviderTomlWritesCommon(settings: Json, settingsConfig: string, common: string, json: JsonCodec, toml: TomlCodec)
    requires json.parse(settingsConfig) == Some(settings)
    requires !IsBlank(common) && IsBlank(SettingsToml(settings))
    ensures DeriveFiles(settingsConfig, Some(common), json, toml) == Ok(CodexFiles(SettingsAuth(settings), common))
  {
  }
}
