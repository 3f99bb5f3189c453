/** The `codex_provider` table as a sequence of records, and the Tauri
    commands over it as pure state transitions: list, create, update,
    delete, reorder, select, apply and the first-run import. The clock is
    the `now` argument; the outcome of writing the two Codex files is the
    `writeOk` argument. */
module CodexStore {
  import opened Wrappers
  import opened Json
  import opened Text
  import opened StableSort
  import opened CodexConfig

  /** `CodexProviderContent` as stored, and `CodexProvider` as returned
      (`providerId` is the returned `id`). */
  datatype ProviderRecord = ProviderRecord(
    providerId: string,
    name: string,
    category: string,
    settingsConfig: string,
    sourceProviderId: Option<string>,
    websiteUrl: Option<string>,
    notes: Option<string>,
    icon: Option<string>,
    iconColor: Option<string>,
    sortIndex: Option<int>,
    isApplied: bool,
    createdAt: string,
    updatedAt: string)

  /** `CodexProviderInput`, the argument of create. */
  datatype ProviderInput = ProviderInput(
    id: string,
    name: string,
    category: string,
    settingsConfig: string,
    sourceProviderId: Option<string>,
    websiteUrl: Option<string>,
    notes: Option<string>,
    icon: Option<string>,
    iconColor: Option<string>,
    sortIndex: Option<int>)

  type Store = seq<ProviderRecord>

  datatype StoreError =
    | AlreadyExists(id: string)   // "Codex provider with ID '<id>' already exists"
    | NotFound                    // "Provider not found"
    | Config(cause: ConfigError)  // settings_config or TOML could not be used
    | WriteFailed                 // auth.json / config.toml could not be written
    | ReadAuthFailed              // "Failed to read auth.json: …"
    | ParseAuthFailed             // "Failed to parse auth.json: …"

  /** The table after a command, and what the command returned. */
  datatype Step<T> = Step(store: Store, result: Result<T, StoreError>)

  predicate HasId(store: Store, id: string) {
    exists i :: 0 <= i < |store| && store[i].providerId == id
  }

  /** Records are keyed by `codex_provider:<provider_id>`, so no two records
      share a provider id. */
  predicate UniqueIds(store: Store) {
    forall i, j :: 0 <= i < j < |store| ==> store[i].providerId != store[j].providerId
  }

  /** `WHERE provider_id = $id LIMIT 1`: the first matching record. */
  function FindFirst(store: Store, id: string): (r: Option<ProviderRecord>)
    ensures r.None? <==> !HasId(store, id)
    ensures r.Some? ==> r.value.providerId == id && r.value in store
    ensures r.Some? && UniqueIds(store) ==> forall i :: 0 <= i < |store| && store[i].providerId == id ==> r.value == store[i]
  {
    if store == [] then None
    else if store[0].providerId == id then Some(store[0])
    else
      var r := FindFirst(store[1..], id);
      assert forall i :: 1 <= i < |store| ==> store[1..][i - 1] == store[i];
      r
  }

  /** The table without the record(s) keyed `id`. */
  function Without(store: Store, id: string): (r: Store)
    ensures !HasId(r, id)
    ensures forall x :: x in r <==> x in store && x.providerId != id
    ensures UniqueIds(store) ==> UniqueIds(r)
    ensures |r| <= |store|
  {
    if store == [] then []
    else
      var rest := Without(store[1..], id);
      if store[0].providerId == id then rest
      else
        assert forall i :: 0 <= i < |rest| ==> rest[i] in store[1..];
        [store[0]] + rest
  }

  /** Removing the records keyed `id` drops exactly those: one fewer
      record per match, and every other record as often as before. */
  lemma {:induction false} WithoutLength(store: Store, id: string)
    ensures |Without(store, id)| == |store| - IdCount(store, id)
    decreases |store|
  {
    if store != [] {
      WithoutLength(store[1..], id);
    }
  }

  /** A record not keyed `id` occurs in `Without(store, id)` as often as in
      `store`. */
  lemma {:induction false} WithoutKeeps(store: Store, id: string, x: ProviderRecord)
    requires x.providerId != id
    ensures multiset(Without(store, id))[x] == multiset(store)[x]
    decreases |store|
  {
    if store != [] {
      WithoutKeeps(store[1..], id, x);
      assert store == [store[0]] + store[1..];
      assert multiset(store)[x] == multiset([store[0]])[x] + multiset(store[1..])[x];
      if store[0].providerId != id {
        var rest := Without(store[1..], id);
        assert Without(store, id) == [store[0]] + rest;
        assert multiset(Without(store, id))[x] == multiset([store[0]])[x] + multiset(rest)[x];
      }
    }
  }

  lemma {:induction false} WithoutAbsent(store: Store, id: string)
    requires !HasId(store, id)
    ensures Without(store, id) == store
    decreases |store|
  {
    if store != [] {
      WithoutAbsent(store[1..], id);
      assert store == [store[0]] + store[1..];
    }
  }

  lemma {:induction false} WithoutAppend(store: Store, x: ProviderRecord, id: string)
    requires x.providerId == id
    ensures Without(store + [x], id) == Without(store, id)
    decreases |store|
  {
    if store == [] {
      assert Without([x][1..], id) == [];
    } else {
      assert (store + [x])[1..] == store[1..] + [x];
      WithoutAppend(store[1..], x, id);
    }
  }

  // ---------------------------------------------------------------------
  // list_codex_providers
  // ---------------------------------------------------------------------

  function SortKey(p: ProviderRecord): int {
    p.sortIndex.GetOr(0)
  }

  /** `list_codex_providers`: the records stably sorted by `sort_index`, a
      missing index counting as 0. */
  function List(store: Store): (r: Store)
    ensures multiset(r) == multiset(store)
    ensures forall i, j :: 0 <= i < j < |r| ==> SortKey(r[i]) <= SortKey(r[j])
    ensures forall k :: WithKey(r, SortKey, k) == WithKey(store, SortKey, k)
  {
    SortByKey(store, SortKey, IntLeq)
  }

  // ---------------------------------------------------------------------
  // create_codex_provider
  // ---------------------------------------------------------------------

  /** The stored record carries every field of the input under the same
      name. */
  predicate CopiesInput(p: ProviderRecord, input: ProviderInput) {
    && p.providerId == input.id
    && p.name == input.name
    && p.category == input.category
    && p.settingsConfig == input.settingsConfig
    && p.sourceProviderId == input.sourceProviderId
    && p.websiteUrl == input.websiteUrl
    && p.notes == input.notes
    && p.icon == input.icon
    && p.iconColor == input.iconColor
    && p.sortIndex == input.sortIndex
  }

  /** `create_codex_provider`: refuses an id that is already taken and
      otherwise adds one record, not applied, created and updated `now`. */
  function Create(store: Store, input: ProviderInput, now: string): (r: Step<ProviderRecord>)
    ensures r.result.Err? <==> HasId(store, input.id)
    ensures r.result.Err? ==> r.store == store && r.result.error == AlreadyExists(input.id)
    ensures r.result.Ok? ==>
      var p := r.result.value;
      && r.store == store + [p]
      && CopiesInput(p, input)
      && !p.isApplied
      && p.createdAt == now && p.updatedAt == now
    ensures UniqueIds(store) ==> UniqueIds(r.store)
  {
    if FindFirst(store, input.id).Some? then Step(store, Err(AlreadyExists(input.id)))
    else
      var p := ProviderRecord(input.id, input.name, input.category, input.settingsConfig,
                              input.sourceProviderId, input.websiteUrl, input.notes, input.icon,
                              input.iconColor, input.sortIndex, false, now, now);
      Step(store + [p], Ok(p))
  }

  // ---------------------------------------------------------------------
  // update_codex_provider
  // ---------------------------------------------------------------------

  /** `update_codex_provider`: replaces the record keyed `p.providerId` by
      `p` with `updated_at = now`; `created_at` comes from `p` when it is
      non-empty, else from the stored record, and only then can a missing
      record make it fail. With a non-empty `created_at` a missing record is
      simply created. */
  function Update(store: Store, p: ProviderRecord, now: string): (r: Step<ProviderRecord>)
    ensures r.result.Err? <==> p.createdAt == "" && !HasId(store, p.providerId)
    ensures r.result.Err? ==> r.store == store && r.result.error == NotFound
    ensures r.result.Ok? ==>
      var v := r.result.value;
      && r.store == Without(store, p.providerId) + [v]
      && v.updatedAt == now
      && (p.createdAt != "" ==> v.createdAt == p.createdAt)
      && (p.createdAt == "" ==> v.createdAt == FindFirst(store, p.providerId).value.createdAt)
      && v.(createdAt := p.createdAt, updatedAt := p.updatedAt) == p
    ensures UniqueIds(store) ==> UniqueIds(r.store)
  {
    var existing := FindFirst(store, p.providerId);
    if p.createdAt == "" && existing.None? then Step(store, Err(NotFound))
    else
      var createdAt := if p.createdAt != "" then p.createdAt else existing.value.createdAt;
      var v := p.(createdAt := createdAt, updatedAt := now);
      Step(Without(store, p.providerId) + [v], Ok(v))
  }

  /** An update with an empty `created_at` keeps the stored record's
      creation time; every other record stays in the table. */
  lemma UpdatePreservesCreatedAt(store: Store, i: nat, p: ProviderRecord, now: string)
    requires UniqueIds(store) && i < |store|
    requires store[i].providerId == p.providerId && p.createdAt == ""
    ensures Update(store, p, now).result.Ok?
    ensures Update(store, p, now).result.value.createdAt == store[i].createdAt
    ensures forall x :: x in store && x.providerId != p.providerId ==> x in Update(store, p, now).store
  {
  }

  // ---------------------------------------------------------------------
  // delete_codex_provider
  // ---------------------------------------------------------------------

  /** `delete_codex_provider`: removes the record keyed `id`; an unknown id
      is not an error. */
  function Delete(store: Store, id: string): (r: Store)
    ensures !HasId(r, id)
    ensures forall x :: x in r <==> x in store && x.providerId != id
    ensures |r| == |store| - IdCount(store, id)
    ensures forall x: ProviderRecord :: x.providerId != id ==> multiset(r)[x] == multiset(store)[x]
    ensures UniqueIds(store) ==> UniqueIds(r)
    ensures !HasId(store, id) ==> r == store
  {
    WithoutLength(store, id);
    assert forall x: ProviderRecord :: x.providerId != id ==> multiset(Without(store, id))[x] == multiset(store)[x] by {
      forall x: ProviderRecord | x.providerId != id
        ensures multiset(Without(store, id))[x] == multiset(store)[x]
      {
        WithoutKeeps(store, id, x);
      }
    }
    assert !HasId(store, id) ==> Without(store, id) == store by {
      if !HasId(store, id) {
        WithoutAbsent(store, id);
      }
    }
    Without(store, id)
  }

  /** Deleting what was just created restores the table. */
  lemma CreateThenDelete(store: Store, input: ProviderInput, now: string)
    requires !HasId(store, input.id)
    ensures Delete(Create(store, input, now).store, input.id) == store
  {
    var r := Create(store, input, now);
    WithoutAppend(store, r.result.value, input.id);
    WithoutAbsent(store, input.id);
  }

  // ---------------------------------------------------------------------
  // reorder_codex_providers
  // ---------------------------------------------------------------------

  /** The last position of `id` in `ids`. */
  function LastIndex(ids: seq<string>, id: string): (r: Option<nat>)
    ensures r.None? <==> id !in ids
    ensures r.Some? ==> r.value < |ids| && ids[r.value] == id && forall j :: r.value < j < |ids| ==> ids[j] != id
  {
    if ids == [] then None
    else if ids[|ids| - 1] == id then Some(|ids| - 1)
    else
      var r := LastIndex(ids[..|ids| - 1], id);
      assert ids == ids[..|ids| - 1] + [ids[|ids| - 1]];
      r
  }

  /** `index as i32`: the position modulo 2^32, read as a signed number. */
  function I32(n: nat): int {
    var m := n % 0x1_0000_0000;
    if m < 0x8000_0000 then m else m - 0x1_0000_0000
  }

  /** One `UPDATE … SET sort_index = $index, updated_at = $now WHERE
      provider_id = $id`. */
  function SetSortIndex(store: Store, id: string, index: int, now: string): (r: Store)
    ensures |r| == |store|
  {
    seq(|store|, i requires 0 <= i < |store| =>
      if store[i].providerId == id then store[i].(sortIndex := Some(index), updatedAt := now) else store[i])
  }

  /** `reorder_codex_providers`: each record named in `ids` gets its last
      position there as `sort_index` and `updated_at = now`; unknown ids do
      nothing; unnamed records are untouched. */
  function Reorder(store: Store, ids: seq<string>, now: string): (r: Store)
    ensures |r| == |store|
    ensures forall i :: 0 <= i < |store| && store[i].providerId in ids ==>
      r[i] == store[i].(sortIndex := Some(I32(LastIndex(ids, store[i].providerId).value)), updatedAt := now)
    ensures forall i :: 0 <= i < |store| && store[i].providerId !in ids ==> r[i] == store[i]
    decreases |ids|
  {
    if ids == [] then store
    else
      var prefix := ids[..|ids| - 1];
      assert ids == prefix + [ids[|ids| - 1]];
      SetSortIndex(Reorder(store, prefix, now), ids[|ids| - 1], I32(|ids| - 1), now)
  }

  /** With distinct ids, the record named at position `k` gets sort index
      `k` (for fewer than 2^31 ids). */
  lemma ReorderByPosition(store: Store, ids: seq<string>, now: string, i: nat, k: nat)
    requires forall a, b :: 0 <= a < b < |ids| ==> ids[a] != ids[b]
    requires |ids| <= 0x8000_0000
    requires i < |store| && k < |ids| && store[i].providerId == ids[k]
    ensures Reorder(store, ids, now)[i].sortIndex == Some(k)
    ensures Reorder(store, ids, now)[i].updatedAt == now
  {
  }

  // ---------------------------------------------------------------------
  // select_codex_provider
  // ---------------------------------------------------------------------

  /** `select_codex_provider`: afterwards the records keyed `id` are the
      applied ones (one when ids are unique and `id` is known, none when it
      is unknown), every record is stamped `now`, and nothing else changes. */
  function Select(store: Store, id: string, now: string): (r: Store)
    ensures |r| == |store|
    ensures forall i :: 0 <= i < |r| ==>
      r[i].(isApplied := store[i].isApplied, updatedAt := store[i].updatedAt) == store[i]
    ensures forall i :: 0 <= i < |r| ==> r[i].updatedAt == now
    ensures forall x :: x in r && x.isApplied ==> x.providerId == id
    ensures AppliedCount(r) == IdCount(store, id)
    ensures UniqueIds(store) ==> AppliedCount(r) == (if HasId(store, id) then 1 else 0)
  {
    var r := seq(|store|, i requires 0 <= i < |store| =>
      store[i].(isApplied := store[i].providerId == id, updatedAt := now));
    AppliedCountMarks(r, store, id);
    assert UniqueIds(store) ==> IdCount(store, id) == (if HasId(store, id) then 1 else 0) by {
      if UniqueIds(store) {
        UniqueIdCount(store, id);
      }
    }
    r
  }

  /** The number of applied records. */
  function AppliedCount(store: Store): nat {
    if store == [] then 0 else (if store[0].isApplied then 1 else 0) + AppliedCount(store[1..])
  }

  /** The number of records keyed `id`. */
  function IdCount(store: Store, id: string): nat {
    if store == [] then 0 else (if store[0].providerId == id then 1 else 0) + IdCount(store[1..], id)
  }

  /** When exactly the records of `store` keyed `id` are applied in `r`, the
      two counts agree. */
  lemma {:induction false} AppliedCountMarks(r: Store, store: Store, id: string)
    requires |r| == |store|
    requires forall i :: 0 <= i < |r| ==> (r[i].isApplied <==> store[i].providerId == id)
    ensures AppliedCount(r) == IdCount(store, id)
    decreases |r|
  {
    if r != [] {
      assert forall i :: 0 <= i < |r[1..]| ==> r[1..][i] == r[i + 1] && store[1..][i] == store[i + 1];
      AppliedCountMarks(r[1..], store[1..], id);
    }
  }

  lemma {:induction false} UniqueIdCount(store: Store, id: string)
    requires UniqueIds(store)
    ensures IdCount(store, id) == (if HasId(store, id) then 1 else 0)
    decreases |store|
  {
    if store != [] {
      var rest := store[1..];
      assert UniqueIds(rest) by {
        forall i, j | 0 <= i < j < |rest| ensures rest[i].providerId != rest[j].providerId {
          assert rest[i] == store[i + 1] && rest[j] == store[j + 1];
        }
      }
      UniqueIdCount(rest, id);
      if store[0].providerId == id {
        assert !HasId(rest, id);
      } else {
        assert HasId(store, id) <==> HasId(rest, id) by {
          if HasId(store, id) {
            var j :| 0 <= j < |store| && store[j].providerId == id;
            assert rest[j - 1].providerId == id;
          }
          if HasId(rest, id) {
            var j :| 0 <= j < |rest| && rest[j].providerId == id;
            assert store[j + 1].providerId == id;
          }
        }
      }
    }
  }

  /** Applying a provider and then deleting it leaves no provider applied. */
  lemma SelectThenDeleteLeavesNoneApplied(store: Store, id: string, now: string)
    ensures forall x :: x in Delete(Select(store, id, now), id) ==> !x.isApplied
  {
  }

  // ---------------------------------------------------------------------
  // apply_config_to_file_public / apply_config_internal
  // ---------------------------------------------------------------------

  /** The files `apply_config_to_file_public` would write for provider `id`,
      or why it stops before writing. `common` is the text of the common
      config record, if any. */
  function PlanApply(store: Store, common: Option<string>, id: string, json: JsonCodec, toml: TomlCodec): (r: Result<CodexFiles, StoreError>)
    ensures !HasId(store, id) ==> r == Err(NotFound)
    ensures HasId(store, id) ==>
      match DeriveFiles(FindFirst(store, id).value.settingsConfig, common, json, toml)
      case Ok(files) => r == Ok(files)
      case Err(e) => r == Err(Config(e))
  {
    match FindFirst(store, id)
    case None => Err(NotFound)
    case Some(p) =>
      match DeriveFiles(p.settingsConfig, common, json, toml)
      case Err(e) => Err(Config(e))
      case Ok(files) => Ok(files)
  }

  /** `apply_config_internal`: writes the files and only then marks `id` as
      the one applied provider. Whenever it fails the applied flags (indeed
      the whole table) are left as they were. */
  function ApplyConfigInternal(store: Store, common: Option<string>, id: string, json: JsonCodec, toml: TomlCodec, writeOk: bool, now: string): (r: Step<CodexFiles>)
    ensures r.result.Err? ==> r.store == store
    ensures r.result.Ok? <==> PlanApply(store, common, id, json, toml).Ok? && writeOk
    ensures r.result.Ok? ==>
      && r.result.value == PlanApply(store, common, id, json, toml).value
      && r.store == Select(store, id, now)
    ensures PlanApply(store, common, id, json, toml).Ok? && !writeOk ==> r.result == Err(WriteFailed)
  {
    match PlanApply(store, common, id, json, toml)
    case Err(e) => Step(store, Err(e))
    case Ok(files) =>
      if writeOk then Step(Select(store, id, now), Ok(files)) else Step(store, Err(WriteFailed))
  }

  /** A successful apply leaves exactly one provider applied: the one asked
      for. */
  lemma ApplySelectsOne(store: Store, common: Option<string>, id: string, json: JsonCodec, toml: TomlCodec, now: string)
    requires UniqueIds(store)
    requires ApplyConfigInternal(store, common, id, json, toml, true, now).result.Ok?
    ensures var s := ApplyConfigInternal(store, common, id, json, toml, true, now).store;
            && AppliedCount(s) == 1
            && forall x :: x in s && x.isApplied ==> x.providerId == id
  {
  }

  // ---------------------------------------------------------------------
  // init_codex_provider_from_settings
  // ---------------------------------------------------------------------

  /** What reading a file gave. */
  datatype FileRead = Missing | Unreadable | Contents(text: string)

  const DefaultProviderId: string := "default-config"
  const DefaultProviderName: string := "默认配置"
  const DefaultProviderNotes: string := "从配置文件自动导入"

  /** The `config.toml` text the import uses: a missing or unreadable file
      counts as empty. */
  function ImportedToml(config: FileRead): string {
    if config.Contents? then config.text else ""
  }

  /** `init_codex_provider_from_settings`: when the table is empty and
      `auth.json` exists and parses, imports the two files as one applied
      provider `default-config`. The result says whether it imported. */
  function InitFromSettings(store: Store, auth: FileRead, config: FileRead, json: JsonCodec, now: string): (r: Step<bool>)
    ensures r.result != Ok(true) ==> r.store == store
    ensures |store| > 0 || auth.Missing? ==> r == Step(store, Ok(false))
    ensures r.result == Ok(true) <==> |store| == 0 && auth.Contents? && json.parse(auth.text).Some?
    ensures |store| == 0 && auth.Unreadable? ==> r.result == Err(ReadAuthFailed)
    ensures |store| == 0 && auth.Contents? && json.parse(auth.text).None? ==> r.result == Err(ParseAuthFailed)
    ensures r.result == Ok(true) ==>
      && |r.store| == 1
      && r.store[0].providerId == DefaultProviderId
      && r.store[0].isApplied
      && r.store[0].sortIndex == Some(0)
      && r.store[0].settingsConfig ==
           json.serialize(Obj(map["auth" := json.parse(auth.text).value, "config" := Str(ImportedToml(config))]))
  {
    if |store| > 0 then Step(store, Ok(false))
    else
      match auth
      case Missing => Step(store, Ok(false))
      case Unreadable => Step(store, Err(ReadAuthFailed))
      case Contents(text) =>
        match json.parse(text)
        case None => Step(store, Err(ParseAuthFailed))
        case Some(authValue) =>
          var settings := Obj(map["auth" := authValue, "config" := Str(ImportedToml(config))]);
          var p := ProviderRecord(DefaultProviderId, DefaultProviderName, "", json.serialize(settings),
                                  None, None, Some(DefaultProviderNotes), None, None, Some(0), true, now, now);
          Step([p], Ok(true))
  }

  /** Importing the files and then applying the imported provider (with no
      common config in the way) writes back the same auth object and the
      same TOML text, provided the JSON text round-trips. */
  lemma ImportThenApplyRestoresFiles(authText: string, config: FileRead, json: JsonCodec, toml: TomlCodec, common: Option<string>, now: string)
    requires forall j :: json.parse(json.serialize(j)) == Some(j)
    requires json.parse(authText).Some?
    requires common.None? || IsBlank(common.value)
    ensures var r := InitFromSettings([], Contents(authText), config, json, now);
            && r.result == Ok(true)
            && PlanApply(r.store, common, DefaultProviderId, json, toml)
               == Ok(CodexFiles(json.parse(authText).value, ImportedToml(config)))
  {
    var r := InitFromSettings([], Contents(authText), config, json, now);
    var settings := Obj(map["auth" := json.parse(authText).value, "config" := Str(ImportedToml(config))]);
    assert json.parse(json.serialize(settings)) == Some(settings);
    assert HasId(r.store, DefaultProviderId) by { assert r.store[0].providerId == DefaultProviderId; }
  }
}
