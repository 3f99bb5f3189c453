# AI Toolbox core, modelled in Dafny

AI Toolbox is a Tauri desktop app that manages configuration profiles for
AI coding tools. This project models four pieces of pure logic inside it
and proves properties of them:

- **Codex provider store** (`tauri/src/coding/codex/commands.rs`). The
  `codex_provider` table is a sequence of records, and each Tauri command
  is a pure state transition: list, create, update, delete, reorder,
  select and apply. The first-run import of the user's existing
  `auth.json` / `config.toml` is one more transition. The written file
  contents are derived from a provider's `settings_config` JSON, with a
  tool-wide common TOML merged under the provider's TOML.
- **oh-my-opencode JSON adapter** (`tauri/src/coding/oh_my_opencode/adapter.rs`).
  This covers the snake_case/camelCase compat getters, the recursive
  `deep_merge_json` and `clean_empty_values`, and the fault-tolerant
  record conversions.
- **Central skills paths** (`tauri/src/coding/skills/central_repo.rs`).
  This covers storing a skill directory relative to the central repository
  and resolving it back, detecting legacy absolute paths from any
  platform, and `~` expansion.
- **Tray menu** (`tauri/src/tray.rs`). This covers which database records
  become menu entries and their order, the flat menu layout with
  placeholders, how item ids are spelled, and how a clicked id is routed
  back to an action.

Files and modules:

| file | module | contents |
|---|---|---|
| `wrappers.dfy` | `Wrappers` | `Option`, `Result` |
| `json.dfy` | `Json` | the JSON tree, the `serde_json` accessors, a JSON codec as a pair of functions |
| `text.dfy` | `Text` | `trim` by Unicode White_Space, `replace('\\', "/")`, splitting and joining, the order of `String::cmp` |
| `stable_sort.dfy` | `StableSort` | the stable sort behind `sort_by_key` / `sort_by` |
| `paths.dfy` | `Paths` | Rust's `Path` as a sequence of components (Unix semantics): parse, render, join, `file_name`, `strip_prefix` |
| `omo_adapter.dfy` | `OmoAdapter` | the adapter functions |
| `central_repo.dfy` | `CentralRepo` | the skill path functions |
| `codex_config.dfy` | `CodexConfig` | the TOML merge and file derivation |
| `codex_store.dfy` | `CodexStore` | the provider table and its commands |
| `tray.dfy` | `Tray` | the tray menu |

Conventions:

- The clock (`Local::now`) is a `now: string` argument.
- The home directory (`dirs::home_dir`) is an `Option<Path>` argument.
- `Path::exists` is a boolean argument.
- Whether writing the two Codex files succeeded is a boolean argument.
- The text of `auth.json` / `config.toml` is a `FileRead` argument: missing, unreadable, or its contents.
- The `serde_json` and `toml` parsers and printers are function-valued codec arguments, about which nothing is assumed unless a lemma says so.
- A database query whose result could not be deserialised is an `Option` that is `None`.

## Model

| member | source | states |
|---|---|---|
| CodexStore.List | tauri/src/coding/codex/commands.rs:97-105 | the listed providers are a permutation of the table, ordered by `sort_index` (missing counts as 0), with records of equal index in table order |
| CodexStore.Create | tauri/src/coding/codex/commands.rs:122-164 | fails with "already exists" and leaves the table unchanged exactly when the id is taken; otherwise appends one record copying every input field, not applied, with created and updated time `now`; ids stay unique |
| CodexStore.Update | tauri/src/coding/codex/commands.rs:189-236 | fails with "Provider not found" exactly when the input `created_at` is empty and no record has the id; otherwise the record is replaced by the input with `updated_at = now` and `created_at` from the input if non-empty, else from the stored record; all other fields come from the input; ids stay unique |
| CodexStore.UpdatePreservesCreatedAt | tauri/src/coding/codex/commands.rs:199-204 | an update with an empty `created_at` succeeds on a stored id, keeps the stored creation time, and keeps every other record |
| CodexStore.Delete | tauri/src/coding/codex/commands.rs:271-273 | after delete no record has the id; every other record remains exactly as often as before and the table shrinks by the number of records with the id, so unique ids stay unique; an unknown id is not an error and leaves the table unchanged |
| CodexStore.CreateThenDelete | tauri/src/coding/codex/commands.rs:122-159 | deleting a just-created provider restores the table |
| CodexStore.Reorder | tauri/src/coding/codex/commands.rs:288-295 | a record whose id is listed gets the last position of that id as an `i32` `sort_index` and `updated_at = now`; records not listed are unchanged; unknown ids do nothing |
| CodexStore.ReorderByPosition | tauri/src/coding/codex/commands.rs:288-295 | with distinct ids (fewer than 2^31), the record named at position k gets sort index k |
| CodexStore.Select | tauri/src/coding/codex/commands.rs:310-321 | only `is_applied` and `updated_at` change; every record is stamped `now`; every applied record has the requested id, and as many records are applied as have that id, so with unique ids exactly one for a stored id and none for an unknown id |
| CodexStore.SelectThenDeleteLeavesNoneApplied | tauri/src/coding/codex/commands.rs:264-321 | applying a provider and then deleting it leaves no provider applied |
| CodexStore.PlanApply | tauri/src/coding/codex/commands.rs:345-394 | an unknown provider is "Provider not found"; otherwise the files are those derived from its `settings_config` and the common config, or that derivation's error |
| CodexStore.ApplyConfigInternal | tauri/src/coding/codex/commands.rs:466-481 | it succeeds exactly when the plan succeeds and the write succeeds; on success the table is the select of the id; on any failure (including a failed write) the table and every applied flag are unchanged |
| CodexStore.ApplySelectsOne | tauri/src/coding/codex/commands.rs:466-481 | a successful apply leaves exactly one provider applied, and it is the requested one |
| CodexStore.InitFromSettings | tauri/src/coding/codex/commands.rs:605-664 | it imports only into an empty table, and only when `auth.json` exists and parses; read and parse failures are errors that change nothing; the import is one applied record `default-config` with sort index 0, whose settings hold the auth object and the TOML text (empty when the TOML file is missing or unreadable) |
| CodexStore.ImportThenApplyRestoresFiles | tauri/src/coding/codex/commands.rs:595-664 | with a JSON codec that round-trips, importing and then applying the imported provider (no common config) writes back the same auth object and TOML text |
| CodexConfig.MergeTables | tauri/src/coding/codex/commands.rs:414-417 | the merged table has exactly the keys of both tables; a provider key keeps the provider's whole value; a common-only key keeps common's value |
| CodexConfig.MergeTablesIdempotent | tauri/src/coding/codex/commands.rs:414-417 | laying the provider's table over a merge a second time changes nothing |
| CodexConfig.MergeTomlConfigs | tauri/src/coding/codex/commands.rs:401-421 | a blank common gives the provider text verbatim; otherwise a blank provider gives the common text verbatim; otherwise an unparsable common, an unparsable provider and an unprintable merge are the three errors, in that order, and success prints the merged table |
| CodexConfig.MergedTextReadsBack | tauri/src/coding/codex/commands.rs:409-420 | with a printer whose output parses back, the merged text reads as exactly the key union, with provider values winning and common-only values kept |
| CodexConfig.MergeWithItself | tauri/src/coding/codex/commands.rs:401-421 | merging a parsable config with itself prints its own table |
| CodexConfig.DeriveFiles | tauri/src/coding/codex/commands.rs:363-394 | an unparsable `settings_config` is an error; auth is its `auth` field or `{}`; the TOML is its `config` field when that is a string, else empty; the common config is merged in only when present and non-blank, and its merge errors are passed on |
| CodexConfig.BlankProviderTomlWritesCommon | tauri/src/coding/codex/commands.rs:390-394 | a blank provider TOML under a non-blank common config writes the common text verbatim |
| OmoAdapter.GetStrCompat | tauri/src/coding/oh_my_opencode/adapter.rs:9-16 | the snake key is consulted first and the camel key only when the snake key is absent; a present non-string value, a missing key or a non-object gives the default |
| OmoAdapter.GetOptStrCompat | tauri/src/coding/oh_my_opencode/adapter.rs:19-25 | the same precedence, with `None` in place of the default |
| OmoAdapter.GetBoolCompat | tauri/src/coding/oh_my_opencode/adapter.rs:28-34 | the same precedence for booleans |
| OmoAdapter.CompatSpellingsAgree | tauri/src/coding/oh_my_opencode/adapter.rs:9-25 | a string stored under either spelling is read back, and a snake-case string wins over any camel-case value |
| OmoAdapter.MistypedSnakeShadowsCamel | tauri/src/coding/oh_my_opencode/adapter.rs:9-34 | a present but mistyped snake-case value hides a well-typed camel-case value and yields the default |
| OmoAdapter.DeepMerge | tauri/src/coding/oh_my_opencode/adapter.rs:38-52 | unless both sides are objects, base is unchanged; otherwise the keys are the union, base-only keys keep their values, and a shared key holds the recursive merge when both values are objects and the overlay's value otherwise |
| OmoAdapter.DeepMergeSelf | tauri/src/coding/oh_my_opencode/adapter.rs:38-52 | merging a value into itself changes nothing |
| OmoAdapter.DeepMergeIdempotent | tauri/src/coding/oh_my_opencode/adapter.rs:38-52 | merging the same overlay twice is the same as merging it once |
| OmoAdapter.OverlayLeavesWin | tauri/src/coding/oh_my_opencode/adapter.rs:41-46 | an overlay key whose value is not an object ends up with exactly the overlay's value |
| OmoAdapter.DeepMergeWithoutNestedClash | tauri/src/coding/oh_my_opencode/adapter.rs:38-52 | when no key holds an object on both sides, the deep merge is the plain overlay union |
| OmoAdapter.CleanEmpty | tauri/src/coding/oh_my_opencode/adapter.rs:56-67 | the result holds no null and no empty object at any depth through object fields; a non-object is unchanged; a field stays exactly when its cleaned value is neither null nor an empty object, and then holds that cleaned value, so scalars and arrays (even empty ones) are kept and nulls dropped |
| OmoAdapter.NestedContentKept | tauri/src/coding/oh_my_opencode/adapter.rs:58-63 | a nested object that keeps some content after cleaning stays, in its cleaned form |
| OmoAdapter.CleanFixedPoint | tauri/src/coding/oh_my_opencode/adapter.rs:56-67 | cleaning leaves a value unchanged exactly when it is already clean |
| OmoAdapter.CleanIdempotent | tauri/src/coding/oh_my_opencode/adapter.rs:56-67 | cleaning twice is cleaning once |
| OmoAdapter.NestedEmptiedObjectRemoved | tauri/src/coding/oh_my_opencode/adapter.rs:59-63 | children are cleaned before the test, so an object holding only a null is itself removed |
| OmoAdapter.FromDbValue | tauri/src/coding/oh_my_opencode/adapter.rs:74-89 | every field comes from its compat getter: id `""`, name "Unnamed Config" and not applied as defaults, `agents` under that one key, `other_fields` before `otherFields`, and the optional `created_at`/`createdAt` and `updated_at`/`updatedAt` times; a non-object gives the all-default config |
| OmoAdapter.FromDbValueSpellingsAgree | tauri/src/coding/oh_my_opencode/adapter.rs:74-89 | a snake-case record and the same record in camelCase convert to the same config |
| OmoAdapter.GlobalConfigFromDbValue | tauri/src/coding/oh_my_opencode/adapter.rs:100-136 | the id defaults to "global"; `schema`, the agent, `lsp`, `experimental`, the other fields and the update time follow the compat precedence; a non-object gives the all-default config |
| OmoAdapter.GlobalConfigSpellingsAgree | tauri/src/coding/oh_my_opencode/adapter.rs:100-136 | a global record in either spelling converts to the same config, with id "global" |
| CentralRepo.ToRelativeCentralPath | tauri/src/coding/skills/central_repo.rs:49-59 | a path under the central directory is stored as the remaining components joined by `/` with no backslash left; any other path is stored as its file name, or as its whole text with `\` replaced when it has none |
| CentralRepo.NativeAbsoluteIsAnyPlatformAbsolute | tauri/src/coding/skills/central_repo.rs:63-67 | every natively absolute path is recognised as absolute |
| CentralRepo.NotAnyPlatformAbsolute | tauri/src/coding/skills/central_repo.rs:63-78 | `C:`, `C:x…` and UNC `\\…` are not absolute, while `C:\…` and `d:/…` are |
| CentralRepo.NameNotAnyPlatformAbsolute | tauri/src/coding/skills/central_repo.rs:63-78 | a plain skill name is never taken for an absolute path |
| CentralRepo.LegacySkillName | tauri/src/coding/skills/central_repo.rs:93-96 | when the text split at `/` and `\` has a non-empty piece, the name is the last such piece and holds no separator; when every piece is empty, it is the whole text |
| CentralRepo.ResolveSkillCentralPath | tauri/src/coding/skills/central_repo.rs:82-102 | an existing native absolute path is used as it is; another absolute-looking path resolves to the central directory joined with its last segment; anything else is joined onto the central directory, giving a component-wise extension of it (`..` is not resolved) |
| CentralRepo.ParentDirNotResolved | tauri/src/coding/skills/central_repo.rs:100-101 | a stored `../x` resolves to the central directory followed by `..` and `x`, a path that names a sibling of the directory |
| CentralRepo.LegacyPathResolvesInsideCentral | tauri/src/coding/skills/central_repo.rs:91-98 | a legacy absolute path resolves to exactly the central directory plus its skill name |
| CentralRepo.StoreThenResolve | tauri/src/coding/skills/central_repo.rs:46-101 | storing a path below the central directory and resolving it gives the same path back, whether or not the path exists, for names without `\` whose joined text does not look absolute |
| CentralRepo.StoreThenResolveName | tauri/src/coding/skills/central_repo.rs:46-101 | the single-name case: `central/name` round-trips for a name without `\` |
| CentralRepo.BackslashNameDoesNotRoundTrip | tauri/src/coding/skills/central_repo.rs:51-53 | `/c/a\b` under central directory `/c` is stored as `a/b` and resolves to `/c/a/b`, not to the path stored |
| CentralRepo.ToRelativeCentralPathPortable | tauri/src/coding/skills/central_repo.rs:49-59 | the corrected stored form: for a well-formed path below the central directory the text parses back to exactly the components below it (behind a leading `.` when needed), never looks absolute unless the components themselves are absolute, and is the plain `/`-joined text whenever that does not look absolute; other paths are stored as before |
| CentralRepo.StoreThenResolvePortable | tauri/src/coding/skills/central_repo.rs:46-101 | with the corrected stored form, every path below the central directory round-trips, whatever characters its names hold, as long as the stored text does not look absolute |
| CentralRepo.BackslashNameRoundTripsPortably | tauri/src/coding/skills/central_repo.rs:51-53 | the corrected stored form brings `/c/a\b` back unchanged |
| CentralRepo.StoreThenResolvePortableAnyName | tauri/src/coding/skills/central_repo.rs:46-101 | with the corrected stored form and a non-empty central directory, every path below it round-trips, whatever its names are, including a first directory named like a drive |
| CentralRepo.DriveNameDoesNotRoundTrip | tauri/src/coding/skills/central_repo.rs:51-98 | `/c/C:/x` under central directory `/c` is stored as `C:/x`, which is taken for a Windows drive path and resolves to `/c/x`, not to the path stored |
| CentralRepo.DriveNameRoundTripsPortably | tauri/src/coding/skills/central_repo.rs:51-98 | the corrected stored form brings `/c/C:/x` back unchanged |
| CentralRepo.ExpandHomePath | tauri/src/coding/skills/central_repo.rs:105-119 | blank input is the "storage path is empty" error (and only blank input); `~` is home; `~/rest` is home joined with rest; a missing home is the "failed to resolve home directory" error; anything else is the trimmed text as a path |
| CentralRepo.ExpandIgnoresPadding | tauri/src/coding/skills/central_repo.rs:106 | whitespace around the input never changes the result |
| CentralRepo.ExpandTildeName | tauri/src/coding/skills/central_repo.rs:114-116 | `~/name` expands to home plus that one name |
| Tray.OmoEntryOf | tauri/src/tray.rs:112-123 | a config record is listed exactly when it has a string `name`, a string `config_id`/`configId` and a boolean `is_applied`/`isApplied` (snake case first); a listed record carries the id, name and applied flag that the adapter's `from_db_value` reads from it |
| Tray.ClaudeEntryOf | tauri/src/tray.rs:139-160 | the same listing rule for providers on `provider_id`/`providerId`; a listed record carries that id, name and applied flag; the sort index is the 64-bit integer `sort_index`/`sortIndex`, 0 when missing or not such an integer |
| Tray.Listed | tauri/src/tray.rs:109-163 | an entry is listed exactly when some record yields it; records that yield nothing are skipped |
| Tray.Positions | tauri/src/tray.rs:109-163 | the positions of the records that yield an entry: strictly increasing, and every such record's position is among them |
| Tray.ListedAtPositions | tauri/src/tray.rs:109-163 | the listed entries are, in query order and once per record, exactly what the records at those positions yield |
| Tray.SortOmo | tauri/src/tray.rs:127 | a permutation ordered by name, with equal names kept in query order |
| Tray.SortClaude | tauri/src/tray.rs:164 | a permutation ordered by sort index, with equal indices kept in query order |
| Tray.OmoItems | tauri/src/tray.rs:185-201 | no configs give the single placeholder; otherwise item i is a check item showing config i's name, checked exactly when it is applied, whose id the event handler routes back to applying config i |
| Tray.ClaudeItems | tauri/src/tray.rs:216-232 | the same for providers, routed back to applying provider i |
| Tray.Layout | tauri/src/tray.rs:168-247 | show, separator, config header, the config items or one placeholder, separator, provider header, the provider items or one placeholder, quit; length `6 + max(1, configs) + max(1, providers)` |
| Tray.OmoItemsList | tauri/src/tray.rs:127-201 | the items built from any reordering of the configs are exactly one per config, or only the placeholder when there are none |
| Tray.ClaudeItemsList | tauri/src/tray.rs:164-232 | the same for providers |
| Tray.RefreshMenu | tauri/src/tray.rs:103-247 | the refreshed menu has one slot per listed record (at least one per block), with an unreadable query listing nothing; the config entries appear in ascending name order; the config block lays out a permutation of the listed configs ordered by name, and the provider block one of the listed providers ordered by sort index, equal keys in query order in both |
| Tray.SortedLayout | tauri/src/tray.rs:127-247 | for any entries, the menu length, and each block a stable sort of its entries (configs by name, with ascending item texts; providers by sort index) |
| Tray.RefreshMenuListsRecords | tauri/src/tray.rs:109-247 | the config block holds exactly the listed configs (each checked when applied), or only the placeholder when there are none, and likewise the provider block |
| Tray.DispatchInvertsItemIds | tauri/src/tray.rs:29-61 | an event applies config x if and only if its id is `omo_config_` + x, applies provider x if and only if its id is `claude_provider_` + x, and shows the window if and only if it is `show` |
| Tray.LayoutRoutesBack | tauri/src/tray.rs:186-247 | clicking an entry of the laid-out menu does what it stands for: show opens the window, a config or provider entry applies its own record, and headers and placeholders do nothing |
| StableSort.SortByKey | tauri/src/tray.rs:164 | the result is a permutation, ordered by key, and the records with equal keys keep their input order |
| Text.Trim | tauri/src/coding/skills/central_repo.rs:106 | the result is `s` without whitespace padding on either side; it is empty exactly when `s` is all whitespace |
| Text.TrimIgnoresPadding | tauri/src/coding/codex/commands.rs:402-405 | whitespace on either side never changes what is trimmed |
| Paths.ParseRender | tauri/src/coding/skills/central_repo.rs:83 | rendering a well-formed path and parsing the text gives the same components back |

## Behaviour notes

- `update_codex_provider` fails only when the input's `created_at` is empty and the id is absent. With a non-empty `created_at` it creates the record (`Update`).
- `delete_codex_provider` of an unknown id succeeds and changes nothing (`Delete`).
- `select_codex_provider` of an unknown id succeeds and leaves no provider applied (`Select`). Only `apply_config_to_file_public`, which looks the provider up first, reports "Provider not found" (`PlanApply`).

## Findings

| source | as written | input that shows it | evidently intended | confidence | as-written member | corrected member |
|---|---|---|---|---|---|---|
| tauri/src/coding/skills/central_repo.rs:51-53 | the stored relative text replaces every `\` by `/`, which on a Unix host also rewrites a `\` inside a directory name | central directory `/c`, skill directory `/c/a\b`: stored as `a/b`, resolved to `/c/a/b` | the stored text resolves back to the directory it was stored from; only Windows separators become `/` | low: names with `\` are rare on Unix; not executed | CentralRepo.BackslashNameDoesNotRoundTrip | CentralRepo.ToRelativeCentralPathPortable |
| tauri/src/coding/skills/central_repo.rs:51-98 | the stored relative text of a directory whose first name is a letter and a colon (legal on Unix) starts like a Windows drive path, so resolving takes it for a legacy absolute path and keeps only its last name | central directory `/c`, skill directory `/c/C:/x`: stored as `C:/x`, resolved to `/c/x` | a path stored relative to the central directory is never mistaken for a legacy absolute path | low: such directory names are rare; not executed | CentralRepo.DriveNameDoesNotRoundTrip | CentralRepo.ToRelativeCentralPathPortable |

## Left out

- Database and file-system effects (the SurrealDB queries, `fs::read_to_string`, `fs::write`, `create_dir_all`, `Path::exists`). The table is a sequence of records. Existence, file contents and write outcomes are arguments. A query that fails outright (the `?` after `query`) aborts a command and is not modelled.
- Failed existence checks: `create_codex_provider` goes on creating when its existence query cannot be deserialised. `init_codex_provider_from_settings` likewise treats an unreadable count as an empty table. The model always sees the table.
- Table order: SurrealDB keeps records by key. The model keeps insertion order, and an update moves the record to the end. Only `list_codex_providers` (which sorts) and the tray expose an order.
- Re-applying an updated provider to the files (`update_codex_provider` when `is_applied`) only prints errors. The model's `Update` does not write files; `ApplyConfigInternal` is the write path.
- `save_codex_common_config`, `get_codex_common_config` and `read_codex_settings` are plumbing around the same codecs. The common config enters the model as the `common` argument of `PlanApply` and `DeriveFiles`.
- The config-directory lookup from `USERPROFILE`/`HOME`, `reveal_codex_config_folder` (which spawns a file manager), `resolve_central_repo_path` and `ensure_central_repo` are environment, process and directory effects.
- Tauri plumbing: menu widget construction, `emit("config-changed")`, window show and focus, the dock policy, and the left-click handler on the tray icon. `Dispatch` returns the action instead of performing it. The oh-my-opencode and Claude Code apply functions it would call are not part of this model.
- Concurrency: the async runtime, the database mutex, and the `spawn` of apply tasks.
- TOML and JSON text: parsing and printing are codec arguments. Float and datetime TOML values are opaque (`TOther`). JSON numbers are integers.
- `to_db_value` and `global_config_to_db_value` are `serde_json::to_value` on the config types.
- OmoAdapter.GlobalConfigFromDbValue: the three disabled-name lists (`serde_json::from_value` into string lists) are not fields of the model.
- Windows native paths: `Paths` follows Rust's Unix `Path` (`/` is the only separator; the text is parsed into components, so `a//b` and `a/./b` read as `a/b`). Windows paths appear only as text checked by `IsAnyPlatformAbsolute`.
- `to_string_lossy` is the identity: strings are sequences of Unicode scalar values.
- CentralRepo.ResolveSkillCentralPath and CentralRepo.ExpandHomePath require the central and home directories to be well-formed component sequences. Every path the model builds is one, so these are invariants of the path type rather than demands of the source.
- CodexStore.ReorderByPosition: the sort index is exactly the position only for fewer than 2^31 ids. Above that `index as i32` wraps, which `Reorder` itself models through `I32`.
- CentralRepo.StoreThenResolve: holds only for names without `\` whose joined text does not look like a Windows drive path. A name holding `\`, or a first directory named like `C:`, does not round-trip through `ToRelativeCentralPath` as written (see Findings); `StoreThenResolvePortableAnyName` states the round trip for the corrected stored form.
- CentralRepo.StoreThenResolvePortable: keeps the requirement that the joined text does not look absolute, so it also covers an empty central directory; `StoreThenResolvePortableAnyName` drops that requirement for a non-empty central directory, because the leading `.` it relies on is removed only when joined onto a non-empty path.
- CentralRepo.StoreThenResolveName: holds only for a name without `\`, for the same reason.
- Text.Trim and everything built on it: whitespace is the Unicode White_Space property, as in `char::is_whitespace`. There is no normalisation or case folding.
