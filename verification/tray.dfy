/** The tray menu: which database records become menu entries, in which
    order, how the flat menu is laid out, how each entry's id is spelled,
    and how a clicked id is routed back to an action. */
module Tray {
  import opened Wrappers
  import opened Json
  import opened Text
  import opened StableSort
  import OmoAdapter

  // ---------------------------------------------------------------------
  // Records to entries
  // ---------------------------------------------------------------------

  /** `(config_id, name, is_applied)` of an oh-my-opencode config. */
  datatype OmoEntry = OmoEntry(configId: string, name: string, applied: bool)

  /** `(provider_id, name, is_applied, sort_index)` of a Claude provider. */
  datatype ClaudeEntry = ClaudeEntry(providerId: string, name: string, applied: bool, sortIndex: int)

  /** A config record is listed only when its `name` is a string, its
      `config_id` (else `configId`) is a string and its `is_applied` (else
      `isApplied`) is a boolean. */
  function OmoEntryOf(record: Json): (e: Option<OmoEntry>)
    ensures e.Some? <==>
      && AsStr(Get(record, "name")).Some?
      && AsStr(GetEither(record, "config_id", "configId")).Some?
      && AsBool(GetEither(record, "is_applied", "isApplied")).Some?
    ensures e.Some? ==>
      var c := OmoAdapter.FromDbValue(record);
      e.value == OmoEntry(c.id, c.name, c.isApplied)
  {
    var name := AsStr(Get(record, "name"));
    var id := AsStr(GetEither(record, "config_id", "configId"));
    var applied := AsBool(GetEither(record, "is_applied", "isApplied"));
    if name.Some? && id.Some? && applied.Some? then Some(OmoEntry(id.value, name.value, applied.value)) else None
  }

  /** A provider record is listed under the same rule on `name`,
      `provider_id` / `providerId` and `is_applied` / `isApplied`; its
      `sort_index` / `sortIndex` counts only when it is a 64-bit integer and
      is 0 otherwise. */
  function ClaudeEntryOf(record: Json): (e: Option<ClaudeEntry>)
    ensures e.Some? <==>
      && AsStr(Get(record, "name")).Some?
      && AsStr(GetEither(record, "provider_id", "providerId")).Some?
      && AsBool(GetEither(record, "is_applied", "isApplied")).Some?
    ensures e.Some? ==>
      && e.value.providerId == AsStr(GetEither(record, "provider_id", "providerId")).value
      && e.value.name == AsStr(Get(record, "name")).value
      && e.value.applied == AsBool(GetEither(record, "is_applied", "isApplied")).value
    ensures e.Some? ==> e.value.sortIndex == AsI64(GetEither(record, "sort_index", "sortIndex")).GetOr(0)
    ensures e.Some? ==> I64Min <= e.value.sortIndex <= I64Max
  {
    var name := AsStr(Get(record, "name"));
    var id := AsStr(GetEither(record, "provider_id", "providerId"));
    var applied := AsBool(GetEither(record, "is_applied", "isApplied"));
    var sortIndex := AsI64(GetEither(record, "sort_index", "sortIndex")).GetOr(0);
    if name.Some? && id.Some? && applied.Some? then Some(ClaudeEntry(id.value, name.value, applied.value, sortIndex)) else None
  }

  /** The entries `f` reads off `records`, in query order; records it does
      not list are skipped silently. */
  function Listed<T(!new)>(records: seq<Json>, f: Json -> Option<T>): (r: seq<T>)
    ensures |r| <= |records|
    ensures forall e :: e in r <==> exists rec :: rec in records && f(rec) == Some(e)
  {
    if records == [] then []
    else
      var rest := Listed(records[1..], f);
      assert forall rec :: rec in records <==> rec == records[0] || rec in records[1..];
      match f(records[0])
      case Some(e) => [e] + rest
      case None => rest
  }

  /** The positions of the records `f` lists, in increasing order; built
      from the back, independently of `Listed`. */
  function Positions<T>(records: seq<Json>, f: Json -> Option<T>): (ps: seq<nat>)
    ensures forall k :: 0 <= k < |ps| ==> ps[k] < |records| && f(records[ps[k]]).Some?
    ensures forall k, l :: 0 <= k < l < |ps| ==> ps[k] < ps[l]
    ensures forall i :: 0 <= i < |records| && f(records[i]).Some? ==> i in ps
    decreases |records|
  {
    if records == [] then []
    else
      var last := |records| - 1;
      var front := records[..last];
      var ps := Positions(front, f);
      assert forall k :: 0 <= k < |ps| ==> front[ps[k]] == records[ps[k]];
      assert forall i :: 0 <= i < last ==> front[i] == records[i];
      ps + (if f(records[last]).Some? then [last] else [])
  }

  /** `Listed` keeps every listed record, once per occurrence and in query
      order: its k-th entry is what `f` reads off the k-th listed record. */
  lemma {:induction false} ListedAtPositions<T(!new)>(records: seq<Json>, f: Json -> Option<T>)
    ensures var r := Listed(records, f);
            var ps := Positions(records, f);
            && |r| == |ps|
            && forall k :: 0 <= k < |ps| ==> f(records[ps[k]]) == Some(r[k])
    decreases |records|
  {
    if records != [] {
      var last := |records| - 1;
      var front := records[..last];
      assert records == front + [records[last]];
      ListedAtPositions(front, f);
      ListedSnoc(front, records[last], f);
      AlignedSnoc(records, f, Positions(front, f), Listed(front, f), Positions(records, f), Listed(records, f));
    }
  }

  /** The step of `ListedAtPositions`: what holds for all records but the
      last extends to all of them. */
  lemma AlignedSnoc<T>(records: seq<Json>, f: Json -> Option<T>, ps0: seq<nat>, r0: seq<T>, ps: seq<nat>, r: seq<T>)
    requires |records| > 0
    requires |r0| == |ps0|
    requires forall k :: 0 <= k < |ps0| ==> ps0[k] < |records| - 1 && f(records[..|records| - 1][ps0[k]]) == Some(r0[k])
    requires ps == ps0 + (if f(records[|records| - 1]).Some? then [|records| - 1] else [])
    requires r == r0 + (match f(records[|records| - 1]) case Some(e) => [e] case None => [])
    ensures |r| == |ps| && forall k :: 0 <= k < |ps| ==> f(records[ps[k]]) == Some(r[k])
  {
    forall k | 0 <= k < |ps| ensures f(records[ps[k]]) == Some(r[k]) {
      if k < |ps0| {
        assert records[..|records| - 1][ps0[k]] == records[ps0[k]];
      }
    }
  }

  /** Listing one more record appends at most its own entry. */
  lemma {:induction false} ListedSnoc<T(!new)>(records: seq<Json>, rec: Json, f: Json -> Option<T>)
    ensures Listed(records + [rec], f) == Listed(records, f) + (match f(rec) case Some(e) => [e] case None => [])
    decreases |records|
  {
    if records != [] {
      assert (records + [rec])[1..] == records[1..] + [rec];
      ListedSnoc(records[1..], rec, f);
    } else {
      assert ([rec])[1..] == [];
    }
  }

  /** The configs the tray lists. */
  function FilterOmo(records: seq<Json>): seq<OmoEntry> {
    Listed(records, OmoEntryOf)
  }

  /** The providers the tray lists. */
  function FilterClaude(records: seq<Json>): seq<ClaudeEntry> {
    Listed(records, ClaudeEntryOf)
  }

  // ---------------------------------------------------------------------
  // Sorting
  // ---------------------------------------------------------------------

  function EntryName(e: OmoEntry): string {
    e.name
  }

  function EntrySortIndex(e: ClaudeEntry): int {
    e.sortIndex
  }

  lemma StrLeqTotalOrder()
    ensures TotalOrder(StrLeq)
  {
    forall a, b ensures StrLeq(a, b) || StrLeq(b, a) {
      StrLeqTotal(a, b);
    }
    forall a, b | StrLeq(a, b) && StrLeq(b, a) ensures a == b {
      StrLeqAntisymmetric(a, b);
    }
    forall a, b, c | StrLeq(a, b) && StrLeq(b, c) ensures StrLeq(a, c) {
      StrLeqTransitive(a, b, c);
    }
    forall a ensures StrLeq(a, a) {
      StrLeqTotal(a, a);
    }
  }

  /** `omo_configs.sort_by(|a, b| a.1.cmp(&b.1))`: a stable sort by name. */
  function SortOmo(entries: seq<OmoEntry>): (r: seq<OmoEntry>)
    ensures multiset(r) == multiset(entries) && |r| == |entries|
    ensures forall i, j :: 0 <= i < j < |r| ==> StrLeq(r[i].name, r[j].name)
    ensures forall n :: WithKey(r, EntryName, n) == WithKey(entries, EntryName, n)
  {
    StrLeqTotalOrder();
    var r := SortByKey(entries, EntryName, StrLeq);
    SameLength(r, entries);
    r
  }

  /** `claude_providers.sort_by_key(|p| p.3)`: a stable sort by sort index. */
  function SortClaude(entries: seq<ClaudeEntry>): (r: seq<ClaudeEntry>)
    ensures multiset(r) == multiset(entries) && |r| == |entries|
    ensures forall i, j :: 0 <= i < j < |r| ==> r[i].sortIndex <= r[j].sortIndex
    ensures forall k :: WithKey(r, EntrySortIndex, k) == WithKey(entries, EntrySortIndex, k)
  {
    var r := SortByKey(entries, EntrySortIndex, IntLeq);
    SameLength(r, entries);
    r
  }

  // ---------------------------------------------------------------------
  // Menu layout and item ids
  // ---------------------------------------------------------------------

  datatype MenuItem =
    | Action(id: string, text: string, enabled: bool)   // `MenuItem::with_id`
    | Check(id: string, text: string, checked: bool)    // `CheckMenuItem::with_id`, enabled
    | Separator
    | Quit                                              // `PredefinedMenuItem::quit`

  const ShowId: string := "show"
  const OmoPrefix: string := "omo_config_"
  const ClaudePrefix: string := "claude_provider_"

  const ShowItem: MenuItem := Action(ShowId, "打开主界面", true)
  const OmoHeader: MenuItem := Action("omo_header", "──── Oh My OpenCode ────", false)
  const OmoPlaceholder: MenuItem := Action("omo_empty", "  暂无配置", false)
  const ClaudeHeader: MenuItem := Action("claude_header", "──── Claude Code ────", false)
  const ClaudePlaceholder: MenuItem := Action("claude_empty", "  暂无配置", false)

  function OmoItemId(configId: string): string {
    OmoPrefix + configId
  }

  function ClaudeItemId(providerId: string): string {
    ClaudePrefix + providerId
  }

  function OmoItems(entries: seq<OmoEntry>): (r: seq<MenuItem>)
    ensures |r| == if entries == [] then 1 else |entries|
    ensures entries == [] ==> r == [OmoPlaceholder]
    ensures forall i :: 0 <= i < |entries| ==>
      && r[i].Check? && r[i].text == entries[i].name && r[i].checked == entries[i].applied
      && Dispatch(r[i].id) == ApplyOmoConfig(entries[i].configId)
  {
    OmoIdsDispatch(entries);
    if entries == [] then
      [OmoPlaceholder]
    else
      seq(|entries|, i requires 0 <= i < |entries| =>
        Check(OmoItemId(entries[i].configId), entries[i].name, entries[i].applied))
  }

  function ClaudeItems(entries: seq<ClaudeEntry>): (r: seq<MenuItem>)
    ensures |r| == if entries == [] then 1 else |entries|
    ensures entries == [] ==> r == [ClaudePlaceholder]
    ensures forall i :: 0 <= i < |entries| ==>
      && r[i].Check? && r[i].text == entries[i].name && r[i].checked == entries[i].applied
      && Dispatch(r[i].id) == ApplyClaudeProvider(entries[i].providerId)
  {
    ClaudeIdsDispatch(entries);
    if entries == [] then
      [ClaudePlaceholder]
    else
      seq(|entries|, i requires 0 <= i < |entries| =>
        Check(ClaudeItemId(entries[i].providerId), entries[i].name, entries[i].applied))
  }

  /** Each config's item id dispatches back to that config. */
  lemma OmoIdsDispatch(entries: seq<OmoEntry>)
    ensures forall i :: 0 <= i < |entries| ==>
      Dispatch(OmoItemId(entries[i].configId)) == ApplyOmoConfig(entries[i].configId)
  {
    forall i | 0 <= i < |entries| ensures Dispatch(OmoItemId(entries[i].configId)) == ApplyOmoConfig(entries[i].configId) {
      DispatchInvertsItemIds(OmoItemId(entries[i].configId), entries[i].configId);
    }
  }

  /** Each provider's item id dispatches back to that provider. */
  lemma ClaudeIdsDispatch(entries: seq<ClaudeEntry>)
    ensures forall i :: 0 <= i < |entries| ==>
      Dispatch(ClaudeItemId(entries[i].providerId)) == ApplyClaudeProvider(entries[i].providerId)
  {
    forall i | 0 <= i < |entries|
      ensures Dispatch(ClaudeItemId(entries[i].providerId)) == ApplyClaudeProvider(entries[i].providerId)
    {
      DispatchInvertsItemIds(ClaudeItemId(entries[i].providerId), entries[i].providerId);
    }
  }

  function AtLeastOne(n: nat): nat {
    if n == 0 then 1 else n
  }

  /** The flat menu: show, separator, the config header, the configs (or a
      disabled placeholder), separator, the provider header, the providers
      (or a disabled placeholder), quit. Every entry is checked exactly when
      its record is applied. */
  function Layout(omo: seq<OmoEntry>, claude: seq<ClaudeEntry>): (menu: seq<MenuItem>)
    ensures |menu| == 6 + AtLeastOne(|omo|) + AtLeastOne(|claude|)
    ensures menu[..3] == [ShowItem, Separator, OmoHeader]
    ensures menu[3..3 + AtLeastOne(|omo|)] == OmoItems(omo)
    ensures menu[3 + AtLeastOne(|omo|)..5 + AtLeastOne(|omo|)] == [Separator, ClaudeHeader]
    ensures menu[5 + AtLeastOne(|omo|)..|menu| - 1] == ClaudeItems(claude)
    ensures menu[|menu| - 1] == Quit
  {
    var o := OmoItems(omo);
    var c := ClaudeItems(claude);
    var menu := [ShowItem, Separator, OmoHeader] + o + [Separator, ClaudeHeader] + c + [Quit];
    LayoutSlices([ShowItem, Separator, OmoHeader], o, [Separator, ClaudeHeader], c, [Quit]);
    menu
  }

  lemma LayoutSlices<T>(a: seq<T>, o: seq<T>, b: seq<T>, c: seq<T>, d: seq<T>)
    ensures var m := a + o + b + c + d;
            && m[..|a|] == a
            && m[|a|..|a| + |o|] == o
            && m[|a| + |o|..|a| + |o| + |b|] == b
            && m[|a| + |o| + |b|..|a| + |o| + |b| + |c|] == c
            && m[|a| + |o| + |b| + |c|..] == d
  {
    var m := a + o + b + c + d;
    assert m == a + (o + (b + (c + d)));
  }

  /** `refresh_tray_menus` without the widgets: the listed records of each
      query, sorted, laid out. A query that could not be read (`None`)
      lists nothing. */
  function RefreshMenu(omoRecords: Option<seq<Json>>, claudeRecords: Option<seq<Json>>): (menu: seq<MenuItem>)
    ensures |menu| == 6 + AtLeastOne(|FilterOmo(omoRecords.GetOr([]))|) + AtLeastOne(|FilterClaude(claudeRecords.GetOr([]))|)
    ensures ChecksByName(menu[3..3 + AtLeastOne(|FilterOmo(omoRecords.GetOr([]))|)])
    ensures var k := AtLeastOne(|FilterOmo(omoRecords.GetOr([]))|);
      && OmoBlockSorted(menu[3..3 + k], FilterOmo(omoRecords.GetOr([])))
      && ClaudeBlockSorted(menu[5 + k..|menu| - 1], FilterClaude(claudeRecords.GetOr([])))
  {
    SortedLayout(FilterOmo(omoRecords.GetOr([])), FilterClaude(claudeRecords.GetOr([])))
  }

  /** The two blocks sorted and laid out: the config block is a stable sort
      of `omo` by name, the provider block one of `claude` by sort index. */
  function SortedLayout(omo: seq<OmoEntry>, claude: seq<ClaudeEntry>): (menu: seq<MenuItem>)
    ensures |menu| == 6 + AtLeastOne(|omo|) + AtLeastOne(|claude|)
    ensures ChecksByName(menu[3..3 + AtLeastOne(|omo|)])
    ensures OmoBlockSorted(menu[3..3 + AtLeastOne(|omo|)], omo)
    ensures ClaudeBlockSorted(menu[5 + AtLeastOne(|omo|)..|menu| - 1], claude)
  {
    SortedOmoByName(omo);
    LayoutOrdersBlocks(omo, claude);
    Layout(SortOmo(omo), SortClaude(claude))
  }

  lemma SortedOmoByName(omo: seq<OmoEntry>)
    ensures ChecksByName(OmoItems(SortOmo(omo)))
  {
  }

  /** Checked entries whose texts ascend in `String::cmp` order. */
  predicate ChecksByName(items: seq<MenuItem>) {
    forall i, j :: 0 <= i < j < |items| ==>
      items[i].Check? && items[j].Check? && StrLeq(items[i].text, items[j].text)
  }

  /** `block` lays out a stable sort by name of the configs `omo`: a
      permutation of them, ordered by name, with equal names in the order
      of `omo`. */
  ghost predicate OmoBlockSorted(block: seq<MenuItem>, omo: seq<OmoEntry>) {
    exists sorted: seq<OmoEntry> ::
      && multiset(sorted) == multiset(omo)
      && (forall i, j :: 0 <= i < j < |sorted| ==> StrLeq(sorted[i].name, sorted[j].name))
      && (forall n :: WithKey(sorted, EntryName, n) == WithKey(omo, EntryName, n))
      && block == OmoItems(sorted)
  }

  /** `block` lays out a stable sort by sort index of the providers
      `claude`. */
  ghost predicate ClaudeBlockSorted(block: seq<MenuItem>, claude: seq<ClaudeEntry>) {
    exists sorted: seq<ClaudeEntry> ::
      && multiset(sorted) == multiset(claude)
      && (forall i, j :: 0 <= i < j < |sorted| ==> sorted[i].sortIndex <= sorted[j].sortIndex)
      && (forall x :: WithKey(sorted, EntrySortIndex, x) == WithKey(claude, EntrySortIndex, x))
      && block == ClaudeItems(sorted)
  }

  /** Each block of the laid-out menu is a stable sort of its entries: the
      configs by name, the providers by sort index, equal keys in input
      order. */
  lemma LayoutOrdersBlocks(omo: seq<OmoEntry>, claude: seq<ClaudeEntry>)
    ensures var menu := Layout(SortOmo(omo), SortClaude(claude));
            var k := AtLeastOne(|omo|);
            && OmoBlockSorted(menu[3..3 + k], omo)
            && ClaudeBlockSorted(menu[5 + k..|menu| - 1], claude)
  {
    SortedOmoBlock(omo);
    SortedClaudeBlock(claude);
  }

  lemma SortedOmoBlock(omo: seq<OmoEntry>)
    ensures OmoBlockSorted(OmoItems(SortOmo(omo)), omo)
  {
    var sorted := SortOmo(omo);
    assert OmoItems(SortOmo(omo)) == OmoItems(sorted);
  }

  lemma SortedClaudeBlock(claude: seq<ClaudeEntry>)
    ensures ClaudeBlockSorted(ClaudeItems(SortClaude(claude)), claude)
  {
    var sorted := SortClaude(claude);
    assert ClaudeItems(SortClaude(claude)) == ClaudeItems(sorted);
  }

  lemma SameLength<T>(a: seq<T>, b: seq<T>)
    requires multiset(a) == multiset(b)
    ensures |a| == |b|
  {
    assert |multiset(a)| == |multiset(b)|;
  }

  /** What may stand in the config block for the entries `omo`: the
      placeholder when there are none, otherwise a checked entry per
      config. */
  predicate OmoListed(item: MenuItem, omo: seq<OmoEntry>) {
    if omo == [] then item == OmoPlaceholder
    else exists e :: e in omo && item == Check(OmoItemId(e.configId), e.name, e.applied)
  }

  predicate ClaudeListed(item: MenuItem, claude: seq<ClaudeEntry>) {
    if claude == [] then item == ClaudePlaceholder
    else exists e :: e in claude && item == Check(ClaudeItemId(e.providerId), e.name, e.applied)
  }

  /** Laying out any reordering of the configs lists each of them and
      nothing else. */
  lemma OmoItemsList(sorted: seq<OmoEntry>, omo: seq<OmoEntry>)
    requires multiset(sorted) == multiset(omo)
    ensures forall item :: item in OmoItems(sorted) <==> OmoListed(item, omo)
  {
    SameLength(sorted, omo);
    var items := OmoItems(sorted);
    if omo != [] {
      forall item | item in items ensures OmoListed(item, omo) {
        var i :| 0 <= i < |items| && items[i] == item;
        assert sorted[i] in multiset(omo);
      }
      forall item | OmoListed(item, omo) ensures item in items {
        var e :| e in omo && item == Check(OmoItemId(e.configId), e.name, e.applied);
        assert e in multiset(sorted);
        var i :| 0 <= i < |sorted| && sorted[i] == e;
        assert items[i] == item;
      }
    }
  }

  lemma ClaudeItemsList(sorted: seq<ClaudeEntry>, claude: seq<ClaudeEntry>)
    requires multiset(sorted) == multiset(claude)
    ensures forall item :: item in ClaudeItems(sorted) <==> ClaudeListed(item, claude)
  {
    SameLength(sorted, claude);
    var items := ClaudeItems(sorted);
    if claude != [] {
      forall item | item in items ensures ClaudeListed(item, claude) {
        var i :| 0 <= i < |items| && items[i] == item;
        assert sorted[i] in multiset(claude);
      }
      forall item | ClaudeListed(item, claude) ensures item in items {
        var e :| e in claude && item == Check(ClaudeItemId(e.providerId), e.name, e.applied);
        assert e in multiset(sorted);
        var i :| 0 <= i < |sorted| && sorted[i] == e;
        assert items[i] == item;
      }
    }
  }

  /** The refreshed menu lists exactly the records that pass the filters:
      the config block holds a checked entry per listed config (checked
      when it is applied) and nothing else, and likewise the provider
      block. */
  lemma RefreshMenuListsRecords(omoRecords: Option<seq<Json>>, claudeRecords: Option<seq<Json>>)
    ensures var omo := FilterOmo(omoRecords.GetOr([]));
            var claude := FilterClaude(claudeRecords.GetOr([]));
            var menu := RefreshMenu(omoRecords, claudeRecords);
            var k := AtLeastOne(|omo|);
            && (forall item :: item in menu[3..3 + k] <==> OmoListed(item, omo))
            && (forall item :: item in menu[5 + k..|menu| - 1] <==> ClaudeListed(item, claude))
  {
    SortedLayoutLists(FilterOmo(omoRecords.GetOr([])), FilterClaude(claudeRecords.GetOr([])));
  }

  lemma SortedLayoutLists(omo: seq<OmoEntry>, claude: seq<ClaudeEntry>)
    ensures var menu := SortedLayout(omo, claude);
            var k := AtLeastOne(|omo|);
            && (forall item :: item in menu[3..3 + k] <==> OmoListed(item, omo))
            && (forall item :: item in menu[5 + k..|menu| - 1] <==> ClaudeListed(item, claude))
  {
    var sortedOmo := SortOmo(omo);
    var sortedClaude := SortClaude(claude);
    var menu := Layout(sortedOmo, sortedClaude);
    assert SortedLayout(omo, claude) == menu;
    OmoItemsList(sortedOmo, omo);
    ClaudeItemsList(sortedClaude, claude);
  }

  // ---------------------------------------------------------------------
  // Event routing
  // ---------------------------------------------------------------------

  datatype TrayAction = ShowWindow | ApplyOmoConfig(configId: string) | ApplyClaudeProvider(providerId: string) | NoAction

  /** The `on_menu_event` closure: `show` exactly, then the config prefix,
      then the provider prefix; anything else does nothing. */
  function Dispatch(eventId: string): TrayAction {
    if eventId == ShowId then ShowWindow
    else if OmoPrefix <= eventId then ApplyOmoConfig(eventId[|OmoPrefix|..])
    else if ClaudePrefix <= eventId then ApplyClaudeProvider(eventId[|ClaudePrefix|..])
    else NoAction
  }

  /** Dispatch decodes exactly the ids the menu encodes: an event applies
      config `x` if and only if it is `omo_config_` + `x`, and applies
      provider `x` if and only if it is `claude_provider_` + `x`. */
  lemma DispatchInvertsItemIds(eventId: string, x: string)
    ensures Dispatch(eventId) == ApplyOmoConfig(x) <==> eventId == OmoItemId(x)
    ensures Dispatch(eventId) == ApplyClaudeProvider(x) <==> eventId == ClaudeItemId(x)
    ensures Dispatch(eventId) == ShowWindow <==> eventId == ShowId
  {
    var o := OmoItemId(x);
    var c := ClaudeItemId(x);
    assert o[..|OmoPrefix|] == OmoPrefix && o[|OmoPrefix|..] == x;
    assert c[..|ClaudePrefix|] == ClaudePrefix && c[|ClaudePrefix|..] == x;
    assert o[0] == 'o' && c[0] == 'c';
    if OmoPrefix <= eventId {
      assert eventId == OmoPrefix + eventId[|OmoPrefix|..];
      assert eventId[0] == 'o';
    }
    if ClaudePrefix <= eventId {
      assert eventId == ClaudePrefix + eventId[|ClaudePrefix|..];
    }
  }

  /** Clicking any entry of the menu does what the entry stands for: show
      opens the window, a config or provider entry applies its own record,
      headers and placeholders do nothing. */
  lemma LayoutRoutesBack(omo: seq<OmoEntry>, claude: seq<ClaudeEntry>)
    ensures var menu := Layout(omo, claude);
      && Dispatch(menu[0].id) == ShowWindow
      && Dispatch(menu[2].id) == NoAction
      && Dispatch(menu[4 + AtLeastOne(|omo|)].id) == NoAction
      && (omo == [] ==> Dispatch(menu[3].id) == NoAction)
      && (claude == [] ==> Dispatch(menu[5 + AtLeastOne(|omo|)].id) == NoAction)
      && (forall i :: 0 <= i < |omo| ==> Dispatch(menu[3 + i].id) == ApplyOmoConfig(omo[i].configId))
      && (forall i :: 0 <= i < |claude| ==>
            Dispatch(menu[5 + AtLeastOne(|omo|) + i].id) == ApplyClaudeProvider(claude[i].providerId))
  {
    assert OmoPrefix[4] == 'c' && "omo_header"[4] == 'h' && "omo_empty"[4] == 'e';
    assert OmoPrefix[0] == 'o' && "claude_header"[0] == 'c' && "claude_empty"[0] == 'c';
    assert |ClaudePrefix| > |"omo_header"| && |ClaudePrefix| > |"claude_header"| && |ClaudePrefix| > |"claude_empty"|;
  }
}
