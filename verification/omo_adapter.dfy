/** The oh-my-opencode database adapter: the snake_case / camelCase
    compatibility getters, the recursive JSON merge and clean-up used before
    a config file is written, and the tolerant conversion of database records
    into config values. */
module OmoAdapter {
  import opened Wrappers
  import opened Json

  // ---------------------------------------------------------------------
  // Compatibility getters
  // ---------------------------------------------------------------------

  /** `get_str_compat`: the snake_case key wins whenever it is present, even
      when its value is not a string; the camelCase key is consulted only
      when the snake_case key is absent. */
  function GetStrCompat(v: Json, snake: string, camel: string, default: string): (r: string)
    ensures v.Obj? && snake in v.fields ==>
      r == (if v.fields[snake].Str? then v.fields[snake].s else default)
    ensures v.Obj? && snake !in v.fields && camel in v.fields ==>
      r == (if v.fields[camel].Str? then v.fields[camel].s else default)
    ensures !v.Obj? || (snake !in v.fields && camel !in v.fields) ==> r == default
  {
    AsStr(GetEither(v, snake, camel)).GetOr(default)
  }

  /** `get_opt_str_compat`: the same precedence, `None` instead of a default. */
  function GetOptStrCompat(v: Json, snake: string, camel: string): (r: Option<string>)
    ensures v.Obj? && snake in v.fields ==>
      r == (if v.fields[snake].Str? then Some(v.fields[snake].s) else None)
    ensures v.Obj? && snake !in v.fields && camel in v.fields ==>
      r == (if v.fields[camel].Str? then Some(v.fields[camel].s) else None)
    ensures !v.Obj? || (snake !in v.fields && camel !in v.fields) ==> r == None
  {
    AsStr(GetEither(v, snake, camel))
  }

  /** `get_bool_compat`: the same precedence for booleans. */
  function GetBoolCompat(v: Json, snake: string, camel: string, default: bool): (r: bool)
    ensures v.Obj? && snake in v.fields ==>
      r == (if v.fields[snake].Bool? then v.fields[snake].b else default)
    ensures v.Obj? && snake !in v.fields && camel in v.fields ==>
      r == (if v.fields[camel].Bool? then v.fields[camel].b else default)
    ensures !v.Obj? || (snake !in v.fields && camel !in v.fields) ==> r == default
  {
    AsBool(GetEither(v, snake, camel)).GetOr(default)
  }

  /** A record written with either spelling of a key reads back the value
      written, and adding the other spelling afterwards cannot change what
      the snake_case spelling says. */
  lemma CompatSpellingsAgree(fields: map<string, Json>, snake: string, camel: string, s: string, default: string, x: Json)
    requires snake != camel
    requires snake !in fields && camel !in fields
    ensures GetStrCompat(Obj(fields[snake := Str(s)]), snake, camel, default) == s
    ensures GetStrCompat(Obj(fields[camel := Str(s)]), snake, camel, default) == s
    ensures GetStrCompat(Obj(fields[snake := Str(s)][camel := x]), snake, camel, default) == s
    ensures GetOptStrCompat(Obj(fields[camel := Str(s)]), snake, camel) == Some(s)
  {
  }

  /** A present but mistyped snake_case value hides a well-typed camelCase
      value: the getters answer with the default. */
  lemma MistypedSnakeShadowsCamel(fields: map<string, Json>, snake: string, camel: string, s: string, default: string, flag: bool)
    requires snake != camel
    ensures GetStrCompat(Obj(fields[snake := Num(0)][camel := Str(s)]), snake, camel, default) == default
    ensures GetBoolCompat(Obj(fields[snake := Null][camel := Bool(flag)]), snake, camel, !flag) == !flag
  {
  }

  // ---------------------------------------------------------------------
  // deep_merge_json
  // ---------------------------------------------------------------------

  /** `deep_merge_json(base, overlay)`, returning the merged value instead of
      updating `base` in place. */
  function DeepMerge(base: Json, overlay: Json): (r: Json)
    ensures !(base.Obj? && overlay.Obj?) ==> r == base
    ensures base.Obj? && overlay.Obj? ==>
      && r.Obj?
      && r.fields.Keys == base.fields.Keys + overlay.fields.Keys
      && (forall k :: k in base.fields && k !in overlay.fields ==> r.fields[k] == base.fields[k])
      && (forall k :: k in overlay.fields && !(k in base.fields && base.fields[k].Obj? && overlay.fields[k].Obj?) ==>
            r.fields[k] == overlay.fields[k])
      && (forall k :: k in overlay.fields && k in base.fields && base.fields[k].Obj? && overlay.fields[k].Obj? ==>
            r.fields[k] == DeepMerge(base.fields[k], overlay.fields[k]))
  {
    if base.Obj? && overlay.Obj? then
      Obj(map k | k in base.fields.Keys + overlay.fields.Keys ::
        if k in overlay.fields then
          if k in base.fields && base.fields[k].Obj? && overlay.fields[k].Obj? then
            DeepMerge(base.fields[k], overlay.fields[k])
          else overlay.fields[k]
        else base.fields[k])
    else base
  }

  /** Merging a value into itself changes nothing. */
  lemma {:induction false} DeepMergeSelf(v: Json)
    ensures DeepMerge(v, v) == v
  {
    if v.Obj? {
      var r := DeepMerge(v, v);
      forall k | k in v.fields ensures r.fields[k] == v.fields[k] {
        if v.fields[k].Obj? {
          DeepMergeSelf(v.fields[k]);
        }
      }
      assert r.fields == v.fields;
    }
  }

  /** Applying the same overlay twice is the same as applying it once. */
  lemma {:induction false} DeepMergeIdempotent(base: Json, overlay: Json)
    ensures DeepMerge(DeepMerge(base, overlay), overlay) == DeepMerge(base, overlay)
  {
    var m := DeepMerge(base, overlay);
    if base.Obj? && overlay.Obj? {
      var r := DeepMerge(m, overlay);
      forall k | k in m.fields ensures r.fields[k] == m.fields[k] {
        if k in overlay.fields {
          if k in base.fields && base.fields[k].Obj? && overlay.fields[k].Obj? {
            DeepMergeIdempotent(base.fields[k], overlay.fields[k]);
          } else if overlay.fields[k].Obj? {
            DeepMergeSelf(overlay.fields[k]);
          }
        }
      }
      assert r.fields == m.fields;
    }
  }

  /** Every overlay leaf (a value that is not an object) ends up in the
      result under its key. */
  lemma OverlayLeavesWin(base: Json, overlay: Json, k: string)
    requires base.Obj? && overlay.Obj?
    requires k in overlay.fields && !overlay.fields[k].Obj?
    ensures Get(DeepMerge(base, overlay), k) == Some(overlay.fields[k])
  {
  }

  /** When no key holds an object on both sides the deep merge is the plain
      shallow union in which the overlay wins. */
  lemma DeepMergeWithoutNestedClash(base: Json, overlay: Json)
    requires base.Obj? && overlay.Obj?
    requires forall k :: k in base.fields && k in overlay.fields ==> !(base.fields[k].Obj? && overlay.fields[k].Obj?)
    ensures DeepMerge(base, overlay) == Obj(base.fields + overlay.fields)
  {
    var r := DeepMerge(base, overlay);
    assert r.fields == base.fields + overlay.fields;
  }

  // ---------------------------------------------------------------------
  // clean_empty_values
  // ---------------------------------------------------------------------

  /** Whether `clean_empty_values` retains a field whose cleaned value is `v`. */
  predicate Kept(v: Json) {
    !(v.Obj? && |v.fields| == 0) && !v.Null?
  }

  /** No object reachable through object fields holds a null or an empty
      object. Arrays are not looked into. */
  ghost predicate Cleaned(v: Json) {
    v.Obj? ==> forall k :: k in v.fields ==> Kept(v.fields[k]) && Cleaned(v.fields[k])
  }

  /** `clean_empty_values`: inside an object, every field is cleaned first and
      then dropped when it is null or an empty object; arrays, scalars and a
      non-object top-level value are left as they are. */
  function CleanEmpty(v: Json): (r: Json)
    ensures Cleaned(r)
    ensures !v.Obj? ==> r == v
    ensures v.Obj? ==> r.Obj? && r.fields.Keys <= v.fields.Keys
    ensures v.Obj? ==> forall k :: k in v.fields && (v.fields[k].Bool? || v.fields[k].Num? || v.fields[k].Str? || v.fields[k].Arr?) ==>
      k in r.fields && r.fields[k] == v.fields[k]
    ensures v.Obj? ==> forall k :: k in v.fields && v.fields[k].Null? ==> k !in r.fields
    ensures v.Obj? ==> forall k :: k in v.fields ==> (k in r.fields <==> Kept(CleanEmpty(v.fields[k])))
    ensures v.Obj? ==> forall k :: k in r.fields ==> r.fields[k] == CleanEmpty(v.fields[k])
  {
    match v
    case Obj(m) => Obj(map k | k in m && Kept(CleanEmpty(m[k])) :: CleanEmpty(m[k]))
    case _ => v
  }

  /** Cleaning is idempotent; more precisely, a value is a fixed point of
      cleaning exactly when it is already clean. */
  lemma {:induction false} CleanFixedPoint(v: Json)
    ensures CleanEmpty(v) == v <==> Cleaned(v)
  {
    if v.Obj? {
      var r := CleanEmpty(v);
      if Cleaned(v) {
        forall k | k in v.fields ensures k in r.fields && r.fields[k] == v.fields[k] {
          CleanFixedPoint(v.fields[k]);
        }
        assert r.fields == v.fields;
      }
    }
  }

  lemma CleanIdempotent(v: Json)
    ensures CleanEmpty(CleanEmpty(v)) == CleanEmpty(v)
  {
    CleanFixedPoint(CleanEmpty(v));
  }

  /** A nested object that keeps some content stays, in its cleaned form. */
  lemma NestedContentKept(k: string, kept: string, dropped: string, n: int)
    requires kept != dropped
    ensures CleanEmpty(Obj(map[k := Obj(map[kept := Num(n), dropped := Null])]))
         == Obj(map[k := Obj(map[kept := Num(n)])])
  {
    var child := Obj(map[kept := Num(n), dropped := Null]);
    assert CleanEmpty(child).fields == map[kept := Num(n)];
    assert Kept(CleanEmpty(child));
    assert CleanEmpty(Obj(map[k := child])).fields == map[k := Obj(map[kept := Num(n)])];
  }

  /** An object whose every field cleans away is itself removed from its
      parent: cleaning works from the leaves up. */
  lemma NestedEmptiedObjectRemoved(k: string, inner: string)
    ensures CleanEmpty(Obj(map[k := Obj(map[inner := Null])])) == Obj(map[])
  {
    var child := Obj(map[inner := Null]);
    assert CleanEmpty(child).fields == map[];
    assert !Kept(CleanEmpty(child));
    assert CleanEmpty(Obj(map[k := child])).fields == map[];
  }

  // ---------------------------------------------------------------------
  // Database records
  // ---------------------------------------------------------------------

  /** `OhMyOpenCodeConfig` */
  datatype OmoConfig = OmoConfig(
    id: string,
    name: string,
    isApplied: bool,
    agents: Option<Json>,
    otherFields: Option<Json>,
    createdAt: Option<string>,
    updatedAt: Option<string>)

  /** `OhMyOpenCodeGlobalConfig` without the three disabled-name lists. */
  datatype OmoGlobalConfig = OmoGlobalConfig(
    id: string,
    schema: Option<string>,
    sisyphusAgent: Option<Json>,
    lsp: Option<Json>,
    experimental: Option<Json>,
    otherFields: Option<Json>,
    updatedAt: Option<string>)

  /** `from_db_value`: never fails; missing or mistyped fields fall back to
      an empty id, the name "Unnamed Config" and not applied. */
  function FromDbValue(v: Json): (c: OmoConfig)
    ensures c.id == GetStrCompat(v, "config_id", "configId", "")
    ensures c.name == (if v.Obj? && "name" in v.fields && v.fields["name"].Str? then v.fields["name"].s else "Unnamed Config")
    ensures c.isApplied <==> GetBoolCompat(v, "is_applied", "isApplied", false)
    ensures c.agents == Get(v, "agents")
    ensures c.otherFields == GetEither(v, "other_fields", "otherFields")
    ensures c.createdAt == GetOptStrCompat(v, "created_at", "createdAt")
    ensures c.updatedAt == GetOptStrCompat(v, "updated_at", "updatedAt")
    ensures !v.Obj? ==> c == OmoConfig("", "Unnamed Config", false, None, None, None, None)
  {
    OmoConfig(
      GetStrCompat(v, "config_id", "configId", ""),
      GetStrCompat(v, "name", "name", "Unnamed Config"),
      GetBoolCompat(v, "is_applied", "isApplied", false),
      Get(v, "agents"),
      GetEither(v, "other_fields", "otherFields"),
      GetOptStrCompat(v, "created_at", "createdAt"),
      GetOptStrCompat(v, "updated_at", "updatedAt"))
  }

  /** Legacy camelCase records and current snake_case records convert to the
      same config. */
  lemma FromDbValueSpellingsAgree(id: string, name: string, applied: bool, created: string)
    ensures
      var snake := Obj(map["config_id" := Str(id), "name" := Str(name), "is_applied" := Bool(applied), "created_at" := Str(created)]);
      var camel := Obj(map["configId" := Str(id), "name" := Str(name), "isApplied" := Bool(applied), "createdAt" := Str(created)]);
      && FromDbValue(snake) == FromDbValue(camel)
      && FromDbValue(snake) == OmoConfig(id, name, applied, None, None, Some(created), None)
  {
  }

  /** `global_config_from_db_value`: never fails; the id defaults to
      "global", and `schema` is read under that one spelling only. */
  function GlobalConfigFromDbValue(v: Json): (c: OmoGlobalConfig)
    ensures c.id == GetStrCompat(v, "config_id", "configId", "global")
    ensures AsStr(GetEither(v, "config_id", "configId")).None? ==> c.id == "global"
    ensures c.schema == GetOptStrCompat(v, "schema", "schema")
    ensures c.sisyphusAgent == GetEither(v, "sisyphus_agent", "sisyphusAgent")
    ensures c.lsp == Get(v, "lsp") && c.experimental == Get(v, "experimental")
    ensures c.otherFields == GetEither(v, "other_fields", "otherFields")
    ensures c.updatedAt == GetOptStrCompat(v, "updated_at", "updatedAt")
    ensures !v.Obj? ==> c == OmoGlobalConfig("global", None, None, None, None, None, None)
  {
    OmoGlobalConfig(
      GetStrCompat(v, "config_id", "configId", "global"),
      AsStr(Get(v, "schema")),
      GetEither(v, "sisyphus_agent", "sisyphusAgent"),
      Get(v, "lsp"),
      Get(v, "experimental"),
      GetEither(v, "other_fields", "otherFields"),
      GetOptStrCompat(v, "updated_at", "updatedAt"))
  }

  /** A global record in either spelling converts to the same config, and
      one without an id is the "global" config. */
  lemma GlobalConfigSpellingsAgree(agent: Json, updated: string)
    ensures
      var snake := Obj(map["sisyphus_agent" := agent, "updated_at" := Str(updated)]);
      var camel := Obj(map["sisyphusAgent" := agent, "updatedAt" := Str(updated)]);
      && GlobalConfigFromDbValue(snake) == GlobalConfigFromDbValue(camel)
      && GlobalConfigFromDbValue(snake) == OmoGlobalConfig("global", None, Some(agent), None, None, None, Some(updated))
  {
  }
}
