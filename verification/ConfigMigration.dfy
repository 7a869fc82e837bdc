/** Moving the legacy Bedrock discovery settings to the plugin's own configuration: what it does to values. */
module ConfigMigration {

  /** A configuration value. Everything that is no record (numbers, strings, arrays, null) is opaque to the migration. */
  datatype Json = Undefined | Opaque(id: int) | Rec(fields: Fields)

  type Fields = map<string, Json>

  const BLOCKED_OBJECT_KEYS := {"__proto__", "prototype", "constructor"}

  /** Further names every object inherits: reading one that is not set yields an inherited function. */
  const INHERITED_METHODS := {
    "hasOwnProperty", "isPrototypeOf", "propertyIsEnumerable", "toLocaleString", "toString", "valueOf",
    "__defineGetter__", "__defineSetter__", "__lookupGetter__", "__lookupSetter__"
  }

  const LEGACY := "bedrockDiscovery"

  // ----- merging -----

  /** A field of the source that mergeMissing looks at. */
  predicate Considered(source: Fields, key: string) {
    key in source && !source[key].Undefined? && key !in BLOCKED_OBJECT_KEYS
  }

  /** Reading the target's field gives undefined. */
  predicate Vacant(target: Fields, key: string) {
    if key in target then target[key].Undefined? else key !in INHERITED_METHODS
  }

  /** The field after merging. */
  function MergedField(target: Fields, source: Json, key: string): Json
    requires source.Rec? && (key in target || (Considered(source.fields, key) && Vacant(target, key)))
    decreases source, 0
  {
    if !Considered(source.fields, key) then target[key]
    else if Vacant(target, key) then source.fields[key]
    else if target[key].Rec? && source.fields[key].Rec? then Rec(Merge(target[key].fields, source.fields[key]))
    else target[key]
  }

  /** The target after mergeMissing(target, source). */
  function Merge(target: Fields, source: Json): (r: Fields)
    requires source.Rec?
    decreases source, 1
  {
    map k | k in target.Keys + source.fields.Keys
            && (k in target || (Considered(source.fields, k) && Vacant(target, k)))
      :: MergedField(target, source, k)
  }

  // ----- the migration -----

  function FieldOf(j: Json, key: string): Json {
    if j.Rec? && key in j.fields then j.fields[key] else Undefined
  }

  /** The record a field holds, or an empty one that replaces whatever else is there. */
  function EnsuredFields(f: Fields, key: string): Fields {
    if key in f && f[key].Rec? then f[key].fields else map[]
  }

  function LegacyOf(raw: Json): Json {
    var legacy := FieldOf(FieldOf(raw, "models"), LEGACY);
    if legacy.Rec? then legacy else Undefined
  }

  /** Removes the legacy key, and the models record with it when that leaves it empty. */
  function WithoutLegacy(root: Fields): Fields {
    var models := EnsuredFields(root, "models") - {LEGACY};
    if models == map[] then root - {"models"} else root["models" := Rec(models)]
  }

  function MergedDiscovery(existing: Json, legacy: Json): Fields
    requires legacy.Rec?
  {
    if existing.Rec? then Merge(existing.fields, legacy) else legacy.fields
  }

  const DISCOVERY := "discovery"

  /** The names that lead to the record holding the discovery settings. */
  const CONFIG_PATH := ["plugins", "entries", "amazon-bedrock", "config"]

  /** The discovery settings written below the path, whose records are created on the way. */
  function WriteAt(f: Fields, path: seq<string>, legacy: Fields): Fields
    decreases |path|
  {
    if path == [] then f[DISCOVERY := Rec(MergedDiscovery(FieldOf(Rec(f), DISCOVERY), Rec(legacy)))]
    else f[path[0] := Rec(WriteAt(EnsuredFields(f, path[0]), path[1..], legacy))]
  }

  function Migrate(raw: Json): Json {
    var legacy := LegacyOf(raw);
    if !legacy.Rec? then raw
    else
      var root := WithoutLegacy(raw.fields);
      if legacy.fields == map[] then Rec(root) else Rec(WriteAt(root, CONFIG_PATH, legacy.fields))
  }

  // ----- values at paths -----

  /** The value at a path of names, undefined when any step is missing. */
  function ValueAt(j: Json, path: seq<string>): Json
    decreases |path|
  {
    if path == [] then j else ValueAt(FieldOf(j, path[0]), path[1..])
  }

  /** Neither path leads on to the other. */
  predicate Beside(a: seq<string>, b: seq<string>) {
    !(a <= b) && !(b <= a)
  }

  lemma {:induction false} UndefinedBelow(path: seq<string>)
    ensures ValueAt(Undefined, path) == Undefined
  {
    if path != [] {
      UndefinedBelow(path[1..]);
    }
  }

  lemma NonRecordBelow(j: Json, path: seq<string>)
    requires !j.Rec?
    ensures path != [] ==> ValueAt(j, path) == Undefined
  {
    if path != [] {
      UndefinedBelow(path[1..]);
    }
  }

  /** An ensured record shows the same below it as the field did. */
  lemma EnsuredBelow(f: Fields, key: string, path: seq<string>)
    requires path != []
    ensures ValueAt(Rec(EnsuredFields(f, key)), path) == ValueAt(FieldOf(Rec(f), key), path)
  {
    if !FieldOf(Rec(f), key).Rec? {
      NonRecordBelow(FieldOf(Rec(f), key), path);
      UndefinedBelow(path[1..]);
    }
  }

  lemma BesideBelow(a: seq<string>, b: seq<string>)
    requires Beside(a, b)
    ensures a != [] && b != [] && (a[0] == b[0] ==> a[1..] != [] && Beside(a[1..], b[1..]))
  {
    assert a == [a[0]] + a[1..] && b == [b[0]] + b[1..];
  }

  /** Writing leaves alone what lies beside the written field. */
  lemma {:induction false} WriteAtKeeps(f: Fields, at: seq<string>, legacy: Fields, path: seq<string>)
    requires Beside(path, at + [DISCOVERY])
    ensures ValueAt(Rec(WriteAt(f, at, legacy)), path) == ValueAt(Rec(f), path)
    decreases |at|
  {
    BesideBelow(path, at + [DISCOVERY]);
    if at != [] && path[0] == at[0] {
      assert (at + [DISCOVERY])[1..] == at[1..] + [DISCOVERY];
      WriteAtKeeps(EnsuredFields(f, at[0]), at[1..], legacy, path[1..]);
      EnsuredBelow(f, at[0], path[1..]);
    }
  }

  /** The written field holds the legacy settings, below the explicit ones that were there. */
  lemma {:induction false} WriteAtEnd(f: Fields, at: seq<string>, legacy: Fields)
    ensures ValueAt(Rec(WriteAt(f, at, legacy)), at + [DISCOVERY]) ==
              Rec(MergedDiscovery(ValueAt(Rec(f), at + [DISCOVERY]), Rec(legacy)))
    decreases |at|
  {
    var path := at + [DISCOVERY];
    if at != [] {
      assert path[0] == at[0] && path[1..] == at[1..] + [DISCOVERY];
      WriteAtEnd(EnsuredFields(f, at[0]), at[1..], legacy);
      EnsuredBelow(f, at[0], path[1..]);
    }
  }

  // ----- what the migration promises -----

  /** The discovery settings of a configuration. */
  function DiscoveryOf(config: Json): Json {
    ValueAt(config, CONFIG_PATH + [DISCOVERY])
  }

  lemma ModelsKept(raw: Json)
    requires LegacyOf(raw).Rec?
    ensures Migrate(raw).Rec?
    ensures FieldOf(Migrate(raw), "models") == FieldOf(Rec(WithoutLegacy(raw.fields)), "models")
  {
  }

  /** The legacy record is gone, and a second migration changes nothing. */
  lemma MigrateIdempotent(raw: Json)
    ensures !LegacyOf(Migrate(raw)).Rec?
    ensures Migrate(Migrate(raw)) == Migrate(raw)
  {
    if LegacyOf(raw).Rec? {
      ModelsKept(raw);
    }
    hide WriteAt;
  }

  /** The legacy key itself is gone exactly when it was not set or held a record. */
  lemma LegacyKeyRemovedIff(raw: Json)
    ensures LegacyKeySet(Migrate(raw)) <==> LegacyKeySet(raw) && !LegacyOf(raw).Rec?
  {
    if LegacyOf(raw).Rec? {
      ModelsKept(raw);
    }
    hide WriteAt;
  }

  predicate LegacyKeySet(raw: Json) {
    var models := FieldOf(raw, "models");
    models.Rec? && LEGACY in models.fields
  }

  /** A legacy key that holds no record stays. */
  lemma NonRecordLegacyStays(id: int)
    ensures LegacyKeySet(Migrate(Rec(map["models" := Rec(map[LEGACY := Opaque(id)])])))
  {
  }

  /** With a legacy record, the models record stays exactly when it holds something else. */
  lemma ModelsRecordStaysIff(raw: Json)
    requires LegacyOf(raw).Rec?
    ensures "models" in Migrate(raw).fields <==> exists k :: k in FieldOf(raw, "models").fields && k != LEGACY
  {
    ModelsKept(raw);
    hide WriteAt;
    var models := FieldOf(raw, "models").fields;
    assert FieldOf(Migrate(raw), "models") == FieldOf(Rec(WithoutLegacy(raw.fields)), "models");
    if k :| k in models && k != LEGACY {
      assert k in models - {LEGACY};
    } else {
      assert models - {LEGACY} == map[];
    }
  }

  /** Empty legacy settings are only removed: every path beside the legacy key, those that lead to the discovery settings
      among them, holds what it held. */
  lemma EmptyLegacyOnlyRemoved(raw: Json, path: seq<string>)
    requires LegacyOf(raw) == Rec(map[]) && Beside(path, ["models", LEGACY])
    ensures ValueAt(Migrate(raw), path) == ValueAt(raw, path)
  {
    WithoutLegacyKeeps(raw.fields, path);
  }

  lemma WithoutLegacyKeeps(root: Fields, path: seq<string>)
    requires FieldOf(Rec(root), "models").Rec? && Beside(path, ["models", LEGACY])
    ensures ValueAt(Rec(WithoutLegacy(root)), path) == ValueAt(Rec(root), path)
  {
    BesideBelow(path, ["models", LEGACY]);
    if path[0] == "models" {
      var key, models := path[1], EnsuredFields(root, "models");
      assert ["models", LEGACY][1..] == [LEGACY] && path[1..][0] == key;
      BesideBelow(path[1..], [LEGACY]);
      assert key in models ==> key in models - {LEGACY};
      assert FieldOf(FieldOf(Rec(WithoutLegacy(root)), "models"), key) == FieldOf(FieldOf(Rec(root), "models"), key);
    }
  }

  /** Nothing else moves: at every path beside the legacy key and beside the discovery settings the migrated
      configuration holds what the original holds there. */
  lemma MigrateKeepsTheRest(raw: Json, path: seq<string>)
    requires Beside(path, ["models", LEGACY]) && Beside(path, CONFIG_PATH + [DISCOVERY])
    ensures ValueAt(Migrate(raw), path) == ValueAt(raw, path)
  {
    if LegacyOf(raw).Rec? {
      WithoutLegacyKeeps(raw.fields, path);
      WriteAtKeeps(WithoutLegacy(raw.fields), CONFIG_PATH, LegacyOf(raw).fields, path);
    }
  }

  /** How far along the path the explicit value is set. */
  function SetDepth(j: Json, path: seq<string>): (d: nat)
    ensures d <= |path|
    decreases |path|
  {
    if path == [] || FieldOf(j, path[0]).Undefined? then 0 else 1 + SetDepth(FieldOf(j, path[0]), path[1..])
  }

  /** The merge follows the explicit records along the first `d` names and then takes the legacy value. */
  predicate Fillable(j: Json, path: seq<string>, d: nat)
    requires d < |path|
    decreases |path|
  {
    && j.Rec? && path[0] !in BLOCKED_OBJECT_KEYS
    && if d == 0 then Vacant(j.fields, path[0]) else Fillable(FieldOf(j, path[0]), path[1..], d - 1)
  }

  /** No field comes under a name that reaches into the prototype, nor under one that every object inherits. */
  lemma SpecialNamesNotFilled(target: Fields, source: Json, key: string)
    requires source.Rec? && key !in target
    requires || key in {"__proto__", "prototype", "constructor"}
             || key in {"hasOwnProperty", "isPrototypeOf", "propertyIsEnumerable", "toLocaleString", "toString", "valueOf"}
             || key in {"__defineGetter__", "__defineSetter__", "__lookupGetter__", "__lookupSetter__"}
    ensures key !in Merge(target, source)
  {
  }

  /** At every path: an explicit value that is set and is no record stays; a path the explicit settings leave unset takes
      the legacy value exactly when no blocked name and no explicit non-record stands in the way. */
  lemma {:induction false} MergeAtPath(explicit: Json, legacy: Json, path: seq<string>)
    requires explicit.Rec? && legacy.Rec?
    ensures var merged := ValueAt(Rec(Merge(explicit.fields, legacy)), path);
            var e, d := ValueAt(explicit, path), SetDepth(explicit, path);
            if d == |path| then (if e.Rec? then merged.Rec? else merged == e)
            else merged == if Fillable(explicit, path, d) then ValueAt(legacy, path) else Undefined
    decreases |path|
  {
    if path != [] {
      var key, rest := path[0], path[1..];
      var m := Rec(Merge(explicit.fields, legacy));
      var e, l := FieldOf(explicit, key), FieldOf(legacy, key);
      MergeAtKey(explicit, legacy, key);
      if e.Rec? && l.Rec? && key !in BLOCKED_OBJECT_KEYS {
        MergeAtPath(e, l, rest);
      } else if e.Undefined? {
        UndefinedBelow(rest);
      } else {
        KeptAtPath(e, rest);
        if !l.Rec? {
          NonRecordBelow(l, rest);
        }
      }
    }
  }

  lemma MergeAtKey(explicit: Json, legacy: Json, key: string)
    requires explicit.Rec? && legacy.Rec?
    ensures var e, l := FieldOf(explicit, key), FieldOf(legacy, key);
            FieldOf(Rec(Merge(explicit.fields, legacy)), key) ==
              if e.Undefined? then
                (if Vacant(explicit.fields, key) && key !in BLOCKED_OBJECT_KEYS then l else Undefined)
              else if e.Rec? && l.Rec? && key !in BLOCKED_OBJECT_KEYS then Rec(Merge(e.fields, l))
              else e
  {
  }

  /** Where the explicit value is unset, an untouched explicit value reads as undefined. */
  lemma {:induction false} KeptAtPath(j: Json, path: seq<string>)
    ensures SetDepth(j, path) < |path| ==> ValueAt(j, path) == Undefined
    decreases |path|
  {
    if path != [] {
      if FieldOf(j, path[0]).Undefined? {
        UndefinedBelow(path[1..]);
      } else {
        KeptAtPath(FieldOf(j, path[0]), path[1..]);
      }
    }
  }

  /** With an explicit discovery record the migrated one is the merge of the two, and otherwise the legacy one. */
  lemma MigrateMergesDiscovery(raw: Json)
    requires LegacyOf(raw).Rec?
    ensures var explicit, legacy := DiscoveryOf(raw), LegacyOf(raw);
            DiscoveryOf(Migrate(raw)) ==
              if legacy.fields == map[] then explicit
              else if explicit.Rec? then Rec(Merge(explicit.fields, legacy))
              else legacy
  {
    var root := WithoutLegacy(raw.fields);
    assert (CONFIG_PATH + [DISCOVERY])[0] != ["models", LEGACY][0];
    WithoutLegacyKeeps(raw.fields, CONFIG_PATH + [DISCOVERY]);
    WriteAtEnd(root, CONFIG_PATH, LegacyOf(raw).fields);
  }

  /** At every path of the migrated discovery settings: without explicit settings the legacy value; with them the explicit
      value where it is set, and elsewhere the legacy value, exactly when no blocked name and no explicit non-record stands
      in the way. */
  lemma MigratedAtPath(raw: Json, path: seq<string>)
    requires LegacyOf(raw).Rec? && LegacyOf(raw).fields != map[]
    ensures var explicit, legacy := DiscoveryOf(raw), LegacyOf(raw);
            var migrated, e, d := ValueAt(DiscoveryOf(Migrate(raw)), path), ValueAt(explicit, path), SetDepth(explicit, path);
            if !explicit.Rec? then migrated == ValueAt(legacy, path)
            else if d == |path| then (if e.Rec? then migrated.Rec? else migrated == e)
            else migrated == if Fillable(explicit, path, d) then ValueAt(legacy, path) else Undefined
  {
    MigrateMergesDiscovery(raw);
    hide Migrate, DiscoveryOf;
    if DiscoveryOf(raw).Rec? {
      MergeAtPath(DiscoveryOf(raw), LegacyOf(raw), path);
    }
  }
}
