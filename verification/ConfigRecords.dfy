/** The migration as it runs: configuration records are objects, changed in place and shared by reference. */
module ConfigRecords {
  import opened ConfigMigration

  datatype Value = Undef | Atom(id: int) | Ref(record: ConfigRecord)

  // ----- what a value reaches and stands for -----

  /** A record is well formed and lies within the given ones. */
  ghost predicate OwnedValue(v: Value, within: set<ConfigRecord>)
    reads within
    decreases within, 1
  {
    v.Ref? ==> v.record in within && v.record.repr <= within && v.record.Valid()
  }

  ghost function Foot(v: Value): set<ConfigRecord>
    reads if v.Ref? then {v.record} else {}
  {
    if v.Ref? then v.record.repr else {}
  }

  ghost predicate Owned(fields: map<string, Value>, within: set<ConfigRecord>)
    reads within
    decreases within, 2
  {
    forall k :: k in fields ==> OwnedValue(fields[k], within)
  }

  /** No two fields share a record. */
  ghost predicate Unshared(fields: map<string, Value>, within: set<ConfigRecord>)
    requires Owned(fields, within)
    reads within
    decreases within, 4
  {
    forall k, l :: k in fields && l in fields && k != l ==> ValuesApart(fields[k], fields[l], within)
  }

  ghost predicate ValuesApart(a: Value, b: Value, within: set<ConfigRecord>)
    requires OwnedValue(a, within) && OwnedValue(b, within)
    reads within
    decreases within, 3
  {
    Foot(a) !! Foot(b)
  }

  ghost function JsonOf(v: Value, within: set<ConfigRecord>): Json
    requires OwnedValue(v, within)
    reads within
    decreases within, 1
  {
    match v
    case Undef => Undefined
    case Atom(id) => Opaque(id)
    case Ref(record) => Rec(record.View())
  }

  ghost function FieldsOf(fields: map<string, Value>, within: set<ConfigRecord>): (r: Fields)
    requires Owned(fields, within)
    reads within
    ensures r.Keys == fields.Keys
    ensures forall k :: k in fields ==> r[k] == JsonOf(fields[k], within)
    decreases within, 2
  {
    map k | k in fields :: JsonOf(fields[k], within)
  }

  /** What a value with a well-formed record stands for. */
  ghost function Plain(v: Value): Json
    requires v.Ref? ==> v.record.Valid()
    reads if v.Ref? then {v.record} + v.record.repr else {}
  {
    match v
    case Undef => Undefined
    case Atom(id) => Opaque(id)
    case Ref(record) => Rec(record.View())
  }

  class ConfigRecord {
    var fields: map<string, Value>
    ghost var repr: set<ConfigRecord>

    ghost predicate Valid()
      reads this, repr
      decreases repr, 0
    {
      this in repr && Owned(fields, repr - {this}) && Unshared(fields, repr - {this})
    }

    ghost function View(): Fields
      requires Valid()
      reads this, repr
      decreases repr, 0
    {
      FieldsOf(fields, repr - {this})
    }

    constructor ()
      ensures Valid() && repr == {this} && View() == map[]
    {
      fields := map[];
      repr := {this};
    }

    /** { ...value }: a new record holding the same values. */
    constructor Copy(from: ConfigRecord)
      requires from.Valid()
      ensures Valid() && View() == from.View() && repr == {this} + (from.repr - {from})
    {
      fields := from.fields;
      repr := {this} + (from.repr - {from});
      new;
      assert repr - {this} == from.repr - {from};
    }

    /** structuredClone: a copy that shares no record with the original. */
    method StructuredClone() returns (copy: ConfigRecord)
      requires Valid()
      ensures copy.Valid() && fresh(copy.repr) && copy.View() == View()
      decreases repr, 1
    {
      hide Owned, Unshared, FieldsOf;
      copy := new ConfigRecord();
      var keys := fields.Keys;
      ghost var view := View();
      assert view - keys == map[];
      while keys != {}
        invariant keys <= fields.Keys
        invariant copy.Valid() && fresh(copy.repr)
        invariant copy.View() == view - keys
        decreases |keys|
      {
        var key :| key in keys;
        FieldFacts(fields, repr - {this}, key);
        OneLess(view, keys, key);
        copy.AddClone(key, fields[key]);
        keys := keys - {key};
      }
    }

    method AddClone(key: string, value: Value)
      requires Valid()
      requires value.Ref? ==> value.record.Valid() && value.record.repr !! repr
      modifies this
      ensures Valid() && fresh(repr - old(repr))
      ensures View() == old(View())[key := old(Plain(value))]
      decreases Foot(value), 3
    {
      var copy := CloneValue(value);
      AssignNew(key, copy);
    }

    static method CloneValue(value: Value) returns (copy: Value)
      requires value.Ref? ==> value.record.Valid()
      ensures copy.Ref? ==> copy.record.Valid() && fresh(copy.record.repr)
      ensures Plain(copy) == Plain(value)
      decreases Foot(value), 2
    {
      copy := value;
      if value.Ref? {
        var inner := value.record.StructuredClone();
        copy := Ref(inner);
      }
    }

    /** Assigning a value whose records the other fields do not reach. */
    method Assign(key: string, value: Value)
      requires Valid()
      requires value.Ref? ==> value.record.Valid() && this !in value.record.repr
      requires forall k :: k in fields && k != key ==> Foot(fields[k]) !! Foot(value)
      modifies this
      ensures Valid() && repr == old(repr) + Foot(value)
      ensures fields == old(fields)[key := value]
      ensures View() == old(View())[key := Plain(value)]
    {
      hide Owned, Unshared, FieldsOf;
      ghost var wider := repr - {this} + Foot(value);
      AssignOwned(fields, key, value, repr - {this}, wider);
      fields := fields[key := value];
      repr := repr + Foot(value);
      assert repr - {this} == wider;
    }

    method AssignNew(key: string, value: Value)
      requires Valid()
      requires value.Ref? ==> value.record.Valid() && value.record.repr !! repr
      modifies this
      ensures Valid() && repr == old(repr) + Foot(value)
      ensures fields == old(fields)[key := value]
      ensures View() == old(View())[key := Plain(value)]
    {
      hide Owned, Unshared, FieldsOf;
      forall k | k in fields ensures Foot(fields[k]) !! Foot(value) {
        FieldFacts(fields, repr - {this}, k);
      }
      Assign(key, value);
    }

    method MergeMissing(source: ConfigRecord)
      requires Valid() && source.Valid() && repr !! source.repr
      modifies repr
      ensures Valid() && repr <= old(repr) + source.repr
      ensures View() == Merge(old(View()), Rec(old(source.View())))
      decreases source.repr, 1
    {
      hide Owned, Unshared, Merging, Merge, Bounds, FeetOf, FieldsOf, OwnedValue, JsonOf, Foot;
      ghost var f := Frame(View(), source.View(), repr - {this}, source.repr - {source},
                           FeetOf(fields, repr - {this}), FeetOf(source.fields, source.repr - {source}));
      MergePrepares(fields, source.fields, f);
      MergeKeys(source, f);
      MergeEnds(fields, f);
      repr := {this} + f.w + f.ws;
      assert repr - {this} == f.w + f.ws;
    }

    /** The loop over the source's fields. */
    method MergeKeys(source: ConfigRecord, ghost f: Frame)
      requires Sources(source, f) && Merging(fields, f, f.s.Keys) && Bounds(f)
      requires this !in f.w && this !in source.repr && source !in f.w
      modifies this`fields, f.w
      ensures Merging(fields, f, {})
      decreases source.repr, 0, 1
    {
      hide Sources, Merging, Bounds;
      var keys := source.fields.Keys;
      SourceKeys(source, f);
      while keys != {}
        invariant keys <= f.s.Keys
        invariant Sources(source, f) && Merging(fields, f, keys)
        decreases |keys|
      {
        var key :| key in keys;
        SourceKeys(source, f);
        MergeKey(source, key, f, keys);
        keys := keys - {key};
      }
    }

    /** One round of the loop. */
    method MergeKey(source: ConfigRecord, key: string, ghost f: Frame, ghost left: set<string>)
      requires Sources(source, f) && Merging(fields, f, left) && Bounds(f) && key in left && key in source.fields
      requires this !in f.w && this !in source.repr && source !in f.w
      modifies this`fields, f.w
      ensures Merging(fields, f, left - {key})
      ensures Sources(source, f)
      decreases source.repr, 0, 0
    {
      hide Owned, Merging, Merge, Bounds, OwnedValue, JsonOf, Foot, At, FeetOf, FieldsOf, Partial, Considered, Vacant;
      var value := source.fields[key];
      FieldAgrees(fields, f, left, key);
      SourceField(source.fields, f.ws, key);
      KeyCases(f, key);
      SourceKeys(source, f);
      if value.Undef? || key in BLOCKED_OBJECT_KEYS {
        MergeSkips(fields, f, left, key);
        return;
      }
      if key !in fields && key in INHERITED_METHODS {
        MergeSkips(fields, f, left, key);
        return;
      }
      if key !in fields || fields[key].Undef? {
        MergeCopies(fields, f, left, key, value);
        fields := fields[key := value];
        return;
      }
      var existing := fields[key];
      if existing.Ref? && value.Ref? {
        MergeField(fields, f, left, key, existing.record, value.record);
      } else {
        MergeSkips(fields, f, left, key);
      }
    }

    /** Merging a nested record leaves the other fields alone. */
    static method MergeField(ghost fields: map<string, Value>, ghost f: Frame, ghost left: set<string>,
                             ghost key: string, existing: ConfigRecord, value: ConfigRecord)
      requires Merging(fields, f, left) && Bounds(f)
      requires key in left && key in fields && fields[key] == Ref(existing) && existing.Valid() && existing.repr <= f.w
      requires value.Valid() && value.repr == At(f.theirs, key) && value.repr <= f.ws
      requires Considered(f.s, key) && f.s[key] == Rec(value.View()) && key in f.t && f.t[key] == Rec(existing.View())
      requires f.w !! f.ws
      modifies existing.repr
      ensures Merging(fields, f, left - {key})
      decreases value.repr, 3
    {
      hide Merge, Partial, At, Considered, Bounds, OtherValue, Merging;
      ghost var partial, merged := Partial(f.t, f.s, left), Rec(Merge(existing.View(), Rec(value.View())));
      PartialGains(f.t, f.s, left, key, merged);
      OthersApart(fields, f, left, key);
      existing.MergeMissing(value);
      GrownField(existing, f, left, key);
      forall k | k in fields && k != key
        ensures FieldIn(fields[k], k, f, left - {key}) && JsonOf(fields[k], f.w + f.ws) == partial[k]
      {
        KeptField(fields[k], k, f, left, key, partial[k]);
      }
      hide FieldIn, JsonOf;
      MergingHolds(fields, f, left - {key}, partial[key := merged]);
    }

    method EnsureRecord(key: string) returns (record: ConfigRecord)
      requires Valid()
      modifies this
      ensures Valid() && fresh(repr - old(repr))
      ensures key in fields && fields[key] == Ref(record)
      ensures View() == old(View())[key := Rec(EnsuredFields(old(View()), key))]
    {
      hide Owned, Unshared, FieldsOf;
      if key in fields {
        FieldFacts(fields, repr - {this}, key);
      }
      if key in fields && fields[key].Ref? {
        assert View()[key := View()[key]] == View();
        return fields[key].record;
      }
      record := new ConfigRecord();
      AssignNew(key, Ref(record));
    }

    /** Writing at the end of the path: the legacy settings move in, or fill what the explicit ones leave open. */
    method WriteDiscovery(path: seq<string>, legacy: ConfigRecord)
      requires Valid() && legacy.Valid() && repr !! legacy.repr
      modifies repr
      ensures Valid() && fresh(repr - old(repr) - legacy.repr)
      ensures View() == WriteAt(old(View()), path, old(legacy.View()))
      decreases |path|, 1
    {
      hide Owned, Unshared, FieldsOf, WriteAt, EnsuredFields;
      if path == [] {
        WriteHere(legacy);
      } else {
        WrittenStep(View(), path, legacy.View());
        var inner := EnsureRecord(path[0]);
        FieldFacts(fields, repr - {this}, path[0]);
        WriteInside(path[0], inner, path[1..], legacy);
      }
    }

    method WriteHere(legacy: ConfigRecord)
      requires Valid() && legacy.Valid() && repr !! legacy.repr
      modifies repr
      ensures Valid() && fresh(repr - old(repr) - legacy.repr)
      ensures View() == WriteAt(old(View()), [], old(legacy.View()))
      decreases 0, 0
    {
      hide Owned, Unshared, FieldsOf, MergedDiscovery, WriteAt, Merge, FieldOf;
      var key := DISCOVERY;
      DiscoveryWritten(View(), legacy.View());
      var explicit := GetRecord(this, key);
      if explicit.Ref? {
        MergeInto(key, explicit.record, legacy);
      } else {
        MoveIn(key, legacy);
      }
    }

    /** A copy of the legacy settings becomes the field. */
    method MoveIn(key: string, legacy: ConfigRecord)
      requires Valid() && legacy.Valid() && repr !! legacy.repr
      modifies this
      ensures Valid() && fresh(repr - old(repr) - legacy.repr)
      ensures View() == old(View())[key := Rec(old(legacy.View()))]
    {
      hide Owned, Unshared, FieldsOf;
      var moved := new ConfigRecord.Copy(legacy);
      AssignNew(key, Ref(moved));
    }

    /** A copy of the explicit settings is filled from the legacy ones and takes their place. */
    method MergeInto(key: string, existing: ConfigRecord, legacy: ConfigRecord)
      requires Valid() && legacy.Valid() && repr !! legacy.repr
      requires key in fields && fields[key] == Ref(existing) && existing.Valid() && existing.repr <= repr
      modifies repr
      ensures Valid() && fresh(repr - old(repr) - legacy.repr)
      ensures View() == old(View())[key := Rec(Merge(old(existing.View()), Rec(old(legacy.View()))))]
      decreases 0
    {
      hide Owned, Unshared, FieldsOf, Merge, KeepsOthers, FeetOf, Feet, JsonOf;
      ghost var o := Others(fields, key, repr - {this}, FeetOf(fields, repr - {this}), View());
      BeforeWrite(o);
      var merged := MergeCopy(o, existing, legacy);
      PutBack(o, key, merged);
    }

    static method MergeCopy(ghost o: Others, existing: ConfigRecord,
                            legacy: ConfigRecord) returns (merged: ConfigRecord)
      requires existing.Valid() && legacy.Valid() && existing.repr !! legacy.repr
      requires KeepsOthers(o) && o.feet[o.key] == existing.repr
      modifies existing.repr - {existing}
      ensures merged.Valid() && fresh(merged) && merged.repr <= {merged} + old(existing.repr) + legacy.repr
      ensures merged.View() == Merge(old(existing.View()), Rec(old(legacy.View())))
      ensures KeepsOthers(o)
    {
      hide Merge;
      OthersAway(o);
      merged := new ConfigRecord.Copy(existing);
      merged.MergeMissing(legacy);
    }

    method WriteInside(key: string, inner: ConfigRecord, path: seq<string>, legacy: ConfigRecord)
      requires Valid() && legacy.Valid() && repr !! legacy.repr
      requires key in fields && fields[key] == Ref(inner) && inner.Valid() && inner.repr <= repr
      modifies repr
      ensures Valid() && fresh(repr - old(repr) - legacy.repr)
      ensures View() == old(View())[key := Rec(WriteAt(old(inner.View()), path, old(legacy.View())))]
      decreases |path|, 3
    {
      hide Owned, Unshared, FieldsOf, WriteAt, KeepsOthers, FeetOf, Feet;
      ghost var o := Others(fields, key, repr - {this}, FeetOf(fields, repr - {this}), View());
      BeforeWrite(o);
      WriteBelow(o, inner, path, legacy);
      PutBack(o, key, inner);
    }

    static method WriteBelow(ghost o: Others, inner: ConfigRecord, path: seq<string>, legacy: ConfigRecord)
      requires inner.Valid() && legacy.Valid() && inner.repr !! legacy.repr
      requires KeepsOthers(o) && o.feet[o.key] == inner.repr
      modifies inner.repr
      ensures inner.Valid() && fresh(inner.repr - old(inner.repr) - legacy.repr)
      ensures inner.View() == WriteAt(old(inner.View()), path, old(legacy.View()))
      ensures KeepsOthers(o)
      decreases |path|, 2
    {
      hide WriteAt;
      OthersAway(o);
      inner.WriteDiscovery(path, legacy);
    }

    method Delete(key: string)
      requires Valid()
      modifies this
      ensures Valid() && repr == old(repr) && View() == old(View()) - {key} && fields == old(fields) - {key}
    {
      hide Owned, Unshared, FieldsOf;
      DeleteOwned(fields, key, repr - {this});
      fields := fields - {key};
    }

    method DeleteInside(key: string, inner: ConfigRecord, name: string)
      requires Valid()
      requires key in fields && fields[key] == Ref(inner) && inner.Valid() && inner.repr <= repr
      modifies repr
      ensures Valid() && repr == old(repr) && inner.Valid() && key in fields && fields[key] == Ref(inner)
      ensures inner.View() == old(inner.View()) - {name}
      ensures View() == old(View())[key := Rec(inner.View())]
    {
      hide Owned, Unshared, FieldsOf, KeepsOthers, FeetOf, Feet;
      ghost var o := Others(fields, key, repr - {this}, FeetOf(fields, repr - {this}), View());
      BeforeWrite(o);
      DeleteBelow(o, inner, name);
      PutBack(o, key, inner);
    }

    static method DeleteBelow(ghost o: Others, inner: ConfigRecord, name: string)
      requires inner.Valid() && KeepsOthers(o) && o.feet[o.key] == inner.repr
      modifies inner
      ensures inner.Valid() && inner.repr == old(inner.repr) && inner.View() == old(inner.View()) - {name}
      ensures KeepsOthers(o)
    {
      hide Kept;
      OthersAway(o);
      inner.Delete(name);
    }

    /** The legacy settings go, and the models record with them when nothing else is in it. */
    method RemoveLegacy()
      requires Valid()
      modifies repr
      ensures Valid() && fresh(repr - old(repr))
      ensures View() == WithoutLegacy(old(View()))
    {
      hide Owned, Unshared, FieldsOf, WithoutLegacy, EnsuredFields;
      LegacyRemoved(View());
      var models := EnsureRecord("models");
      FieldFacts(fields, repr - {this}, "models");
      DeleteInside("models", models, LEGACY);
      NoFields(models);
      if models.fields.Keys == {} {
        Delete("models");
      }
    }

    /** The changed record is in its field, and what it reaches is reached from here. */
    method PutBack(ghost o: Others, key: string, record: ConfigRecord)
      requires KeepsOthers(o) && fields == o.fields && key == o.key
      requires this !in o.within && repr == {this} + o.within
      requires record.Valid() && this !in record.repr && record.repr * o.within <= o.feet[key]
      modifies this
      ensures Valid() && repr == old(repr) + record.repr && fields == old(fields)[key := Ref(record)]
      ensures View() == o.view[key := Rec(record.View())]
    {
      fields := fields[key := Ref(record)];
      repr := repr + record.repr;
      assert repr - {this} == o.within + record.repr;
      AfterWrite(o, record, fields, o.within + record.repr);
    }
  }

  lemma FieldFacts(fields: map<string, Value>, within: set<ConfigRecord>, key: string)
    requires Owned(fields, within) && key in fields
    ensures fields[key].Ref? ==> fields[key].record.Valid() && fields[key].record in within && fields[key].record.repr <= within
    ensures FieldsOf(fields, within)[key] == Plain(fields[key])
  {
  }

  lemma OneLess(view: Fields, left: set<string>, key: string)
    requires key in left && key in view
    ensures view - (left - {key}) == (view - left)[key := view[key]]
  {
  }

  /** The fields of a record while one of them is being changed: where the records lie, what each field reached, and
      what it stood for. */
  datatype Others = Others(fields: map<string, Value>, key: string, within: set<ConfigRecord>,
                           feet: map<string, set<ConfigRecord>>, view: Fields)

  /** A record reaches what it reached and stands for what it stood for. */
  ghost predicate Kept(record: ConfigRecord, within: set<ConfigRecord>, foot: set<ConfigRecord>, json: Json)
    reads record, record.repr
  {
    record in within && record.repr == foot && foot <= within && record.Valid() && json == Rec(record.View())
  }

  /** The value of a field that does not change. */
  ghost predicate KeptValue(v: Value, within: set<ConfigRecord>, foot: set<ConfigRecord>, json: Json)
    reads if v.Ref? then {v.record} + v.record.repr else {}
  {
    match v
    case Undef => foot == {} && json == Undefined
    case Atom(id) => foot == {} && json == Opaque(id)
    case Ref(record) => Kept(record, within, foot, json)
  }

  ghost predicate KeepsOthers(o: Others)
    reads o.within, set k, r | k in o.fields && o.fields[k].Ref? && r in o.fields[k].record.repr :: r
    reads set k | k in o.fields && o.fields[k].Ref? :: o.fields[k].record
  {
    && Feet(o.feet, o.within) && o.fields.Keys == o.feet.Keys == o.view.Keys && o.key in o.fields
    && forall k :: k in o.fields && k != o.key ==> KeptValue(o.fields[k], o.within, o.feet[k], o.view[k])
  }

  lemma BeforeWrite(o: Others)
    requires Owned(o.fields, o.within) && Unshared(o.fields, o.within) && o.key in o.fields
    requires o.feet == FeetOf(o.fields, o.within) && o.view == FieldsOf(o.fields, o.within)
    ensures KeepsOthers(o) && o.feet[o.key] == Foot(o.fields[o.key])
  {
    FeetApart(o.fields, o.within);
    forall k | k in o.fields ensures KeptValue(o.fields[k], o.within, o.feet[k], o.view[k]) {
      assert OwnedValue(o.fields[k], o.within);
    }
  }

  /** The other fields' records lie apart from the one that changes. */
  lemma OthersAway(o: Others)
    requires KeepsOthers(o)
    ensures forall k :: k in o.fields && k != o.key && o.fields[k].Ref? ==>
              var r := o.fields[k].record; r in r.repr && r.repr !! o.feet[o.key]
  {
    forall k | k in o.fields && k != o.key && o.fields[k].Ref?
      ensures var r := o.fields[k].record; r in r.repr && r.repr !! o.feet[o.key]
    {
      assert KeptValue(o.fields[k], o.within, o.feet[k], o.view[k]);
      assert o.feet[k] !! o.feet[o.key];
    }
  }

  /** After one field's record has changed, for records from outside at most, the whole is well formed again. */
  lemma AfterWrite(o: Others, record: ConfigRecord, fields: map<string, Value>, wider: set<ConfigRecord>)
    requires KeepsOthers(o) && fields == o.fields[o.key := Ref(record)] && wider == o.within + record.repr
    requires record.Valid() && record.repr * o.within <= o.feet[o.key]
    ensures Owned(fields, wider) && Unshared(fields, wider)
    ensures FieldsOf(fields, wider) == o.view[o.key := Rec(record.View())]
  {
    forall k | k in fields
      ensures OwnedValue(fields[k], wider) && JsonOf(fields[k], wider) == o.view[o.key := Rec(record.View())][k]
    {
      assert k != o.key ==> KeptValue(o.fields[k], o.within, o.feet[k], o.view[k]);
    }
    forall k, l | k in fields && l in fields && k != l ensures ValuesApart(fields[k], fields[l], wider) {
      FootWithin(o, record, k);
      FootWithin(o, record, l);
      assert o.feet[k] !! o.feet[l];
    }
  }

  lemma FootWithin(o: Others, record: ConfigRecord, k: string)
    requires KeepsOthers(o) && k in o.fields && record.repr * o.within <= o.feet[o.key]
    ensures var v := if k == o.key then Ref(record) else o.fields[k];
            Foot(v) * o.within <= o.feet[k] && (k != o.key ==> Foot(v) == o.feet[k] <= o.within)
  {
    assert k != o.key ==> KeptValue(o.fields[k], o.within, o.feet[k], o.view[k]);
  }

  lemma DiscoveryWritten(f: Fields, legacy: Fields)
    ensures var explicit := FieldOf(Rec(f), DISCOVERY);
            WriteAt(f, [], legacy) ==
              f[DISCOVERY := Rec(if explicit.Rec? then Merge(explicit.fields, Rec(legacy)) else legacy)]
  {
  }

  lemma WrittenStep(f: Fields, path: seq<string>, legacy: Fields)
    requires path != []
    ensures var inner := EnsuredFields(f, path[0]);
            WriteAt(f, path, legacy) == f[path[0] := Rec(inner)][path[0] := Rec(WriteAt(inner, path[1..], legacy))]
  {
  }

  lemma DeleteOwned(fields: map<string, Value>, key: string, within: set<ConfigRecord>)
    requires Owned(fields, within) && Unshared(fields, within)
    ensures Owned(fields - {key}, within) && Unshared(fields - {key}, within)
    ensures FieldsOf(fields - {key}, within) == FieldsOf(fields, within) - {key}
  {
  }

  lemma LegacyRemoved(root: Fields)
    ensures var models := EnsuredFields(root, "models");
            var without := root["models" := Rec(models)]["models" := Rec(models - {LEGACY})];
            WithoutLegacy(root) == if models - {LEGACY} == map[] then without - {"models"} else without
  {
  }

  lemma NoFields(record: ConfigRecord)
    requires record.Valid()
    ensures record.View() == map[] <==> record.fields.Keys == {}
    ensures record.View().Keys == record.fields.Keys
  {
  }

  lemma AssignOwned(fields: map<string, Value>, key: string, value: Value, within: set<ConfigRecord>,
                    wider: set<ConfigRecord>)
    requires Owned(fields, within) && Unshared(fields, within) && within <= wider && OwnedValue(value, wider)
    requires forall k :: k in fields && k != key ==> Foot(fields[k]) !! Foot(value)
    ensures Owned(fields[key := value], wider) && Unshared(fields[key := value], wider)
    ensures FieldsOf(fields[key := value], wider) == FieldsOf(fields, within)[key := Plain(value)]
  {
    var after := fields[key := value];
    forall k | k in after ensures OwnedValue(after[k], wider) {
      assert k != key ==> OwnedValue(fields[k], within);
    }
    forall k, l | k in after && l in after && k != l ensures ValuesApart(after[k], after[l], wider) {
      assert k != key && l != key ==> ValuesApart(fields[k], fields[l], within);
    }
  }

  // ----- the migration -----

  /** getRecord of a field. */
  method GetRecord(from: ConfigRecord, key: string) returns (value: Value)
    requires from.Valid()
    ensures value.Undef? || value.Ref?
    ensures value.Ref? ==> value.record.Valid() && value.record in from.repr && value.record.repr <= from.repr
    ensures value.Ref? ==> key in from.fields && from.fields[key] == value
    ensures value.Ref? <==> FieldOf(Rec(from.View()), key).Rec?
    ensures value.Ref? ==> FieldOf(Rec(from.View()), key) == Rec(value.record.View())
  {
    if key in from.fields {
      FieldFacts(from.fields, from.repr - {from}, key);
    }
    value := if key in from.fields && from.fields[key].Ref? then from.fields[key] else Undef;
  }

  /** The migration computes what ConfigMigration.Migrate says. It has no modifies clause: no record that existed before,
      the caller's among them, is changed. What it returns are new records and records of the legacy settings. */
  method MigrateLegacyConfig(raw: Value) returns (config: Value)
    requires raw.Ref? ==> raw.record.Valid()
    ensures config.Ref? ==> config.record.Valid()
    ensures Plain(config) == old(Migrate(Plain(raw)))
    ensures raw.Ref? ==> raw.record.Valid() && raw.record.fields == old(raw.record.fields)
    ensures Plain(raw) == old(Plain(raw))
    ensures config == raw || (raw.Ref? && config.Ref? && fresh(config.record) && fresh(config.record.repr - raw.record.repr))
  {
    hide Migrate;
    config := raw;
    if !raw.Ref? {
      MigrateKeeps(Plain(raw));
      return;
    }
    var legacy := ResolveLegacy(raw.record);
    if !legacy.Ref? {
      MigrateKeeps(Plain(raw));
      return;
    }
    var nextRoot := MoveLegacy(raw.record, legacy.record);
    config := Ref(nextRoot);
  }

  method ResolveLegacy(raw: ConfigRecord) returns (legacy: Value)
    requires raw.Valid()
    ensures legacy.Undef? || legacy.Ref?
    ensures legacy.Ref? ==> legacy.record.Valid() && legacy.record in raw.repr && legacy.record.repr <= raw.repr
    ensures LegacyOf(Rec(raw.View())) == Plain(legacy)
  {
    hide FieldOf;
    var models := GetRecord(raw, "models");
    if !models.Ref? {
      NothingInside(FieldOf(Rec(raw.View()), "models"), LEGACY);
      return Undef;
    }
    legacy := GetRecord(models.record, LEGACY);
  }

  lemma NothingInside(j: Json, key: string)
    requires !j.Rec?
    ensures FieldOf(j, key) == Undefined
  {
  }

  method MoveLegacy(raw: ConfigRecord, legacy: ConfigRecord) returns (nextRoot: ConfigRecord)
    requires raw.Valid() && legacy.Valid() && legacy in raw.repr && legacy.repr <= raw.repr
    requires LegacyOf(Rec(raw.View())) == Rec(legacy.View())
    ensures nextRoot.Valid() && fresh(nextRoot) && fresh(nextRoot.repr - raw.repr)
    ensures Rec(nextRoot.View()) == old(Migrate(Rec(raw.View())))
  {
    hide WriteAt, WithoutLegacy, Migrate, LegacyOf;
    MigrateMoves(raw.View(), legacy.View());
    nextRoot := raw.StructuredClone();
    nextRoot.RemoveLegacy();
    NoFields(legacy);
    if legacy.fields.Keys != {} {
      nextRoot.WriteDiscovery(CONFIG_PATH, legacy);
    }
  }

  lemma MigrateKeeps(raw: Json)
    requires !LegacyOf(raw).Rec?
    ensures Migrate(raw) == raw
  {
  }

  lemma MigrateMoves(raw: Fields, legacy: Fields)
    requires LegacyOf(Rec(raw)) == Rec(legacy)
    ensures Migrate(Rec(raw)) == Rec(if legacy == map[] then WithoutLegacy(raw) else WriteAt(WithoutLegacy(raw), CONFIG_PATH, legacy))
  {
  }

  // ----- merging, one field after the other -----

  /** What a merge starts from: both views, the records below target and source, and what each of their fields reaches. */
  datatype Frame = Frame(t: Fields, s: Fields, w: set<ConfigRecord>, ws: set<ConfigRecord>,
                         own: map<string, set<ConfigRecord>>, theirs: map<string, set<ConfigRecord>>)

  /** The target's fields while the keys in `left` are still to be merged. */
  ghost function Partial(target: Fields, source: Fields, left: set<string>): Fields {
    map k | k in target.Keys + source.Keys
            && (k in target || (k !in left && Considered(source, k) && Vacant(target, k)))
      :: if k in left then target[k] else MergedField(target, Rec(source), k)
  }

  ghost function FeetOf(fields: map<string, Value>, within: set<ConfigRecord>): (r: map<string, set<ConfigRecord>>)
    requires Owned(fields, within)
    reads within
    ensures r.Keys == fields.Keys && forall k :: k in r ==> OwnedValue(fields[k], within) && r[k] == Foot(fields[k])
  {
    map k | k in fields && OwnedValue(fields[k], within) :: Foot(fields[k])
  }

  function At(feet: map<string, set<ConfigRecord>>, k: string): set<ConfigRecord> {
    if k in feet then feet[k] else {}
  }

  ghost predicate Feet(feet: map<string, set<ConfigRecord>>, within: set<ConfigRecord>) {
    && (forall k :: k in feet ==> feet[k] <= within)
    && (forall k, l :: k in feet && l in feet && k != l ==> feet[k] !! feet[l])
  }

  lemma FeetApart(fields: map<string, Value>, within: set<ConfigRecord>)
    requires Owned(fields, within) && Unshared(fields, within)
    ensures Feet(FeetOf(fields, within), within)
  {
  }

  ghost predicate Bounds(f: Frame) {
    Feet(f.own, f.w) && Feet(f.theirs, f.ws) && f.w !! f.ws
  }

  lemma BoundsHold(f: Frame)
    requires Feet(f.own, f.w) && Feet(f.theirs, f.ws) && f.w !! f.ws
    ensures Bounds(f)
  {
  }

  /** A field reaches what it reached before and, once merged, what the source's field reaches. */
  ghost predicate FieldIn(v: Value, k: string, f: Frame, left: set<string>)
    reads f.w, f.ws
  {
    OwnedValue(v, f.w + f.ws) && Foot(v) <= At(f.own, k) + if k in left then {} else At(f.theirs, k)
  }

  ghost predicate Merging(fields: map<string, Value>, f: Frame, left: set<string>)
    reads f.w, f.ws
  {
    && fields.Keys == Partial(f.t, f.s, left).Keys
    && forall k :: k in fields ==>
         FieldIn(fields[k], k, f, left) && JsonOf(fields[k], f.w + f.ws) == Partial(f.t, f.s, left)[k]
  }

  /** The value of a field that does not change. */
  ghost predicate OtherValue(v: Value, k: string, f: Frame, left: set<string>, json: Json)
    reads if v.Ref? then {v.record} + v.record.repr else {}
  {
    match v
    case Undef => json == Undefined
    case Atom(id) => json == Opaque(id)
    case Ref(r) =>
      && r.Valid() && r in f.w + f.ws && r.repr <= f.w + f.ws && json == Rec(r.View())
      && r.repr <= At(f.own, k) + if k in left then {} else At(f.theirs, k)
  }

  /** The other fields reach nothing that the merged one does. */
  lemma OthersApart(fields: map<string, Value>, f: Frame, left: set<string>, key: string)
    requires Merging(fields, f, left) && Bounds(f) && key in left && key in fields && fields[key].Ref?
    ensures fields[key].record in f.w + f.ws && fields[key].record.repr <= At(f.own, key)
    ensures At(f.own, key) <= f.w && At(f.theirs, key) <= f.ws
    ensures fields.Keys == Partial(f.t, f.s, left).Keys
    ensures forall k :: k in fields && k != key ==>
              && OtherValue(fields[k], k, f, left, Partial(f.t, f.s, left)[k])
              && (fields[k].Ref? ==> var r := fields[k].record; r in r.repr && r.repr !! fields[key].record.repr)
  {
    FeetWithin(f, key);
    hide Partial, At, Bounds;
    assert FieldIn(fields[key], key, f, left);
    forall k | k in fields && k != key
      ensures OtherValue(fields[k], k, f, left, Partial(f.t, f.s, left)[k])
      ensures fields[k].Ref? ==> var r := fields[k].record; r in r.repr && r.repr !! fields[key].record.repr
    {
      assert FieldIn(fields[k], k, f, left);
      FeetDiffer(f, k, key);
    }
  }

  lemma KeptField(v: Value, k: string, f: Frame, left: set<string>, key: string, json: Json)
    requires k != key && OtherValue(v, k, f, left, json)
    ensures FieldIn(v, k, f, left - {key}) && JsonOf(v, f.w + f.ws) == json
  {
  }

  lemma GrownField(record: ConfigRecord, f: Frame, left: set<string>, key: string)
    requires record.Valid() && record in f.w + f.ws && record.repr <= At(f.own, key) + At(f.theirs, key)
    requires At(f.own, key) <= f.w && At(f.theirs, key) <= f.ws
    ensures FieldIn(Ref(record), key, f, left - {key}) && JsonOf(Ref(record), f.w + f.ws) == Rec(record.View())
  {
  }

  lemma MergingHolds(fields: map<string, Value>, f: Frame, left: set<string>, partial: Fields)
    requires partial == Partial(f.t, f.s, left) && fields.Keys == partial.Keys
    requires forall k :: k in fields ==> FieldIn(fields[k], k, f, left) && JsonOf(fields[k], f.w + f.ws) == partial[k]
    ensures Merging(fields, f, left)
  {
  }

  lemma MergeStarts(fields: map<string, Value>, f: Frame)
    requires Owned(fields, f.w) && f.t == FieldsOf(fields, f.w) && f.own == FeetOf(fields, f.w)
    ensures Merging(fields, f, f.s.Keys)
  {
  }

  lemma MergePrepares(target: map<string, Value>, source: map<string, Value>, f: Frame)
    requires Owned(target, f.w) && Unshared(target, f.w) && Owned(source, f.ws) && Unshared(source, f.ws) && f.w !! f.ws
    requires f.t == FieldsOf(target, f.w) && f.s == FieldsOf(source, f.ws)
    requires f.own == FeetOf(target, f.w) && f.theirs == FeetOf(source, f.ws)
    ensures Bounds(f) && Merging(target, f, f.s.Keys)
  {
    FeetApart(target, f.w);
    FeetApart(source, f.ws);
    BoundsHold(f);
    MergeStarts(target, f);
  }

  /** What the target's field shows is what it stood for at the start. */
  lemma FieldAgrees(fields: map<string, Value>, f: Frame, left: set<string>, key: string)
    requires Merging(fields, f, left) && Bounds(f) && key in left
    ensures key in fields <==> key in f.t
    ensures key in fields ==> SameKind(fields[key], f.t[key])
    ensures key in fields && fields[key].Ref? ==>
              var r := fields[key].record; r.Valid() && r.repr <= f.w && f.t[key] == Rec(r.View())
  {
  }

  /** The loop's tests on the values that the fields stand for. */
  lemma KeyCases(f: Frame, key: string)
    ensures Considered(f.s, key) <==> key in f.s && !f.s[key].Undefined? && key !in BLOCKED_OBJECT_KEYS
    ensures Vacant(f.t, key) <==> if key in f.t then f.t[key].Undefined? else key !in INHERITED_METHODS
  {
  }

  predicate SameKind(v: Value, j: Json) {
    (v.Undef? <==> j.Undefined?) && (v.Ref? <==> j.Rec?)
  }

  /** The source is what the merge started with. */
  ghost predicate Sources(source: ConfigRecord, f: Frame)
    reads source, f.ws
  {
    && source in source.repr && source.repr - {source} == f.ws && f.w !! f.ws && Owned(source.fields, f.ws)
    && f.s == FieldsOf(source.fields, f.ws) && f.theirs == FeetOf(source.fields, f.ws)
  }

  lemma SourceKeys(source: ConfigRecord, f: Frame)
    requires Sources(source, f)
    ensures f.s.Keys == source.fields.Keys
  {
  }

  lemma SourceField(fields: map<string, Value>, ws: set<ConfigRecord>, key: string)
    requires Owned(fields, ws) && key in fields
    ensures OwnedValue(fields[key], ws) && JsonOf(fields[key], ws) == FieldsOf(fields, ws)[key]
    ensures Foot(fields[key]) == At(FeetOf(fields, ws), key)
    ensures SameKind(fields[key], FieldsOf(fields, ws)[key])
    ensures fields[key].Ref? ==>
              var r := fields[key].record;
              r.Valid() && r.repr <= ws && r.repr == At(FeetOf(fields, ws), key) && FieldsOf(fields, ws)[key] == Rec(r.View())
  {
  }

  /** The field stays as it is: the source's value is undefined or blocked, or the target's stays in place. */
  lemma MergeSkips(fields: map<string, Value>, f: Frame, left: set<string>, key: string)
    requires Merging(fields, f, left) && key in left && key in f.s
    requires !Considered(f.s, key) || (!Vacant(f.t, key) && (key in f.t ==> !(f.t[key].Rec? && f.s[key].Rec?)))
    ensures Merging(fields, f, left - {key})
  {
  }

  /** The source's value goes in. */
  lemma MergeCopies(fields: map<string, Value>, f: Frame, left: set<string>, key: string, v: Value)
    requires Merging(fields, f, left) && key in left
    requires Considered(f.s, key) && Vacant(f.t, key)
    requires OwnedValue(v, f.ws) && JsonOf(v, f.ws) == f.s[key] && Foot(v) <= At(f.theirs, key)
    ensures Merging(fields[key := v], f, left - {key})
  {
    PartialGains(f.t, f.s, left, key, f.s[key]);
    hide Partial, Considered, Vacant, At;
    assert OwnedValue(v, f.w + f.ws) && JsonOf(v, f.w + f.ws) == f.s[key];
    var after := fields[key := v];
    forall k | k in after
      ensures FieldIn(after[k], k, f, left - {key})
      ensures JsonOf(after[k], f.w + f.ws) == Partial(f.t, f.s, left)[key := f.s[key]][k]
    {
      assert k != key ==> FieldIn(fields[k], k, f, left);
    }
  }

  lemma PartialGains(t: Fields, s: Fields, left: set<string>, key: string, j: Json)
    requires key in left && Considered(s, key)
    requires !Vacant(t, key) ==> key in t && t[key].Rec? && s[key].Rec?
    requires j == if Vacant(t, key) then s[key] else Rec(Merge(t[key].fields, s[key]))
    ensures Partial(t, s, left - {key}) == Partial(t, s, left)[key := j]
  {
  }

  lemma EndsApart(fields: map<string, Value>, f: Frame, k: string, l: string)
    requires Merging(fields, f, {}) && Bounds(f) && k in fields && l in fields && k != l
    ensures Foot(fields[k]) !! Foot(fields[l])
  {
  }

  lemma NothingLeft(t: Fields, s: Fields)
    ensures Partial(t, s, {}) == Merge(t, Rec(s))
  {
  }

  lemma EndsOwned(fields: map<string, Value>, f: Frame)
    requires Merging(fields, f, {})
    ensures Owned(fields, f.w + f.ws)
  {
    hide Partial, At, JsonOf;
    forall k | k in fields ensures OwnedValue(fields[k], f.w + f.ws) {
      assert FieldIn(fields[k], k, f, {});
    }
  }

  lemma EndsWhole(fields: map<string, Value>, f: Frame)
    requires Merging(fields, f, {}) && Owned(fields, f.w + f.ws)
    ensures FieldsOf(fields, f.w + f.ws) == Merge(f.t, Rec(f.s))
  {
    NothingLeft(f.t, f.s);
    hide Partial, Merge, OwnedValue, JsonOf, FieldIn;
  }

  /** When all fields are merged the target is whole again. */
  lemma MergeEnds(fields: map<string, Value>, f: Frame)
    requires Merging(fields, f, {}) && Bounds(f)
    ensures Owned(fields, f.w + f.ws) && Unshared(fields, f.w + f.ws)
    ensures FieldsOf(fields, f.w + f.ws) == Merge(f.t, Rec(f.s))
  {
    EndsOwned(fields, f);
    EndsWhole(fields, f);
    hide Merging, Bounds, Merge, FieldsOf, OwnedValue, JsonOf;
    forall k, l | k in fields && l in fields && k != l ensures ValuesApart(fields[k], fields[l], f.w + f.ws) {
      EndsApart(fields, f, k, l);
    }
  }

  lemma FeetWithin(f: Frame, k: string)
    requires Bounds(f)
    ensures At(f.own, k) <= f.w && At(f.theirs, k) <= f.ws
  {
  }

  lemma FeetDiffer(f: Frame, k: string, l: string)
    requires Bounds(f) && k != l
    ensures At(f.own, k) + At(f.theirs, k) !! At(f.own, l) + At(f.theirs, l)
    ensures At(f.own, k) <= f.w && At(f.theirs, k) <= f.ws
  {
  }
}
