/** The migration on configurations whose records may be shared: exactly when it leaves its input alone. */
module SharedConfig {
  import opened ConfigMigration
  import opened Options
  import opened Properties
  import opened SharedRecords

  // ----- the migration -----

  /** The property is deleted. */
  function Remove(o: Record, key: string): Record {
    if o == [] then []
    else if o[0].key == key then Remove(o[1..], key)
    else [o[0]] + Remove(o[1..], key)
  }

  /** getRecord of a field. */
  function RecordIn(h: Heap, v: Value, key: string): Value {
    if !v.Ref? then Undef
    else
      var field := Field(RecordAt(h, v.at), key);
      if field.Ref? then field else Undef
  }

  function LegacyIn(h: Heap, raw: Value): Value {
    RecordIn(h, RecordIn(h, raw, "models"), LEGACY)
  }

  /** The record at the end of a path of names, if all of them lead to records. */
  function Walk(h: Heap, v: Value, path: seq<string>): Value
    decreases |path|
  {
    if path == [] then v else Walk(h, RecordIn(h, v, path[0]), path[1..])
  }

  /** The explicit discovery settings of a configuration. */
  function DiscoveryIn(h: Heap, raw: Value): Value {
    RecordIn(h, Walk(h, raw, CONFIG_PATH), DISCOVERY)
  }

  function Moved(v: Value, offset: nat): Value {
    if v.Ref? then Ref(v.at + offset) else v
  }

  function MovedRecord(o: Record, offset: nat): Record {
    seq(|o|, i requires 0 <= i < |o| => Property(o[i].key, Moved(o[i].value, offset)))
  }

  /** structuredClone keeps what is shared shared. Copies of records that the configuration does not reach do no harm. */
  function StructuredClone(h: Heap): Heap {
    h + seq(|h|, a requires 0 <= a < |h| => MovedRecord(h[a], |h|))
  }

  datatype Located = Located(heap: Heap, at: nat)

  function EnsureRecord(h: Heap, root: nat, key: string): Located {
    var existing := Field(RecordAt(h, root), key);
    if existing.Ref? then Located(h, existing.at)
    else Located(Store(h, root, Put(RecordAt(h, root), key, Ref(|h|))) + [[]], |h|)
  }

  function EnsurePath(h: Heap, root: nat, path: seq<string>): Located
    decreases |path|
  {
    if path == [] then Located(h, root)
    else
      var next := EnsureRecord(h, root, path[0]);
      EnsurePath(next.heap, next.at, path[1..])
  }

  function PruneEmptyModelsRoot(h: Heap, root: nat): Heap {
    var models := Field(RecordAt(h, root), "models");
    if models.Ref? && RecordAt(h, models.at) == [] then Store(h, root, Remove(RecordAt(h, root), "models")) else h
  }

  /** The clone without its legacy key. */
  function WithoutLegacyKey(h: Heap, root: nat): Heap {
    var models := EnsureRecord(StructuredClone(h), root, "models");
    PruneEmptyModelsRoot(Store(models.heap, models.at, Remove(RecordAt(models.heap, models.at), LEGACY)), root)
  }

  function Assign(h: Heap, at: nat, key: string, value: Value): Heap {
    Store(h, at, Put(RecordAt(h, at), key, value))
  }

  /** The legacy settings go to the discovery field of `config`: copied, or merged into a copy of the explicit ones. */
  function WriteDiscovery(h: Heap, config: nat, legacy: nat, depth: nat): Run {
    var existing := Field(RecordAt(h, config), DISCOVERY);
    if !existing.Ref? then Run(Assign(h + [RecordAt(h, legacy)], config, DISCOVERY, Ref(|h|)), false)
    else
      var merged := MergeEntries(h + [RecordAt(h, existing.at)], |h|, RecordAt(h, legacy), depth);
      if merged.threw then merged else Run(Assign(merged.heap, config, DISCOVERY, Ref(|h|)), false)
  }

  /** What the migration of `raw` returns when it ends: `raw` itself or its clone. */
  function NewConfig(h: Heap, raw: Value): Value {
    if raw.Ref? && LegacyIn(h, raw).Ref? then Ref(raw.at + |h|) else raw
  }

  /** What the migration of `raw` leaves on the heap, and whether it runs out of stack. */
  function Migrated(h: Heap, raw: Value, depth: nat): Run {
    var legacy := LegacyIn(h, raw);
    if !legacy.Ref? then Run(h, false)
    else
      var root := raw.at + |h|;
      var cleaned := WithoutLegacyKey(h, root);
      if RecordAt(h, legacy.at) == [] then Run(cleaned, false)
      else
        var config := EnsurePath(cleaned, root, CONFIG_PATH);
        WriteDiscovery(config.heap, config.at, legacy.at, depth)
  }

  /** A configuration on a heap of well-formed objects. */
  ghost predicate Config(h: Heap, raw: Value) {
    ClosedBelow(h, |h|) && (raw.Ref? ==> raw.at < |h|)
  }

  // ----- the clone -----

  /** The names of the properties that the migration deletes. */
  predicate Deletable(key: string) {
    key == "models" || key == LEGACY
  }

  /** The heap starts with the original records and their clones, of which only such properties have been deleted. */
  ghost predicate Cloned(h: Heap, c: Heap) {
    && h <= c && 2 * |h| <= |c|
    && forall a, k :: 0 <= a < |h| ==> FieldCloned(h, c, a, k)
  }

  ghost predicate FieldCloned(h: Heap, c: Heap, a: nat, k: string) {
    var f := Field(RecordAt(c, a + |h|), k);
    f == Moved(Field(RecordAt(h, a), k), |h|) || (f.Undef? && Deletable(k))
  }

  lemma {:induction false} FieldOfMoved(o: Record, offset: nat, k: string)
    ensures Field(MovedRecord(o, offset), k) == Moved(Field(o, k), offset)
  {
    var m := MovedRecord(o, offset);
    if o != [] {
      FieldSteps(o, k);
      FieldSteps(m, k);
      assert m[1..] == MovedRecord(o[1..], offset);
      FieldOfMoved(o[1..], offset, k);
    }
  }

  lemma HasMoved(o: Record, offset: nat, key: string)
    ensures Has(MovedRecord(o, offset), key) <==> Has(o, key)
  {
    var m := MovedRecord(o, offset);
    assert forall i :: 0 <= i < |o| ==> m[i].key == o[i].key;
  }

  lemma {:induction false} FieldOfRemoved(o: Record, key: string, k: string)
    ensures Field(Remove(o, key), k) == if k == key then Undef else Field(o, k)
  {
    if o != [] {
      FieldSteps(o, k);
      FieldOfRemoved(o[1..], key, k);
      if o[0].key != key {
        FieldSteps(Remove(o, key), k);
        assert Remove(o, key)[1..] == Remove(o[1..], key);
      }
    }
  }

  lemma CloneField(h: Heap, a: nat, k: string)
    requires a < |h|
    ensures Field(RecordAt(StructuredClone(h), a + |h|), k) == Moved(Field(RecordAt(h, a), k), |h|)
  {
    FieldOfMoved(h[a], |h|, k);
  }

  lemma CloneCloned(h: Heap)
    ensures Cloned(h, StructuredClone(h))
  {
    forall a, k | 0 <= a < |h| ensures FieldCloned(h, StructuredClone(h), a, k) {
      CloneField(h, a, k);
    }
  }

  lemma RemoveCloned(h: Heap, c: Heap, at: nat, key: string)
    requires Cloned(h, c) && |h| <= at && Deletable(key)
    ensures Cloned(h, Store(c, at, Remove(RecordAt(c, at), key)))
  {
    var c' := Store(c, at, Remove(RecordAt(c, at), key));
    forall a, k | 0 <= a < |h| ensures FieldCloned(h, c', a, k) {
      assert FieldCloned(h, c, a, k);
      FieldOfRemoved(RecordAt(c, at), key, k);
    }
  }

  lemma WithoutLegacyCloned(h: Heap, raw: nat)
    requires raw < |h| && LegacyIn(h, Ref(raw)).Ref?
    ensures Cloned(h, WithoutLegacyKey(h, raw + |h|))
  {
    hide StructuredClone, MovedRecord, Remove, Cloned;
    var c, models := StructuredClone(h), Field(RecordAt(h, raw), "models");
    CloneCloned(h);
    CloneField(h, raw, "models");
    RemoveCloned(h, c, models.at + |h|, LEGACY);
    RemoveCloned(h, Store(c, models.at + |h|, Remove(RecordAt(c, models.at + |h|), LEGACY)), raw + |h|, "models");
  }

  lemma WithoutLegacyLength(h: Heap, raw: nat)
    requires raw < |h| && LegacyIn(h, Ref(raw)).Ref?
    ensures |WithoutLegacyKey(h, raw + |h|)| == 2 * |h|
  {
    CloneField(h, raw, "models");
    hide Remove, MovedRecord, Field, LegacyIn;
  }

  /** Only the root and its models record lose properties. */
  lemma OthersCloned(h: Heap, raw: nat, a: nat)
    requires raw < |h| && LegacyIn(h, Ref(raw)).Ref? && a < |h|
    requires a != raw && RecordIn(h, Ref(raw), "models") != Ref(a)
    ensures RecordAt(WithoutLegacyKey(h, raw + |h|), a + |h|) == MovedRecord(h[a], |h|)
  {
    CloneField(h, raw, "models");
    hide Remove, MovedRecord, Field, LegacyIn;
  }

  /** The records on the path that are there are found in the clone; from the first missing one on they are new. */
  lemma {:induction false} EnsuredPath(h: Heap, c: Heap, a: nat, path: seq<string>)
    requires Cloned(h, c) && ClosedBelow(h, |h|) && a < |h| && forall k :: k in path ==> !Deletable(k)
    ensures var end, found := EnsurePath(c, a + |h|, path), Walk(h, Ref(a), path);
            && h <= end.heap && |h| <= end.at
            && if found.Ref? then end == Located(c, found.at + |h|) && found.at < |h| else RecordAt(end.heap, end.at) == []
    decreases |path|
  {
    hide ClosedBelow, Field, FieldCloned, RecordAt;
    if path != [] {
      ClonedRef(h, c, a, path[0]);
      var next := RecordIn(h, Ref(a), path[0]);
      if next.Ref? {
        EnsuredPath(h, c, next.at, path[1..]);
      } else {
        var ensured := EnsureRecord(c, a + |h|, path[0]);
        NewRecord(h, c, a + |h|, path[0]);
        EnsuredNew(h, ensured.heap, ensured.at, path[1..]);
        WalkNowhere(h, path[1..]);
      }
    }
  }

  lemma NewRecord(h: Heap, c: Heap, root: nat, key: string)
    requires h <= c && |h| <= root && !Field(RecordAt(c, root), key).Ref?
    ensures var made := EnsureRecord(c, root, key);
            h <= made.heap && |h| <= made.at && RecordAt(made.heap, made.at) == []
  {
  }

  lemma {:induction false} EnsuredNew(h: Heap, c: Heap, root: nat, path: seq<string>)
    requires h <= c && |h| <= root && RecordAt(c, root) == []
    ensures var end := EnsurePath(c, root, path); h <= end.heap && |h| <= end.at && RecordAt(end.heap, end.at) == []
    decreases |path|
  {
    if path != [] {
      var ensured := EnsureRecord(c, root, path[0]);
      NewRecord(h, c, root, path[0]);
      EnsuredNew(h, ensured.heap, ensured.at, path[1..]);
    }
  }

  lemma {:induction false} WalkNowhere(h: Heap, path: seq<string>)
    ensures Walk(h, Undef, path) == Undef
    decreases |path|
  {
    if path != [] {
      WalkNowhere(h, path[1..]);
    }
  }

  lemma ClonedRef(h: Heap, c: Heap, a: nat, k: string)
    requires Cloned(h, c) && ClosedBelow(h, |h|) && a < |h|
    ensures var f, g := Field(RecordAt(c, a + |h|), k), Field(RecordAt(h, a), k);
            && (g.Ref? ==> g.at < |h|)
            && (f.Ref? ==> g.Ref? && f.at == g.at + |h|)
            && (!Deletable(k) ==> f.Ref? == g.Ref?)
  {
    assert FieldCloned(h, c, a, k);
    PointsTo(h, |h|, a, k);
  }

  /** What is reached in the clone is the clone of what is reached in the original. */
  lemma {:induction false} CloneReach(h: Heap, c: Heap, a: nat, path: seq<string>)
    requires Cloned(h, c) && ClosedBelow(h, |h|) && a < |h|
    ensures var r := Reach(c, a + |h|, path);
            r.Some? ==> |h| <= r.value < 2 * |h| && Reach(h, a, path) == Some(r.value - |h|)
    decreases |path|
  {
    hide Cloned, ClosedBelow, Field, RecordAt;
    if path != [] {
      ClonedRef(h, c, a, path[0]);
      var next := Field(RecordAt(h, a), path[0]);
      if next.Ref? {
        CloneReach(h, c, next.at, path[1..]);
      }
    }
  }

  /** A copy of a record shows below it what the record shows. */
  lemma CopyReach(h: Heap, a: nat, b: nat, path: seq<string>)
    requires RecordAt(h, a) == RecordAt(h, b) && path != []
    ensures Reach(h, a, path) == Reach(h, b, path)
  {
  }

  // ----- the input is left alone -----

  lemma WrittenOutside(h: Heap, c: Heap, config: nat, legacy: nat, depth: nat)
    requires h <= c && |h| <= config && !Field(RecordAt(c, config), DISCOVERY).Ref?
    ensures h <= WriteDiscovery(c, config, legacy, depth).heap
  {
  }

  lemma CopyCloned(h: Heap, c: Heap, o: Record)
    requires Cloned(h, c)
    ensures Cloned(h, c + [o])
  {
    forall a, k | 0 <= a < |h| ensures FieldCloned(h, c + [o], a, k) {
      assert FieldCloned(h, c, a, k);
    }
  }

  lemma ReachNothing(h: Heap, a: nat)
    ensures Reach(h, a, []) == Some(a)
  {
  }

  /** The copy of the explicit settings reaches clones only, each as the original does. */
  lemma TargetReach(h: Heap, c: Heap, t: nat, x: nat, path: seq<string>)
    requires ClosedBelow(h, |h|) && Cloned(h, c) && x < |h| && RecordAt(c, t) == RecordAt(c, x + |h|)
    ensures var r := Reach(c, t, path);
            if path == [] then r == Some(t)
            else r.Some? ==> |h| <= r.value < 2 * |h| && Reach(h, x, path) == Some(r.value - |h|)
  {
    if path == [] {
      ReachNothing(c, t);
    } else {
      CopyReach(c, t, x + |h|, path);
      CloneReach(h, c, x, path);
    }
    hide *;
  }

  lemma TargetFits(h: Heap, c: Heap, t: nat, x: nat)
    requires ClosedBelow(h, |h|) && Cloned(h, c) && x < |h| && RecordAt(c, t) == RecordAt(c, x + |h|)
    requires OnePath(h, x) && 2 * |h| <= t
    ensures OnePath(c, t) && forall p :: Reach(c, t, p).Some? ==> Reach(c, t, p).value >= |h|
  {
    hide Reach, ClosedBelow, Cloned, RecordAt;
    forall p ensures Reach(c, t, p).Some? ==> Reach(c, t, p).value >= |h| {
      TargetReach(h, c, t, x, p);
    }
    forall p, q | Reach(c, t, p).Some? && Reach(c, t, p) == Reach(c, t, q) ensures p == q {
      TargetReach(h, c, t, x, p);
      TargetReach(h, c, t, x, q);
    }
  }

  lemma ClosedPrefix(h: Heap, c: Heap, n: nat)
    requires ClosedBelow(h, n) && h <= c
    ensures ClosedBelow(c, n)
  {
    assert forall a :: 0 <= a < n ==> c[a] == h[a];
  }

  lemma AssignAbove(h: Heap, f: Heap, r: nat, key: string, value: Value)
    requires h <= f && |h| <= r
    ensures h <= Assign(f, r, key, value)
  {
  }

  lemma MergedOutside(h: Heap, c: Heap, x: nat, config: nat, legacy: nat, depth: nat)
    requires ClosedBelow(h, |h|) && Cloned(h, c) && x < |h| && legacy < |h| && |h| <= config
    requires Field(RecordAt(c, config), DISCOVERY) == Ref(x + |h|) && OnePath(h, x)
    ensures h <= WriteDiscovery(c, config, legacy, depth).heap
  {
    var c' := c + [RecordAt(c, x + |h|)];
    TargetLeaves(h, c, x, legacy, depth);
    hide OnePath, Field, Put, Cloned, ClosedBelow, MergeEntries, Assign, RecordAt;
    AssignAbove(h, MergeEntries(c', |c|, RecordAt(c', legacy), depth).heap, config, DISCOVERY, Ref(|c|));
    assert RecordAt(c', legacy) == RecordAt(c, legacy) by {
      RecordBefore(c, c', legacy);
    }
  }

  lemma RecordBefore(c: Heap, f: Heap, a: nat)
    requires a < |c| && c <= f
    ensures RecordAt(f, a) == RecordAt(c, a)
  {
  }

  /** Merging into the copy leaves the original records. */
  lemma TargetLeaves(h: Heap, c: Heap, x: nat, legacy: nat, depth: nat)
    requires ClosedBelow(h, |h|) && Cloned(h, c) && x < |h| && legacy < |h| && OnePath(h, x)
    ensures var c' := c + [RecordAt(c, x + |h|)];
            h <= MergeEntries(c', |c|, RecordAt(c', legacy), depth).heap
  {
    var c' := c + [RecordAt(c, x + |h|)];
    CopyCloned(h, c, RecordAt(c, x + |h|));
    TargetFits(h, c', |c|, x);
    ClosedPrefix(h, c', |h|);
    hide OnePath, Field, Reach, ClosedBelow, FieldCloned, MergeEntries;
    MergeLeavesFirst(c', |c|, legacy, depth, |h|);
    assert c'[..|h|] == h;
  }

  /** When no record of the explicit settings is reached along two paths, the migration leaves every record that was
      there before as it was, for all legacy settings and whatever else is shared, also when it runs out of stack. */
  lemma InputUnchanged(h: Heap, raw: Value, depth: nat)
    requires Config(h, raw)
    requires DiscoveryIn(h, raw).Ref? ==> OnePath(h, DiscoveryIn(h, raw).at)
    ensures h <= Migrated(h, raw, depth).heap
  {
    hide OnePath, ClosedBelow, WriteDiscovery, WithoutLegacyKey, EnsurePath, Walk, Field, FieldCloned;
    if LegacyIn(h, raw).Ref? {
      var c := WithoutLegacyKey(h, raw.at + |h|);
      WithoutLegacyCloned(h, raw.at);
      LegacyBelow(h, raw);
      SettingsFound(h, c, raw.at);
      var end := EnsurePath(c, raw.at + |h|, CONFIG_PATH);
      if DiscoveryIn(h, raw).Ref? {
        MergedOutside(h, c, DiscoveryIn(h, raw).at, end.at, LegacyIn(h, raw).at, depth);
      } else {
        WrittenOutside(h, end.heap, end.at, LegacyIn(h, raw).at, depth);
      }
    }
  }

  lemma LegacyBelow(h: Heap, raw: Value)
    requires Config(h, raw) && LegacyIn(h, raw).Ref?
    ensures LegacyIn(h, raw).at < |h|
  {
    PointsTo(h, |h|, raw.at, "models");
    PointsTo(h, |h|, RecordIn(h, raw, "models").at, LEGACY);
  }

  /** The path in the clone ends at the clone of the explicit settings, if there are any. */
  lemma SettingsFound(h: Heap, c: Heap, raw: nat)
    requires Cloned(h, c) && ClosedBelow(h, |h|) && raw < |h|
    ensures var end, x := EnsurePath(c, raw + |h|, CONFIG_PATH), DiscoveryIn(h, Ref(raw));
            && h <= end.heap && |h| <= end.at
            && if x.Ref? then x.at < |h| && end.heap == c && Field(RecordAt(c, end.at), DISCOVERY) == Ref(x.at + |h|)
               else !Field(RecordAt(end.heap, end.at), DISCOVERY).Ref?
  {
    hide Walk, EnsurePath, Cloned, ClosedBelow;
    EnsuredPath(h, c, raw, CONFIG_PATH);
    var found := Walk(h, Ref(raw), CONFIG_PATH);
    if found.Ref? {
      ClonedRef(h, c, found.at, DISCOVERY);
    }
  }
}
