/** What the migration computes on configurations whose records may be shared. */
module MigratedValues {
  import opened ConfigMigration
  import opened Options
  import opened Properties
  import opened SharedRecords
  import opened SharedConfig
  import opened SharedMerge

  // ----- the records that are written -----

  /** One path leads on to the other. */
  predicate OnWay(path: seq<string>, way: seq<string>) {
    path <= way || way <= path
  }

  /** The records on the way and behind its end are reached along one path each. */
  ghost predicate OnceAlong(h: Heap, a: nat, way: seq<string>) {
    forall p, q :: OnWay(p, way) && Reach(h, a, p).Some? && Reach(h, a, p) == Reach(h, a, q) ==> p == q
  }

  /** All that is reached are records after the first `n`. */
  ghost predicate ReachesAfter(h: Heap, a: nat, n: nat) {
    forall p :: Reach(h, a, p).Some? ==> n <= Reach(h, a, p).value < |h|
  }

  /** Of the records that were there only those on the way and behind its end have changed. */
  ghost predicate ChangesAlong(c: Heap, g: Heap, a: nat, way: seq<string>) {
    |c| <= |g| && forall b: nat :: b < |c| && RecordAt(g, b) != RecordAt(c, b) ==>
      exists p :: OnWay(p, way) && Reach(c, a, p) == Some(b)
  }

  /** The other fields of the record, and what they reach, have not changed. */
  ghost predicate OthersKept(c: Heap, g: Heap, a: nat, key: string, n: nat) {
    && |c| <= |g|
    && (forall k :: k != key ==>
          (Has(RecordAt(g, a), k) <==> Has(RecordAt(c, a), k)) && Field(RecordAt(g, a), k) == Field(RecordAt(c, a), k))
    && (forall k, b :: k != key && b in Region(c, a, k, n) ==> RecordAt(g, b) == RecordAt(c, b) && b in First(|g|))
  }

  /** What a record stands for when one field changes. */
  lemma FieldChanges(c: Heap, g: Heap, a: nat, key: string, j: Json, j': Json, n: nat)
    requires OthersKept(c, g, a, key, n) && j.Rec? && j'.Rec? && FieldsShow(c, RecordAt(c, a), j, First(|c|))
    requires j'.fields - {key} == j.fields - {key} && FieldShows(g, RecordAt(g, a), j', key, First(|g|))
    ensures FieldsShow(g, RecordAt(g, a), j', First(|g|))
  {
    hide OthersKept, Region, First, RecordAt, FieldShows;
    forall k ensures FieldShows(g, RecordAt(g, a), j', k, First(|g|)) {
      if k != key {
        assert FieldShows(c, RecordAt(c, a), j, k, First(|c|));
        FieldReached(c, a, j, k, First(|c|), n);
        SameBeside(j.fields, j'.fields, key, k);
        OtherKept(c, g, a, key, k, j, j', n);
      }
    }
    assert FieldsShow(g, RecordAt(g, a), j', First(|g|));
  }

  lemma SameBeside(f: Fields, f': Fields, key: string, k: string)
    requires f' - {key} == f - {key} && k != key
    ensures (k in f' <==> k in f) && (k in f ==> f'[k] == f[k])
  {
    assert k in f <==> k in f - {key};
    assert k in f' <==> k in f' - {key};
  }

  lemma OtherKept(c: Heap, g: Heap, a: nat, key: string, k: string, j: Json, j': Json, n: nat)
    requires OthersKept(c, g, a, key, n) && k != key && j.Rec? && j'.Rec?
    requires FieldShows(c, RecordAt(c, a), j, k, Region(c, a, k, n))
    requires (k in j'.fields <==> k in j.fields) && (k in j.fields ==> j'.fields[k] == j.fields[k])
    ensures FieldShows(g, RecordAt(g, a), j', k, First(|g|))
  {
    hide Region, First;
    if k in j.fields && k !in BLOCKED_OBJECT_KEYS {
      ShowsKept(c, g, Field(RecordAt(c, a), k), j.fields[k], Region(c, a, k, n), First(|g|));
    }
  }

  /** What a record stands for when its field on the way is written. */
  lemma LevelShows(c: Heap, g: Heap, a: nat, way: seq<string>, j: Json, v: Json, n: nat)
    requires way != [] && OnceAlong(c, a, way) && ReachesAfter(c, a, n) && ChangesAlong(c, g, a, way)
    requires j.Rec? && FieldsShow(c, RecordAt(c, a), j, First(|c|))
    requires forall k :: k != way[0] ==>
               (Has(RecordAt(g, a), k) <==> Has(RecordAt(c, a), k)) && Field(RecordAt(g, a), k) == Field(RecordAt(c, a), k)
    requires Has(RecordAt(g, a), way[0]) && Shows(g, Field(RecordAt(g, a), way[0]), v, First(|g|))
    ensures FieldsShow(g, RecordAt(g, a), Rec(j.fields[way[0] := v]), First(|g|))
  {
    hide OnceAlong, ReachesAfter, Region, First, FieldsShow, Reach, RecordAt, Has, Field;
    forall k, b | k != way[0] && b in Region(c, a, k, n) ensures RecordAt(g, b) == RecordAt(c, b) && b in First(|g|) {
      BesideRegion(c, g, a, way, k, n, b);
    }
    FieldChanges(c, g, a, way[0], j, Rec(j.fields[way[0] := v]), n);
  }

  lemma BesideUntouched(c: Heap, g: Heap, a: nat, way: seq<string>, k: string, q: seq<string>, n: nat)
    requires way != [] && OnceAlong(c, a, way) && ReachesAfter(c, a, n) && ChangesAlong(c, g, a, way) && k != way[0]
    requires Reach(c, a, [k] + q).Some?
    ensures var b := Reach(c, a, [k] + q).value; RecordAt(g, b) == RecordAt(c, b) && n <= b < |g|
  {
    assert ([k] + q)[0] == k;
    assert !OnWay([k] + q, way);
    hide Reach, RecordAt, OnWay;
    var b := Reach(c, a, [k] + q).value;
    forall p ensures !(OnWay(p, way) && Reach(c, a, p) == Some(b)) {
    }
  }

  lemma OlderUntouched(c: Heap, g: Heap, a: nat, way: seq<string>, n: nat, b: nat)
    requires ReachesAfter(c, a, n) && ChangesAlong(c, g, a, way) && b < n
    ensures RecordAt(g, b) == RecordAt(c, b) && b < |g|
  {
    assert Reach(c, a, []) == Some(a);
  }

  /** What a field beside the way reaches has not changed. */
  lemma BesideRegion(c: Heap, g: Heap, a: nat, way: seq<string>, k: string, n: nat, b: nat)
    requires way != [] && OnceAlong(c, a, way) && ReachesAfter(c, a, n) && ChangesAlong(c, g, a, way) && k != way[0]
    requires b in Region(c, a, k, n)
    ensures RecordAt(g, b) == RecordAt(c, b) && b in First(|g|)
  {
    hide OnceAlong, OnWay, Reach, ChangesAlong, ReachesAfter, RecordAt;
    if b in First(n) {
      OlderUntouched(c, g, a, way, n, b);
    } else {
      var q :| Reach(c, a, [k] + q) == Some(b);
      BesideUntouched(c, g, a, way, k, q, n);
    }
  }

  /** None of the names that lead to the discovery settings is blocked. */
  lemma WayFree()
    ensures DISCOVERY !in BLOCKED_OBJECT_KEYS && "models" !in BLOCKED_OBJECT_KEYS
    ensures forall k :: k in CONFIG_PATH ==> k !in BLOCKED_OBJECT_KEYS && !Deletable(k)
  {
    assert DISCOVERY[0] == 'd' && |"__proto__"| == 9 && |"prototype"| == 9 && |"constructor"| == 11;
  }

  // ----- writing below the path -----

  /** The records of the path are ensured below `a`, and the settings written at its end. */
  function Written(c: Heap, a: nat, path: seq<string>, legacy: nat, depth: nat): Run {
    var config := EnsurePath(c, a, path);
    WriteDiscovery(config.heap, config.at, legacy, depth)
  }

  /** One level down everything is as it was above. */
  lemma ChildBelow(c: Heap, a: nat, way: seq<string>, n: nat, b: nat)
    requires way != [] && OnceAlong(c, a, way) && ReachesAfter(c, a, n)
    requires way[0] !in BLOCKED_OBJECT_KEYS && Field(RecordAt(c, a), way[0]) == Ref(b)
    ensures OnceAlong(c, b, way[1..]) && ReachesAfter(c, b, n) && forall p :: Reach(c, b, p) == Reach(c, a, [way[0]] + p)
  {
    forall p ensures Reach(c, b, p) == Reach(c, a, [way[0]] + p) {
      ReachCons(c, a, way[0], b, p);
    }
    forall p, q | OnWay(p, way[1..]) && Reach(c, b, p).Some? && Reach(c, b, p) == Reach(c, b, q) ensures p == q {
      var k := way[0];
      assert [k] + way[1..] == way && OnWay([k] + p, way);
      assert p == ([k] + p)[1..] && q == ([k] + q)[1..];
    }
  }

  lemma ChildChanges(c: Heap, g: Heap, a: nat, way: seq<string>, b: nat)
    requires way != [] && ChangesAlong(c, g, b, way[1..])
    requires forall p :: Reach(c, b, p) == Reach(c, a, [way[0]] + p)
    ensures ChangesAlong(c, g, a, way)
  {
    forall d: nat | d < |c| && RecordAt(g, d) != RecordAt(c, d)
      ensures exists p :: OnWay(p, way) && Reach(c, a, p) == Some(d)
    {
      var p :| OnWay(p, way[1..]) && Reach(c, b, p) == Some(d);
      assert [way[0]] + way[1..] == way && OnWay([way[0]] + p, way);
    }
  }

  /** What an explicit record reaches does not lead back to where it is written. */
  lemma WrittenApart(c: Heap, a: nat, way: seq<string>, b: nat)
    requires way != [] && OnceAlong(c, a, way) && forall p :: Reach(c, b, p) == Reach(c, a, [way[0]] + p)
    ensures forall p :: Reach(c, b, p) != Some(a)
  {
    assert Reach(c, a, []) == Some(a) && OnWay([], way);
    forall p ensures Reach(c, b, p) != Some(a) {
      assert |[way[0]] + p| > 0;
    }
  }

  /** Legacy settings, among the first `n` records, that stand for `l`. */
  ghost predicate LegacyShows(c: Heap, legacy: nat, l: Json, n: nat) {
    ClosedBelow(c, n) && legacy < n && l.Rec? && Shows(c, Ref(legacy), l, First(n))
  }

  /** The record's fields stand for what the object says, on records that are there. */
  ghost predicate RecordShows(c: Heap, a: nat, j: Json) {
    j.Rec? && a < |c| && FieldsShow(c, RecordAt(c, a), j, First(|c|))
  }

  /** What writing at the end of the path comes to: the written object, or no stack. */
  ghost predicate WritesWell(c: Heap, run: Run, a: nat, path: seq<string>, j: Json, l: Json)
    requires l.Rec? && j.Rec?
  {
    !run.threw ==>
      && RecordShows(run.heap, a, Rec(WriteAt(j.fields, path, l.fields)))
      && ChangesAlong(c, run.heap, a, path + [DISCOVERY])
  }

  // ----- at the end of the path -----

  /** Without explicit settings a copy of the legacy ones moves in. */
  lemma MovesIn(c: Heap, a: nat, legacy: nat, j: Json, l: Json, n: nat, depth: nat)
    requires LegacyShows(c, legacy, l, n) && RecordShows(c, a, j)
    requires OnceAlong(c, a, [DISCOVERY]) && ReachesAfter(c, a, n) && !Field(RecordAt(c, a), DISCOVERY).Ref?
    ensures WritesWell(c, WriteDiscovery(c, a, legacy, depth), a, [], j, l)
  {
    var o := RecordAt(c, legacy);
    var g := Assign(c + [o], a, DISCOVERY, Ref(|c|));
    AfterHere(c, a, n);
    KindHere(c, a, j);
    AssignFields(c + [o], a, DISCOVERY, Ref(|c|));
    AlongHere(c, g, a);
    hide Field, Has, OnceAlong, ReachesAfter, ClosedBelow, ChangesAlong, Put, FieldsShow;
    ShowsKept(c, g, Ref(legacy), l, First(n), First(|g|));
    CopyShows(g, legacy, |c|, l, First(|g|));
    LevelShows(c, g, a, [DISCOVERY], j, l, n);
  }

  lemma AfterHere(c: Heap, a: nat, n: nat)
    requires ReachesAfter(c, a, n)
    ensures n <= a < |c|
  {
    assert Reach(c, a, []) == Some(a);
  }

  /** Explicit settings are a record exactly when they stand for one. */
  lemma KindHere(c: Heap, a: nat, j: Json)
    requires RecordShows(c, a, j)
    ensures var x := Field(RecordAt(c, a), DISCOVERY);
            (x.Ref? <==> FieldOf(j, DISCOVERY).Rec?) && (x.Ref? ==> Shows(c, x, FieldOf(j, DISCOVERY), First(|c|)))
  {
    WayFree();
    FieldKind(c, RecordAt(c, a), j, DISCOVERY, First(|c|));
  }

  lemma FieldKind(h: Heap, o: Record, j: Json, k: string, within: iset<nat>)
    requires j.Rec? && FieldsShow(h, o, j, within) && k !in BLOCKED_OBJECT_KEYS
    ensures (Field(o, k).Ref? <==> FieldOf(j, k).Rec?) && Shows(h, Field(o, k), FieldOf(j, k), within)
  {
    assert FieldShows(h, o, j, k, within);
    assert Shows(h, Field(o, k), FieldOf(j, k), within);
    KindShown(h, Field(o, k), FieldOf(j, k), within);
  }

  lemma KindShown(h: Heap, v: Value, j: Json, within: iset<nat>)
    requires Shows(h, v, j, within)
    ensures v.Ref? <==> j.Rec?
  {
  }

  lemma CopyShows(c: Heap, a: nat, copy: nat, j: Json, within: iset<nat>)
    requires Shows(c, Ref(a), j, within) && RecordAt(c, copy) == RecordAt(c, a) && copy in within
    ensures Shows(c, Ref(copy), j, within)
  {
  }

  lemma AssignFields(h: Heap, a: nat, key: string, value: Value)
    requires a < |h|
    ensures var o := RecordAt(Assign(h, a, key, value), a);
            forall k :: (Has(o, k) <==> k == key || Has(h[a], k))
                        && Field(o, k) == if k == key then value else Field(h[a], k)
  {
    forall k ensures Has(Put(h[a], key, value), k) <==> k == key || Has(h[a], k)
      ensures Field(Put(h[a], key, value), k) == if k == key then value else Field(h[a], k)
    {
      GetOfPut(h[a], key, value, k);
      FieldOfPut(h[a], key, value, k);
    }
  }

  /** Only the record itself has changed. */
  lemma AlongHere(c: Heap, g: Heap, a: nat)
    requires a < |c| <= |g| && forall b: nat :: b < |c| && b != a ==> RecordAt(g, b) == RecordAt(c, b)
    ensures forall way :: ChangesAlong(c, g, a, way)
  {
    assert Reach(c, a, []) == Some(a);
  }

  /** The copy of the explicit settings as the target of the merge. */
  lemma CopyStarts(c: Heap, x: nat, n: nat)
    requires OnePath(c, x) && ReachesAfter(c, x, n)
    ensures var c' := c + [RecordAt(c, x)];
            OnePath(c', |c|) && ReachesAfter(c', |c|, n)
            && (forall p :: p != [] ==> Reach(c', |c|, p) == Reach(c, x, p)) && Reach(c', |c|, []) == Some(|c|)
  {
    var c' := c + [RecordAt(c, x)];
    AfterHere(c, x, n);
    assert Reach(c', |c|, []) == Some(|c|);
    forall p | p != [] ensures Reach(c', |c|, p) == Reach(c, x, p) {
      CopyReach(c', |c|, x, p);
      ReachKept(c, c', x, p);
    }
  }

  /** The merge into the copy: what it makes of it, and where. */
  lemma CopyMerged(c: Heap, x: nat, legacy: nat, e: Json, l: Json, n: nat, depth: nat)
    requires LegacyShows(c, legacy, l, n) && e.Rec? && Shows(c, Ref(x), e, First(|c|))
    requires OnePath(c, x) && ReachesAfter(c, x, n)
    ensures var c' := c + [RecordAt(c, x)]; var run := MergeEntries(c', |c|, RecordAt(c, legacy), depth);
            && (Nested(l, depth) ==> !run.threw)
            && (!run.threw ==> Shows(run.heap, Ref(|c|), Rec(Merge(e.fields, l)), Reached(c', |c|, n)))
            && |run.heap| == |c'|
            && forall b: nat :: RecordAt(run.heap, b) != RecordAt(c', b) ==> b in Reached(c', |c|, n) && n <= b
  {
    var c' := c + [RecordAt(c, x)];
    AfterHere(c, x, n);
    CopyStarts(c, x, n);
    ClosedPrefix(c, c', n);
    hide OnePath, Reach, ClosedBelow, FieldsShow, Nested;
    ShowsKept(c, c', Ref(x), e, First(|c|), First(|c'|));
    CopyShows(c', x, |c|, e, First(|c'|));
    ShowsKept(c, c', Ref(legacy), l, First(n), First(|c'|));
    MergeShows(c', |c|, legacy, e, l, depth, n, First(|c'|));
    MergeTouches(c', |c|, legacy, depth, n);
  }

  lemma MergeTouches(h: Heap, target: nat, source: nat, depth: nat, n: nat)
    requires ClosedBelow(h, n) && source < n && OnePath(h, target) && ReachesAfter(h, target, n)
    ensures var g := MergeEntries(h, target, RecordAt(h, source), depth).heap;
            |g| == |h| && forall b: nat :: RecordAt(g, b) != RecordAt(h, b) ==> b in Reached(h, target, n) && n <= b
  {
    var entries := RecordAt(h, source);
    var g := MergeEntries(h, target, entries, depth).heap;
    assert Reach(h, target, []) == Some(target);
    EntriesBelow(h, n, source);
    assert Fits(h, target, entries, n);
    MergeChanges(h, target, entries, depth, n);
    forall b: nat | RecordAt(g, b) != RecordAt(h, b) ensures b in Reached(h, target, n) && n <= b {
      assert Touched(h, target, entries, b);
    }
  }

  /** The merged copy takes the place of the explicit settings. */
  lemma PutsBack(c: Heap, a: nat, x: nat, merged: Heap, j: Json, v: Json, n: nat)
    requires RecordShows(c, a, j) && OnceAlong(c, a, [DISCOVERY]) && ReachesAfter(c, a, n)
    requires Field(RecordAt(c, a), DISCOVERY) == Ref(x)
    requires var r := Reached(c + [RecordAt(c, x)], |c|, n);
             && Shows(merged, Ref(|c|), v, r) && |merged| == |c| + 1
             && forall b: nat :: RecordAt(merged, b) != RecordAt(c + [RecordAt(c, x)], b) ==> b in r && n <= b
    ensures var g := Assign(merged, a, DISCOVERY, Ref(|c|));
            RecordShows(g, a, Rec(j.fields[DISCOVERY := v])) && ChangesAlong(c, g, a, [DISCOVERY])
  {
    var g, c' := Assign(merged, a, DISCOVERY, Ref(|c|)), c + [RecordAt(c, x)];
    var r := Reached(c', |c|, n);
    WayFree();
    AfterHere(c, a, n);
    ReachedHere(c, a, x, n);
    AssignFields(merged, a, DISCOVERY, Ref(|c|));
    assert RecordAt(merged, a) == RecordAt(c, a);
    hide OnceAlong, ReachesAfter, Reach, Field, Has, FieldsShow, Reached, Put;
    ShowsKept(merged, g, Ref(|c|), v, r, First(|g|));
    forall b: nat | b < |c| && RecordAt(g, b) != RecordAt(c, b)
      ensures exists p :: OnWay(p, [DISCOVERY]) && Reach(c, a, p) == Some(b)
    {
      if b == a {
        ReachNothing(c, a);
      }
    }
    LevelShows(c, g, a, [DISCOVERY], j, v, n);
  }

  /** What the copy reaches: itself, and what `a` reaches along the way, but not `a`. */
  lemma ReachedHere(c: Heap, a: nat, x: nat, n: nat)
    requires OnceAlong(c, a, [DISCOVERY]) && ReachesAfter(c, a, n) && Field(RecordAt(c, a), DISCOVERY) == Ref(x)
    ensures var r := Reached(c + [RecordAt(c, x)], |c|, n);
            && a !in r && r <= First(|c| + 1)
            && forall b: nat :: b in r && n <= b < |c| ==> exists p :: OnWay(p, [DISCOVERY]) && Reach(c, a, p) == Some(b)
  {
    WayFree();
    AfterHere(c, a, n);
    ChildBelow(c, a, [DISCOVERY], n, x);
    OnceIsOnePath(c, x);
    CopyStarts(c, x, n);
    WrittenApart(c, a, [DISCOVERY], x);
    var c' := c + [RecordAt(c, x)];
    forall b: nat | b in Reached(c', |c|, n) && n <= b
      ensures b != a && b < |c| + 1 && (b < |c| ==> exists p :: OnWay(p, [DISCOVERY]) && Reach(c, a, p) == Some(b))
    {
      var p :| Reach(c', |c|, p) == Some(b);
      if p != [] {
        assert Reach(c, x, p) == Some(b) == Reach(c, a, [DISCOVERY] + p) && OnWay([DISCOVERY] + p, [DISCOVERY]);
      }
    }
  }

  lemma OnceIsOnePath(c: Heap, x: nat)
    requires OnceAlong(c, x, [])
    ensures OnePath(c, x)
  {
    assert forall p: seq<string> :: OnWay(p, []);
  }

  /** Explicit settings are merged with the legacy ones into a copy that takes their place. */
  lemma MergesIn(c: Heap, a: nat, legacy: nat, j: Json, l: Json, n: nat, depth: nat)
    requires LegacyShows(c, legacy, l, n) && RecordShows(c, a, j)
    requires OnceAlong(c, a, [DISCOVERY]) && ReachesAfter(c, a, n) && Field(RecordAt(c, a), DISCOVERY).Ref?
    ensures WritesWell(c, WriteDiscovery(c, a, legacy, depth), a, [], j, l)
    ensures Nested(l, depth) ==> !WriteDiscovery(c, a, legacy, depth).threw
  {
    WayFree();
    KindHere(c, a, j);
    var x, e := Field(RecordAt(c, a), DISCOVERY).at, FieldOf(j, DISCOVERY);
    ChildBelow(c, a, [DISCOVERY], n, x);
    OnceIsOnePath(c, x);
    hide OnePath, OnceAlong, ReachesAfter, Reach, Field, FieldsShow, Reached, Put, Nested, Merge, Shows, ClosedBelow;
    CopyMerged(c, x, legacy, e, l, n, depth);
    var run := MergeEntries(c + [RecordAt(c, x)], |c|, RecordAt(c, legacy), depth);
    if !run.threw {
      PutsBack(c, a, x, run.heap, j, Rec(Merge(e.fields, l)), n);
    }
  }

  // ----- writing below the path, from any record on it -----

  /** The record of a field that is on the path. */
  lemma ChildShows(c: Heap, a: nat, j: Json, k: string, b: nat, n: nat)
    requires RecordShows(c, a, j) && k !in BLOCKED_OBJECT_KEYS && Field(RecordAt(c, a), k) == Ref(b) && ReachesAfter(c, b, n)
    ensures FieldOf(j, k).Rec? && RecordShows(c, b, FieldOf(j, k))
  {
    FieldKind(c, RecordAt(c, a), j, k, First(|c|));
    AfterHere(c, b, n);
  }

  lemma WriteAtStep(j: Json, path: seq<string>, l: Fields)
    requires j.Rec? && path != []
    ensures WriteAt(j.fields, path, l) ==
              j.fields[path[0] := Rec(WriteAt(EnsuredFields(j.fields, path[0]), path[1..], l))]
    ensures EnsuredFields(j.fields, path[0]) == if FieldOf(j, path[0]).Rec? then FieldOf(j, path[0]).fields else map[]
  {
  }

  lemma RecordIsShown(g: Heap, b: nat, v: Json)
    requires RecordShows(g, b, v)
    ensures Shows(g, Ref(b), v, First(|g|))
  {
  }

  /** Written below a record that was there. */
  lemma WrittenInside(c: Heap, g: Heap, a: nat, way: seq<string>, j: Json, v: Json, b: nat, n: nat)
    requires way != [] && way[0] !in BLOCKED_OBJECT_KEYS && RecordShows(c, a, j) && Field(RecordAt(c, a), way[0]) == Ref(b)
    requires OnceAlong(c, a, way) && ReachesAfter(c, a, n)
    requires RecordShows(g, b, v) && ChangesAlong(c, g, b, way[1..])
    ensures RecordShows(g, a, Rec(j.fields[way[0] := v])) && ChangesAlong(c, g, a, way)
  {
    ChildBelow(c, a, way, n, b);
    ChildChanges(c, g, a, way, b);
    WrittenApart(c, a, way, b);
    RecordIsShown(g, b, v);
    assert RecordAt(g, a) == RecordAt(c, a);
    hide OnceAlong, ReachesAfter, ChangesAlong, Reach, FieldsShow;
    LevelShows(c, g, a, way, j, v, n);
  }

  /** The new record that takes the place of whatever is not one. */
  lemma NewRecordStarts(c: Heap, a: nat, k: string, legacy: nat, l: Json, n: nat)
    requires LegacyShows(c, legacy, l, n) && n <= a < |c| && !Field(RecordAt(c, a), k).Ref?
    ensures var next := EnsureRecord(c, a, k);
            && next.at == |c| && |next.heap| == |c| + 1 && LegacyShows(next.heap, legacy, l, n)
            && RecordShows(next.heap, |c|, Rec(map[])) && ReachesAfter(next.heap, |c|, n)
            && (forall p :: Reach(next.heap, |c|, p).Some? ==> p == [])
  {
    var next := EnsureRecord(c, a, k);
    assert RecordAt(next.heap, |c|) == [];
    assert forall k :: FieldShows(next.heap, [], Rec(map[]), k, First(|next.heap|));
    assert ClosedBelow(next.heap, n) by {
      assert forall b :: 0 <= b < n ==> next.heap[b] == c[b];
    }
    ShowsKept(c, next.heap, Ref(legacy), l, First(n), First(n));
  }

  /** Written below a new record. */
  lemma WrittenNew(c: Heap, g: Heap, a: nat, way: seq<string>, j: Json, v: Json, n: nat)
    requires way != [] && RecordShows(c, a, j) && !Field(RecordAt(c, a), way[0]).Ref?
    requires OnceAlong(c, a, way) && ReachesAfter(c, a, n) && RecordShows(g, |c|, v)
    requires var next := EnsureRecord(c, a, way[0]);
             ChangesAlong(next.heap, g, |c|, way[1..]) && forall p :: Reach(next.heap, |c|, p).Some? ==> p == []
    ensures RecordShows(g, a, Rec(j.fields[way[0] := v])) && ChangesAlong(c, g, a, way)
  {
    AfterHere(c, a, n);
    BesideNew(c, g, a, way[0], way[1..]);
    AlongHere(c, g, a);
    AssignFields(c, a, way[0], Ref(|c|));
    RecordIsShown(g, |c|, v);
    hide OnceAlong, ReachesAfter, ChangesAlong, Reach, FieldsShow, EnsureRecord, Put, Has, Field;
    LevelShows(c, g, a, way, j, v, n);
  }

  lemma BesideNew(c: Heap, g: Heap, a: nat, k: string, rest: seq<string>)
    requires a < |c| && !Field(RecordAt(c, a), k).Ref?
    requires var next := EnsureRecord(c, a, k);
             ChangesAlong(next.heap, g, |c|, rest) && forall p :: Reach(next.heap, |c|, p).Some? ==> p == []
    ensures |c| <= |g| && forall b: nat :: b < |c| ==> RecordAt(g, b) == RecordAt(Assign(c, a, k, Ref(|c|)), b)
  {
    hide Put, Field, EnsureRecord, Reach;
    EnsuresNew(c, a, k);
    var f := Assign(c, a, k, Ref(|c|));
    forall b: nat | b < |c| ensures RecordAt(g, b) == RecordAt(f + [[]], b) {
      ReachNothing(f + [[]], |c|);
    }
  }

  lemma EnsuresNew(c: Heap, a: nat, k: string)
    requires a < |c| && !Field(RecordAt(c, a), k).Ref?
    ensures EnsureRecord(c, a, k) == Located(Assign(c, a, k, Ref(|c|)) + [[]], |c|)
  {
  }

  /** Writing below the path ends with what ConfigMigration.WriteAt says. */
  lemma {:induction false} WriteShows(c: Heap, a: nat, path: seq<string>, legacy: nat, j: Json, l: Json, n: nat, depth: nat)
    requires LegacyShows(c, legacy, l, n) && RecordShows(c, a, j)
    requires OnceAlong(c, a, path + [DISCOVERY]) && ReachesAfter(c, a, n)
    requires forall k :: k in path ==> k !in BLOCKED_OBJECT_KEYS
    ensures WritesWell(c, Written(c, a, path, legacy, depth), a, path, j, l)
    ensures Nested(l, depth) ==> !Written(c, a, path, legacy, depth).threw
    decreases |path|
  {
    var way, run := path + [DISCOVERY], Written(c, a, path, legacy, depth);
    if path == [] {
      assert way == [DISCOVERY];
      if Field(RecordAt(c, a), DISCOVERY).Ref? {
        MergesIn(c, a, legacy, j, l, n, depth);
      } else {
        MovesIn(c, a, legacy, j, l, n, depth);
      }
    } else {
      assert way[0] == path[0] && way[1..] == path[1..] + [DISCOVERY];
      WriteAtStep(j, path, l.fields);
      FieldKind(c, RecordAt(c, a), j, path[0], First(|c|));
      AfterHere(c, a, n);
      hide OnceAlong, ReachesAfter, ChangesAlong, RecordShows, Reach, FieldsShow, WriteAt, LegacyShows, Shows, FieldOf,
           WriteDiscovery, Nested, RecordAt, Field, EnsuredFields;
      if Field(RecordAt(c, a), path[0]).Ref? {
        var b, e := Field(RecordAt(c, a), path[0]).at, FieldOf(j, path[0]);
        ChildBelow(c, a, way, n, b);
        ChildShows(c, a, j, path[0], b, n);
        WriteShows(c, b, path[1..], legacy, e, l, n, depth);
        if !run.threw {
          WrittenInside(c, run.heap, a, way, j, Rec(WriteAt(e.fields, path[1..], l.fields)), b, n);
        }
      } else {
        var next := EnsureRecord(c, a, path[0]);
        NewRecordStarts(c, a, path[0], legacy, l, n);
        OnceAtNew(next.heap, |c|, way[1..]);
        WriteShows(next.heap, next.at, path[1..], legacy, Rec(map[]), l, n, depth);
        if !run.threw {
          WrittenNew(c, run.heap, a, way, j, Rec(WriteAt(map[], path[1..], l.fields)), n);
        }
      }
    }
  }

  lemma OnceAtNew(c: Heap, a: nat, way: seq<string>)
    requires forall p :: Reach(c, a, p).Some? ==> p == []
    ensures OnceAlong(c, a, way)
  {
  }

  // ----- the legacy key -----

  /** A clone stands for what the original does. */
  lemma {:induction false} CloneShows(h: Heap, v: Value, j: Json)
    requires ClosedBelow(h, |h|) && Shows(h, v, j, First(|h|))
    ensures Shows(StructuredClone(h), Moved(v, |h|), j, First(2 * |h|))
    decreases j
  {
    if j.Rec? {
      var c, o := StructuredClone(h), RecordAt(h, v.at);
      var o' := RecordAt(c, v.at + |h|);
      forall k ensures FieldShows(c, o', j, k, First(2 * |h|)) {
        assert FieldShows(h, o, j, k, First(|h|));
        CloneField(h, v.at, k);
        HasMoved(o, |h|, k);
        if k in j.fields && k !in BLOCKED_OBJECT_KEYS {
          CloneShows(h, Field(o, k), j.fields[k]);
        }
      }
      assert FieldsShow(c, o', j, First(2 * |h|));
    }
  }

  /** The record at the end of the path is reached in no other way. */
  ghost predicate OnlyAt(h: Heap, a: nat, path: seq<string>) {
    Reach(h, a, path).Some? && forall q :: Reach(h, a, q) == Reach(h, a, path) ==> q == path
  }

  /** A field of the record is deleted. */
  lemma FieldDeleted(c: Heap, a: nat, key: string, j: Json, n: nat)
    requires OnlyAt(c, a, []) && ReachesAfter(c, a, n) && RecordShows(c, a, j)
    ensures RecordShows(Store(c, a, Remove(RecordAt(c, a), key)), a, Rec(j.fields - {key}))
  {
    var g := Store(c, a, Remove(RecordAt(c, a), key));
    assert Reach(c, a, []) == Some(a);
    forall k ensures Field(RecordAt(g, a), k) == (if k == key then Undef else Field(RecordAt(c, a), k))
      ensures Has(RecordAt(g, a), k) <==> k != key && Has(RecordAt(c, a), k)
    {
      FieldOfRemoved(RecordAt(c, a), key, k);
      HasOfRemoved(RecordAt(c, a), key, k);
    }
    forall k, b | k != key && b in Region(c, a, k, n) ensures RecordAt(g, b) == RecordAt(c, b) && b in First(|g|) {
      RegionSpares(c, a, k, n, b, a, []);
    }
    FieldChanges(c, g, a, key, j, Rec(j.fields - {key}), n);
  }

  lemma {:induction false} HasOfRemoved(o: Record, key: string, k: string)
    ensures Has(Remove(o, key), k) <==> k != key && Has(o, k)
  {
    if o != [] {
      FieldSteps(o, k);
      HasOfRemoved(o[1..], key, k);
      if o[0].key != key {
        FieldSteps(Remove(o, key), k);
        assert Remove(o, key)[1..] == Remove(o[1..], key);
      }
    }
  }

  /** A field does not reach the record at the end of another path. */
  lemma RegionSpares(c: Heap, a: nat, k: string, n: nat, b: nat, m: nat, path: seq<string>)
    requires OnlyAt(c, a, path) && Reach(c, a, path) == Some(m) && ReachesAfter(c, a, n) && !([k] <= path)
    requires b in Region(c, a, k, n)
    ensures b != m && b < |c|
  {
    AfterHere(c, a, n);
    if b !in First(n) {
      var q :| Reach(c, a, [k] + q) == Some(b);
      assert [k] <= [k] + q;
    }
  }

  /** A field's record changes, and nothing else reaches it. */
  lemma FieldRecordChanges(c: Heap, g: Heap, a: nat, key: string, m: nat, j: Json, v: Json, n: nat)
    requires key !in BLOCKED_OBJECT_KEYS && Field(RecordAt(c, a), key) == Ref(m) && OnlyAt(c, a, [key])
    requires ReachesAfter(c, a, n) && RecordShows(c, a, j) && RecordShows(g, m, v)
    requires |g| == |c| && forall b: nat :: b != m ==> RecordAt(g, b) == RecordAt(c, b)
    ensures RecordShows(g, a, Rec(j.fields[key := v]))
  {
    assert Reach(c, a, []) == Some(a);
    ReachCons(c, a, key, m, []);
    assert [key] + [] == [key] && Reach(c, m, []) == Some(m);
    assert a != m;
    forall k, b | k != key && b in Region(c, a, k, n) ensures RecordAt(g, b) == RecordAt(c, b) && b in First(|g|) {
      RegionSpares(c, a, k, n, b, m, [key]);
    }
    RecordIsShown(g, m, v);
    FieldChanges(c, g, a, key, j, Rec(j.fields[key := v]), n);
  }

  /** The records that the migration writes into are reached along one path each. */
  ghost predicate WrittenOnce(h: Heap, raw: nat) {
    OnceAlong(h, raw, CONFIG_PATH + [DISCOVERY]) && (Reach(h, raw, ["models"]).Some? ==> OnlyAt(h, raw, ["models"]))
  }

  lemma OnlyAtCloned(h: Heap, c: Heap, a: nat, path: seq<string>, a': nat)
    requires Cloned(h, c) && ClosedBelow(h, |h|) && a < |h| && a' == a + |h| && Reach(c, a', path).Some?
    requires Reach(h, a, path).Some? ==> OnlyAt(h, a, path)
    ensures OnlyAt(c, a', path)
  {
    hide Reach, ClosedBelow, Cloned;
    CloneReach(h, c, a, path);
    forall q | Reach(c, a', q) == Reach(c, a', path) ensures q == path {
      CloneReach(h, c, a, q);
    }
  }

  lemma OnceCloned(h: Heap, c: Heap, a: nat, way: seq<string>, a': nat)
    requires Cloned(h, c) && ClosedBelow(h, |h|) && a < |h| && a' == a + |h| && OnceAlong(h, a, way)
    ensures OnceAlong(c, a', way) && ReachesAfter(c, a', |h|) && OnlyAt(c, a', [])
  {
    hide Reach, OnWay, ClosedBelow;
    forall p ensures Reach(c, a', p).Some? ==> |h| <= Reach(c, a', p).value < |c| {
      CloneReach(h, c, a, p);
    }
    forall p, q | OnWay(p, way) && Reach(c, a', p).Some? && Reach(c, a', p) == Reach(c, a', q) ensures p == q {
      CloneReach(h, c, a, p);
      CloneReach(h, c, a, q);
    }
    RootOnce(c, a', way);
  }

  lemma RootOnce(h: Heap, a: nat, way: seq<string>)
    requires OnceAlong(h, a, way)
    ensures OnlyAt(h, a, [])
  {
    assert OnWay([], way) && Reach(h, a, []) == Some(a);
  }

  lemma OnlyBelow(c: Heap, a: nat, k: string, b: nat, n: nat)
    requires ReachesAfter(c, a, n) && k !in BLOCKED_OBJECT_KEYS && Field(RecordAt(c, a), k) == Ref(b)
    requires OnlyAt(c, a, [k])
    ensures ReachesAfter(c, b, n) && OnlyAt(c, b, []) && b != a
  {
    forall p ensures Reach(c, b, p) == Reach(c, a, [k] + p) {
      ReachCons(c, a, k, b, p);
    }
    assert Reach(c, b, []) == Some(b) && Reach(c, a, []) == Some(a) && [k] + [] == [k];
    forall q | Reach(c, b, q) == Some(b) ensures q == [] {
      assert [k] + q == [k];
    }
  }

  lemma EmptyShown(c: Heap, a: nat, j: Json)
    requires RecordShows(c, a, j)
    ensures RecordAt(c, a) == [] <==> j.fields == map[]
  {
    var o := RecordAt(c, a);
    if o != [] {
      assert FieldShows(c, o, j, o[0].key, First(|c|));
      assert Has(o, o[0].key);
    } else {
      forall k ensures k !in j.fields {
        assert FieldShows(c, o, j, k, First(|c|));
        assert !Has(o, k);
      }
    }
  }

  /** Deleting the legacy key, and the models record with it when that leaves it empty. */
  lemma KeyDeleted(h: Heap, c: Heap, raw: nat, root: nat, m: nat, j: Json, models: Json)
    requires ClosedBelow(h, |h|) && raw < |h| && root == raw + |h| && Cloned(h, c) && WrittenOnce(h, raw)
    requires RecordShows(c, root, j) && models == FieldOf(j, "models") && RecordShows(c, m, models)
    requires Field(RecordAt(c, root), "models") == Ref(m)
    ensures RecordShows(PruneEmptyModelsRoot(Store(c, m, Remove(RecordAt(c, m), LEGACY)), root), root,
                        Rec(WithoutLegacy(j.fields)))
  {
    WayFree();
    var n, c1, left := |h|, Store(c, m, Remove(RecordAt(c, m), LEGACY)), models.fields - {LEGACY};
    ModelsReached(c, root, m);
    OnlyAtCloned(h, c, raw, ["models"], root);
    OnceCloned(h, c, raw, CONFIG_PATH + [DISCOVERY], root);
    OnlyBelow(c, root, "models", m, n);
    assert forall b: nat :: b != m ==> RecordAt(c1, b) == RecordAt(c, b);
    assert Deletable(LEGACY);
    hide *;
    FieldDeleted(c, m, LEGACY, models, n);
    FieldRecordChanges(c, c1, root, "models", m, j, Rec(left), n);
    RemoveCloned(h, c, m, LEGACY);
    OnceCloned(h, c1, raw, CONFIG_PATH + [DISCOVERY], root);
    ModelsPruned(c1, root, m, j, models, n);
  }

  lemma ModelsPruned(c: Heap, root: nat, m: nat, j: Json, models: Json, n: nat)
    requires j.Rec? && models.Rec? && models == FieldOf(j, "models") && RecordShows(c, m, Rec(models.fields - {LEGACY}))
    requires RecordShows(c, root, Rec(j.fields["models" := Rec(models.fields - {LEGACY})]))
    requires Field(RecordAt(c, root), "models") == Ref(m) && OnlyAt(c, root, []) && ReachesAfter(c, root, n)
    ensures RecordShows(PruneEmptyModelsRoot(c, root), root, Rec(WithoutLegacy(j.fields)))
  {
    var left := models.fields - {LEGACY};
    EmptyShown(c, m, Rec(left));
    hide FieldsShow, Remove, Field;
    if left == map[] {
      FieldDeleted(c, root, "models", Rec(j.fields["models" := Rec(left)]), n);
      assert j.fields["models" := Rec(left)] - {"models"} == j.fields - {"models"};
    }
  }

  lemma ModelsReached(c: Heap, root: nat, m: nat)
    requires Field(RecordAt(c, root), "models") == Ref(m)
    ensures Reach(c, root, ["models"]) == Some(m)
  {
    WayFree();
    ReachCons(c, root, "models", m, []);
    assert ["models"] + [] == ["models"];
  }

  /** The clone without the legacy key stands for what ConfigMigration.WithoutLegacy says. */
  lemma CleanShows(h: Heap, raw: nat, root: nat, j: Json)
    requires ClosedBelow(h, |h|) && raw < |h| && root == raw + |h| && WrittenOnce(h, raw)
    requires RecordShows(h, raw, j) && LegacyIn(h, Ref(raw)).Ref?
    ensures RecordShows(WithoutLegacyKey(h, root), root, Rec(WithoutLegacy(j.fields)))
  {
    WayFree();
    var c, models := StructuredClone(h), FieldOf(j, "models");
    var m := Field(RecordAt(h, raw), "models").at + |h|;
    CloneField(h, raw, "models");
    CloneCloned(h);
    RecordIsShown(h, raw, j);
    CloneShows(h, Ref(raw), j);
    hide StructuredClone, FieldsShow, Cloned, WrittenOnce, Remove, PruneEmptyModelsRoot, WithoutLegacy, ClosedBelow;
    ShownInClone(h, c, raw, root, m, j);
    KeyDeleted(h, c, raw, root, m, j, models);
  }

  lemma ShownInClone(h: Heap, c: Heap, raw: nat, root: nat, m: nat, j: Json)
    requires Shows(c, Ref(root), j, First(2 * |h|)) && |c| == 2 * |h| && j.Rec?
    requires Field(RecordAt(c, root), "models") == Ref(m)
    ensures RecordShows(c, root, j) && FieldOf(j, "models").Rec? && RecordShows(c, m, FieldOf(j, "models"))
  {
    WayFree();
    FieldKind(c, RecordAt(c, root), j, "models", First(|c|));
  }

  // ----- the migration -----

  /** The legacy settings stand for the legacy settings. */
  lemma LegacyIsShown(h: Heap, raw: Value, j: Json)
    requires Config(h, raw) && raw.Ref? && Shows(h, raw, j, First(|h|))
    ensures var legacy := LegacyIn(h, raw);
            (legacy.Ref? <==> LegacyOf(j).Rec?)
            && (legacy.Ref? ==> LegacyShows(h, legacy.at, LegacyOf(j), |h|)
                                && (RecordAt(h, legacy.at) == [] <==> LegacyOf(j).fields == map[]))
  {
    WayFree();
    FieldKind(h, RecordAt(h, raw.at), j, "models", First(|h|));
    var models := RecordIn(h, raw, "models");
    if models.Ref? {
      FieldKind(h, RecordAt(h, models.at), FieldOf(j, "models"), LEGACY, First(|h|));
      if LegacyIn(h, raw).Ref? {
        LegacyBelow(h, raw);
        EmptyShown(h, LegacyIn(h, raw).at, LegacyOf(j));
      }
    }
  }

  lemma MovedShows(h: Heap, raw: nat, j: Json, depth: nat)
    requires Config(h, Ref(raw)) && RecordShows(h, raw, j) && WrittenOnce(h, raw) && LegacyIn(h, Ref(raw)).Ref?
    requires LegacyShows(h, LegacyIn(h, Ref(raw)).at, LegacyOf(j), |h|)
    ensures var root, l := raw + |h|, LegacyOf(j);
            var c := WithoutLegacyKey(h, root);
            var run := Written(c, root, CONFIG_PATH, LegacyIn(h, Ref(raw)).at, depth);
            && RecordShows(c, root, Rec(WithoutLegacy(j.fields)))
            && WritesWell(c, run, root, CONFIG_PATH, Rec(WithoutLegacy(j.fields)), l)
            && (Nested(l, depth) ==> !run.threw)
  {
    hide OnceAlong, ReachesAfter, Reach, LegacyShows, FieldsShow, WithoutLegacyKey, Written, WritesWell, Nested, LegacyIn,
         LegacyOf, WithoutLegacy, FieldCloned, OnlyAt, ClosedBelow;
    var root, c := raw + |h|, WithoutLegacyKey(h, raw + |h|);
    WayFree();
    CleanShows(h, raw, root, j);
    WithoutLegacyCloned(h, raw);
    OnceCloned(h, c, raw, CONFIG_PATH + [DISCOVERY], root);
    LegacyInClone(h, c, LegacyIn(h, Ref(raw)).at, LegacyOf(j));
    WriteShows(c, root, CONFIG_PATH, LegacyIn(h, Ref(raw)).at, Rec(WithoutLegacy(j.fields)), LegacyOf(j), |h|, depth);
  }

  /** When the records that the migration writes into are each reached along one path, the migrated configuration stands
      for what ConfigMigration.Migrate says, whatever else is shared. It runs out of stack only on legacy settings that
      are nested too deeply. */
  lemma MigratedShows(h: Heap, raw: Value, j: Json, depth: nat)
    requires Config(h, raw) && Shows(h, raw, j, First(|h|)) && (raw.Ref? ==> WrittenOnce(h, raw.at))
    ensures var run := Migrated(h, raw, depth);
            && (Nested(LegacyOf(j), depth) ==> !run.threw)
            && (!run.threw ==> Shows(run.heap, NewConfig(h, raw), Migrate(j), First(|run.heap|)))
  {
    hide ClosedBelow, WrittenOnce, LegacyIn, LegacyShows, LegacyOf, WithoutLegacyKey, WriteDiscovery, EnsurePath,
         WithoutLegacy, WriteAt, FieldsShow, Nested, RecordAt;
    if raw.Ref? {
      LegacyIsShown(h, raw, j);
      if LegacyIn(h, raw).Ref? {
        MovedShows(h, raw.at, j, depth);
      }
    } else {
      KindShown(h, raw, j, First(|h|));
      NoLegacy(h, raw, j);
    }
  }

  lemma NoLegacy(h: Heap, raw: Value, j: Json)
    requires !raw.Ref? && !j.Rec?
    ensures !LegacyIn(h, raw).Ref? && !LegacyOf(j).Rec?
  {
  }

  lemma LegacyInClone(h: Heap, c: Heap, legacy: nat, l: Json)
    requires LegacyShows(h, legacy, l, |h|) && h <= c
    ensures LegacyShows(c, legacy, l, |h|)
  {
    ClosedPrefix(h, c, |h|);
    ShowsKept(h, c, Ref(legacy), l, First(|h|), First(|h|));
  }

  // ----- enough stack -----

  lemma {:induction false} NestedDeeper(j: Json, depth: nat, deeper: nat)
    requires Nested(j, depth) && depth <= deeper
    ensures Nested(j, deeper)
    decreases j
  {
    if j.Rec? {
      forall k | k in j.fields && j.fields[k].Rec? ensures deeper > 0 && Nested(j.fields[k], deeper - 1) {
        NestedDeeper(j.fields[k], depth - 1, deeper - 1);
      }
    }
  }

  /** Every value is nested no deeper than some depth. */
  lemma {:induction false} NestedSomehow(j: Json) returns (depth: nat)
    ensures Nested(j, depth)
    decreases j, 1, 0
  {
    depth := 0;
    if j.Rec? {
      depth := FieldsNested(j, j.fields.Keys);
    }
  }

  lemma {:induction false} FieldsNested(j: Json, keys: set<string>) returns (depth: nat)
    requires j.Rec? && keys <= j.fields.Keys
    ensures forall k :: k in keys && j.fields[k].Rec? ==> depth > 0 && Nested(j.fields[k], depth - 1)
    decreases j, 0, |keys|
  {
    depth := 1;
    if keys != {} {
      var key :| key in keys;
      var d := NestedSomehow(j.fields[key]);
      var rest := FieldsNested(j, keys - {key});
      depth := d + rest + 1;
      forall k | k in keys && j.fields[k].Rec? ensures Nested(j.fields[k], depth - 1) {
        if k == key {
          NestedDeeper(j.fields[k], d, depth - 1);
        } else {
          NestedDeeper(j.fields[k], rest - 1, depth - 1);
        }
      }
    }
  }
}
