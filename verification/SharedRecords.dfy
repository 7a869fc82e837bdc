/** Records on a heap, any of which may be reached in several ways, and what mergeMissing writes on it. */
module SharedRecords {
  import opened ConfigMigration
  import opened Options
  import opened Properties

  datatype Value = Undef | Atom(id: int) | Ref(at: nat)

  /** An object's properties in insertion order. */
  type Record = Ordered<Value>

  /** The objects in the order of their creation; an object's address is its index. */
  type Heap = seq<Record>

  function RecordAt(h: Heap, a: nat): Record {
    if a < |h| then h[a] else []
  }

  function Store(h: Heap, a: nat, o: Record): Heap {
    if a < |h| then h[a := o] else h
  }

  function Field(o: Record, key: string): Value {
    if Has(o, key) then Get(o, key) else Undef
  }

  lemma {:induction false} FieldOfPut(o: Record, key: string, value: Value, k: string)
    ensures Field(Put(o, key, value), k) == if k == key then value else Field(o, k)
  {
    var after := Put(o, key, value);
    if o != [] {
      FieldSteps(o, k);
      FieldOfPut(o[1..], key, value, k);
    }
    FieldSteps(after, k);
  }

  lemma FieldSteps(o: Record, k: string)
    requires o != []
    ensures Field(o, k) == if o[0].key == k then o[0].value else Field(o[1..], k)
    ensures Has(o, k) <==> o[0].key == k || Has(o[1..], k)
  {
    assert forall i :: 0 <= i < |o[1..]| ==> o[1..][i] == o[i + 1];
  }

  // ----- mergeMissing -----

  /** What a call leaves behind, whether it ends or runs out of stack and throws. */
  datatype Run = Run(heap: Heap, threw: bool)

  /** target[key] is undefined. */
  predicate Unset(o: Record, key: string) {
    if Has(o, key) then Get(o, key).Undef? else key !in INHERITED_METHODS
  }

  /** The loop of mergeMissing over the source's entries; `depth` more nested calls fit on the stack. */
  function MergeEntries(h: Heap, target: nat, entries: Record, depth: nat): Run
    decreases depth, 1, |entries|
  {
    if entries == [] then Run(h, false)
    else
      var first := MergeEntry(h, target, entries[0].key, entries[0].value, depth);
      if first.threw then first else MergeEntries(first.heap, target, entries[1..], depth)
  }

  function MergeEntry(h: Heap, target: nat, key: string, value: Value, depth: nat): Run
    decreases depth, 0, 0
  {
    if value.Undef? || key in BLOCKED_OBJECT_KEYS then Run(h, false)
    else if Unset(RecordAt(h, target), key) then Run(Store(h, target, Put(RecordAt(h, target), key, value)), false)
    else
      var existing := Field(RecordAt(h, target), key);
      if !existing.Ref? || !value.Ref? then Run(h, false)
      else if depth == 0 then Run(h, true)
      else MergeEntries(h, existing.at, RecordAt(h, value.at), depth - 1)
  }

  // ----- what is reached -----

  /** The record at the end of a path of names that mergeMissing may take. */
  function Reach(h: Heap, a: nat, path: seq<string>): Option<nat>
    decreases |path|
  {
    if path == [] then Some(a)
    else if path[0] in BLOCKED_OBJECT_KEYS then None
    else match Field(RecordAt(h, a), path[0])
      case Ref(b) => Reach(h, b, path[1..])
      case _ => None
  }

  /** No record is reached along two different paths. */
  ghost predicate OnePath(h: Heap, a: nat) {
    forall p, q :: Reach(h, a, p).Some? && Reach(h, a, p) == Reach(h, a, q) ==> p == q
  }

  lemma {:induction false} ReachAppend(h: Heap, a: nat, p: seq<string>, q: seq<string>)
    ensures Reach(h, a, p + q) == if Reach(h, a, p).Some? then Reach(h, Reach(h, a, p).value, q) else None
    decreases |p|
  {
    if p == [] {
      assert p + q == q;
    } else {
      assert (p + q)[0] == p[0] && (p + q)[1..] == p[1..] + q;
      if p[0] !in BLOCKED_OBJECT_KEYS && Field(RecordAt(h, a), p[0]).Ref? {
        ReachAppend(h, Field(RecordAt(h, a), p[0]).at, p[1..], q);
      }
    }
  }

  lemma ReachCons(h: Heap, a: nat, key: string, b: nat, rest: seq<string>)
    requires key !in BLOCKED_OBJECT_KEYS && Field(RecordAt(h, a), key) == Ref(b)
    ensures Reach(h, a, [key] + rest) == Reach(h, b, rest)
  {
    assert ([key] + rest)[1..] == rest;
  }

  /** As long as nothing that is reached changes, the same is reached. */
  lemma {:induction false} ReachKept(h: Heap, h': Heap, a: nat, path: seq<string>)
    requires forall p :: Reach(h, a, p).Some? ==> RecordAt(h', Reach(h, a, p).value) == RecordAt(h, Reach(h, a, p).value)
    ensures Reach(h', a, path) == Reach(h, a, path)
    decreases |path|
  {
    if path != [] {
      var next := Field(RecordAt(h, a), path[0]);
      assert Reach(h, a, []) == Some(a);
      if path[0] !in BLOCKED_OBJECT_KEYS && next.Ref? {
        forall p | Reach(h, next.at, p).Some?
          ensures RecordAt(h', Reach(h, next.at, p).value) == RecordAt(h, Reach(h, next.at, p).value)
        {
          ReachCons(h, a, path[0], next.at, p);
        }
        ReachKept(h, h', next.at, path[1..]);
      }
    }
  }

  // ----- the records that a merge leaves alone -----

  /** An object has each property once and points to the first `n` objects only. */
  ghost predicate PointsBelow(o: Record, n: nat) {
    DistinctKeys(o) && forall i :: 0 <= i < |o| && o[i].value.Ref? ==> o[i].value.at < n
  }

  /** The first `n` objects point to each other only. */
  ghost predicate ClosedBelow(h: Heap, n: nat) {
    n <= |h| && forall a :: 0 <= a < n ==> PointsBelow(h[a], n)
  }

  lemma PointsTo(h: Heap, n: nat, a: nat, key: string)
    requires ClosedBelow(h, n) && a < n
    ensures var f := Field(RecordAt(h, a), key); f.Ref? ==> f.at < n
  {
  }

  /** The first `n` objects reach each other only. */
  lemma {:induction false} ReachesBelow(h: Heap, n: nat, a: nat, path: seq<string>)
    requires ClosedBelow(h, n) && a < n
    ensures Reach(h, a, path).Some? ==> Reach(h, a, path).value < n
    decreases |path|
  {
    if path != [] {
      PointsTo(h, n, a, path[0]);
      hide ClosedBelow;
      var next := Field(RecordAt(h, a), path[0]);
      if next.Ref? {
        ReachesBelow(h, n, next.at, path[1..]);
      }
    }
  }

  predicate StartsIn(path: seq<string>, entries: Record) {
    path != [] && Has(entries, path[0])
  }

  /** Below the target the names of the entries lead to newer records than the first `n`, to each along one path. */
  ghost predicate Fits(h: Heap, target: nat, entries: Record, n: nat) {
    && n <= target
    && (forall p :: StartsIn(p, entries) && Reach(h, target, p).Some? ==>
          Reach(h, target, p).value >= n && Reach(h, target, p).value != target)
    && (forall p, q :: StartsIn(p, entries) && StartsIn(q, entries) ==>
          Reach(h, target, p).Some? && Reach(h, target, p) == Reach(h, target, q) ==> p == q)
  }

  ghost predicate Touched(h: Heap, target: nat, entries: Record, a: nat) {
    a == target || exists p :: StartsIn(p, entries) && Reach(h, target, p) == Some(a)
  }

  /** Only the target and what the entries' names lead to has changed, and of the target only their fields. */
  ghost predicate Changes(h: Heap, h': Heap, target: nat, entries: Record) {
    && |h'| == |h|
    && (forall a: nat :: RecordAt(h', a) != RecordAt(h, a) ==> Touched(h, target, entries, a))
    && (forall k :: !Has(entries, k) ==> Field(RecordAt(h', target), k) == Field(RecordAt(h, target), k))
  }

  /** Merging one entry leaves what the names of the others lead to. */
  lemma RestFits(h: Heap, h': Heap, target: nat, entries: Record, n: nat)
    requires entries != [] && DistinctKeys(entries) && Fits(h, target, entries, n)
    requires Changes(h, h', target, entries[..1])
    ensures Fits(h', target, entries[1..], n)
    ensures forall p :: StartsIn(p, entries[1..]) ==> Reach(h', target, p) == Reach(h, target, p)
  {
    forall p | StartsIn(p, entries[1..]) ensures Reach(h', target, p) == Reach(h, target, p) && StartsIn(p, entries) {
      RestReached(h, h', target, entries, n, p);
    }
  }

  lemma RestReached(h: Heap, h': Heap, target: nat, entries: Record, n: nat, path: seq<string>)
    requires entries != [] && DistinctKeys(entries) && Fits(h, target, entries, n)
    requires Changes(h, h', target, entries[..1]) && StartsIn(path, entries[1..])
    ensures Reach(h', target, path) == Reach(h, target, path) && StartsIn(path, entries)
  {
    var key := path[0];
    var i :| 0 <= i < |entries[1..]| && entries[1..][i].key == key;
    assert entries[i + 1].key == key && entries[0].key != key;
    assert Has(entries, key) && !Has(entries[..1], key);
    var next := Field(RecordAt(h, target), key);
    if key !in BLOCKED_OBJECT_KEYS && next.Ref? {
      forall p | Reach(h, next.at, p).Some?
        ensures RecordAt(h', Reach(h, next.at, p).value) == RecordAt(h, Reach(h, next.at, p).value)
      {
        ReachCons(h, target, key, next.at, p);
        Apart(h, target, entries, n, [key] + p);
      }
      ReachKept(h, h', next.at, path[1..]);
    }
  }

  /** What another name leads to is not touched. */
  lemma Apart(h: Heap, target: nat, entries: Record, n: nat, path: seq<string>)
    requires entries != [] && Fits(h, target, entries, n) && StartsIn(path, entries) && path[0] != entries[0].key
    requires Reach(h, target, path).Some?
    ensures !Touched(h, target, entries[..1], Reach(h, target, path).value)
  {
    forall p | StartsIn(p, entries[..1]) ensures StartsIn(p, entries) && p[0] == entries[0].key {
      assert entries[0].key == p[0];
    }
  }

  /** The entries of a record below the first `n`, merged one level down. */
  lemma FitsBelow(h: Heap, target: nat, entries: Record, n: nat, key: string, b: nat, inner: Record)
    requires Fits(h, target, entries, n) && Has(entries, key) && key !in BLOCKED_OBJECT_KEYS
    requires Field(RecordAt(h, target), key) == Ref(b)
    ensures Fits(h, b, inner, n)
    ensures forall p :: Reach(h, b, p).Some? ==> Reach(h, b, p).value != target
  {
    forall p ensures Reach(h, target, [key] + p) == Reach(h, b, p) && StartsIn([key] + p, entries) {
      ReachCons(h, target, key, b, p);
    }
    assert Reach(h, b, []) == Some(b);
    forall p, q | [key] + p == [key] + q ensures p == q {
      assert p == ([key] + p)[1..];
    }
    forall p | StartsIn(p, inner) && Reach(h, b, p).Some? ensures Reach(h, b, p).value >= n && Reach(h, b, p).value != b {
      assert [key] + p != [key] + [];
    }
  }

  lemma ChangesBelow(h: Heap, h': Heap, target: nat, e: Property<Value>, b: nat, inner: Record)
    requires e.key !in BLOCKED_OBJECT_KEYS && Field(RecordAt(h, target), e.key) == Ref(b)
    requires Changes(h, h', b, inner)
    requires forall p :: Reach(h, b, p).Some? ==> Reach(h, b, p).value != target
    ensures Changes(h, h', target, [e])
  {
    HasOnly(e);
    assert Reach(h, b, []) == Some(b);
    forall a: nat | RecordAt(h', a) != RecordAt(h, a) ensures a != target && Touched(h, target, [e], a) {
      var p :| Reach(h, b, p) == Some(a);
      ReachCons(h, target, e.key, b, p);
      assert StartsIn([e.key] + p, [e]);
    }
  }

  lemma FillChanges(h: Heap, target: nat, e: Property<Value>)
    ensures Changes(h, Store(h, target, Put(RecordAt(h, target), e.key, e.value)), target, [e])
  {
    HasOnly(e);
    forall k | !Has([e], k)
      ensures Field(Put(RecordAt(h, target), e.key, e.value), k) == Field(RecordAt(h, target), k)
    {
      FieldOfPut(RecordAt(h, target), e.key, e.value, k);
    }
  }

  /** The first `n` objects are not among those that change. */
  lemma BelowKept(h: Heap, h': Heap, target: nat, entries: Record, n: nat)
    requires ClosedBelow(h, n) && Fits(h, target, entries, n) && Changes(h, h', target, entries)
    ensures h'[..n] == h[..n] && ClosedBelow(h', n)
  {
    forall a | 0 <= a < n ensures h'[a] == h[a] {
      assert !Touched(h, target, entries, a);
      assert RecordAt(h', a) == RecordAt(h, a);
    }
  }

  lemma FirstFits(h: Heap, target: nat, entries: Record, n: nat)
    requires entries != [] && Fits(h, target, entries, n)
    ensures Fits(h, target, entries[..1], n)
  {
    forall p | StartsIn(p, entries[..1]) ensures StartsIn(p, entries) {
      assert entries[0].key == p[0];
    }
  }

  lemma ChangesBoth(h: Heap, h1: Heap, h2: Heap, target: nat, entries: Record)
    requires entries != [] && Changes(h, h1, target, entries[..1]) && Changes(h1, h2, target, entries[1..])
    requires forall p :: StartsIn(p, entries[1..]) ==> Reach(h1, target, p) == Reach(h, target, p)
    ensures Changes(h, h2, target, entries)
  {
    FieldNames(entries);
    forall a: nat | RecordAt(h2, a) != RecordAt(h, a) ensures Touched(h, target, entries, a) {
      if a != target && Touched(h, target, entries[..1], a) {
        var p :| StartsIn(p, entries[..1]) && Reach(h, target, p) == Some(a);
        assert StartsIn(p, entries);
      } else if a != target {
        assert Touched(h1, target, entries[1..], a);
        var p :| StartsIn(p, entries[1..]) && Reach(h1, target, p) == Some(a);
        assert StartsIn(p, entries);
      }
    }
  }

  lemma FieldNames(entries: Record)
    requires entries != []
    ensures forall k :: Has(entries, k) <==> Has(entries[..1], k) || Has(entries[1..], k)
  {
    forall k ensures Has(entries, k) <==> Has(entries[..1], k) || Has(entries[1..], k) {
      FieldSteps(entries, k);
      assert Has(entries[..1], k) <==> entries[..1][0].key == k;
    }
  }

  lemma {:induction false} MergeChanges(h: Heap, target: nat, entries: Record, depth: nat, n: nat)
    requires ClosedBelow(h, n) && PointsBelow(entries, n) && Fits(h, target, entries, n)
    ensures Changes(h, MergeEntries(h, target, entries, depth).heap, target, entries)
    decreases depth, 1, |entries|
  {
    hide Fits, Changes, ClosedBelow, MergeEntry;
    if entries == [] {
      NothingChanges(h, target, []);
    } else {
      var first := MergeEntry(h, target, entries[0].key, entries[0].value, depth);
      FirstFits(h, target, entries, n);
      assert entries[..1] == [entries[0]];
      EntryChanges(h, target, entries[0], depth, n);
      RestFits(h, first.heap, target, entries, n);
      BelowKept(h, first.heap, target, entries[..1], n);
      if first.threw {
        NothingChanges(first.heap, target, entries[1..]);
        ChangesBoth(h, first.heap, first.heap, target, entries);
      } else {
        MergeChanges(first.heap, target, entries[1..], depth, n);
        ChangesBoth(h, first.heap, MergeEntries(first.heap, target, entries[1..], depth).heap, target, entries);
      }
    }
  }

  lemma NothingChanges(h: Heap, target: nat, entries: Record)
    ensures Changes(h, h, target, entries)
  {
  }

  lemma {:induction false} EntryChanges(h: Heap, target: nat, e: Property<Value>, depth: nat, n: nat)
    requires ClosedBelow(h, n) && (e.value.Ref? ==> e.value.at < n) && Fits(h, target, [e], n)
    ensures Changes(h, MergeEntry(h, target, e.key, e.value, depth).heap, target, [e])
    decreases depth, 0, 0
  {
    hide Fits, Changes, ClosedBelow, PointsBelow, Unset, Field, Has, RecordAt, Store;
    NothingChanges(h, target, [e]);
    FillChanges(h, target, e);
    var existing := Field(RecordAt(h, target), e.key);
    if depth > 0 && existing.Ref? && e.value.Ref? && e.key !in BLOCKED_OBJECT_KEYS {
      var inner := RecordAt(h, e.value.at);
      HasOnly(e);
      EntriesBelow(h, n, e.value.at);
      FitsBelow(h, target, [e], n, e.key, existing.at, inner);
      MergeChanges(h, existing.at, inner, depth - 1, n);
      ChangesBelow(h, MergeEntries(h, existing.at, inner, depth - 1).heap, target, e, existing.at, inner);
    }
  }

  lemma HasOnly(e: Property<Value>)
    ensures Has([e], e.key)
  {
    assert [e][0].key == e.key;
  }

  lemma EntriesBelow(h: Heap, n: nat, a: nat)
    requires ClosedBelow(h, n) && a < n
    ensures PointsBelow(RecordAt(h, a), n)
  {
  }

  /** When every record below the target is reached along one path only, and all of them are newer than the first `n`,
      merging leaves the first `n` as they are, however they are shared and whether or not it runs out of stack. */
  lemma MergeLeavesFirst(h: Heap, target: nat, source: nat, depth: nat, n: nat)
    requires ClosedBelow(h, n) && source < n
    requires OnePath(h, target) && forall p :: Reach(h, target, p).Some? ==> Reach(h, target, p).value >= n
    ensures var after := MergeEntries(h, target, h[source], depth).heap; |after| == |h| && after[..n] == h[..n]
  {
    assert Reach(h, target, []) == Some(target);
    MergeChanges(h, target, h[source], depth, n);
    BelowKept(h, MergeEntries(h, target, h[source], depth).heap, target, h[source], n);
  }
}
