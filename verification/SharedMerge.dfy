/** What merging makes of shared records: the merge of the values that target and source stand for. */
module SharedMerge {
  import opened ConfigMigration
  import opened Options
  import opened Properties
  import opened SharedRecords

  // ----- what a value stands for -----

  /** The value stands for `j`, except for what lies below blocked names, on records that are all in `within`. */
  ghost predicate Shows(h: Heap, v: Value, j: Json, within: iset<nat>)
    decreases j, 2
  {
    match j
    case Undefined => v.Undef?
    case Opaque(id) => v == Atom(id)
    case Rec(_) => v.Ref? && v.at in within && FieldsShow(h, RecordAt(h, v.at), j, within)
  }

  ghost predicate FieldsShow(h: Heap, o: Record, j: Json, within: iset<nat>)
    requires j.Rec?
    decreases j, 1
  {
    forall k :: FieldShows(h, o, j, k, within)
  }

  ghost predicate FieldShows(h: Heap, o: Record, j: Json, k: string, within: iset<nat>)
    requires j.Rec?
    decreases j, 0
  {
    && (Has(o, k) <==> k in j.fields)
    && (k in j.fields && k !in BLOCKED_OBJECT_KEYS ==> Shows(h, Field(o, k), j.fields[k], within))
  }

  /** A value stands for the same as long as its records stay. */
  lemma {:induction false} ShowsKept(h: Heap, h': Heap, v: Value, j: Json, within: iset<nat>, within': iset<nat>)
    requires Shows(h, v, j, within) && within <= within'
    requires forall a :: a in within ==> RecordAt(h', a) == RecordAt(h, a)
    ensures Shows(h', v, j, within')
    decreases j
  {
    if j.Rec? {
      var o := RecordAt(h, v.at);
      forall k ensures FieldShows(h', o, j, k, within') {
        assert FieldShows(h, o, j, k, within);
        if k in j.fields && k !in BLOCKED_OBJECT_KEYS {
          ShowsKept(h, h', Field(o, k), j.fields[k], within, within');
        }
      }
    }
  }

  /** A value stands on records that it reaches. */
  lemma {:induction false} ShowsReached(h: Heap, v: Value, j: Json, all: iset<nat>, within: iset<nat>)
    requires Shows(h, v, j, all)
    requires v.Ref? ==> forall p :: Reach(h, v.at, p).Some? ==> Reach(h, v.at, p).value in within
    ensures Shows(h, v, j, within)
    decreases j
  {
    if j.Rec? {
      var o := RecordAt(h, v.at);
      assert Reach(h, v.at, []) == Some(v.at);
      forall k ensures FieldShows(h, o, j, k, within) {
        assert FieldShows(h, o, j, k, all);
        if k in j.fields && k !in BLOCKED_OBJECT_KEYS {
          var next := Field(o, k);
          if next.Ref? {
            forall p | Reach(h, next.at, p).Some? ensures Reach(h, next.at, p).value in within {
              ReachCons(h, v.at, k, next.at, p);
            }
          }
          ShowsReached(h, next, j.fields[k], all, within);
        }
      }
    }
  }

  // ----- the loop -----

  predicate Older(a: nat, n: nat) {
    a < n
  }

  ghost function First(n: nat): iset<nat> {
    iset a: nat | Older(a, n)
  }

  /** What the target's field reaches, and the first `n` records. */
  ghost function Region(h: Heap, target: nat, key: string, n: nat): iset<nat> {
    First(n) + iset a: nat | exists p :: Reach(h, target, [key] + p) == Some(a)
  }

  /** A merge that starts on `h`: what target and source stand for; the source is among the first `n` records. */
  datatype Merging = Merging(h: Heap, target: nat, entries: Record, t: Fields, s: Fields, n: nat)

  ghost predicate Starts(m: Merging) {
    && ClosedBelow(m.h, m.n) && PointsBelow(m.entries, m.n) && OnePath(m.h, m.target)
    && (forall p :: Reach(m.h, m.target, p).Some? ==> m.n <= Reach(m.h, m.target, p).value < |m.h|)
    && (forall k :: FieldShows(m.h, RecordAt(m.h, m.target), Rec(m.t), k, Region(m.h, m.target, k, m.n)))
    && FieldsShow(m.h, m.entries, Rec(m.s), First(m.n))
  }

  /** The target's field stands for what the merge says, on records of its own and the first `n`. */
  ghost predicate KeyMerged(m: Merging, g: Heap, k: string) {
    FieldShows(g, RecordAt(g, m.target), Rec(Merge(m.t, Rec(m.s))), k, Region(m.h, m.target, k, m.n))
  }

  /** The fields named by the first `i` entries are merged; nothing else has changed. */
  ghost predicate Progress(m: Merging, g: Heap, i: nat) {
    && i <= |m.entries| && Changes(m.h, g, m.target, m.entries[..i])
    && (forall k :: Has(m.entries[..i], k) ==> KeyMerged(m, g, k))
    && (forall k :: !Has(m.entries[..i], k) ==> (Has(RecordAt(g, m.target), k) <==> Has(RecordAt(m.h, m.target), k)))
  }

  /** The step changes the target's field and what it reaches. */
  ghost predicate StepTouches(m: Merging, g: Heap, g': Heap, key: string) {
    && |g'| == |g|
    && (forall a: nat :: RecordAt(g', a) != RecordAt(g, a) ==>
          a == m.target || exists p :: Reach(m.h, m.target, [key] + p) == Some(a))
    && (forall k :: k != key ==>
          && (Has(RecordAt(g', m.target), k) <==> Has(RecordAt(g, m.target), k))
          && Field(RecordAt(g', m.target), k) == Field(RecordAt(g, m.target), k))
  }

  lemma StartsFit(m: Merging, entries: Record)
    requires Starts(m)
    ensures Fits(m.h, m.target, entries, m.n) && m.n <= m.target < |m.h|
  {
    assert Reach(m.h, m.target, []) == Some(m.target);
  }

  /** What another field reaches is not reached by this one. */
  lemma RegionsApart(m: Merging, k: string, l: string, p: seq<string>, a: nat)
    requires Starts(m) && k != l && Reach(m.h, m.target, [k] + p) == Some(a)
    ensures a !in Region(m.h, m.target, l, m.n) && a != m.target
  {
    assert ([k] + p)[0] == k;
    forall q ensures Reach(m.h, m.target, [l] + q) != Some(a) {
      assert ([l] + q)[0] == l;
    }
    assert Reach(m.h, m.target, []) == Some(m.target);
  }

  lemma TargetOutside(m: Merging, l: string)
    requires Starts(m)
    ensures m.target !in Region(m.h, m.target, l, m.n)
  {
    assert Reach(m.h, m.target, []) == Some(m.target);
    forall q ensures Reach(m.h, m.target, [l] + q) != Some(m.target) {
      assert |[l] + q| > 0;
    }
  }

  /** What a field that is still to be merged stands for. */
  lemma FieldUntouched(m: Merging, g: Heap, i: nat, k: string)
    requires Starts(m) && Progress(m, g, i) && !Has(m.entries[..i], k)
    ensures FieldShows(g, RecordAt(g, m.target), Rec(m.t), k, Region(m.h, m.target, k, m.n))
    ensures g[..m.n] == m.h[..m.n] && ClosedBelow(g, m.n)
  {
    StartsFit(m, m.entries[..i]);
    BelowKept(m.h, g, m.target, m.entries[..i], m.n);
    var r := Region(m.h, m.target, k, m.n);
    forall a | a in r ensures RecordAt(g, a) == RecordAt(m.h, a) {
      if a < m.n {
        assert g[..m.n][a] == m.h[..m.n][a];
      } else {
        var p :| Reach(m.h, m.target, [k] + p) == Some(a);
        RegionUntouched(m, i, k, p, a);
      }
    }
    if k in m.t && k !in BLOCKED_OBJECT_KEYS {
      ShowsKept(m.h, g, Field(RecordAt(m.h, m.target), k), m.t[k], r, r);
    }
  }

  lemma RegionUntouched(m: Merging, i: nat, k: string, p: seq<string>, a: nat)
    requires Starts(m) && i <= |m.entries| && !Has(m.entries[..i], k) && Reach(m.h, m.target, [k] + p) == Some(a)
    ensures !Touched(m.h, m.target, m.entries[..i], a)
  {
    assert Reach(m.h, m.target, []) == Some(m.target);
    assert [k] + p != [] && ([k] + p)[0] == k;
  }

  lemma ProgressStep(m: Merging, g: Heap, g': Heap, i: nat)
    requires Starts(m) && Progress(m, g, i) && i < |m.entries| && StepTouches(m, g, g', m.entries[i].key)
    requires KeyMerged(m, g', m.entries[i].key)
    ensures Progress(m, g', i + 1)
  {
    var key := m.entries[i].key;
    var done, more := m.entries[..i], m.entries[..i + 1];
    assert more == done + [m.entries[i]];
    forall k ensures Has(more, k) <==> Has(done, k) || k == key {
      assert more[i].key == key;
      assert Has(done, k) ==> exists j :: 0 <= j < i && more[j].key == k;
    }
    forall k | Has(more, k) ensures KeyMerged(m, g', k) {
      if k != key {
        KeyStays(m, g, g', key, k);
      }
    }
    forall a: nat | RecordAt(g', a) != RecordAt(m.h, a) ensures Touched(m.h, m.target, more, a) {
      if RecordAt(g', a) != RecordAt(g, a) && a != m.target {
        var p :| Reach(m.h, m.target, [key] + p) == Some(a);
        assert StartsIn([key] + p, more);
      } else if a != m.target {
        assert Touched(m.h, m.target, done, a);
        var p :| StartsIn(p, done) && Reach(m.h, m.target, p) == Some(a);
        assert StartsIn(p, more);
      }
    }
  }

  lemma KeyStays(m: Merging, g: Heap, g': Heap, key: string, k: string)
    requires Starts(m) && StepTouches(m, g, g', key) && k != key && KeyMerged(m, g, k)
    ensures KeyMerged(m, g', k)
  {
    var r, merged := Region(m.h, m.target, k, m.n), Merge(m.t, Rec(m.s));
    forall a | a in r ensures RecordAt(g', a) == RecordAt(g, a) {
      if RecordAt(g', a) != RecordAt(g, a) {
        TargetOutside(m, k);
        var p :| Reach(m.h, m.target, [key] + p) == Some(a);
        RegionsApart(m, key, k, p, a);
      }
    }
    if k in merged && k !in BLOCKED_OBJECT_KEYS {
      ShowsKept(g, g', Field(RecordAt(g, m.target), k), merged[k], r, r);
    }
  }

  // ----- one entry -----

  lemma MergedAt(m: Merging, k: string)
    ensures var r := Merge(m.t, Rec(m.s));
            && (k in r <==> k in m.t || (Considered(m.s, k) && Vacant(m.t, k)))
            && (k in r ==> r[k] == MergedField(m.t, Rec(m.s), k))
  {
  }

  /** Nothing is done, and the merge has nothing to do. */
  lemma EntrySkips(m: Merging, g: Heap, i: nat, k: string)
    requires Starts(m) && Progress(m, g, i) && !Has(m.entries[..i], k)
    requires !Considered(m.s, k) || (!Vacant(m.t, k) && !(k in m.t && m.t[k].Rec? && m.s[k].Rec?))
    ensures StepTouches(m, g, g, k) && KeyMerged(m, g, k)
  {
    FieldUntouched(m, g, i, k);
    MergedAt(m, k);
  }

  lemma EntryFills(m: Merging, g: Heap, i: nat, k: string, value: Value)
    requires Starts(m) && Progress(m, g, i) && !Has(m.entries[..i], k) && k !in BLOCKED_OBJECT_KEYS
    requires Considered(m.s, k) && Vacant(m.t, k) && Shows(m.h, value, m.s[k], First(m.n))
    ensures var g' := Store(g, m.target, Put(RecordAt(g, m.target), k, value));
            StepTouches(m, g, g', k) && KeyMerged(m, g', k)
  {
    var g' := Store(g, m.target, Put(RecordAt(g, m.target), k, value));
    StartsFit(m, []);
    FieldUntouched(m, g, i, k);
    MergedAt(m, k);
    assert |g| == |m.h|;
    FillTouches(m, g, k, value);
    forall a | a in First(m.n) ensures RecordAt(g', a) == RecordAt(m.h, a) {
      assert g[..m.n][a] == m.h[..m.n][a];
    }
    hide Starts, Progress, StepTouches, FieldsShow, ClosedBelow, Fits;
    ShowsKept(m.h, g', value, m.s[k], First(m.n), Region(m.h, m.target, k, m.n));
    FieldOfPut(RecordAt(g, m.target), k, value, k);
    GetOfPut(RecordAt(g, m.target), k, value, k);
  }

  lemma FillTouches(m: Merging, g: Heap, k: string, value: Value)
    ensures StepTouches(m, g, Store(g, m.target, Put(RecordAt(g, m.target), k, value)), k)
  {
    var o := RecordAt(g, m.target);
    forall l ensures Field(Put(o, k, value), l) == (if l == k then value else Field(o, l))
      ensures Has(Put(o, k, value), l) <==> l == k || Has(o, l)
    {
      FieldOfPut(o, k, value, l);
      GetOfPut(o, k, value, l);
    }
  }

  /** The merge one level down. */
  function Inner(m: Merging, g: Heap, k: string, b: nat, entries: Record): Merging
    requires k in m.t && m.t[k].Rec? && k in m.s && m.s[k].Rec?
  {
    Merging(g, b, entries, m.t[k].fields, m.s[k].fields, m.n)
  }

  /** What the field reaches is still as it was at the start. */
  lemma InnerReach(m: Merging, g: Heap, i: nat, k: string, b: nat)
    requires Starts(m) && Progress(m, g, i) && !Has(m.entries[..i], k) && k !in BLOCKED_OBJECT_KEYS
    requires Field(RecordAt(g, m.target), k) == Ref(b)
    ensures forall p :: Reach(g, b, p) == Reach(m.h, m.target, [k] + p)
  {
    hide Starts, ClosedBelow, PointsBelow, KeyMerged, OnePath;
    assert Field(RecordAt(m.h, m.target), k) == Ref(b);
    forall p ensures Reach(m.h, b, p) == Reach(m.h, m.target, [k] + p) {
      ReachCons(m.h, m.target, k, b, p);
    }
    forall p | Reach(m.h, b, p).Some?
      ensures RecordAt(g, Reach(m.h, b, p).value) == RecordAt(m.h, Reach(m.h, b, p).value)
    {
      RegionUntouched(m, i, k, p, Reach(m.h, b, p).value);
    }
    hide Reach, Progress;
    forall p ensures Reach(g, b, p) == Reach(m.h, b, p) {
      ReachKept(m.h, g, b, p);
    }
  }

  /** A field stands on what it reaches. */
  lemma FieldReached(h: Heap, a: nat, j: Json, l: string, all: iset<nat>, n: nat)
    requires j.Rec? && FieldShows(h, RecordAt(h, a), j, l, all)
    ensures FieldShows(h, RecordAt(h, a), j, l, Region(h, a, l, n))
  {
    hide Region, Reach;
    if l in j.fields && l !in BLOCKED_OBJECT_KEYS {
      var next := Field(RecordAt(h, a), l);
      if next.Ref? {
        forall p | Reach(h, next.at, p).Some? ensures Reach(h, next.at, p).value in Region(h, a, l, n) {
          ReachCons(h, a, l, next.at, p);
          InRegion(h, a, l, n, p);
        }
      }
      ShowsReached(h, next, j.fields[l], all, Region(h, a, l, n));
    }
  }

  lemma InnerTarget(m: Merging, g: Heap, i: nat, k: string, b: nat, l: string)
    requires Starts(m) && Progress(m, g, i) && !Has(m.entries[..i], k) && k !in BLOCKED_OBJECT_KEYS
    requires k in m.t && m.t[k].Rec? && Field(RecordAt(g, m.target), k) == Ref(b)
    ensures FieldShows(g, RecordAt(g, b), m.t[k], l, Region(g, b, l, m.n))
  {
    FieldUntouched(m, g, i, k);
    var r := Region(m.h, m.target, k, m.n);
    hide Starts, Progress, ClosedBelow, Region;
    assert Shows(g, Ref(b), m.t[k], r);
    assert FieldsShow(g, RecordAt(g, b), m.t[k], r);
    FieldReached(g, b, m.t[k], l, r, m.n);
  }

  lemma InRegion(h: Heap, a: nat, k: string, n: nat, p: seq<string>)
    requires Reach(h, a, [k] + p).Some?
    ensures Reach(h, a, [k] + p).value in Region(h, a, k, n)
  {
  }

  lemma InnerSource(m: Merging, g: Heap, i: nat, k: string, source: nat)
    requires Starts(m) && Progress(m, g, i) && k in m.s && m.s[k].Rec? && Shows(m.h, Ref(source), m.s[k], First(m.n))
    ensures FieldsShow(g, RecordAt(g, source), m.s[k], First(m.n))
    ensures ClosedBelow(g, m.n) && PointsBelow(RecordAt(g, source), m.n)
  {
    StartsFit(m, m.entries[..i]);
    BelowKept(m.h, g, m.target, m.entries[..i], m.n);
    hide Starts, Progress, Changes, Fits;
    forall a | a in First(m.n) ensures RecordAt(g, a) == RecordAt(m.h, a) {
      assert g[..m.n][a] == m.h[..m.n][a];
    }
    ShowsKept(m.h, g, Ref(source), m.s[k], First(m.n), First(m.n));
    EntriesBelow(g, m.n, source);
  }

  lemma InnerStarts(m: Merging, g: Heap, i: nat, k: string, b: nat, source: nat)
    requires Starts(m) && Progress(m, g, i) && !Has(m.entries[..i], k) && k !in BLOCKED_OBJECT_KEYS
    requires k in m.t && m.t[k].Rec? && k in m.s && m.s[k].Rec? && Field(RecordAt(g, m.target), k) == Ref(b)
    requires Shows(m.h, Ref(source), m.s[k], First(m.n))
    ensures Starts(Inner(m, g, k, b, RecordAt(g, source)))
  {
    InnerOnePath(m, g, i, k, b);
    InnerSource(m, g, i, k, source);
    forall l ensures FieldShows(g, RecordAt(g, b), m.t[k], l, Region(g, b, l, m.n)) {
      InnerTarget(m, g, i, k, b, l);
    }
    hide Progress, FieldShows, FieldsShow, Shows, Reach, ClosedBelow, PointsBelow, Region, RecordAt, Field, OnePath;
  }

  lemma InnerOnePath(m: Merging, g: Heap, i: nat, k: string, b: nat)
    requires Starts(m) && Progress(m, g, i) && !Has(m.entries[..i], k) && k !in BLOCKED_OBJECT_KEYS
    requires Field(RecordAt(g, m.target), k) == Ref(b)
    ensures OnePath(g, b) && forall p :: Reach(g, b, p).Some? ==> m.n <= Reach(g, b, p).value < |g|
  {
    InnerReach(m, g, i, k, b);
    assert |g| == |m.h|;
    hide Progress, FieldShows, FieldsShow, Reach, ClosedBelow, PointsBelow, Region;
    forall p, q | Reach(g, b, p).Some? && Reach(g, b, p) == Reach(g, b, q) ensures p == q {
      assert [k] + p == [k] + q;
      assert p == ([k] + p)[1..] && q == ([k] + q)[1..];
    }
  }

  /** When the record below is merged the field is. */
  lemma InnerEnds(m: Merging, g: Heap, g': Heap, i: nat, k: string, b: nat, inner: Merging)
    requires Starts(m) && Progress(m, g, i) && !Has(m.entries[..i], k) && k !in BLOCKED_OBJECT_KEYS
    requires Considered(m.s, k) && k in m.t && m.t[k].Rec? && m.s[k].Rec? && Field(RecordAt(g, m.target), k) == Ref(b)
    requires inner == Inner(m, g, k, b, inner.entries) && Changes(g, g', b, inner.entries)
    requires forall l :: KeyMerged(inner, g', l)
    ensures StepTouches(m, g, g', k) && KeyMerged(m, g', k)
  {
    InnerReach(m, g, i, k, b);
    InnerTouches(m, g, g', k, b, inner.entries);
    MergedAt(m, k);
    forall l
      ensures FieldShows(g', RecordAt(g', b), Rec(Merge(inner.t, Rec(inner.s))), l, Region(m.h, m.target, k, m.n))
    {
      assert KeyMerged(inner, g', l);
      InnerField(m, g, g', k, b, inner, l);
    }
    ReachedByKey(m, g, k, b);
    hide Progress, Starts, Changes, Reach, StepTouches, KeyMerged, Merge, Region, FieldShows;
    var merged := Rec(Merge(inner.t, Rec(inner.s)));
    assert FieldsShow(g', RecordAt(g', b), merged, Region(m.h, m.target, k, m.n));
    assert Shows(g', Ref(b), merged, Region(m.h, m.target, k, m.n));
    KeyIsMerged(m, g, g', k, b, merged);
  }

  lemma ReachedByKey(m: Merging, g: Heap, k: string, b: nat)
    requires forall p :: Reach(g, b, p) == Reach(m.h, m.target, [k] + p)
    ensures b in Region(m.h, m.target, k, m.n)
  {
    assert Reach(g, b, []) == Some(b);
  }

  lemma KeyIsMerged(m: Merging, g: Heap, g': Heap, k: string, b: nat, merged: Json)
    requires RecordAt(g', m.target) == RecordAt(g, m.target) && Field(RecordAt(g, m.target), k) == Ref(b)
    requires k in Merge(m.t, Rec(m.s)) && Merge(m.t, Rec(m.s))[k] == merged
    requires Shows(g', Ref(b), merged, Region(m.h, m.target, k, m.n))
    ensures KeyMerged(m, g', k)
  {
    hide Shows, Merge, Region;
  }

  lemma InnerField(m: Merging, g: Heap, g': Heap, k: string, b: nat, inner: Merging, l: string)
    requires forall p :: Reach(g, b, p) == Reach(m.h, m.target, [k] + p)
    requires inner.h == g && inner.target == b && inner.n == m.n && KeyMerged(inner, g', l)
    ensures FieldShows(g', RecordAt(g', b), Rec(Merge(inner.t, Rec(inner.s))), l, Region(m.h, m.target, k, m.n))
  {
    var merged := Merge(inner.t, Rec(inner.s));
    forall a | a in Region(g, b, l, m.n) ensures a in Region(m.h, m.target, k, m.n) {
      if a !in First(m.n) {
        var p :| Reach(g, b, [l] + p) == Some(a);
        assert Reach(m.h, m.target, [k] + ([l] + p)) == Some(a);
      }
    }
    hide Region, Merge, Reach;
    if l in merged && l !in BLOCKED_OBJECT_KEYS {
      ShowsKept(g', g', Field(RecordAt(g', b), l), merged[l], Region(g, b, l, m.n), Region(m.h, m.target, k, m.n));
    }
  }

  lemma InnerTouches(m: Merging, g: Heap, g': Heap, k: string, b: nat, entries: Record)
    requires Starts(m) && Changes(g, g', b, entries)
    requires forall p :: Reach(g, b, p) == Reach(m.h, m.target, [k] + p)
    ensures StepTouches(m, g, g', k) && RecordAt(g', m.target) == RecordAt(g, m.target)
  {
    hide ClosedBelow, PointsBelow, FieldsShow, FieldShows;
    assert Reach(g, b, []) == Some(b) && Reach(m.h, m.target, []) == Some(m.target);
    forall a: nat | RecordAt(g', a) != RecordAt(g, a)
      ensures a != m.target && exists p :: Reach(m.h, m.target, [k] + p) == Some(a)
    {
      assert Touched(g, b, entries, a);
      var p :| Reach(g, b, p) == Some(a);
      assert Reach(m.h, m.target, [k] + p) == Some(a) && |[k] + p| > 0;
    }
  }

  /** Records nested no deeper than `depth` below a value. */
  ghost predicate Nested(j: Json, depth: nat) {
    j.Rec? ==> forall k :: k in j.fields && j.fields[k].Rec? ==> depth > 0 && Nested(j.fields[k], depth - 1)
  }

  /** What the loop knows about its entry. */
  lemma EntryKnown(m: Merging, g: Heap, i: nat)
    requires Starts(m) && Progress(m, g, i) && i < |m.entries| && m.entries[i].key !in BLOCKED_OBJECT_KEYS
    ensures var k, value := m.entries[i].key, m.entries[i].value;
            && !Has(m.entries[..i], k) && k in m.s && Shows(m.h, value, m.s[k], First(m.n))
            && FieldShows(g, RecordAt(g, m.target), Rec(m.t), k, Region(m.h, m.target, k, m.n))
            && (value.Ref? ==> value.at < m.n)
  {
    var k := m.entries[i].key;
    assert FieldShows(m.h, m.entries, Rec(m.s), k, First(m.n));
    FieldAt(m.entries, i);
    FieldUntouched(m, g, i, k);
  }

  lemma {:induction false} FieldAt(o: Record, i: nat)
    requires DistinctKeys(o) && i < |o|
    ensures Has(o, o[i].key) && Field(o, o[i].key) == o[i].value && !Has(o[..i], o[i].key)
  {
    FieldSteps(o, o[i].key);
    if i > 0 {
      assert forall j :: 0 <= j < |o[1..]| ==> o[1..][j] == o[j + 1];
      FieldAt(o[1..], i - 1);
      FieldSteps(o[..i], o[i].key);
      assert o[..i][1..] == o[1..][..i - 1];
    }
  }

  /** The tests of the loop on the values that the fields stand for. */
  lemma EntryKinds(m: Merging, g: Heap, i: nat)
    requires Starts(m) && Progress(m, g, i) && i < |m.entries| && m.entries[i].key !in BLOCKED_OBJECT_KEYS
    ensures var k, value := m.entries[i].key, m.entries[i].value;
            var existing := Field(RecordAt(g, m.target), k);
            && k in m.s && (value.Undef? <==> m.s[k].Undefined?) && (value.Ref? <==> m.s[k].Rec?)
            && (Unset(RecordAt(g, m.target), k) <==> Vacant(m.t, k))
            && (existing.Ref? <==> k in m.t && m.t[k].Rec?)
            && (Considered(m.s, k) <==> !value.Undef?)
  {
    EntryKnown(m, g, i);
    hide Starts, Progress;
  }

  lemma StartsProgress(m: Merging)
    requires Starts(m)
    ensures Progress(m, m.h, 0) && m.entries[0..] == m.entries
  {
  }

  /** At the end all fields are merged. */
  lemma ProgressEnds(m: Merging, g: Heap)
    requires Starts(m) && Progress(m, g, |m.entries|)
    ensures Changes(m.h, g, m.target, m.entries)
    ensures forall k :: KeyMerged(m, g, k)
  {
    assert m.entries[..|m.entries|] == m.entries;
    forall k ensures KeyMerged(m, g, k) {
      if !Has(m.entries, k) {
        assert FieldShows(m.h, m.entries, Rec(m.s), k, First(m.n));
        EntrySkips(m, g, |m.entries|, k);
      }
    }
  }

  lemma {:induction false} InnerMerges(m: Merging, g: Heap, i: nat, b: nat, source: nat, depth: nat)
    requires Starts(m) && Progress(m, g, i) && i < |m.entries| && m.entries[i].key !in BLOCKED_OBJECT_KEYS && depth > 0
    requires var k := m.entries[i].key;
             k in m.t && m.t[k].Rec? && m.entries[i].value == Ref(source) && Field(RecordAt(g, m.target), k) == Ref(b)
    ensures var run := MergeEntries(g, b, RecordAt(g, source), depth - 1);
            && (Nested(Rec(m.s), depth) ==> !run.threw)
            && (!run.threw ==> Progress(m, run.heap, i + 1))
    decreases depth, 0, 0
  {
    EntryKinds(m, g, i);
    EntryKnown(m, g, i);
    var k := m.entries[i].key;
    hide Starts, Progress, Shows, FieldShows, Has, Field, RecordAt, KeyMerged, StepTouches, Changes, Unset;
    var inner := Inner(m, g, k, b, RecordAt(g, source));
    InnerStarts(m, g, i, k, b, source);
    StartsProgress(inner);
    LoopMerges(inner, g, 0, depth - 1);
    var run := MergeEntries(g, b, inner.entries, depth - 1);
    hide MergeEntries;
    if !run.threw {
      ProgressEnds(inner, run.heap);
      InnerEnds(m, g, run.heap, i, k, b, inner);
      ProgressStep(m, g, run.heap, i);
    }
  }

  lemma {:induction false} EntryMerges(m: Merging, g: Heap, i: nat, depth: nat)
    requires Starts(m) && Progress(m, g, i) && i < |m.entries|
    ensures var run := MergeEntry(g, m.target, m.entries[i].key, m.entries[i].value, depth);
            && (Nested(Rec(m.s), depth) ==> !run.threw)
            && (!run.threw ==> Progress(m, run.heap, i + 1))
    decreases depth, 0, 1
  {
    hide Starts, Progress, StepTouches, KeyMerged, Changes, Shows, FieldShows, RecordAt, Field, Has, Unset, Vacant,
         Considered;
    var k, value := m.entries[i].key, m.entries[i].value;
    NothingTouched(m, g, k);
    if k in BLOCKED_OBJECT_KEYS {
      BlockedSkips(m, g, i);
      ProgressStep(m, g, g, i);
    } else {
      EntryKinds(m, g, i);
      EntryKnown(m, g, i);
      var existing := Field(RecordAt(g, m.target), k);
      if !value.Undef? && Vacant(m.t, k) {
        EntryFills(m, g, i, k, value);
        ProgressStep(m, g, Store(g, m.target, Put(RecordAt(g, m.target), k, value)), i);
      } else if value.Undef? || !existing.Ref? || !value.Ref? {
        EntrySkips(m, g, i, k);
        ProgressStep(m, g, g, i);
      } else if depth > 0 {
        InnerMerges(m, g, i, existing.at, value.at, depth);
      }
    }
  }

  lemma BlockedSkips(m: Merging, g: Heap, i: nat)
    requires Starts(m) && Progress(m, g, i) && i < |m.entries| && m.entries[i].key in BLOCKED_OBJECT_KEYS
    ensures KeyMerged(m, g, m.entries[i].key)
  {
    FieldAt(m.entries, i);
    EntrySkips(m, g, i, m.entries[i].key);
  }

  lemma NothingTouched(m: Merging, g: Heap, k: string)
    ensures StepTouches(m, g, g, k)
  {
  }

  lemma {:induction false} LoopMerges(m: Merging, g: Heap, i: nat, depth: nat)
    requires Starts(m) && Progress(m, g, i)
    ensures var run := MergeEntries(g, m.target, m.entries[i..], depth);
            && (Nested(Rec(m.s), depth) ==> !run.threw)
            && (!run.threw ==> Progress(m, run.heap, |m.entries|))
    decreases depth, 1, |m.entries| - i
  {
    hide Starts, Progress, Nested, MergeEntry;
    if i < |m.entries| {
      EntryMerges(m, g, i, depth);
      var first := MergeEntry(g, m.target, m.entries[i].key, m.entries[i].value, depth);
      assert m.entries[i..][0] == m.entries[i] && m.entries[i..][1..] == m.entries[i + 1..];
      if !first.threw {
        LoopMerges(m, first.heap, i + 1, depth);
      }
    } else {
      AtEnd(m, g, i);
    }
  }

  lemma AtEnd(m: Merging, g: Heap, i: nat)
    requires Progress(m, g, i) && i >= |m.entries|
    ensures i == |m.entries|
  {
  }

  // ----- what is merged -----

  /** What the target reaches, and the first `n` records. */
  ghost function Reached(h: Heap, target: nat, n: nat): iset<nat> {
    First(n) + iset a: nat | exists p :: Reach(h, target, p) == Some(a)
  }

  lemma MergeStarts(m: Merging, source: nat, all: iset<nat>)
    requires ClosedBelow(m.h, m.n) && source < m.n && OnePath(m.h, m.target) && m.entries == RecordAt(m.h, source)
    requires forall p :: Reach(m.h, m.target, p).Some? ==> m.n <= Reach(m.h, m.target, p).value < |m.h|
    requires Shows(m.h, Ref(m.target), Rec(m.t), all) && Shows(m.h, Ref(source), Rec(m.s), all)
    ensures Starts(m)
  {
    EntriesBelow(m.h, m.n, source);
    forall p | Reach(m.h, source, p).Some? ensures Reach(m.h, source, p).value in First(m.n) {
      ReachesBelow(m.h, m.n, source, p);
    }
    ShowsReached(m.h, Ref(source), Rec(m.s), all, First(m.n));
    forall k
      ensures FieldShows(m.h, RecordAt(m.h, m.target), Rec(m.t), k, Region(m.h, m.target, k, m.n))
    {
      FieldReached(m.h, m.target, Rec(m.t), k, all, m.n);
    }
  }

  lemma MergeEnds(m: Merging, g: Heap)
    requires Starts(m) && Progress(m, g, |m.entries|)
    ensures Shows(g, Ref(m.target), Rec(Merge(m.t, Rec(m.s))), Reached(m.h, m.target, m.n))
  {
    ProgressEnds(m, g);
    assert Reach(m.h, m.target, []) == Some(m.target);
    var all, merged := Reached(m.h, m.target, m.n), Rec(Merge(m.t, Rec(m.s)));
    hide Starts, Progress, Changes;
    forall k ensures FieldShows(g, RecordAt(g, m.target), merged, k, all) {
      assert KeyMerged(m, g, k);
      var r := Region(m.h, m.target, k, m.n);
      assert r <= all;
      if k in merged.fields && k !in BLOCKED_OBJECT_KEYS {
        ShowsKept(g, g, Field(RecordAt(g, m.target), k), merged.fields[k], r, all);
      }
    }
    assert FieldsShow(g, RecordAt(g, m.target), merged, all);
  }

  /** When every record below the target is reached along one path only, and none of them is among the first `n`, merging
      gives what ConfigMigration.Merge says, whatever the source shares. */
  lemma MergeShows(h: Heap, target: nat, source: nat, t: Json, s: Json, depth: nat, n: nat, all: iset<nat>)
    requires ClosedBelow(h, n) && source < n && OnePath(h, target)
    requires forall p :: Reach(h, target, p).Some? ==> n <= Reach(h, target, p).value < |h|
    requires t.Rec? && s.Rec? && Shows(h, Ref(target), t, all) && Shows(h, Ref(source), s, all)
    ensures var run := MergeEntries(h, target, RecordAt(h, source), depth);
            && (Nested(s, depth) ==> !run.threw)
            && (!run.threw ==> Shows(run.heap, Ref(target), Rec(Merge(t.fields, s)), Reached(h, target, n)))
  {
    hide *;
    var m := Merging(h, target, RecordAt(h, source), t.fields, s.fields, n);
    MergeStarts(m, source, all);
    StartsProgress(m);
    LoopMerges(m, h, 0, depth);
    var run := MergeEntries(h, target, m.entries, depth);
    if !run.threw {
      MergeEnds(m, run.heap);
    }
  }
}
