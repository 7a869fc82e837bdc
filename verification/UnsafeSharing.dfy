/** Explicit settings in which two paths lead to one record: legacy settings that the migration then writes into. */
module UnsafeSharing {
  import opened ConfigMigration
  import opened Options
  import opened Properties
  import opened SharedRecords
  import opened SharedConfig

  function One(key: string, value: Value): Record {
    [Property(key, value)]
  }

  // ----- a name that is not taken -----

  function Longest(names: seq<string>): (m: nat)
    ensures forall k :: k in names ==> |k| <= m
  {
    if names == [] then 0
    else if |names[0]| > Longest(names[1..]) then |names[0]| else Longest(names[1..])
  }

  function NewName(names: seq<string>): string {
    seq(Longest(names) + 1, _ => 'x')
  }

  function KeysOf(o: Record): seq<string> {
    seq(|o|, i requires 0 <= i < |o| => o[i].key)
  }

  lemma NewNameIsNew(names: seq<string>)
    ensures NewName(names) !in names && Plain(NewName(names))
  {
  }

  /** The name of an ordinary field. */
  predicate Plain(z: string) {
    z != [] && z[0] == 'x'
  }

  lemma PlainIsFree(z: string)
    requires Plain(z)
    ensures z !in BLOCKED_OBJECT_KEYS && z !in INHERITED_METHODS
  {
  }

  // ----- merging along a chain of records -----

  /** Records from `at` on that lead along the path, one after the other. */
  ghost predicate Chained(h: Heap, at: nat, path: seq<string>) {
    at + |path| < |h| && forall j :: 0 <= j < |path| ==> h[at + j] == One(path[j], Ref(at + j + 1))
  }

  lemma ChainedKept(h: Heap, f: Heap, at: nat, path: seq<string>)
    requires Chained(h, at, path) && h <= f
    ensures Chained(f, at, path) && f[at + |path|] == h[at + |path|]
  {
  }

  lemma MergeOne(h: Heap, target: nat, key: string, value: Value, depth: nat)
    ensures MergeEntries(h, target, One(key, value), depth) == MergeEntry(h, target, key, value, depth)
  {
    assert One(key, value)[1..] == [];
  }

  lemma EntryInside(h: Heap, a: nat, key: string, b: nat, value: nat, depth: nat)
    requires Field(RecordAt(h, a), key) == Ref(b) && key !in BLOCKED_OBJECT_KEYS && depth > 0
    ensures MergeEntry(h, a, key, Ref(value), depth) == MergeEntries(h, b, RecordAt(h, value), depth - 1)
  {
  }

  lemma ReachFirst(h: Heap, a: nat, path: seq<string>) returns (b: nat)
    requires path != [] && Reach(h, a, path).Some?
    ensures path[0] !in BLOCKED_OBJECT_KEYS && Field(RecordAt(h, a), path[0]) == Ref(b)
    ensures Reach(h, b, path[1..]) == Reach(h, a, path)
  {
    b := Field(RecordAt(h, a), path[0]).at;
  }

  lemma ChainedFirst(h: Heap, at: nat, path: seq<string>)
    requires Chained(h, at, path) && path != []
    ensures RecordAt(h, at) == One(path[0], Ref(at + 1)) && Chained(h, at + 1, path[1..])
  {
    assert h[at + 0] == One(path[0], Ref(at + 1));
    assert forall j :: 0 <= j < |path[1..]| ==> path[1..][j] == path[j + 1];
  }

  lemma {:induction false} MergeDown(h: Heap, a: nat, at: nat, path: seq<string>, end: nat, depth: nat)
    requires Chained(h, at, path) && Reach(h, a, path) == Some(end) && depth >= |path|
    ensures MergeEntries(h, a, RecordAt(h, at), depth) ==
              MergeEntries(h, end, RecordAt(h, at + |path|), depth - |path|)
    decreases |path|
  {
    hide *;
    if path == [] {
      ReachNothing(h, a);
    } else {
      ChainedFirst(h, at, path);
      var b := ReachFirst(h, a, path);
      MergeOne(h, a, path[0], Ref(at + 1), depth);
      EntryInside(h, a, path[0], b, at + 1, depth);
      MergeDown(h, b, at + 1, path[1..], end, depth - 1);
    }
  }

  /** An entry whose value is a chain is merged at the end of the path. */
  lemma {:induction false} EntryDown(h: Heap, a: nat, at: nat, path: seq<string>, last: string, depth: nat)
    requires Chained(h, at, (path + [last])[1..]) && Reach(h, a, path).Some? && depth >= |path|
    ensures MergeEntry(h, a, (path + [last])[0], Ref(at), depth) ==
              MergeEntry(h, Reach(h, a, path).value, last, Ref(at + |path|), depth - |path|)
    decreases |path|
  {
    hide *;
    if path == [] {
      ReachNothing(h, a);
    } else {
      var rest := path[1..];
      assert (path + [last])[1..] == rest + [last];
      ChainedFirst(h, at, rest + [last]);
      var b := ReachFirst(h, a, path);
      EntryInside(h, a, path[0], b, at, depth);
      MergeOne(h, b, (rest + [last])[0], Ref(at + 1), depth - 1);
      EntryDown(h, b, at + 1, rest, last, depth - 1);
    }
  }

  /** Filling in a field that is not on the path. */
  lemma {:induction false} FillKeepsReach(h: Heap, r: nat, key: string, value: Value, a: nat, path: seq<string>)
    requires key !in path
    ensures Reach(Assign(h, r, key, value), a, path) == Reach(h, a, path)
    decreases |path|
  {
    hide Put, Field;
    if path != [] {
      FieldOfPut(RecordAt(h, r), key, value, path[0]);
      var next := Field(RecordAt(h, a), path[0]);
      if next.Ref? {
        FillKeepsReach(h, r, key, value, next.at, path[1..]);
      }
    }
  }

  // ----- legacy settings that are written into -----

  /** A tree whose stem parts into two branches: at the end of one an empty record, of the other one with a field, both
      under the name `z`. */
  datatype Tree = Tree(at: nat, stem: seq<string>, left: seq<string>, right: seq<string>, z: string, l: nat, r: nat)

  ghost predicate Holds(h: Heap, t: Tree) {
    && Chained(h, t.at, t.stem) && h[t.at + |t.stem|] == Fork(t)
    && Chained(h, t.l, (t.left + [t.z])[1..]) && h[LeftLeaf(t)] == []
    && Chained(h, t.r, (t.right + [t.z])[1..]) && h[RightLeaf(t)] == One("y", Atom(0))
  }

  function Fork(t: Tree): Record {
    One((t.left + [t.z])[0], Ref(t.l)) + One((t.right + [t.z])[0], Ref(t.r))
  }

  function LeftLeaf(t: Tree): nat {
    t.l + |t.left|
  }

  function RightLeaf(t: Tree): nat {
    t.r + |t.right|
  }

  lemma HoldsKept(h: Heap, f: Heap, t: Tree)
    requires Holds(h, t) && h <= f
    ensures Holds(f, t)
  {
  }

  lemma HoldsLeaves(h: Heap, t: Tree)
    requires Holds(h, t)
    ensures LeftLeaf(t) < |h| && h[LeftLeaf(t)] == []
    ensures RecordAt(h, RightLeaf(t)) == One("y", Atom(0)) && RecordAt(h, t.at + |t.stem|) == Fork(t)
  {
  }

  lemma EntryFills(f: Heap, r: nat, z: string, s: nat, depth: nat)
    requires r < |f| && !Has(f[r], z) && Plain(z)
    ensures MergeEntry(f, r, z, Ref(s), depth) == Run(Assign(f, r, z, Ref(s)), false)
  {
    PlainIsFree(z);
  }

  lemma LeafFilled(f: Heap, s: nat, depth: nat)
    requires s < |f| && f[s] == []
    ensures MergeEntries(f, s, One("y", Atom(0)), depth) == Run(f[s := One("y", Atom(0))], false)
  {
    MergeOne(f, s, "y", Atom(0), depth);
  }

  /** The record `r` at the ends of both paths gets the empty leaf. */
  lemma LeftMerged(f: Heap, t: Tree, a: nat, r: nat, depth: nat)
    requires Holds(f, t) && r < |f| && Reach(f, a, t.left) == Some(r)
    requires !Has(f[r], t.z) && Plain(t.z) && depth >= |t.left|
    ensures MergeEntry(f, a, (t.left + [t.z])[0], Ref(t.l), depth) == Run(Assign(f, r, t.z, Ref(LeftLeaf(t))), false)
  {
    hide MergeEntry, MergeEntries, Reach, Has;
    EntryDown(f, a, t.l, t.left, t.z, depth);
    EntryFills(f, r, t.z, LeftLeaf(t), depth - |t.left|);
  }

  /** Once it has it, merging the other leaf writes into the first one. */
  lemma RightMerged(f: Heap, t: Tree, a: nat, r: nat, depth: nat)
    requires Holds(f, t) && Reach(f, a, t.right) == Some(r) && Field(RecordAt(f, r), t.z) == Ref(LeftLeaf(t))
    requires Plain(t.z) && depth > |t.right|
    ensures MergeEntry(f, a, (t.right + [t.z])[0], Ref(t.r), depth) == Run(f[LeftLeaf(t) := One("y", Atom(0))], false)
  {
    hide MergeEntry, MergeEntries, Reach, Field;
    EntryDown(f, a, t.r, t.right, t.z, depth);
    PlainIsFree(t.z);
    HoldsLeaves(f, t);
    EntryInside(f, r, t.z, LeftLeaf(t), RightLeaf(t), depth - |t.right|);
    LeafFilled(f, LeftLeaf(t), depth - |t.right| - 1);
  }

  lemma MergeTwo(h: Heap, a: nat, e1: Property<Value>, e2: Property<Value>, depth: nat)
    ensures var first := MergeEntry(h, a, e1.key, e1.value, depth);
            MergeEntries(h, a, [e1] + [e2], depth) ==
              if first.threw then first else MergeEntry(first.heap, a, e2.key, e2.value, depth)
  {
    assert ([e1] + [e2])[1..] == [e2] == One(e2.key, e2.value);
    MergeOne(MergeEntry(h, a, e1.key, e1.value, depth).heap, a, e2.key, e2.value, depth);
  }

  /** What the merge makes of the heap: the empty leaf is stored in `r`, and then written into. */
  function LeafWritten(f: Heap, t: Tree, r: nat): Heap {
    Store(Assign(f, r, t.z, Ref(LeftLeaf(t))), LeftLeaf(t), One("y", Atom(0)))
  }

  /** Merging where the branches part. */
  lemma ForkMerged(h: Heap, f: Heap, t: Tree, a: nat, r: nat, depth: nat)
    requires Holds(h, t) && h <= f && |h| <= r < |f| && t.z !in t.right
    requires Reach(f, a, t.left) == Some(r) && Reach(f, a, t.right) == Some(r)
    requires !Has(f[r], t.z) && Plain(t.z) && depth >= |t.left| && depth > |t.right|
    ensures MergeEntries(f, a, Fork(t), depth) == Run(LeafWritten(f, t, r), false)
  {
    HoldsKept(h, f, t);
    var f1 := Assign(f, r, t.z, Ref(LeftLeaf(t)));
    AssignAbove(h, f, r, t.z, Ref(LeftLeaf(t)));
    HoldsKept(h, f1, t);
    HoldsLeaves(f1, t);
    hide MergeEntry, MergeEntries, Reach, Has, Field, Put, Holds;
    LeftMerged(f, t, a, r, depth);
    FillKeepsReach(f, r, t.z, Ref(LeftLeaf(t)), a, t.right);
    FieldOfPut(f[r], t.z, Ref(LeftLeaf(t)), t.z);
    RightMerged(f1, t, a, r, depth);
    MergeTwo(f, a, Property((t.left + [t.z])[0], Ref(t.l)), Property((t.right + [t.z])[0], Ref(t.r)), depth);
  }

  /** Two paths from the target that part behind the stem meet in `r`: the merge writes into the tree. */
  lemma TreeMerged(h: Heap, f: Heap, t: Tree, target: nat, r: nat, depth: nat)
    requires Holds(h, t) && h <= f && |h| <= r < |f| && t.z !in t.right
    requires Reach(f, target, t.stem + t.left) == Some(r) && Reach(f, target, t.stem + t.right) == Some(r)
    requires !Has(f[r], t.z) && Plain(t.z) && depth > |t.stem| + |t.left| + |t.right|
    ensures MergeEntries(f, target, RecordAt(f, t.at), depth) == Run(LeafWritten(f, t, r), false)
  {
    hide *;
    ReachAppend(f, target, t.stem, t.left);
    ReachAppend(f, target, t.stem, t.right);
    HoldsKept(h, f, t);
    HoldsLeaves(f, t);
    StemChained(f, t);
    var a := Reach(f, target, t.stem).value;
    MergeDown(f, target, t.at, t.stem, a, depth);
    ForkMerged(h, f, t, a, r, depth - |t.stem|);
  }

  lemma StemChained(f: Heap, t: Tree)
    requires Holds(f, t)
    ensures Chained(f, t.at, t.stem)
  {
  }

  // ----- the heap with such settings -----

  function Chain(path: seq<string>, at: nat, leaf: Record): Heap {
    seq(|path|, j requires 0 <= j < |path| => One(path[j], Ref(at + j + 1))) + [leaf]
  }

  lemma ClosedMore(h: Heap, more: Heap)
    requires ClosedBelow(h, |h|) && forall o :: o in more ==> PointsBelow(o, |h| + |more|)
    ensures ClosedBelow(h + more, |h| + |more|)
  {
    var f := h + more;
    forall a | 0 <= a < |f| ensures PointsBelow(f[a], |f|) {
      if a < |h| {
        assert PointsBelow(h[a], |h|);
      } else {
        assert f[a] in more;
      }
    }
  }

  lemma AppendChain(h: Heap, path: seq<string>, leaf: Record)
    requires ClosedBelow(h, |h|) && PointsBelow(leaf, |h|)
    ensures var f := h + Chain(path, |h|, leaf);
            ClosedBelow(f, |f|) && Chained(f, |h|, path) && f[|h| + |path|] == leaf && |f| == |h| + |path| + 1
  {
    ClosedMore(h, Chain(path, |h|, leaf));
  }

  /** The tree behind the given records. */
  function TreeBehind(h: Heap, stem: seq<string>, left: seq<string>, right: seq<string>, z: string): Tree {
    Tree(|h| + |left| + |right| + 2, stem, left, right, z, |h|, |h| + |left| + 1)
  }

  /** The given records, and the branches and the stem of the tree behind them. */
  function Grown(h: Heap, t: Tree): Heap {
    var h1 := h + Chain((t.left + [t.z])[1..], |h|, []);
    var h2 := h1 + Chain((t.right + [t.z])[1..], |h1|, One("y", Atom(0)));
    h2 + Chain(t.stem, |h2|, Fork(t))
  }

  lemma TreeGrows(h: Heap, t: Tree)
    requires ClosedBelow(h, |h|) && t == TreeBehind(h, t.stem, t.left, t.right, t.z)
    requires (t.left + [t.z])[0] != (t.right + [t.z])[0]
    ensures var f := Grown(h, t); h <= f && ClosedBelow(f, |f|) && Holds(f, t)
  {
    hide Chain, ClosedBelow, Chained;
    var h1 := h + Chain((t.left + [t.z])[1..], |h|, []);
    var h2 := h1 + Chain((t.right + [t.z])[1..], |h1|, One("y", Atom(0)));
    AppendChain(h, (t.left + [t.z])[1..], []);
    AppendChain(h1, (t.right + [t.z])[1..], One("y", Atom(0)));
    AppendChain(h2, t.stem, Fork(t));
    ChainedKept(h1, Grown(h, t), |h|, (t.left + [t.z])[1..]);
    ChainedKept(h2, Grown(h, t), |h1|, (t.right + [t.z])[1..]);
  }

  // ----- a configuration with such settings -----

  /** The records from address `n` on of a configuration with the given explicit and legacy settings. */
  function Around(n: nat, x: nat, legacy: nat): Heap {
    [ One("models", Ref(n + 1)) + One("plugins", Ref(n + 2)),
      One(LEGACY, Ref(legacy)),
      One("entries", Ref(n + 3)),
      One("amazon-bedrock", Ref(n + 4)),
      One("config", Ref(n + 5)),
      One(DISCOVERY, Ref(x)) ]
  }

  lemma StepTo(h: Heap, a: nat, key: string, b: nat)
    requires RecordAt(h, a) == One(key, Ref(b))
    ensures RecordIn(h, Ref(a), key) == Ref(b)
  {
    assert RecordAt(h, a)[0].key == key;
  }

  lemma RootSteps(h: Heap, a: nat, b: nat, c: nat)
    requires RecordAt(h, a) == One("models", Ref(b)) + One("plugins", Ref(c))
    ensures RecordIn(h, Ref(a), "models") == Ref(b) && RecordIn(h, Ref(a), "plugins") == Ref(c)
  {
    FieldSteps(RecordAt(h, a), "models");
    FieldSteps(RecordAt(h, a), "plugins");
    StepTo([One("plugins", Ref(c))], 0, "plugins", c);
    assert RecordAt(h, a)[1..] == One("plugins", Ref(c));
  }

  lemma AroundClosed(h: Heap, x: nat, legacy: nat)
    requires ClosedBelow(h, |h|) && x < |h| && legacy < |h|
    ensures Config(h + Around(|h|, x, legacy), Ref(|h|))
  {
    var more := Around(|h|, x, legacy);
    forall o | o in more ensures PointsBelow(o, |h| + |more|) {
    }
    ClosedMore(h, more);
  }

  lemma AroundFinds(h: Heap, x: nat, legacy: nat)
    ensures var f := h + Around(|h|, x, legacy);
            LegacyIn(f, Ref(|h|)) == Ref(legacy) && DiscoveryIn(f, Ref(|h|)) == Ref(x)
            && RecordIn(f, Ref(|h|), "models") == Ref(|h| + 1)
  {
    var n := |h|;
    var f := h + Around(n, x, legacy);
    RootSteps(f, n, n + 1, n + 2);
    StepTo(f, n + 1, LEGACY, legacy);
    StepTo(f, n + 2, "entries", n + 3);
    StepTo(f, n + 3, "amazon-bedrock", n + 4);
    StepTo(f, n + 4, "config", n + 5);
    StepTo(f, n + 5, DISCOVERY, x);
    hide RecordIn;
    WalkFour(f, Ref(n), "plugins", "entries", "amazon-bedrock", "config");
  }

  lemma WalkFour(h: Heap, v: Value, a: string, b: string, c: string, d: string)
    ensures Walk(h, v, [a, b, c, d]) == RecordIn(h, RecordIn(h, RecordIn(h, RecordIn(h, v, a), b), c), d)
  {
    hide RecordIn;
    WalkOne(h, v, a, [b, c, d]);
    WalkOne(h, RecordIn(h, v, a), b, [c, d]);
    WalkOne(h, RecordIn(h, RecordIn(h, v, a), b), c, [d]);
    WalkOne(h, RecordIn(h, RecordIn(h, RecordIn(h, v, a), b), c), d, []);
  }

  lemma WalkOne(h: Heap, v: Value, key: string, rest: seq<string>)
    ensures Walk(h, v, [key] + rest) == Walk(h, RecordIn(h, v, key), rest)
  {
    assert ([key] + rest)[1..] == rest;
  }

  // ----- the run that writes into the legacy settings -----

  lemma {:induction false} MovedReach(h: Heap, c: Heap, offset: nat, a: nat, path: seq<string>)
    requires ClosedBelow(h, |h|) && a < |h| && Reach(h, a, path).Some?
    requires forall b :: 0 <= b < |h| ==> RecordAt(c, b + offset) == MovedRecord(h[b], offset)
    ensures Reach(h, a, path).value < |h| && Reach(c, a + offset, path) == Some(Reach(h, a, path).value + offset)
    decreases |path|
  {
    hide ClosedBelow, MovedRecord, Field, Reach;
    if path == [] {
      ReachNothing(h, a);
      ReachNothing(c, a + offset);
    } else {
      var b := ReachFirst(h, a, path);
      PointsTo(h, |h|, a, path[0]);
      FieldOfMoved(h[a], offset, path[0]);
      MovedReach(h, c, offset, b, path[1..]);
      ReachCons(c, a + offset, path[0], b + offset, path[1..]);
      assert path == [path[0]] + path[1..];
    }
  }

  /** Explicit settings `x` in which two paths that part behind the stem lead to the record `r`. */
  ghost predicate Doubled(h: Heap, x: nat, t: Tree, r: nat) {
    && ClosedBelow(h, |h|) && x < |h| && r < |h|
    && Reach(h, x, t.stem + t.left) == Some(r) && Reach(h, x, t.stem + t.right) == Some(r)
    && t.stem + t.left != [] && t.stem + t.right != []
    && (t.left + [t.z])[0] != (t.right + [t.z])[0]
    && t == TreeBehind(h, t.stem, t.left, t.right, t.z)
    && Plain(t.z) && t.z !in t.right && !Has(h[r], t.z)
  }

  /** A configuration with these explicit settings and the tree as legacy settings. */
  function Scene(h: Heap, x: nat, t: Tree): Heap {
    Grown(h, t) + Around(|Grown(h, t)|, x, t.at)
  }

  lemma SceneHolds(h: Heap, x: nat, t: Tree, r: nat)
    requires Doubled(h, x, t, r)
    ensures var f := Scene(h, x, t); var n := |Grown(h, t)|;
            && h <= f && |h| <= n < |f| && Config(f, Ref(n)) && ClosedBelow(f, |f|) && Holds(f, t) && t.at < n
            && LegacyIn(f, Ref(n)) == Ref(t.at) && DiscoveryIn(f, Ref(n)) == Ref(x)
            && RecordIn(f, Ref(n), "models") == Ref(n + 1)
  {
    hide Chain, ClosedBelow, Chained, LegacyIn, DiscoveryIn, RecordIn, Reach, Around;
    var g := Grown(h, t);
    TreeGrows(h, t);
    HoldsLeaves(g, t);
    AroundClosed(g, x, t.at);
    AroundFinds(g, x, t.at);
    HoldsKept(g, Scene(h, x, t), t);
  }

  /** The records of `h` have exact clones. */
  ghost predicate ExactClones(h: Heap, c: Heap, offset: nat) {
    forall b :: 0 <= b < |h| ==> RecordAt(c, b + offset) == MovedRecord(h[b], offset)
  }

  /** A copy of the clone of the explicit settings reaches the clone of what they reach. */
  lemma CopyReaches(h: Heap, c: Heap, offset: nat, copy: nat, x: nat, path: seq<string>)
    requires ClosedBelow(h, |h|) && x < |h| && path != [] && Reach(h, x, path).Some?
    requires ExactClones(h, c, offset) && RecordAt(c, copy) == RecordAt(c, x + offset)
    ensures Reach(c, copy, path) == Some(Reach(h, x, path).value + offset)
  {
    hide Reach, MovedRecord;
    MovedReach(h, c, offset, x, path);
    CopyReach(c, copy, x + offset, path);
  }

  /** Merging the tree into the copy of the explicit settings writes into the tree. */
  lemma CopyMerged(h: Heap, x: nat, t: Tree, r: nat, f: Heap, c: Heap, copy: nat, depth: nat)
    requires Doubled(h, x, t, r) && Holds(f, t) && f <= c && ExactClones(h, c, |f|) && r + |f| < |c|
    requires RecordAt(c, copy) == RecordAt(c, x + |f|) && depth > |t.stem| + |t.left| + |t.right|
    ensures MergeEntries(c, copy, RecordAt(c, t.at), depth) == Run(LeafWritten(c, t, r + |f|), false)
  {
    hide Reach, MovedRecord, Holds, ClosedBelow, LeafWritten, MergeEntries, Has, TreeBehind;
    CopyReaches(h, c, |f|, copy, x, t.stem + t.left);
    CopyReaches(h, c, |f|, copy, x, t.stem + t.right);
    HasMoved(h[r], |f|, t.z);
    TreeMerged(f, c, t, copy, r + |f|, depth);
  }

  lemma DoubledBounds(h: Heap, x: nat, t: Tree, r: nat)
    requires Doubled(h, x, t, r)
    ensures x < |h| && r < |h|
  {
  }

  /** The merge into the copy, as the migration runs it. */
  lemma WritingMerges(h: Heap, x: nat, t: Tree, r: nat, f: Heap, c: Heap, config: nat, depth: nat)
    requires Doubled(h, x, t, r) && Holds(f, t) && t.at < |f| && h <= f <= c && |c| == 2 * |f| && ExactClones(h, c, |f|)
    requires |f| <= config && Field(RecordAt(c, config), DISCOVERY) == Ref(x + |f|)
    requires depth > |t.stem| + |t.left| + |t.right|
    ensures var run := WriteDiscovery(c, config, t.at, depth);
            !run.threw && RecordAt(run.heap, LeftLeaf(t)) == One("y", Atom(0))
  {
    hide *;
    DoubledBounds(h, x, t, r);
    var c' := c + [RecordAt(c, x + |f|)];
    RecordBefore(c, c', t.at);
    RecordBefore(c, c', x + |f|);
    LastRecord(c, RecordAt(c, x + |f|));
    CloneGoesOn(h, c, c', |f|);
    CopyMerged(h, x, t, r, f, c', |c|, depth);
    WritesMerge(c, config, x + |f|, t.at, depth, LeafWritten(c', t, r + |f|));
    LeafStays(f, c', t, r + |f|, config, Ref(|c|));
  }

  lemma WritesMerge(c: Heap, config: nat, existing: nat, legacy: nat, depth: nat, merged: Heap)
    requires Field(RecordAt(c, config), DISCOVERY) == Ref(existing)
    requires MergeEntries(c + [RecordAt(c, existing)], |c|, RecordAt(c, legacy), depth) == Run(merged, false)
    ensures WriteDiscovery(c, config, legacy, depth) == Run(Assign(merged, config, DISCOVERY, Ref(|c|)), false)
  {
  }

  lemma LastRecord(c: Heap, o: Record)
    ensures RecordAt(c + [o], |c|) == o
  {
  }

  lemma CloneGoesOn(h: Heap, c: Heap, f: Heap, offset: nat)
    requires ExactClones(h, c, offset) && |h| + offset <= |c| && c <= f
    ensures ExactClones(h, f, offset)
  {
    hide MovedRecord;
    forall b | 0 <= b < |h| ensures RecordAt(f, b + offset) == MovedRecord(h[b], offset) {
      RecordBefore(c, f, b + offset);
    }
  }

  lemma LeafStays(h: Heap, f: Heap, t: Tree, r: nat, config: nat, value: Value)
    requires Holds(h, t) && h <= f && |h| <= config
    ensures RecordAt(Assign(LeafWritten(f, t, r), config, DISCOVERY, value), LeftLeaf(t)) == One("y", Atom(0))
  {
    HoldsLeaves(h, t);
    hide Holds, Put, One;
  }

  lemma ScenesClones(h: Heap, f: Heap, n: nat)
    requires h <= f && |h| <= n < |f| && LegacyIn(f, Ref(n)).Ref? && RecordIn(f, Ref(n), "models") == Ref(n + 1)
    ensures var c := WithoutLegacyKey(f, n + |f|); |c| == 2 * |f| && ExactClones(h, c, |f|)
  {
    hide WithoutLegacyKey, LegacyIn, RecordIn, MovedRecord;
    var c := WithoutLegacyKey(f, n + |f|);
    forall b | 0 <= b < |h| ensures RecordAt(c, b + |f|) == MovedRecord(h[b], |f|) {
      OthersCloned(f, n, b);
    }
    WithoutLegacyLength(f, n);
  }

  /** The migration ends, and has written `y` into an empty record that was there before. */
  predicate Spoils(h: Heap, raw: Value, leaf: nat, depth: nat) {
    var run := Migrated(h, raw, depth);
    !run.threw && leaf < |h| && h[leaf] == [] && RecordAt(run.heap, leaf) == One("y", Atom(0))
  }

  lemma SpoilsInput(h: Heap, raw: Value, leaf: nat, depth: nat)
    requires Spoils(h, raw, leaf, depth)
    ensures !Migrated(h, raw, depth).threw && !(h <= Migrated(h, raw, depth).heap)
  {
    hide Migrated;
  }

  lemma SceneMigrated(h: Heap, x: nat, t: Tree, r: nat, depth: nat)
    requires Doubled(h, x, t, r) && depth > |t.stem| + |t.left| + |t.right|
    ensures Spoils(Scene(h, x, t), Ref(|Grown(h, t)|), LeftLeaf(t), depth)
  {
    hide *;
    SceneHolds(h, x, t, r);
    MigrationSpoils(h, x, t, r, Scene(h, x, t), Ref(|Grown(h, t)|), depth);
  }

  lemma MigrationSpoils(h: Heap, x: nat, t: Tree, r: nat, f: Heap, raw: Value, depth: nat)
    requires Doubled(h, x, t, r) && depth > |t.stem| + |t.left| + |t.right|
    requires h <= f && raw.Ref? && |h| <= raw.at < |f| && t.at < |f| && Holds(f, t) && ClosedBelow(f, |f|)
    requires LegacyIn(f, raw) == Ref(t.at) && DiscoveryIn(f, raw) == Ref(x) && RecordIn(f, raw, "models") == Ref(raw.at + 1)
    ensures Spoils(f, raw, LeftLeaf(t), depth)
  {
    hide *;
    HoldsLeaves(f, t);
    LegacyNotEmpty(f, t);
    SceneWrites(h, x, t, r, f, raw.at, depth);
    MigratedWrites(f, raw, depth);
    SpoilsBy(f, raw, LeftLeaf(t), depth, Migrated(f, raw, depth));
  }

  lemma SpoilsBy(h: Heap, raw: Value, leaf: nat, depth: nat, run: Run)
    requires run == Migrated(h, raw, depth) && !run.threw
    requires leaf < |h| && h[leaf] == [] && RecordAt(run.heap, leaf) == One("y", Atom(0))
    ensures Spoils(h, raw, leaf, depth)
  {
  }

  lemma MigratedWrites(f: Heap, raw: Value, depth: nat)
    requires raw.Ref? && LegacyIn(f, raw).Ref? && RecordAt(f, LegacyIn(f, raw).at) != []
    ensures var config := EnsurePath(WithoutLegacyKey(f, raw.at + |f|), raw.at + |f|, CONFIG_PATH);
            Migrated(f, raw, depth) == WriteDiscovery(config.heap, config.at, LegacyIn(f, raw).at, depth)
  {
    hide LegacyIn, RecordAt, EnsurePath, WithoutLegacyKey, WriteDiscovery;
  }

  lemma SceneWrites(h: Heap, x: nat, t: Tree, r: nat, f: Heap, n: nat, depth: nat)
    requires Doubled(h, x, t, r) && depth > |t.stem| + |t.left| + |t.right|
    requires h <= f && |h| <= n < |f| && t.at < |f| && Holds(f, t) && ClosedBelow(f, |f|)
    requires LegacyIn(f, Ref(n)).Ref? && DiscoveryIn(f, Ref(n)) == Ref(x) && RecordIn(f, Ref(n), "models") == Ref(n + 1)
    ensures var config := EnsurePath(WithoutLegacyKey(f, n + |f|), n + |f|, CONFIG_PATH);
            var run := WriteDiscovery(config.heap, config.at, t.at, depth);
            !run.threw && RecordAt(run.heap, LeftLeaf(t)) == One("y", Atom(0))
  {
    hide *;
    var c := WithoutLegacyKey(f, n + |f|);
    WithoutLegacyCloned(f, n);
    SettingsFound(f, c, n);
    ScenesClones(h, f, n);
    ClonedAfter(f, c);
    WritingMerges(h, x, t, r, f, c, EnsurePath(c, n + |f|, CONFIG_PATH).at, depth);
  }

  lemma ClonedAfter(h: Heap, c: Heap)
    requires Cloned(h, c)
    ensures h <= c
  {
  }

  lemma LegacyNotEmpty(f: Heap, t: Tree)
    requires Holds(f, t)
    ensures RecordAt(f, t.at) != []
  {
    if t.stem != [] {
      ChainedFirst(f, t.at, t.stem);
    }
  }

  // ----- exactly when the input is safe -----

  /** Two different paths part somewhere. */
  lemma {:induction false} PathsPart(p: seq<string>, q: seq<string>)
      returns (stem: seq<string>, left: seq<string>, right: seq<string>)
    requires p != q
    ensures p == stem + left && q == stem + right
    ensures (left == [] && right != []) || (left != [] && (right == [] || left[0] != right[0]))
  {
    if p == [] || q == [] || p[0] != q[0] {
      return [], p, q;
    }
    assert p == [p[0]] + p[1..] && q == [q[0]] + q[1..];
    stem, left, right := PathsPart(p[1..], q[1..]);
    stem := [p[0]] + stem;
  }

  /** Two paths to one record, none of them empty. */
  lemma TwoPaths(h: Heap, x: nat) returns (p: seq<string>, q: seq<string>)
    requires !OnePath(h, x)
    ensures p != q && p != [] && q != [] && Reach(h, x, p).Some? && Reach(h, x, p) == Reach(h, x, q)
  {
    p, q :| Reach(h, x, p).Some? && Reach(h, x, p) == Reach(h, x, q) && p != q;
    ReachNothing(h, x);
    if p == [] {
      ReachAppend(h, x, q, q);
      p := q + q;
    } else if q == [] {
      ReachAppend(h, x, p, p);
      q := p + p;
    }
  }

  lemma NewForBoth(p: seq<string>, q: seq<string>, o: Record, stem: seq<string>, left: seq<string>, right: seq<string>,
                   z: string)
    requires p == stem + left && q == stem + right && z !in p + q + KeysOf(o)
    requires (left == [] && right != []) || (left != [] && (right == [] || left[0] != right[0]))
    ensures z !in right && !Has(o, z) && (left + [z])[0] != (right + [z])[0]
  {
    assert forall k :: k in left || k in right ==> k in p + q;
    assert left != [] ==> left[0] in left;
    assert right != [] ==> right[0] in right;
    assert forall i :: 0 <= i < |o| ==> o[i].key == KeysOf(o)[i];
  }

  /** For explicit settings that reach some record along two paths: a configuration with these settings whose migration
      ends, and changes its input. */
  lemma UnsafeConfiguration(explicit: Heap, x: nat) returns (h: Heap, raw: Value, depth: nat)
    requires ClosedBelow(explicit, |explicit|) && x < |explicit| && !OnePath(explicit, x)
    ensures explicit <= h && Config(h, raw) && DiscoveryIn(h, raw) == Ref(x)
    ensures !Migrated(h, raw, depth).threw && !(h <= Migrated(h, raw, depth).heap)
  {
    var p, q := TwoPaths(explicit, x);
    var stem, left, right := PathsPart(p, q);
    var r := Reach(explicit, x, p).value;
    ReachesBelow(explicit, |explicit|, x, p);
    var z := NewName(p + q + KeysOf(explicit[r]));
    NewNameIsNew(p + q + KeysOf(explicit[r]));
    NewForBoth(p, q, explicit[r], stem, left, right, z);
    var t := TreeBehind(explicit, stem, left, right, z);
    assert Doubled(explicit, x, t, r) by {
      hide ClosedBelow, Has, Plain, NewName;
    }
    hide *;
    h, raw, depth := Scene(explicit, x, t), Ref(|Grown(explicit, t)|), |t.stem| + |t.left| + |t.right| + 1;
    SceneHolds(explicit, x, t, r);
    SceneMigrated(explicit, x, t, r, depth);
    SpoilsInput(h, raw, LeftLeaf(t), depth);
  }

  /** A heap that goes on reaches the same from the records it starts with. */
  lemma ReachGoesOn(h: Heap, f: Heap, a: nat, path: seq<string>)
    requires ClosedBelow(h, |h|) && h <= f && a < |h|
    ensures Reach(f, a, path) == Reach(h, a, path)
  {
    hide ClosedBelow, Reach, RecordAt;
    forall p | Reach(h, a, p).Some? ensures RecordAt(f, Reach(h, a, p).value) == RecordAt(h, Reach(h, a, p).value) {
      ReachesBelow(h, |h|, a, p);
      RecordBefore(h, f, Reach(h, a, p).value);
    }
    ReachKept(h, f, a, path);
  }

  /** Whatever configuration has these explicit settings, its migration leaves it as it was. */
  ghost predicate SafeForEveryConfiguration(explicit: Heap, x: nat) {
    forall h, raw, depth :: explicit <= h && Config(h, raw) && DiscoveryIn(h, raw) == Ref(x) ==>
      !Migrated(h, raw, depth).threw ==> h <= Migrated(h, raw, depth).heap
  }

  /** The migration leaves its input alone, whatever the legacy settings and the rest of the configuration are, if and
      only if no record is reached along two paths from the explicit settings. */
  lemma InputSafeIff(explicit: Heap, x: nat)
    requires ClosedBelow(explicit, |explicit|) && x < |explicit|
    ensures SafeForEveryConfiguration(explicit, x) <==> OnePath(explicit, x)
  {
    hide Migrated, Config, DiscoveryIn, OnePath, ClosedBelow;
    if OnePath(explicit, x) {
      forall h, raw, depth | explicit <= h && Config(h, raw) && DiscoveryIn(h, raw) == Ref(x)
        ensures h <= Migrated(h, raw, depth).heap
      {
        OnePathKept(explicit, h, x);
        InputUnchanged(h, raw, depth);
      }
    } else {
      var h, raw, depth := UnsafeConfiguration(explicit, x);
    }
  }

  lemma OnePathKept(h: Heap, f: Heap, a: nat)
    requires ClosedBelow(h, |h|) && h <= f && a < |h| && OnePath(h, a)
    ensures OnePath(f, a)
  {
    hide Reach, ClosedBelow;
    forall p ensures Reach(f, a, p) == Reach(h, a, p) {
      ReachGoesOn(h, f, a, p);
    }
  }

  // ----- an example -----

  /** Two explicit settings `a` and `b` (record 0) are one record; the legacy settings (record 6) hold { x: {} } for `a`
      and { x: { y: 0 } } for `b`. Record 7 is the configuration. */
  function Example(): Heap {
    [ One("a", Ref(1)) + One("b", Ref(1)), [],
      One("x", Ref(3)), [],
      One("x", Ref(5)), One("y", Atom(0)),
      One("a", Ref(2)) + One("b", Ref(4)),
      One("models", Ref(8)) + One("plugins", Ref(9)), One(LEGACY, Ref(6)),
      One("entries", Ref(10)), One("amazon-bedrock", Ref(11)), One("config", Ref(12)), One(DISCOVERY, Ref(0)) ]
  }

  /** Its migration writes `y` into the empty legacy record 3. */
  lemma SharedRecordChangesLegacy(depth: nat)
    requires depth >= 3
    ensures Config(Example(), Ref(7)) && Spoils(Example(), Ref(7), 3, depth)
  {
    var h := [One("a", Ref(1)) + One("b", Ref(1)), []];
    var t := TreeBehind(h, [], ["a"], ["b"], "x");
    ExampleScene(h, t);
    ExampleDoubled(h, t);
    assert LeftLeaf(t) == 3;
    hide *;
    SceneHolds(h, 0, t, 1);
    SceneMigrated(h, 0, t, 1, depth);
  }

  lemma ExampleScene(h: Heap, t: Tree)
    requires h == [One("a", Ref(1)) + One("b", Ref(1)), []] && t == TreeBehind(h, [], ["a"], ["b"], "x")
    ensures Scene(h, 0, t) == Example() && |Grown(h, t)| == 7
  {
    hide One;
  }

  lemma ExampleDoubled(h: Heap, t: Tree)
    requires h == [One("a", Ref(1)) + One("b", Ref(1)), []] && t == TreeBehind(h, [], ["a"], ["b"], "x")
    ensures Doubled(h, 0, t, 1)
  {
    FieldSteps(h[0], "a");
    FieldSteps(h[0], "b");
    assert h[0][1..] == One("b", Ref(1));
    FieldSteps(One("b", Ref(1)), "b");
    ReachCons(h, 0, "a", 1, []);
    ReachCons(h, 0, "b", 1, []);
    assert ["a"] + [] == ["a"] == [] + ["a"] && ["b"] + [] == ["b"] == [] + ["b"];
    assert PointsBelow(h[0], 2) && PointsBelow(h[1], 2);
  }
}
