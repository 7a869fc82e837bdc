/** Nested translation maps: flattening to dotted keys and rebuilding by writing dotted keys. */
module TranslationTrees {
  import opened JsText
  import opened Options
  import opened Properties
  import opened Sequences

  datatype Tree = Text(text: string) | Group(entries: Ordered<Tree>)

  // ----- the two operations -----

  function FullKey(prefix: string, key: string): string {
    if prefix != "" then prefix + "." + key else key
  }

  function FlattenInto(entries: Ordered<Tree>, prefix: string, out: Ordered<string>): Ordered<string>
    decreases entries
  {
    if entries == [] then out
    else
      var Property(key, nested) := entries[0];
      var next := match nested
        case Text(text) => Put(out, FullKey(prefix, key), text)
        case Group(inner) => FlattenInto(inner, FullKey(prefix, key), out);
      FlattenInto(entries[1..], prefix, next)
  }

  function Flatten(entries: Ordered<Tree>): Ordered<string> {
    FlattenInto(entries, "", [])
  }

  /** The record to descend into: what is not there, or is a text, makes way for an empty one. */
  function Inside(entries: Ordered<Tree>, key: string): Ordered<Tree> {
    if Has(entries, key) && Get(entries, key).Group? then Get(entries, key).entries else []
  }

  function SetPath(entries: Ordered<Tree>, parts: seq<string>, value: string): Ordered<Tree>
    requires parts != []
    decreases |parts|
  {
    if |parts| == 1 then Put(entries, parts[0], Text(value))
    else Put(entries, parts[0], Group(SetPath(Inside(entries, parts[0]), parts[1..], value)))
  }

  /** What the names of a path lead to. */
  function TreeAt(entries: Ordered<Tree>, path: seq<string>): Option<Tree>
    requires path != []
    decreases |path|
  {
    if !Has(entries, path[0]) then None
    else if |path| == 1 then Some(Get(entries, path[0]))
    else if Get(entries, path[0]).Group? then TreeAt(Get(entries, path[0]).entries, path[1..])
    else None
  }

  /** After setting a path it leads to the text, whatever was there or on the way. */
  lemma {:induction false} SetPathSets(entries: Ordered<Tree>, parts: seq<string>, value: string)
    requires parts != []
    ensures TreeAt(SetPath(entries, parts, value), parts) == Some(Text(value))
    decreases |parts|
  {
    if |parts| == 1 {
      GetOfPut(entries, parts[0], Text(value), parts[0]);
    } else {
      GetOfPut(entries, parts[0], Group(SetPath(Inside(entries, parts[0]), parts[1..], value)), parts[0]);
      SetPathSets(Inside(entries, parts[0]), parts[1..], value);
    }
  }

  lemma {:induction false} NothingThere(path: seq<string>)
    ensures path != [] ==> TreeAt([], path) == None
  {
  }

  /** Every path beside it leads to what it led to: records that make way on it held nothing beside it. */
  lemma {:induction false} SetPathKeeps(entries: Ordered<Tree>, parts: seq<string>, value: string, path: seq<string>)
    requires parts != [] && !(path <= parts) && !(parts <= path)
    ensures path != [] && TreeAt(SetPath(entries, parts, value), path) == TreeAt(entries, path)
    decreases |parts|
  {
    assert path != [];
    if |parts| == 1 {
      GetOfPut(entries, parts[0], Text(value), path[0]);
      assert parts == [parts[0]] && path == [path[0]] + path[1..];
    } else {
      var inside := Inside(entries, parts[0]);
      GetOfPut(entries, parts[0], Group(SetPath(inside, parts[1..], value)), path[0]);
      assert parts == [parts[0]] + parts[1..] && path == [path[0]] + path[1..];
      if path[0] == parts[0] {
        SetPathKeeps(inside, parts[1..], value, path[1..]);
        NothingThere(path[1..]);
      }
    }
  }

  function SetNested(entries: Ordered<Tree>, dottedKey: string, value: string): Ordered<Tree> {
    SetPath(entries, Split(dottedKey, '.'), value)
  }

  function RebuildInto(entries: Ordered<Tree>, flat: Ordered<string>): Ordered<Tree>
    decreases |flat|
  {
    if flat == [] then entries else RebuildInto(SetNested(entries, flat[0].key, flat[0].value), flat[1..])
  }

  function Rebuild(flat: Ordered<string>): Ordered<Tree> {
    RebuildInto([], flat)
  }

  // ----- texts by path -----

  datatype Leaf = Leaf(path: seq<string>, text: string)

  type Paths = seq<Leaf>

  function Under(key: string, ps: Paths): (r: Paths)
    ensures |r| == |ps|
    ensures forall i :: 0 <= i < |ps| ==> r[i] == Leaf([key] + ps[i].path, ps[i].text)
  {
    seq(|ps|, i requires 0 <= i < |ps| => Leaf([key] + ps[i].path, ps[i].text))
  }

  /** The texts of a map with the names that lead to them, in order. */
  function Leaves(entries: Ordered<Tree>): Paths
    decreases entries, 0
  {
    if entries == [] then [] else LeavesOf(entries[0]) + Leaves(entries[1..])
  }

  function LeavesOf(entry: Property<Tree>): Paths
    decreases entry, 1
  {
    match entry.value
    case Text(text) => [Leaf([entry.key], text)]
    case Group(inner) => Under(entry.key, Leaves(inner))
  }

  predicate GoodName(name: string) {
    name != "" && '.' !in name
  }

  predicate GoodPath(path: seq<string>) {
    path != [] && forall i :: 0 <= i < |path| ==> GoodName(path[i])
  }

  /** Names are non-empty, free of dots, and distinct within a record. */
  ghost predicate WellNamed(entries: Ordered<Tree>)
    decreases entries
  {
    entries != [] ==>
      && GoodName(entries[0].key) && !Has(entries[1..], entries[0].key)
      && (entries[0].value.Group? ==> WellNamed(entries[0].value.entries))
      && WellNamed(entries[1..])
  }

  function Dotted(ps: Paths): (r: Ordered<string>)
    ensures |r| == |ps|
    ensures forall i :: 0 <= i < |ps| ==> r[i] == Property(Join(ps[i].path, "."), ps[i].text)
  {
    seq(|ps|, i requires 0 <= i < |ps| => Property(Join(ps[i].path, "."), ps[i].text))
  }

  ghost predicate GoodPaths(ps: Paths) {
    forall i :: 0 <= i < |ps| ==> GoodPath(ps[i].path)
  }

  ghost predicate DistinctPaths(ps: Paths) {
    forall i, j :: 0 <= i < j < |ps| ==> ps[i].path != ps[j].path
  }

  /** Every path starts with the name of an entry. */
  lemma {:induction false} LeavesStart(entries: Ordered<Tree>)
    ensures forall i :: 0 <= i < |Leaves(entries)| ==>
              Leaves(entries)[i].path != [] && Has(entries, Leaves(entries)[i].path[0])
    decreases entries
  {
    if entries != [] {
      LeavesStart(entries[1..]);
      forall i | 0 <= i < |Leaves(entries)|
        ensures Leaves(entries)[i].path != [] && Has(entries, Leaves(entries)[i].path[0])
      {
        var first := |Leaves(entries)| - |Leaves(entries[1..])|;
        if i < first {
          assert entries[0].key == Leaves(entries)[i].path[0];
        } else {
          var name := Leaves(entries[1..])[i - first].path[0];
          var j :| 0 <= j < |entries[1..]| && entries[1..][j].key == name;
          assert entries[j + 1].key == name;
        }
      }
    }
  }

  lemma {:induction false} LeavesGood(entries: Ordered<Tree>)
    requires WellNamed(entries)
    ensures GoodPaths(Leaves(entries)) && DistinctPaths(Leaves(entries))
    decreases entries
  {
    if entries != [] {
      hide GoodName;
      var Property(key, nested) := entries[0];
      LeavesGood(entries[1..]);
      LeavesStart(entries[1..]);
      if nested.Group? {
        LeavesGood(nested.entries);
        UnderGood(key, Leaves(nested.entries));
        AppendDistinct(key, Under(key, Leaves(nested.entries)), Leaves(entries[1..]));
      } else {
        AppendDistinct(key, [Leaf([key], nested.text)], Leaves(entries[1..]));
      }
    }
  }

  lemma UnderGood(key: string, ps: Paths)
    requires GoodName(key) && GoodPaths(ps) && DistinctPaths(ps)
    ensures GoodPaths(Under(key, ps)) && DistinctPaths(Under(key, ps))
  {
    forall i, j | 0 <= i < j < |ps| ensures Under(key, ps)[i].path != Under(key, ps)[j].path {
      assert Under(key, ps)[i].path[1..] == ps[i].path && Under(key, ps)[j].path[1..] == ps[j].path;
    }
  }

  lemma AppendDistinct(key: string, first: Paths, rest: Paths)
    requires DistinctPaths(first) && DistinctPaths(rest) && GoodPaths(first) && GoodPaths(rest)
    requires forall i :: 0 <= i < |first| ==> first[i].path[0] == key
    requires forall i :: 0 <= i < |rest| ==> rest[i].path[0] != key
    ensures DistinctPaths(first + rest) && GoodPaths(first + rest)
  {
  }

  // ----- flattening lists the texts under their joined names -----

  lemma {:induction false} JoinAppend(path: seq<string>, name: string)
    requires GoodPath(path)
    ensures Join(path + [name], ".") == Join(path, ".") + "." + name
    ensures Join(path, ".") != ""
    decreases |path|
  {
    if |path| == 1 {
      assert (path + [name])[1..] == [name];
    } else {
      assert (path + [name])[1..] == path[1..] + [name];
      assert forall i :: 0 <= i < |path[1..]| ==> path[1..][i] == path[i + 1];
      JoinAppend(path[1..], name);
    }
  }

  lemma FullKeyJoins(path: seq<string>, name: string)
    requires path != [] ==> GoodPath(path)
    ensures FullKey(Join(path, "."), name) == Join(path + [name], ".")
  {
    if path != [] {
      JoinAppend(path, name);
    } else {
      assert path + [name] == [name];
    }
  }

  function Below(path: seq<string>, ps: Paths): (r: Paths)
    ensures |r| == |ps|
    ensures forall i :: 0 <= i < |ps| ==> r[i] == Leaf(path + ps[i].path, ps[i].text)
  {
    seq(|ps|, i requires 0 <= i < |ps| => Leaf(path + ps[i].path, ps[i].text))
  }

  lemma SplitDotted(path: seq<string>)
    requires GoodPath(path)
    ensures Split(Join(path, "."), '.') == path
  {
    forall i | 0 <= i < |path| ensures '.' !in path[i] { assert GoodName(path[i]); }
    SplitJoin(path, '.');
  }

  /** Setting a new path's key appends it. */
  lemma PutDotted(done: Paths, path: seq<string>, text: string)
    requires Fresh(done + [Leaf(path, text)])
    ensures Put(Dotted(done), Join(path, "."), text) == Dotted(done + [Leaf(path, text)])
  {
    hide GoodPath, Split, Join;
    var all := done + [Leaf(path, text)];
    assert GoodPath(all[|done|].path);
    SplitDotted(path);
    forall i | 0 <= i < |done| ensures Dotted(done)[i].key != Join(path, ".") {
      assert GoodPath(all[i].path) && all[i].path != all[|done|].path;
      SplitDotted(done[i].path);
    }
    PutNew(Dotted(done), Join(path, "."), text);
    assert Dotted(all) == Dotted(done) + [Property(Join(path, "."), text)];
  }

  lemma BelowUnder(path: seq<string>, key: string, inner: Paths, rest: Paths)
    ensures Below(path, Under(key, inner) + rest) == Below(path + [key], inner) + Below(path, rest)
  {
    var whole, parts := Below(path, Under(key, inner) + rest), Below(path + [key], inner) + Below(path, rest);
    forall i | 0 <= i < |whole| ensures whole[i] == parts[i] {
      if i < |inner| {
        assert path + ([key] + inner[i].path) == path + [key] + inner[i].path;
      }
    }
  }

  lemma BelowLeaf(path: seq<string>, key: string, text: string, rest: Paths)
    ensures Below(path, [Leaf([key], text)] + rest) == [Leaf(path + [key], text)] + Below(path, rest)
  {
  }

  /** The paths listed so far and still to come: all made of good names, and all different. */
  ghost predicate Fresh(ps: Paths) {
    GoodPaths(ps) && DistinctPaths(ps)
  }

  lemma FreshPrefix(a: Paths, b: Paths)
    requires Fresh(a + b)
    ensures Fresh(a)
  {
    assert forall i :: 0 <= i < |a| ==> (a + b)[i] == a[i];
  }

  lemma {:induction false} FlattenIntoDots(entries: Ordered<Tree>, path: seq<string>, done: Paths)
    requires path != [] ==> GoodPath(path)
    requires WellNamed(entries) && Fresh(done + Below(path, Leaves(entries)))
    ensures FlattenInto(entries, Join(path, "."), Dotted(done)) == Dotted(done + Below(path, Leaves(entries)))
    decreases entries
  {
    hide GoodPaths, DistinctPaths, Join, FullKey, Fresh, Dotted, Under, Below, Put, Has;
    if entries == [] {
      assert Below(path, []) == [];
      assert done + [] == done;
    } else {
      var Property(key, nested) := entries[0];
      var rest := Leaves(entries[1..]);
      FullKeyJoins(path, key);
      var deeper := path + [key];
      match nested {
        case Text(text) =>
          var next := done + [Leaf(deeper, text)];
          BelowLeaf(path, key, text, rest);
          assert done + ([Leaf(deeper, text)] + Below(path, rest)) == next + Below(path, rest);
          FreshPrefix(next, Below(path, rest));
          PutDotted(done, deeper, text);
          FlattenIntoDots(entries[1..], path, next);
        case Group(inner) =>
          var next := done + Below(deeper, Leaves(inner));
          BelowUnder(path, key, Leaves(inner), rest);
          assert done + (Below(deeper, Leaves(inner)) + Below(path, rest)) == next + Below(path, rest);
          FreshPrefix(next, Below(path, rest));
          DeeperGood(path, key);
          FlattenIntoDots(inner, deeper, done);
          FlattenIntoDots(entries[1..], path, next);
      }
    }
  }

  lemma DeeperGood(path: seq<string>, key: string)
    requires (path != [] ==> GoodPath(path)) && GoodName(key)
    ensures GoodPath(path + [key])
  {
  }

  lemma FlattenDots(entries: Ordered<Tree>)
    requires WellNamed(entries)
    ensures Flatten(entries) == Dotted(Leaves(entries))
  {
    LeavesGood(entries);
    var ps := Leaves(entries);
    forall i | 0 <= i < |ps| ensures Below([], ps)[i] == ps[i] {
      assert [] + ps[i].path == ps[i].path;
    }
    assert [] + Below([], ps) == ps;
    assert Dotted([]) == [];
    FlattenIntoDots(entries, [], []);
  }

  // ----- rebuilding restores everything but empty records -----

  predicate Named(ps: Paths) {
    forall i :: 0 <= i < |ps| ==> ps[i].path != []
  }

  function SetAll(entries: Ordered<Tree>, ps: Paths): Ordered<Tree>
    requires Named(ps)
    decreases |ps|
  {
    if ps == [] then entries else SetAll(SetPath(entries, ps[0].path, ps[0].text), ps[1..])
  }

  /** The map without records that hold no text. */
  function Prune(entries: Ordered<Tree>): Ordered<Tree>
    decreases entries, 0
  {
    if entries == [] then [] else PruneOf(entries[0]) + Prune(entries[1..])
  }

  function PruneOf(entry: Property<Tree>): Ordered<Tree>
    decreases entry, 1
  {
    match entry.value
    case Text(_) => [entry]
    case Group(inner) => if Prune(inner) == [] then [] else [Property(entry.key, Group(Prune(inner)))]
  }

  lemma {:induction false} SetAllSplit(entries: Ordered<Tree>, a: Paths, b: Paths)
    requires Named(a) && Named(b)
    ensures Named(a + b)
    ensures SetAll(entries, a + b) == SetAll(SetAll(entries, a), b)
    decreases |a|
  {
    if a == [] {
      assert a + b == b;
    } else {
      assert (a + b)[1..] == a[1..] + b;
      SetAllSplit(SetPath(entries, a[0].path, a[0].text), a[1..], b);
    }
  }

  /** Paths that start with one new name build up one record. */
  lemma {:induction false} SetAllUnder(entries: Ordered<Tree>, key: string, inner: Ordered<Tree>, ps: Paths)
    requires !Has(entries, key)
    requires Named(ps)
    ensures SetAll(entries + [Property(key, Group(inner))], Under(key, ps)) == entries + [Property(key, Group(SetAll(inner, ps)))]
    decreases |ps|
  {
    if ps != [] {
      var all := entries + [Property(key, Group(inner))];
      var path, next := [key] + ps[0].path, SetPath(inner, ps[0].path, ps[0].text);
      PutLast(entries, key, Group(inner), Group(next));
      assert path[1..] == ps[0].path;
      assert SetPath(all, path, ps[0].text) == entries + [Property(key, Group(next))];
      assert Under(key, ps)[1..] == Under(key, ps[1..]);
      SetAllUnder(entries, key, next, ps[1..]);
    }
  }

  lemma SetAllNew(entries: Ordered<Tree>, key: string, ps: Paths)
    requires !Has(entries, key) && ps != []
    requires Named(ps)
    ensures SetAll(entries, Under(key, ps)) == entries + [Property(key, Group(SetAll([], ps)))]
  {
    var path, next := [key] + ps[0].path, SetPath([], ps[0].path, ps[0].text);
    PutNew(entries, key, Group(next));
    assert path[1..] == ps[0].path;
    assert SetPath(entries, path, ps[0].text) == entries + [Property(key, Group(next))];
    assert Under(key, ps)[1..] == Under(key, ps[1..]);
    SetAllUnder(entries, key, next, ps[1..]);
  }

  lemma {:induction false} PruneEmpty(entries: Ordered<Tree>)
    ensures Prune(entries) == [] <==> Leaves(entries) == []
    decreases entries
  {
    if entries != [] {
      PruneEmpty(entries[1..]);
      if entries[0].value.Group? {
        PruneEmpty(entries[0].value.entries);
        assert |Under(entries[0].key, Leaves(entries[0].value.entries))| == |Leaves(entries[0].value.entries)|;
      }
    }
  }

  ghost predicate Apart(done: Ordered<Tree>, entries: Ordered<Tree>) {
    forall i :: 0 <= i < |entries| ==> !Has(done, entries[i].key)
  }

  lemma ApartFirst(done: Ordered<Tree>, entries: Ordered<Tree>)
    requires Apart(done, entries) && entries != []
    ensures !Has(done, entries[0].key) && Apart(done, entries[1..])
  {
  }

  lemma ApartNothing(entries: Ordered<Tree>)
    ensures Apart([], entries)
  {
  }

  lemma UnderNamed(key: string, ps: Paths)
    ensures Named(Under(key, ps))
    ensures ps == [] ==> Under(key, ps) == []
  {
  }

  lemma SetAllOne(done: Ordered<Tree>, key: string, text: string)
    requires !Has(done, key)
    ensures Named([Leaf([key], text)])
    ensures SetAll(done, [Leaf([key], text)]) == done + [Property(key, Text(text))]
  {
    PutNew(done, key, Text(text));
  }

  lemma LeavesNotEmpty(entries: Ordered<Tree>)
    ensures Named(Leaves(entries))
  {
  }

  lemma {:induction false} SetAllLeaves(done: Ordered<Tree>, entries: Ordered<Tree>)
    requires WellNamed(entries) && Apart(done, entries)
    ensures Named(Leaves(entries)) && SetAll(done, Leaves(entries)) == done + Prune(entries)
    decreases entries, 0
  {
    hide Has, Apart, Named, LeavesOf, PruneOf;
    LeavesNotEmpty(entries);
    if entries != [] {
      hide SetAll;
      var first, rest := entries[0], entries[1..];
      ApartFirst(done, entries);
      LeavesNotEmpty(rest);
      SetAllEntry(done, first);
      SetAllSplit(done, LeavesOf(first), Leaves(rest));
      ApartAfter(done, first, rest);
      SetAllLeaves(done + PruneOf(first), rest);
      assert done + PruneOf(first) + Prune(rest) == done + (PruneOf(first) + Prune(rest));
    }
  }

  lemma {:induction false} SetAllEntry(done: Ordered<Tree>, entry: Property<Tree>)
    requires !Has(done, entry.key) && (entry.value.Group? ==> WellNamed(entry.value.entries))
    ensures Named(LeavesOf(entry)) && SetAll(done, LeavesOf(entry)) == done + PruneOf(entry)
    decreases entry, 1
  {
    hide Has, Apart, Named, WellNamed, Under;
    match entry.value {
      case Text(text) =>
        SetAllOne(done, entry.key, text);
      case Group(inner) =>
        ApartNothing(inner);
        SetAllLeaves([], inner);
        PruneEmpty(inner);
        UnderNamed(entry.key, Leaves(inner));
        assert [] + Prune(inner) == Prune(inner);
        if Leaves(inner) != [] {
          SetAllNew(done, entry.key, Leaves(inner));
        }
    }
  }

  lemma ApartAfter(done: Ordered<Tree>, entry: Property<Tree>, rest: Ordered<Tree>)
    requires Apart(done, rest) && !Has(rest, entry.key)
    ensures Apart(done + PruneOf(entry), rest)
  {
  }

  lemma {:induction false} RebuildSetsAll(entries: Ordered<Tree>, ps: Paths)
    requires GoodPaths(ps) && Named(ps)
    ensures RebuildInto(entries, Dotted(ps)) == SetAll(entries, ps)
    decreases |ps|
  {
    if ps != [] {
      hide Split, Join, GoodPath;
      assert GoodPath(ps[0].path) && Dotted(ps)[1..] == Dotted(ps[1..]);
      SplitDotted(ps[0].path);
      assert forall i :: 0 <= i < |ps[1..]| ==> ps[1..][i] == ps[i + 1];
      RebuildSetsAll(SetPath(entries, ps[0].path, ps[0].text), ps[1..]);
    }
  }

  /** Rebuilding a flattened map gives it back, order and all, but for records without texts. */
  lemma RebuildFlattened(entries: Ordered<Tree>)
    requires WellNamed(entries)
    ensures Rebuild(Flatten(entries)) == Prune(entries)
  {
    FlattenDots(entries);
    LeavesGood(entries);
    SetAllLeaves([], entries);
    RebuildSetsAll([], Leaves(entries));
    hide Flatten, Leaves, Prune;
    assert [] + Prune(entries) == Prune(entries);
  }

  // ----- new texts for the same keys -----

  /** The map with its texts replaced in order. */
  function Relabel(entries: Ordered<Tree>, texts: seq<string>): Ordered<Tree>
    requires |texts| == |Leaves(entries)|
    decreases entries, 0
  {
    if entries == [] then []
    else
      var n := |LeavesOf(entries[0])|;
      [RelabelOf(entries[0], texts[..n])] + Relabel(entries[1..], texts[n..])
  }

  function RelabelOf(entry: Property<Tree>, texts: seq<string>): (r: Property<Tree>)
    requires |texts| == |LeavesOf(entry)|
    ensures r.key == entry.key
    decreases entry, 1
  {
    match entry.value
    case Text(_) => Property(entry.key, Text(texts[0]))
    case Group(inner) => Property(entry.key, Group(Relabel(inner, texts)))
  }

  function WithTexts(ps: Paths, texts: seq<string>): (r: Paths)
    requires |texts| == |ps|
    ensures |r| == |ps|
    ensures forall i :: 0 <= i < |ps| ==> r[i] == Leaf(ps[i].path, texts[i])
  {
    seq(|ps|, i requires 0 <= i < |ps| => Leaf(ps[i].path, texts[i]))
  }

  lemma {:induction false} RelabelKeys(entries: Ordered<Tree>, texts: seq<string>)
    requires |texts| == |Leaves(entries)|
    ensures |Relabel(entries, texts)| == |entries|
    ensures forall i :: 0 <= i < |entries| ==> Relabel(entries, texts)[i].key == entries[i].key
    decreases |entries|
  {
    if entries != [] {
      RelabelKeys(entries[1..], texts[|LeavesOf(entries[0])|..]);
    }
  }

  lemma {:induction false} RelabelLeaves(entries: Ordered<Tree>, texts: seq<string>)
    requires |texts| == |Leaves(entries)| && WellNamed(entries)
    ensures Leaves(Relabel(entries, texts)) == WithTexts(Leaves(entries), texts)
    ensures WellNamed(Relabel(entries, texts))
    decreases entries, 0
  {
    hide GoodName, LeavesOf, RelabelOf;
    if entries != [] {
      var first, rest := entries[0], entries[1..];
      var n := |LeavesOf(first)|;
      var changed := Relabel(entries, texts);
      assert changed[1..] == Relabel(rest, texts[n..]);
      RelabelEntry(first, texts[..n]);
      RelabelLeaves(rest, texts[n..]);
      RelabelKeys(rest, texts[n..]);
      assert WithTexts(LeavesOf(first), texts[..n]) + WithTexts(Leaves(rest), texts[n..]) == WithTexts(Leaves(entries), texts);
    }
  }

  lemma {:induction false} RelabelEntry(entry: Property<Tree>, texts: seq<string>)
    requires |texts| == |LeavesOf(entry)| && (entry.value.Group? ==> WellNamed(entry.value.entries))
    ensures LeavesOf(RelabelOf(entry, texts)) == WithTexts(LeavesOf(entry), texts)
    ensures var r := RelabelOf(entry, texts).value; r.Group? == entry.value.Group? && (r.Group? ==> WellNamed(r.entries))
    decreases entry, 1
  {
    if entry.value.Group? {
      hide WellNamed;
      var inner := Leaves(entry.value.entries);
      RelabelLeaves(entry.value.entries, texts);
      var a, b := Under(entry.key, WithTexts(inner, texts)), WithTexts(Under(entry.key, inner), texts);
      assert forall i :: 0 <= i < |a| ==> a[i] == b[i];
    }
  }

  lemma {:induction false} PruneLeaves(entries: Ordered<Tree>)
    requires WellNamed(entries)
    ensures Leaves(Prune(entries)) == Leaves(entries) && WellNamed(Prune(entries))
    ensures forall i :: 0 <= i < |Prune(entries)| ==> Has(entries, Prune(entries)[i].key)
    decreases entries
  {
    hide GoodName;
    if entries != [] {
      var first, rest := entries[0], entries[1..];
      PruneLeaves(rest);
      if first.value.Group? {
        PruneLeaves(first.value.entries);
        PruneEmpty(first.value.entries);
      }
      PruneKeeps(entries);
    }
  }

  lemma PruneKeeps(entries: Ordered<Tree>)
    requires entries != [] && WellNamed(entries)
    requires var rest := Prune(entries[1..]);
             && Leaves(rest) == Leaves(entries[1..]) && WellNamed(rest)
             && forall i :: 0 <= i < |rest| ==> Has(entries[1..], rest[i].key)
    requires entries[0].value.Group? ==>
               var inner := entries[0].value.entries;
               && Leaves(Prune(inner)) == Leaves(inner) && WellNamed(Prune(inner)) && (Prune(inner) == [] <==> Leaves(inner) == [])
    ensures Leaves(Prune(entries)) == Leaves(entries) && WellNamed(Prune(entries))
    ensures forall i :: 0 <= i < |Prune(entries)| ==> Has(entries, Prune(entries)[i].key)
  {
    hide GoodName, Under, Has;
    var rest, pruned := Prune(entries[1..]), Prune(entries);
    forall k ensures Has(entries, k) <==> entries[0].key == k || Has(entries[1..], k) {
      FirstOrRest(entries, k);
    }
    if PruneOf(entries[0]) == [] {
      assert pruned == rest;
      assert LeavesOf(entries[0]) == [];
    } else {
      assert pruned[1..] == rest;
      assert entries[0].key == pruned[0].key;
      assert LeavesOf(pruned[0]) == LeavesOf(entries[0]);
      NotAmong(rest, entries[1..], entries[0].key);
    }
  }

  lemma NotAmong(some: Ordered<Tree>, all: Ordered<Tree>, key: string)
    requires !Has(all, key) && forall i :: 0 <= i < |some| ==> Has(all, some[i].key)
    ensures !Has(some, key)
  {
  }

  ghost predicate SameKeys<V, W>(a: Ordered<V>, b: Ordered<W>) {
    |a| == |b| && forall i :: 0 <= i < |a| ==> a[i].key == b[i].key
  }

  /** Writing any texts under the keys of a flattened map, and flattening the result, gives these texts back in order. */
  lemma FlattenRebuilt(source: Ordered<Tree>, flat: Ordered<string>)
    requires WellNamed(source) && SameKeys(flat, Flatten(source))
    ensures Flatten(Rebuild(flat)) == flat
  {
    FlattenDots(source);
    hide Flatten, Rebuild, Leaves, WellNamed, Join;
    var texts := seq(|flat|, i requires 0 <= i < |flat| => flat[i].value);
    var changed := Relabel(source, texts);
    RelabelLeaves(source, texts);
    FlattenDots(changed);
    assert Dotted(WithTexts(Leaves(source), texts)) == flat;
    RebuildFlattened(changed);
    PruneLeaves(changed);
    FlattenDots(Prune(changed));
  }
}
