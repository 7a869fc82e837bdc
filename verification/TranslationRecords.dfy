/** Nested translation maps as the script holds them: records written in place through a cursor. */
module TranslationRecords {
  import opened JsText
  import opened Properties
  import opened TranslationTrees

  datatype Slot = Words(text: string) | Nested(record: Record)

  // ----- what the properties of a record own and stand for -----

  /** A nested record is well formed and lies within the given records. */
  ghost predicate OwnedSlot(slot: Slot, within: set<Record>)
    reads within
    decreases within, 1
  {
    slot.Nested? ==> slot.record in within && slot.record.repr <= within && slot.record.Valid()
  }

  ghost predicate Owned(properties: Ordered<Slot>, within: set<Record>)
    reads within
    decreases within, 2
  {
    forall i :: 0 <= i < |properties| ==> OwnedSlot(properties[i].value, within)
  }

  ghost predicate SlotsApart(a: Slot, b: Slot, within: set<Record>)
    requires OwnedSlot(a, within) && OwnedSlot(b, within)
    reads within
    decreases within, 3
  {
    a.Nested? && b.Nested? ==> a.record.repr !! b.record.repr
  }

  /** No two properties share a record. */
  ghost predicate Unshared(properties: Ordered<Slot>, within: set<Record>)
    requires Owned(properties, within)
    reads within
    decreases within, 4
  {
    forall i, j :: 0 <= i < j < |properties| ==> SlotsApart(properties[i].value, properties[j].value, within)
  }

  ghost function TreeOfSlot(slot: Slot, within: set<Record>): Tree
    requires OwnedSlot(slot, within)
    reads within
    decreases within, 1
  {
    match slot
    case Words(text) => Text(text)
    case Nested(record) => Group(record.View())
  }

  ghost function TreeOf(properties: Ordered<Slot>, within: set<Record>): (t: Ordered<Tree>)
    requires Owned(properties, within)
    reads within
    ensures |t| == |properties|
    ensures forall i :: 0 <= i < |t| ==> t[i] == Property(properties[i].key, TreeOfSlot(properties[i].value, within))
    decreases within, 2
  {
    seq(|properties|, i requires 0 <= i < |properties| && Owned(properties, within) reads within =>
      Property(properties[i].key, TreeOfSlot(properties[i].value, within)))
  }

  class Record {
    var properties: Ordered<Slot>
    ghost var repr: set<Record>

    ghost predicate Valid()
      reads this, repr
      decreases repr, 0
    {
      this in repr && Owned(properties, repr - {this}) && Unshared(properties, repr - {this})
    }

    ghost function View(): Ordered<Tree>
      requires Valid()
      reads this, repr
      decreases repr, 0
    {
      TreeOf(properties, repr - {this})
    }

    constructor ()
      ensures Valid() && View() == [] && repr == {this}
    {
      properties := [];
      repr := {this};
    }

    /** The last step of the cursor: the text goes in, whatever was there. */
    method SetText(key: string, value: string)
      requires Valid()
      modifies this
      ensures Valid() && repr == old(repr)
      ensures View() == Put(old(View()), key, Text(value))
    {
      PutOwned(properties, key, Words(value), repr - {this});
      PutUnshared(properties, key, Words(value), repr - {this});
      properties := Put(properties, key, Words(value));
    }

    /** An empty record takes the place of what is there. */
    method Attach(key: string) returns (replacement: Record)
      requires Valid()
      modifies this
      ensures Valid() && fresh(replacement) && repr == old(repr) + {replacement}
      ensures Has(properties, key) && Get(properties, key) == Nested(replacement)
      ensures View() == Put(old(View()), key, Group([]))
    {
      hide Owned, Unshared, TreeOf, Put;
      replacement := new Record();
      ghost var within := repr - {this} + {replacement};
      Wider(properties, repr - {this}, within);
      assert OwnedSlot(Nested(replacement), within);
      NewApart(properties, repr - {this}, within, replacement);
      PutOwned(properties, key, Nested(replacement), within);
      PutUnshared(properties, key, Nested(replacement), within);
      PutHas(properties, key, Nested(replacement));
      properties := Put(properties, key, Nested(replacement));
      repr := repr + {replacement};
      assert repr - {this} == within;
    }

    /** setNestedValue from the cursor on: records that are missing on the way are created, texts make way for them. */
    method SetPath(parts: seq<string>, value: string)
      requires Valid() && parts != []
      modifies repr
      ensures Valid() && fresh(repr - old(repr))
      ensures View() == TranslationTrees.SetPath(old(View()), parts, value)
      decreases |parts|, 0
    {
      hide Owned, Unshared, TreeOf, Put, Has, Get, Inside;
      var key := parts[0];
      if |parts| == 1 {
        SetText(key, value);
        return;
      }
      assert [key] + parts[1..] == parts;
      if !Has(properties, key) || Get(properties, key).Words? {
        InsideNothing(properties, key, repr - {this});
        SetThroughNew(View(), key, parts[1..], value);
        var _ := Attach(key);
      }
      SetInside(key, parts[1..], value);
    }

    /** The cursor moves into the record that is there. */
    method SetInside(key: string, parts: seq<string>, value: string)
      requires Valid() && parts != [] && Has(properties, key) && Get(properties, key).Nested?
      modifies repr
      ensures Valid() && fresh(repr - old(repr))
      ensures View() == Put(old(View()), key, Group(TranslationTrees.SetPath(Inside(old(View()), key), parts, value)))
      decreases |parts|, 2
    {
      hide Put, Has, Get, TreeOf, TreeOfSlot, Owned, OwnedSlot, Unshared, SlotsApart, Inside, TranslationTrees.SetPath;
      var next := Get(properties, key).record;
      ghost var within, tree := repr - {this}, View();
      ghost var k := InsideRecord(properties, key, within);
      WriteBelow(properties, k, within, next, parts, value);
      repr := repr + next.repr;
      assert repr - {this} == within + next.repr;
      Rebuilt(properties, repr - {this}, tree[k := Property(key, Group(next.View()))]);
    }

    /** Writing below one property leaves what the others stand for. */
    static method WriteBelow(ghost slots: Ordered<Slot>, ghost k: nat, ghost within: set<Record>, next: Record,
                             parts: seq<string>, value: string)
      requires Owned(slots, within) && Unshared(slots, within)
      requires k < |slots| && slots[k].value == Nested(next) && OwnedSlot(slots[k].value, within) && parts != []
      modifies next.repr
      ensures next.Valid() && fresh(next.repr - old(next.repr))
      ensures next.View() == TranslationTrees.SetPath(old(next.View()), parts, value)
      ensures forall i :: 0 <= i < |slots| ==> OwnedSlot(slots[i].value, within + next.repr)
      ensures forall i, j :: 0 <= i < j < |slots| ==> SlotsApart(slots[i].value, slots[j].value, within + next.repr)
      ensures forall i :: 0 <= i < |slots| ==>
                TreeOfSlot(slots[i].value, within + next.repr) ==
                  if i == k then Group(next.View()) else old(TreeOf(slots, within))[i].value
      decreases |parts|, 1
    {
      ghost var tree, inside := TreeOf(slots, within), next.repr;
      forall i | 0 <= i < |slots| && i != k && slots[i].value.Nested?
        ensures var r := slots[i].value.record; r.Valid() && r in within && r.repr <= within && r.repr !! inside
        ensures tree[i].value == Group(slots[i].value.record.View())
      {
        assert OwnedSlot(slots[i].value, within);
        assert i < k ==> SlotsApart(slots[i].value, slots[k].value, within);
        assert k < i ==> SlotsApart(slots[k].value, slots[i].value, within);
      }
      assert forall i, j :: 0 <= i < j < |slots| ==> SlotsApart(slots[i].value, slots[j].value, within);
      next.SetPath(parts, value);
    }

    method SetNestedValue(dottedKey: string, value: string)
      requires Valid()
      modifies repr
      ensures Valid() && fresh(repr - old(repr))
      ensures View() == SetNested(old(View()), dottedKey, value)
    {
      SetPath(Split(dottedKey, '.'), value);
    }

    /** The entries as values, as they are rendered to the locale file. */
    method Entries() returns (entries: Ordered<Tree>)
      requires Valid()
      ensures entries == View()
      decreases repr
    {
      entries := [];
      ghost var tree := View();
      for i := 0 to |properties|
        invariant entries == tree[..i]
      {
        var Property(key, nested) := properties[i];
        match nested {
          case Words(text) =>
            entries := entries + [Property(key, Text(text))];
          case Nested(record) =>
            assert OwnedSlot(properties[i].value, repr - {this});
            var inner := record.Entries();
            entries := entries + [Property(key, Group(inner))];
        }
      }
    }

    method FlattenTranslations(prefix: string, into: Ordered<string>) returns (out: Ordered<string>)
      requires Valid()
      ensures out == FlattenInto(View(), prefix, into)
      decreases repr
    {
      out := into;
      ghost var tree := View();
      for i := 0 to |properties|
        invariant FlattenInto(tree[i..], prefix, out) == FlattenInto(tree, prefix, into)
      {
        var Property(key, nested) := properties[i];
        assert tree[i..][0] == tree[i] && tree[i..][1..] == tree[i + 1..];
        match nested {
          case Words(text) =>
            out := Put(out, FullKey(prefix, key), text);
          case Nested(record) =>
            assert OwnedSlot(properties[i].value, repr - {this});
            out := record.FlattenTranslations(FullKey(prefix, key), out);
        }
      }
    }
  }

  /** The property the cursor follows. */
  lemma InsideRecord(properties: Ordered<Slot>, key: string, within: set<Record>) returns (k: nat)
    requires Owned(properties, within) && Has(properties, key) && Get(properties, key).Nested?
    ensures k < |properties| && properties[k] == Property(key, Get(properties, key))
    ensures OwnedSlot(properties[k].value, within)
    ensures var next := properties[k].value.record;
            next.Valid() && next in within && next.repr <= within && Inside(TreeOf(properties, within), key) == next.View()
    ensures forall value :: Put(TreeOf(properties, within), key, value) == TreeOf(properties, within)[k := Property(key, value)]
    ensures forall i :: 0 <= i < |properties| ==> TreeOf(properties, within)[i].key == properties[i].key
  {
    GetFirst(properties, key);
    k :| FirstAt(properties, key, k) && properties[k].value == Get(properties, key);
    FirstGet(TreeOf(properties, within), key, k);
    assert OwnedSlot(properties[k].value, within);
    assert TreeOf(properties, within)[k].value == TreeOfSlot(properties[k].value, within);
  }

  lemma Rebuilt(properties: Ordered<Slot>, within: set<Record>, tree: Ordered<Tree>)
    requires forall i :: 0 <= i < |properties| ==> OwnedSlot(properties[i].value, within)
    requires forall i, j :: 0 <= i < j < |properties| ==> SlotsApart(properties[i].value, properties[j].value, within)
    requires |tree| == |properties|
    requires forall i :: 0 <= i < |tree| ==> tree[i] == Property(properties[i].key, TreeOfSlot(properties[i].value, within))
    ensures Owned(properties, within) && Unshared(properties, within) && TreeOf(properties, within) == tree
  {
  }

  ghost predicate FirstAt<V>(o: Ordered<V>, key: string, k: nat) {
    k < |o| && o[k].key == key && forall i :: 0 <= i < k ==> o[i].key != key
  }

  lemma Wider(properties: Ordered<Slot>, within: set<Record>, wider: set<Record>)
    requires Owned(properties, within) && within <= wider
    ensures Owned(properties, wider) && TreeOf(properties, wider) == TreeOf(properties, within)
    ensures Unshared(properties, within) ==> Unshared(properties, wider)
  {
    forall i, j | 0 <= i < j < |properties| && Unshared(properties, within)
      ensures SlotsApart(properties[i].value, properties[j].value, wider)
    {
      assert SlotsApart(properties[i].value, properties[j].value, within);
    }
  }

  lemma NewApart(properties: Ordered<Slot>, within: set<Record>, wider: set<Record>, record: Record)
    requires Owned(properties, within) && Owned(properties, wider)
    requires OwnedSlot(Nested(record), wider) && record.repr !! within
    ensures forall i :: 0 <= i < |properties| ==> SlotsApart(properties[i].value, Nested(record), wider)
  {
  }

  lemma PutHas<V>(o: Ordered<V>, key: string, value: V)
    ensures Has(Put(o, key, value), key) && Get(Put(o, key, value), key) == value
  {
    var k := PutAt(o, key, value);
    FirstGet(Put(o, key, value), key, k);
  }

  lemma {:induction false} PutOwned(properties: Ordered<Slot>, key: string, slot: Slot, within: set<Record>)
    requires Owned(properties, within) && OwnedSlot(slot, within)
    ensures Owned(Put(properties, key, slot), within)
    ensures TreeOf(Put(properties, key, slot), within) == Put(TreeOf(properties, within), key, TreeOfSlot(slot, within))
    decreases |properties|
  {
    if properties != [] && properties[0].key != key {
      assert TreeOf(properties, within)[1..] == TreeOf(properties[1..], within);
      PutOwned(properties[1..], key, slot, within);
    }
  }

  lemma {:induction false} PutUnshared(properties: Ordered<Slot>, key: string, slot: Slot, within: set<Record>)
    requires Owned(properties, within) && Unshared(properties, within) && OwnedSlot(slot, within)
    requires forall i :: 0 <= i < |properties| ==> SlotsApart(properties[i].value, slot, within)
    ensures Owned(Put(properties, key, slot), within) && Unshared(Put(properties, key, slot), within)
    decreases |properties|
  {
    PutOwned(properties, key, slot, within);
    var k := PutAt(properties, key, slot);
    var after := Put(properties, key, slot);
    forall i, j | 0 <= i < j < |after| ensures SlotsApart(after[i].value, after[j].value, within) {
      if j == k {
        assert SlotsApart(properties[i].value, slot, within);
      } else if i == k {
        assert SlotsApart(properties[j].value, slot, within);
      } else {
        assert SlotsApart(properties[i].value, properties[j].value, within);
      }
    }
  }

  lemma {:induction false} GetFirst<V>(o: Ordered<V>, key: string)
    requires Has(o, key)
    ensures exists k: nat :: FirstAt(o, key, k) && o[k].value == Get(o, key)
  {
    if o[0].key == key {
      assert FirstAt(o, key, 0);
    } else {
      assert forall i :: 0 < i < |o| ==> o[1..][i - 1] == o[i];
      GetFirst(o[1..], key);
      var k: nat :| FirstAt(o[1..], key, k) && o[1..][k].value == Get(o[1..], key);
      assert FirstAt(o, key, k + 1);
    }
  }

  lemma {:induction false} PutAgain<V>(o: Ordered<V>, key: string, first: V, second: V)
    ensures Put(Put(o, key, first), key, second) == Put(o, key, second)
  {
    if o != [] && o[0].key != key {
      assert Put(o, key, first)[1..] == Put(o[1..], key, first);
      PutAgain(o[1..], key, first, second);
    }
  }

  /** Creating an empty record and writing inside it is writing a path with nothing there. */
  lemma SetThroughNew(tree: Ordered<Tree>, key: string, parts: seq<string>, value: string)
    requires Inside(tree, key) == [] && parts != []
    ensures var created := Put(tree, key, Group([]));
            Put(created, key, Group(TranslationTrees.SetPath(Inside(created, key), parts, value))) ==
              TranslationTrees.SetPath(tree, [key] + parts, value)
  {
    PutHas(tree, key, Group([]));
    assert ([key] + parts)[1..] == parts;
    PutAgain(tree, key, Group([]), Group(TranslationTrees.SetPath([], parts, value)));
  }

  /** There is no record to descend into. */
  lemma InsideNothing(properties: Ordered<Slot>, key: string, within: set<Record>)
    requires Owned(properties, within) && (!Has(properties, key) || Get(properties, key).Words?)
    ensures Inside(TreeOf(properties, within), key) == []
  {
    var tree := TreeOf(properties, within);
    if Has(properties, key) {
      GetFirst(properties, key);
      var k: nat :| FirstAt(properties, key, k) && properties[k].value == Get(properties, key);
      FirstGet(tree, key, k);
    }
  }

  lemma {:induction false} FirstGet<V>(o: Ordered<V>, key: string, k: nat)
    requires FirstAt(o, key, k)
    ensures Has(o, key) && Get(o, key) == o[k].value
    ensures forall value :: Put(o, key, value) == o[k := Property(key, value)]
    decreases |o|
  {
    if k > 0 {
      assert forall i :: 0 < i < |o| ==> o[1..][i - 1] == o[i];
      FirstGet(o[1..], key, k - 1);
    }
  }
}
