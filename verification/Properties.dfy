/** Property lists in insertion order, as JavaScript objects and Maps keep them. */
module Properties {

  /** A property list in insertion order, as an object or a Map keeps it. */
  type Ordered<V> = seq<Property<V>>

  datatype Property<V> = Property(key: string, value: V)

  predicate Has<V>(o: Ordered<V>, key: string) {
    exists i :: 0 <= i < |o| && o[i].key == key
  }

  function Get<V>(o: Ordered<V>, key: string): (v: V)
    requires Has(o, key)
    ensures exists i :: 0 <= i < |o| && o[i] == Property(key, v)
  {
    if o[0].key == key then o[0].value else Get(o[1..], key)
  }

  /** Setting a key: in its place when it is there, at the end otherwise. */
  function Put<V>(o: Ordered<V>, key: string, value: V): Ordered<V> {
    if o == [] then [Property(key, value)]
    else if o[0].key == key then [Property(key, value)] + o[1..]
    else [o[0]] + Put(o[1..], key, value)
  }

  lemma {:induction false} PutNew<V>(o: Ordered<V>, key: string, value: V)
    requires !Has(o, key)
    ensures Put(o, key, value) == o + [Property(key, value)]
  {
    if o != [] {
      assert forall i :: 0 <= i < |o[1..]| ==> o[1..][i] == o[i + 1];
      PutNew(o[1..], key, value);
    }
  }

  /** Replacing the last property. */
  lemma {:induction false} PutLast<V>(o: Ordered<V>, key: string, before: V, value: V)
    requires !Has(o, key)
    ensures Put(o + [Property(key, before)], key, value) == o + [Property(key, value)]
    ensures Has(o + [Property(key, before)], key) && Get(o + [Property(key, before)], key) == before
  {
    var all := o + [Property(key, before)];
    assert all[|o|].key == key;
    if o != [] {
      assert all[1..] == o[1..] + [Property(key, before)];
      assert forall i :: 0 <= i < |o[1..]| ==> o[1..][i] == o[i + 1];
      assert all[0].key == o[0].key;
      PutLast(o[1..], key, before, value);
    }
  }

  lemma FirstOrRest<V>(o: Ordered<V>, k: string)
    requires o != []
    ensures Has(o, k) <==> o[0].key == k || Has(o[1..], k)
  {
    assert forall i :: 0 <= i < |o[1..]| ==> o[1..][i] == o[i + 1];
  }

  /** Reading after a put: the new value at its key, and the old one at every other. */
  lemma {:induction false} GetOfPut<V>(o: Ordered<V>, key: string, value: V, k: string)
    ensures Has(Put(o, key, value), k) <==> k == key || Has(o, k)
    ensures Has(Put(o, key, value), k) ==> Get(Put(o, key, value), k) == if k == key then value else Get(o, k)
  {
    var after := Put(o, key, value);
    if o != [] {
      FirstOrRest(o, k);
      GetOfPut(o[1..], key, value, k);
    }
    FirstOrRest(after, k);
  }

  ghost predicate PutsAt<V>(o: Ordered<V>, key: string, value: V, k: nat) {
    var after := Put(o, key, value);
    && k <= |o| && |after| == (if k == |o| then k + 1 else |o|)
    && after[k] == Property(key, value)
    && (k < |o| ==> o[k].key == key)
    && (forall i :: 0 <= i < |o| && i != k ==> after[i] == o[i])
    && (forall i :: 0 <= i < k ==> o[i].key != key)
  }

  /** Where a put changes the list, and where it does not. */
  lemma {:induction false} PutAt<V>(o: Ordered<V>, key: string, value: V) returns (k: nat)
    ensures k <= |o| && PutsAt(o, key, value, k)
  {
    if o == [] || o[0].key == key {
      k := 0;
    } else {
      var tail := o[1..];
      var at := PutAt(tail, key, value);
      k := at + 1;
      assert forall i :: 0 < i < |o| ==> o[i] == tail[i - 1];
      assert Put(o, key, value) == [o[0]] + Put(tail, key, value);
    }
  }

  ghost predicate DistinctKeys<V>(o: Ordered<V>) {
    forall i, j :: 0 <= i < j < |o| ==> o[i].key != o[j].key
  }

  lemma PutDistinct<V>(o: Ordered<V>, key: string, value: V)
    requires DistinctKeys(o)
    ensures DistinctKeys(Put(o, key, value))
  {
    var k := PutAt(o, key, value);
    var after := Put(o, key, value);
    forall i, j | 0 <= i < j < |after| ensures after[i].key != after[j].key {
      assert i != k ==> after[i] == o[i];
      assert j != k ==> after[j] == o[j];
    }
  }
}
