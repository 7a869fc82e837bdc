/** Cutting the pending keys of a locale into prompts, greedily and within two limits. */
module TranslationBatches {

  datatype Item = Item(key: string, text: string)

  const MAX_BATCH_ITEMS := 20

  function EstimateBatchChars(items: seq<Item>): nat {
    if items == [] then 2
    else EstimateBatchChars(items[..|items| - 1]) + |items[|items| - 1].key| + |items[|items| - 1].text| + 8
  }

  /** What the loop charges for a batch: every item is estimated as a batch of its own. */
  function Charge(items: seq<Item>): nat {
    if items == [] then 2
    else Charge(items[..|items| - 1]) + EstimateBatchChars([items[|items| - 1]])
  }

  /** The limits the loop keeps: a batch of one item may cost anything. */
  predicate Allowed(batch: seq<Item>, budget: real) {
    && 1 <= |batch| <= MAX_BATCH_ITEMS
    && (|batch| > 1 ==> Charge(batch) as real <= budget)
  }

  function Concat(batches: seq<seq<Item>>): seq<Item> {
    if batches == [] then [] else batches[0] + Concat(batches[1..])
  }

  /** An in-order split of the items into batches within the limits. */
  ghost predicate Splits(batches: seq<seq<Item>>, items: seq<Item>, budget: real) {
    && Concat(batches) == items
    && forall i :: 0 <= i < |batches| ==> Allowed(batches[i], budget)
  }

  /** No batch could have taken the first item of the next one. */
  ghost predicate Eager(batches: seq<seq<Item>>, budget: real) {
    forall i {:trigger batches[i]} :: 0 < i < |batches| ==>
      batches[i] != [] && !Allowed(batches[i - 1] + [batches[i][0]], budget)
  }

  lemma {:induction false} ConcatAppend(batches: seq<seq<Item>>, last: seq<Item>)
    ensures Concat(batches + [last]) == Concat(batches) + last
  {
    if batches == [] {
      assert [last][1..] == [];
    } else {
      ConcatAppend(batches[1..], last);
      assert (batches + [last])[1..] == batches[1..] + [last];
    }
  }

  lemma {:induction false} EstimateAtLeastTwo(items: seq<Item>)
    ensures 2 <= EstimateBatchChars(items) <= Charge(items)
    ensures |items| > 1 ==> EstimateBatchChars(items) < Charge(items)
  {
    if items != [] {
      EstimateAtLeastTwo(items[..|items| - 1]);
      var last := [items[|items| - 1]];
      assert last[..0] == [];
      assert EstimateBatchChars(last[..0]) == 2;
    }
  }

  /** The estimate of a batch of several items stays below the budget. */
  lemma EstimateWithinBudget(batch: seq<Item>, budget: real)
    requires Allowed(batch, budget) && |batch| > 1
    ensures EstimateBatchChars(batch) as real < budget
  {
    EstimateAtLeastTwo(batch);
  }

  /** A stretch of a batch is charged no more than the batch. */
  lemma {:induction false} ChargeOfStretch(items: seq<Item>, lo: nat, hi: nat)
    requires lo <= hi <= |items|
    ensures Charge(items[lo..hi]) <= Charge(items)
    decreases |items|
  {
    if hi < |items| {
      var front := items[..|items| - 1];
      ChargeOfStretch(front, lo, hi);
      assert front[lo..hi] == items[lo..hi];
    } else if lo < hi {
      var front := items[..|items| - 1];
      ChargeOfStretch(front, lo, hi - 1);
      var s := items[lo..hi];
      assert front[lo..hi - 1] == items[lo..hi - 1] == s[..|s| - 1];
      assert s[|s| - 1] == items[|items| - 1];
    } else {
      assert items[lo..hi] == [];
      EstimateAtLeastTwo(items);
    }
  }

  lemma AllowedStretch(batch: seq<Item>, lo: nat, hi: nat, budget: real)
    requires lo < hi <= |batch| && Allowed(batch, budget)
    ensures Allowed(batch[lo..hi], budget)
  {
    ChargeOfStretch(batch, lo, hi);
  }

  lemma SplitTail(batches: seq<seq<Item>>, items: seq<Item>, budget: real)
    requires Splits(batches, items, budget) && batches != []
    ensures Allowed(batches[0], budget) && batches[0] <= items
    ensures Splits(batches[1..], items[|batches[0]|..], budget)
  {
  }

  lemma EagerTail(batches: seq<seq<Item>>, budget: real)
    requires Eager(batches, budget) && batches != []
    ensures Eager(batches[1..], budget)
  {
  }

  /** Greedy stays ahead: eager batches of a tail of the items need no more batches than any split of all of them. */
  lemma {:induction false} EagerIsFewest(batches: seq<seq<Item>>, split: seq<seq<Item>>, skip: nat, items: seq<Item>,
                                         budget: real)
    requires skip <= |items| && Splits(batches, items[skip..], budget) && Eager(batches, budget)
    requires Splits(split, items, budget)
    ensures |batches| <= |split|
    decreases |split|
  {
    if batches != [] {
      SplitTail(batches, items[skip..], budget);
      assert split != [] by {
        assert items[skip..] != [];
      }
      SplitTail(split, items, budget);
      hide Splits, Eager, Allowed;
      var cut, reached := |split[0]|, skip + |batches[0]|;
      assert items[skip..][|batches[0]|..] == items[reached..];
      if |batches| > 1 {
        NextItemRefused(batches, split[0], skip, items, budget);
        EagerTail(batches, budget);
        assert items[cut..][reached - cut..] == items[reached..];
        EagerIsFewest(batches[1..], split[1..], reached - cut, items[cut..], budget);
      }
    }
  }

  lemma NextItemRefused(batches: seq<seq<Item>>, first: seq<Item>, skip: nat, items: seq<Item>, budget: real)
    requires |batches| > 1 && Eager(batches, budget) && skip <= |items|
    requires Splits(batches, items[skip..], budget)
    requires first <= items && Allowed(first, budget)
    ensures |first| <= skip + |batches[0]|
  {
    var reached := skip + |batches[0]|;
    assert batches[1] != [] && !Allowed(batches[1 - 1] + [batches[1][0]], budget);
    if reached < |first| {
      assert Concat(batches[1..])[0] == batches[1][0];
      assert items[skip..][|batches[0]|] == batches[1][0];
      assert first[skip..reached + 1] == items[skip..][..|batches[0]| + 1] == batches[0] + [batches[1][0]];
      AllowedStretch(first, skip, reached + 1, budget);
    }
  }

  /** The batches closed so far and the open one, as the loop keeps them. */
  ghost predicate Filling(batches: seq<seq<Item>>, current: seq<Item>, done: seq<Item>, budget: real) {
    && Concat(batches) + current == done
    && (current == [] <==> done == [])
    && (current == [] ==> batches == [])
    && (current != [] ==> Splits(batches + [current], done, budget) && Eager(batches + [current], budget))
  }

  lemma {:induction false} FillStep(batches: seq<seq<Item>>, current: seq<Item>, done: seq<Item>, item: Item,
                                    budget: real)
    requires Filling(batches, current, done, budget)
    ensures current == [] || Allowed(current + [item], budget) ==>
              Filling(batches, current + [item], done + [item], budget)
    ensures current != [] && !Allowed(current + [item], budget) ==>
              Filling(batches + [current], [item], done + [item], budget)
  {
    ConcatAppend(batches, current);
    ConcatAppend(batches, current + [item]);
    ConcatAppend(batches + [current], [item]);
    assert Concat(batches) + (current + [item]) == done + [item];
    forall i | 0 <= i < |batches| && current != [] ensures Allowed(batches[i], budget) {
      assert (batches + [current])[i] == batches[i];
    }
    assert current != [] ==> Allowed((batches + [current])[|batches|], budget);
    EagerStep(batches, current, item, budget);
  }

  /** Taking the next item into the open batch, or closing that batch and opening one with the item. */
  lemma EagerStep(batches: seq<seq<Item>>, current: seq<Item>, item: Item, budget: real)
    requires if current == [] then batches == [] else Eager(batches + [current], budget)
    ensures Eager(batches + [current + [item]], budget)
    ensures current != [] && !Allowed(current + [item], budget) ==> Eager(batches + [current] + [[item]], budget)
  {
    var known, grown, next := batches + [current], batches + [current + [item]], batches + [current] + [[item]];
    forall i {:trigger grown[i]} | 0 < i < |grown|
      ensures grown[i] != [] && !Allowed(grown[i - 1] + [grown[i][0]], budget)
    {
      assert known[i] != [] && grown[i][0] == known[i][0] && known[i - 1] == grown[i - 1];
    }
    forall i {:trigger next[i]} | 0 < i < |next| && current != [] && !Allowed(current + [item], budget)
      ensures next[i] != [] && !Allowed(next[i - 1] + [next[i][0]], budget)
    {
      if i < |known| {
        assert known[i] == next[i] && known[i - 1] == next[i - 1];
      }
    }
  }

  /** The characters of the keys and texts of a batch. */
  function Characters(items: seq<Item>): nat {
    if items == [] then 0 else |items[0].key| + |items[0].text| + Characters(items[1..])
  }

  lemma {:induction false} CharactersAppend(items: seq<Item>, item: Item)
    ensures Characters(items + [item]) == Characters(items) + |item.key| + |item.text|
  {
    if items != [] {
      assert (items + [item])[1..] == items[1..] + [item];
      CharactersAppend(items[1..], item);
    } else {
      assert (items + [item])[1..] == [];
    }
  }

  /** The estimate of a batch is its characters, 8 more for each item and 2 for the batch; the loop charges 10 for each. */
  lemma {:induction false} EstimateIs(items: seq<Item>)
    ensures EstimateBatchChars(items) == 2 + Characters(items) + 8 * |items|
    ensures Charge(items) == 2 + Characters(items) + 10 * |items|
  {
    if items != [] {
      var front, last := items[..|items| - 1], items[|items| - 1];
      EstimateIs(front);
      assert items == front + [last];
      CharactersAppend(front, last);
      assert [last][..0] == [];
      assert EstimateBatchChars([last][..0]) == 2;
    }
  }

  /** The limits in numbers: up to 20 items, and several only within the budget. */
  lemma AllowedIff(batch: seq<Item>, budget: real)
    ensures Allowed(batch, budget) <==>
              1 <= |batch| <= 20 && (|batch| == 1 || (2 + Characters(batch) + 10 * |batch|) as real <= budget)
  {
    EstimateIs(batch);
  }

  /** The loop's test refuses an item exactly when the open batch would leave the limits with it. */
  lemma RefusedIff(current: seq<Item>, item: Item, budget: real)
    ensures Charge(current + [item]) == Charge(current) + EstimateBatchChars([item])
    ensures current != [] && !Allowed(current + [item], budget) <==>
              |current| > 0 && ((Charge(current) + EstimateBatchChars([item])) as real > budget || |current| >= MAX_BATCH_ITEMS)
  {
  }

  method BuildTranslationBatches(items: seq<Item>, budget: real) returns (batches: seq<seq<Item>>)
    ensures Splits(batches, items, budget)
    ensures Eager(batches, budget)
    ensures forall i :: 0 <= i < |batches| && |batches[i]| > 1 ==> EstimateBatchChars(batches[i]) as real < budget
    ensures forall split :: Splits(split, items, budget) ==> |batches| <= |split|
  {
    hide Splits, Eager, Concat, EstimateBatchChars, Charge, Allowed;
    batches := [];
    var current: seq<Item> := [];
    var currentChars := 2;
    Start(budget);
    for i := 0 to |items|
      invariant currentChars == Charge(current)
      invariant Filling(batches, current, items[..i], budget)
    {
      hide Filling;
      var item := items[i];
      var itemChars := EstimateBatchChars([item]);
      var wouldOverflow := |current| > 0 && (currentChars + itemChars) as real > budget;
      var reachedMaxItems := |current| >= MAX_BATCH_ITEMS;
      RefusedIff(current, item, budget);
      FillStep(batches, current, items[..i], item, budget);
      assert items[..i] + [item] == items[..i + 1];
      if wouldOverflow || reachedMaxItems {
        batches := batches + [current];
        current := [];
        currentChars := 2;
        ChargeEmpty();
        RefusedIff(current, item, budget);
        assert [] + [item] == [item];
      }
      current := current + [item];
      currentChars := currentChars + itemChars;
    }
    assert items[..|items|] == items;
    if |current| > 0 {
      batches := batches + [current];
    } else {
      EmptySplit(budget);
    }
    FewestBatches(batches, items, budget);
  }

  lemma ChargeEmpty()
    ensures Charge([]) == 2
  {
  }

  lemma Start(budget: real)
    ensures Filling([], [], [], budget) && Charge([]) == 2
  {
  }

  lemma EmptySplit(budget: real)
    ensures Splits([], [], budget) && Eager([], budget)
  {
  }

  /** An eager split within the limits has the fewest batches of all, and its longer batches fit the estimate. */
  lemma FewestBatches(batches: seq<seq<Item>>, items: seq<Item>, budget: real)
    requires Splits(batches, items, budget) && Eager(batches, budget)
    ensures forall split :: Splits(split, items, budget) ==> |batches| <= |split|
    ensures forall i :: 0 <= i < |batches| && |batches[i]| > 1 ==> EstimateBatchChars(batches[i]) as real < budget
  {
    forall split | Splits(split, items, budget) ensures |batches| <= |split| {
      assert items[0..] == items;
      EagerIsFewest(batches, split, 0, items, budget);
    }
    forall k | 0 <= k < |batches| && |batches[k]| > 1 ensures EstimateBatchChars(batches[k]) as real < budget {
      EstimateWithinBudget(batches[k], budget);
    }
  }
}
