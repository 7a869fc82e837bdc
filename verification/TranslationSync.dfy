/** Bringing one locale up to date with the source texts: what every key gets, and what a second run does. */
module TranslationSync {
  import opened Options
  import opened Properties
  import opened Sequences
  import opened JsText
  import opened TranslationTrees
  import opened TranslationBatches
  import opened BatchTranslator
  import TranslationRecords

  type Table = map<string, string>

  /** What does not change from run to run. The cache key of a text depends on its dotted key and the text's hash. */
  datatype Config = Config(
    allowTranslate: bool, provider: string, model: string,
    locale: string, workflow: string, sourceHash: string,
    cacheKey: (string, string) -> string, localeLe: (string, string) -> bool)

  datatype Meta = Meta(
    fallbackKeys: seq<string>, generatedAt: string, locale: string, model: string, provider: string,
    sourceHash: string, totalKeys: nat, translatedKeys: int, workflow: string)

  /** The generated files of a locale. The memory maps cache keys to translations. */
  datatype Locale = Locale(texts: Ordered<Tree>, meta: Option<Meta>, memory: Table)

  datatype SyncResult = Synced(next: Locale) | Failed(message: string)

  /** What a run reads about the keys. */
  datatype Known = Known(existing: Ordered<string>, previous: set<string>, memory: Table)

  ghost predicate TotalOrder(le: (string, string) -> bool) {
    TotalPreorder(le) && forall x, y :: le(x, y) && le(y, x) ==> x == y
  }

  /** Different dotted keys never share a cache key. */
  ghost predicate CacheKeysDiffer(c: Config) {
    forall key, text, key', text' :: c.cacheKey(key, text) == c.cacheKey(key', text') ==> key == key'
  }

  function PreviousFallbacks(meta: Option<Meta>): set<string> {
    if meta.Some? then Elements(meta.value.fallbackKeys) else {}
  }

  function KnownOf(from: Locale): Known {
    Known(Flatten(from.texts), PreviousFallbacks(from.meta), from.memory)
  }

  // ----- the decision for one key -----

  predicate Cached(c: Config, k: Known, p: Property<string>) {
    c.cacheKey(p.key, p.value) in k.memory
  }

  /** The key has to be translated, or falls back to its source text: nothing is known, or a fallback is to be refreshed. */
  predicate IsPending(c: Config, k: Known, p: Property<string>) {
    (c.allowTranslate && p.key in k.previous) || (!Cached(c, k, p) && !Has(k.existing, p.key))
  }

  function Reused(c: Config, k: Known, p: Property<string>): string
    requires !IsPending(c, k, p)
  {
    if Cached(c, k, p) then k.memory[c.cacheKey(p.key, p.value)] else Get(k.existing, p.key)
  }

  function Last<T>(s: seq<T>): T
    requires s != []
  {
    s[|s| - 1]
  }

  function Front<T>(s: seq<T>): seq<T>
    requires s != []
  {
    s[..|s| - 1]
  }

  function PendingItems(c: Config, k: Known, source: Ordered<string>): seq<Item>
    decreases |source|
  {
    if source == [] then []
    else
      var p := Last(source);
      PendingItems(c, k, Front(source)) + if IsPending(c, k, p) then [Item(p.key, p.value)] else []
  }

  /** The keys settled without a translation. */
  function Settled(c: Config, k: Known, source: Ordered<string>): Table
    decreases |source|
  {
    if source == [] then map[]
    else
      var p, before := Last(source), Settled(c, k, Front(source));
      if IsPending(c, k, p) then before else before[p.key := Reused(c, k, p)]
  }

  /** The settled keys that stay marked as fallbacks. */
  function KeptFallbacks(c: Config, k: Known, source: Ordered<string>): seq<string>
    decreases |source|
  {
    if source == [] then []
    else
      var p := Last(source);
      KeptFallbacks(c, k, Front(source)) + if !IsPending(c, k, p) && p.key in k.previous then [p.key] else []
  }

  /** The value of a key, given the answers for the pending ones. */
  function ValueOf(c: Config, k: Known, p: Property<string>, answers: Table): string {
    if !IsPending(c, k, p) then Reused(c, k, p)
    else if c.allowTranslate && p.key in answers then answers[p.key]
    else p.value
  }

  /** The key is reported as untranslated. */
  predicate FallsBack(c: Config, k: Known, p: Property<string>) {
    if IsPending(c, k, p) then !c.allowTranslate else p.key in k.previous
  }

  ghost function FallbackSet(c: Config, k: Known, source: Ordered<string>): set<string> {
    set i | 0 <= i < |source| && FallsBack(c, k, source[i]) :: source[i].key
  }

  function NextFlat(c: Config, k: Known, source: Ordered<string>, answers: Table): (r: Ordered<string>)
    ensures SameKeys(r, source)
  {
    seq(|source|, i requires 0 <= i < |source| => Property(source[i].key, ValueOf(c, k, source[i], answers)))
  }

  // ----- the whole result -----

  /** The list holds the keys of the set, each once, in order. */
  ghost predicate Lists(list: seq<string>, keys: set<string>, le: (string, string) -> bool) {
    Distinct(list) && SortedBy(list, le) && Elements(list) == keys
  }

  /** Exactly the answers are remembered, each under its key's cache key. */
  ghost predicate Remembers(c: Config, before: Table, after: Table, items: seq<Item>,
                            answers: Table)
  {
    && after.Keys == before.Keys + (set i | i in items :: c.cacheKey(i.key, i.text))
    && (forall i :: i in items ==> i.key in answers && after[c.cacheKey(i.key, i.text)] == answers[i.key])
    && (forall ck :: ck in before && (forall i :: i in items ==> c.cacheKey(i.key, i.text) != ck) ==> after[ck] == before[ck])
  }

  function NextProvider(c: Config, meta: Option<Meta>): (string, string) {
    if c.allowTranslate then (c.provider, c.model)
    else if meta.Some? then (meta.value.provider, meta.value.model) else ("", "")
  }

  function NextMeta(c: Config, meta: Option<Meta>, total: nat, fallbackKeys: seq<string>, now: string): Meta {
    var (provider, model) := NextProvider(c, meta);
    var next := Meta(fallbackKeys, now, c.locale, model, provider, c.sourceHash, total, total - |fallbackKeys|, c.workflow);
    if meta.Some? && meta.value == next.(generatedAt := meta.value.generatedAt) then meta.value else next
  }

  /** The files after a run that ends, given the answers it got for the pending keys. */
  ghost predicate SyncsTo(c: Config, source: Ordered<string>, from: Locale, answers: Table, now: string, next: Locale) {
    var k := KnownOf(from);
    var items := PendingItems(c, k, source);
    && (c.allowTranslate ==> answers.Keys == Keys(items))
    && next.texts == Rebuild(NextFlat(c, k, source, answers))
    && (exists list :: Lists(list, FallbackSet(c, k, source), c.localeLe)
                       && next.meta == Some(NextMeta(c, from.meta, |source|, list, now)))
    && (if c.allowTranslate then Remembers(c, from.memory, next.memory, items, answers) else next.memory == from.memory)
  }

  // ----- facts about one run -----

  lemma {:induction false} FlattenDistinct(entries: Ordered<Tree>, prefix: string, out: Ordered<string>)
    requires DistinctKeys(out)
    ensures DistinctKeys(FlattenInto(entries, prefix, out))
    decreases entries
  {
    hide DistinctKeys, FullKey, Put;
    if entries != [] {
      var Property(key, nested) := entries[0];
      match nested {
        case Text(text) =>
          PutDistinct(out, FullKey(prefix, key), text);
          FlattenDistinct(entries[1..], prefix, Put(out, FullKey(prefix, key), text));
        case Group(inner) =>
          FlattenDistinct(inner, FullKey(prefix, key), out);
          FlattenDistinct(entries[1..], prefix, FlattenInto(inner, FullKey(prefix, key), out));
      }
    }
  }


  lemma {:induction false} PendingAre(c: Config, k: Known, source: Ordered<string>)
    ensures forall item :: item in PendingItems(c, k, source) ==>
              exists i :: 0 <= i < |source| && IsPending(c, k, source[i]) && item == Item(source[i].key, source[i].value)
    ensures forall i :: 0 <= i < |source| && IsPending(c, k, source[i]) ==>
              Item(source[i].key, source[i].value) in PendingItems(c, k, source)
    decreases |source|
  {
    hide IsPending;
    if source != [] {
      PendingAre(c, k, Front(source));
      assert forall i :: 0 <= i < |source| - 1 ==> Front(source)[i] == source[i];
    }
  }

  lemma HeadIsElement(s: seq<string>)
    ensures s != [] ==> s[0] in Elements(s)
  {
  }

  lemma KeysDifferAt<V>(o: Ordered<V>, i: nat, j: nat)
    requires DistinctKeys(o) && i < |o| && j < |o|
    ensures i != j ==> o[i].key != o[j].key
  {
  }

  lemma {:induction false} NoneArePending(c: Config, k: Known, source: Ordered<string>)
    requires forall i :: 0 <= i < |source| ==> !IsPending(c, k, source[i])
    ensures PendingItems(c, k, source) == []
    decreases |source|
  {
    hide IsPending;
    if source != [] {
      NoneArePending(c, k, Front(source));
    }
  }

  lemma {:induction false} ListsUnique(a: seq<string>, b: seq<string>, keys: set<string>, le: (string, string) -> bool)
    requires TotalOrder(le) && Lists(a, keys, le) && Lists(b, keys, le)
    ensures a == b
    decreases |a|
  {
    if a == [] {
      HeadIsElement(b);
    } else {
      assert a[0] in keys;
      assert b != [];
      assert b[0] in keys;
      assert le(a[0], b[0]) && le(b[0], a[0]) by {
        var i :| 0 <= i < |a| && a[i] == b[0];
        var j :| 0 <= j < |b| && b[j] == a[0];
      }
      ListsTail(a, keys, le);
      ListsTail(b, keys, le);
      ListsUnique(a[1..], b[1..], keys - {a[0]}, le);
    }
  }

  lemma ListsTail(a: seq<string>, keys: set<string>, le: (string, string) -> bool)
    requires Lists(a, keys, le) && a != []
    ensures Lists(a[1..], keys - {a[0]}, le)
  {
  }

  /** A run with a provider that ends leaves no fallback keys. */
  lemma ProviderLeavesNoFallbacks(c: Config, source: Ordered<string>, from: Locale, answers: Table, now: string,
                                  next: Locale)
    requires c.allowTranslate && SyncsTo(c, source, from, answers, now, next)
    ensures next.meta.Some? && next.meta.value.fallbackKeys == [] && next.meta.value.translatedKeys == |source|
  {
    var list :| Lists(list, FallbackSet(c, KnownOf(from), source), c.localeLe)
                && next.meta == Some(NextMeta(c, from.meta, |source|, list, now));
    assert FallbackSet(c, KnownOf(from), source) == {};
    HeadIsElement(list);
  }

  /** Every source key, in source order, and no other, has a text after the run. */
  lemma EveryKeyHasText(c: Config, tree: Ordered<Tree>, from: Locale, answers: Table, now: string, next: Locale)
    requires WellNamed(tree) && SyncsTo(c, Flatten(tree), from, answers, now, next)
    ensures Flatten(next.texts) == NextFlat(c, KnownOf(from), Flatten(tree), answers)
    ensures SameKeys(Flatten(next.texts), Flatten(tree))
  {
    FlattenRebuilt(tree, NextFlat(c, KnownOf(from), Flatten(tree), answers));
  }

  // ----- a second run -----

  /** What the second run knows, when the first one ended in `next`. */
  ghost predicate Follows(c: Config, k: Known, k2: Known, source: Ordered<string>, answers: Table) {
    && DistinctKeys(source)
    && k2.existing == NextFlat(c, k, source, answers)
    && k2.previous == FallbackSet(c, k, source)
    && (c.allowTranslate ==> answers.Keys == Keys(PendingItems(c, k, source)))
    && (if c.allowTranslate then Remembers(c, k.memory, k2.memory, PendingItems(c, k, source), answers)
        else k2.memory == k.memory)
  }

  lemma NothingPending(c: Config, k: Known, k2: Known, source: Ordered<string>, answers: Table, i: nat)
    requires Follows(c, k, k2, source, answers) && i < |source|
    ensures !IsPending(c, k2, source[i])
    ensures Get(k2.existing, source[i].key) == ValueOf(c, k, source[i], answers)
  {
  }

  lemma AnswerRemembered(c: Config, k: Known, k2: Known, source: Ordered<string>, answers: Table, i: nat)
    requires Follows(c, k, k2, source, answers) && CacheKeysDiffer(c) && i < |source| && c.allowTranslate
    requires Cached(c, k2, source[i])
    ensures k2.memory[c.cacheKey(source[i].key, source[i].value)] == ValueOf(c, k, source[i], answers)
  {
    hide Get, Has;
    var items := PendingItems(c, k, source);
    var ck := c.cacheKey(source[i].key, source[i].value);
    PendingAre(c, k, source);
    if IsPending(c, k, source[i]) {
      assert Item(source[i].key, source[i].value) in items;
    } else {
      forall item | item in items ensures c.cacheKey(item.key, item.text) != ck {
        var j :| 0 <= j < |source| && IsPending(c, k, source[j]) && item == Item(source[j].key, source[j].value);
        KeysDifferAt(source, i, j);
      }
    }
  }

  lemma SameValue(c: Config, k: Known, k2: Known, source: Ordered<string>, answers: Table, answers2: Table, i: nat)
    requires Follows(c, k, k2, source, answers) && CacheKeysDiffer(c) && i < |source|
    ensures ValueOf(c, k2, source[i], answers2) == ValueOf(c, k, source[i], answers)
    ensures FallsBack(c, k2, source[i]) == FallsBack(c, k, source[i])
  {
    NothingPending(c, k, k2, source, answers, i);
    if c.allowTranslate && Cached(c, k2, source[i]) {
      AnswerRemembered(c, k, k2, source, answers, i);
    }
    hide Get, Has;
    forall j | 0 <= j < |source| && source[j].key == source[i].key ensures j == i {
      KeysDifferAt(source, i, j);
    }
  }

  lemma MetaSettles(c: Config, meta: Option<Meta>, total: nat, list: seq<string>, now: string, now2: string)
    ensures var next := NextMeta(c, meta, total, list, now); NextMeta(c, Some(next), total, list, now2) == next
  {
  }

  /** Syncing again, whatever the time, changes nothing, and nothing is left to translate. */
  lemma SecondRunChangesNothing(c: Config, tree: Ordered<Tree>, from: Locale, answers: Table, now: string, next: Locale,
                                answers2: Table, now2: string, next2: Locale)
    requires WellNamed(tree) && CacheKeysDiffer(c) && TotalOrder(c.localeLe)
    requires SyncsTo(c, Flatten(tree), from, answers, now, next)
    requires SyncsTo(c, Flatten(tree), next, answers2, now2, next2)
    ensures next2 == next
    ensures PendingItems(c, KnownOf(next), Flatten(tree)) == []
  {
    var source, k, k2 := Flatten(tree), KnownOf(from), KnownOf(next);
    EveryKeyHasText(c, tree, from, answers, now, next);
    FlattenDistinct(tree, "", []);
    hide Flatten, Rebuild, WellNamed;
    var list :| Lists(list, FallbackSet(c, k, source), c.localeLe)
                && next.meta == Some(NextMeta(c, from.meta, |source|, list, now));
    assert Follows(c, k, k2, source, answers);
    hide ValueOf, FallsBack, IsPending, Remembers, NextMeta;
    forall i | 0 <= i < |source|
      ensures ValueOf(c, k2, source[i], answers2) == ValueOf(c, k, source[i], answers)
      ensures FallsBack(c, k2, source[i]) == FallsBack(c, k, source[i]) && !IsPending(c, k2, source[i])
    {
      SameValue(c, k, k2, source, answers, answers2, i);
      NothingPending(c, k, k2, source, answers, i);
    }
    assert NextFlat(c, k2, source, answers2) == NextFlat(c, k, source, answers);
    assert FallbackSet(c, k2, source) == FallbackSet(c, k, source);
    var list2 :| Lists(list2, FallbackSet(c, k2, source), c.localeLe)
                 && next2.meta == Some(NextMeta(c, next.meta, |source|, list2, now2));
    ListsUnique(list, list2, FallbackSet(c, k, source), c.localeLe);
    MetaSettles(c, from.meta, |source|, list, now, now2);
    NoneArePending(c, k2, source);
    RemembersNothing(c, next.memory, next2.memory, PendingItems(c, k2, source), answers2);
  }

  lemma RemembersNothing(c: Config, before: Table, after: Table, items: seq<Item>, answers: Table)
    requires items == []
    ensures Remembers(c, before, after, items, answers) ==> after == before
  {
  }

  // ----- what a run brings, key by key -----

  /** A fallback of the previous run that is translated anew. */
  predicate Refreshed(c: Config, from: Locale, key: string) {
    c.allowTranslate && from.meta.Some? && key in from.meta.value.fallbackKeys
  }

  /** The key keeps what the memory or the locale file has for it. */
  predicate KnownBefore(c: Config, from: Locale, p: Property<string>) {
    !Refreshed(c, from, p.key) && (c.cacheKey(p.key, p.value) in from.memory || Has(Flatten(from.texts), p.key))
  }

  predicate HasText(l: Locale, key: string, text: string) {
    Has(Flatten(l.texts), key) && Get(Flatten(l.texts), key) == text
  }

  /** What becomes of one source key when the run sends the prompts from `lo` to `hi`: the remembered translation, or else
      the text the file had, or else what a prompt answered for this key, or without a provider the source text. */
  ghost predicate Brings(c: Config, from: Locale, next: Locale, p: Property<string>, oracle: Oracle, lo: nat, hi: nat) {
    var ck := c.cacheKey(p.key, p.value);
    if !Refreshed(c, from, p.key) && ck in from.memory then
      HasText(next, p.key, from.memory[ck]) && ck in next.memory && next.memory[ck] == from.memory[ck]
    else if !Refreshed(c, from, p.key) && Has(Flatten(from.texts), p.key) then
      HasText(next, p.key, Get(Flatten(from.texts), p.key)) && ck !in next.memory
    else if c.allowTranslate then
      && ck in next.memory && HasText(next, p.key, next.memory[ck]) && !IsBlank(next.memory[ck])
      && AnsweredWithin(oracle, lo, hi, p.key, next.memory[ck])
    else HasText(next, p.key, p.value) && ck !in next.memory
  }

  /** The answers are not blank and were given by prompts of the run. */
  ghost predicate AnswersOf(answers: Table, oracle: Oracle, lo: nat, hi: nat) {
    forall key :: key in answers ==> !IsBlank(answers[key]) && AnsweredWithin(oracle, lo, hi, key, answers[key])
  }

  lemma TextAt(flat: Ordered<string>, i: nat)
    requires DistinctKeys(flat) && i < |flat|
    ensures Has(flat, flat[i].key) && Get(flat, flat[i].key) == flat[i].value
  {
    var j :| 0 <= j < |flat| && flat[j] == Property(flat[i].key, Get(flat, flat[i].key));
    KeysDifferAt(flat, i, j);
  }

  /** The key is pending exactly when it is not known before. */
  lemma PendingIffUnknown(c: Config, from: Locale, p: Property<string>)
    ensures IsPending(c, KnownOf(from), p) <==> !KnownBefore(c, from, p)
  {
  }

  lemma RunBrings(c: Config, tree: Ordered<Tree>, from: Locale, answers: Table, now: string, next: Locale,
                  oracle: Oracle, lo: nat, hi: nat, i: nat)
    requires WellNamed(tree) && CacheKeysDiffer(c) && SyncsTo(c, Flatten(tree), from, answers, now, next)
    requires AnswersOf(answers, oracle, lo, hi) && i < |Flatten(tree)|
    ensures Brings(c, from, next, Flatten(tree)[i], oracle, lo, hi)
  {
    var source, k := Flatten(tree), KnownOf(from);
    var p, flat := source[i], NextFlat(c, k, source, answers);
    EveryKeyHasText(c, tree, from, answers, now, next);
    FlattenDistinct(tree, "", []);
    assert flat[i].key == p.key;
    TextAt(flat, i);
    PendingIffUnknown(c, from, p);
    MemoryOfKey(c, k, source, answers, next.memory, i);
    hide Flatten, Has, Get, IsBlank, AnsweredWithin, WellNamed, CacheKeysDiffer, IsPending, Rebuild;
  }

  lemma AllBrought(c: Config, tree: Ordered<Tree>, from: Locale, answers: Table, now: string, next: Locale,
                   oracle: Oracle, lo: nat, hi: nat)
    requires CacheKeysDiffer(c) && SyncsTo(c, Flatten(tree), from, answers, now, next) && AnswersOf(answers, oracle, lo, hi)
    ensures WellNamed(tree) ==> forall i :: 0 <= i < |Flatten(tree)| ==> Brings(c, from, next, Flatten(tree)[i], oracle, lo, hi)
  {
    hide Flatten, WellNamed, CacheKeysDiffer, SyncsTo, Brings, AnswersOf;
    if WellNamed(tree) {
      forall i | 0 <= i < |Flatten(tree)| ensures Brings(c, from, next, Flatten(tree)[i], oracle, lo, hi) {
        RunBrings(c, tree, from, answers, now, next, oracle, lo, hi, i);
      }
    }
  }

  lemma KnownNotPending(c: Config, from: Locale, source: Ordered<string>)
    ensures (forall i :: 0 <= i < |source| ==> KnownBefore(c, from, source[i])) ==> PendingItems(c, KnownOf(from), source) == []
  {
    hide KnownBefore, IsPending, PendingItems, KnownOf;
    if forall i :: 0 <= i < |source| ==> KnownBefore(c, from, source[i]) {
      forall i | 0 <= i < |source| ensures !IsPending(c, KnownOf(from), source[i]) {
        PendingIffUnknown(c, from, source[i]);
      }
      NoneArePending(c, KnownOf(from), source);
    }
  }

  /** What the memory holds for a source key after the run. */
  lemma MemoryOfKey(c: Config, k: Known, source: Ordered<string>, answers: Table, memory: Table, i: nat)
    requires CacheKeysDiffer(c) && DistinctKeys(source) && i < |source|
    requires c.allowTranslate ==> answers.Keys == Keys(PendingItems(c, k, source))
    requires if c.allowTranslate then Remembers(c, k.memory, memory, PendingItems(c, k, source), answers) else memory == k.memory
    ensures var p := source[i]; var ck := c.cacheKey(p.key, p.value);
            if c.allowTranslate && IsPending(c, k, p) then p.key in answers && ck in memory && memory[ck] == answers[p.key]
            else (ck in memory <==> ck in k.memory) && (ck in memory ==> memory[ck] == k.memory[ck])
  {
    var items := PendingItems(c, k, source);
    var ck := c.cacheKey(source[i].key, source[i].value);
    PendingAre(c, k, source);
    if IsPending(c, k, source[i]) {
      assert Item(source[i].key, source[i].value) in items;
    } else {
      forall item | item in items ensures c.cacheKey(item.key, item.text) != ck {
        var j :| 0 <= j < |source| && IsPending(c, k, source[j]) && item == Item(source[j].key, source[j].value);
        KeysDifferAt(source, i, j);
      }
    }
  }

  /** The memory keeps its other entries and gets none but for source keys. */
  lemma MemoryBeside(c: Config, source: Ordered<string>, from: Locale, answers: Table, now: string, next: Locale, ck: string)
    requires SyncsTo(c, source, from, answers, now, next)
    requires forall i :: 0 <= i < |source| ==> c.cacheKey(source[i].key, source[i].value) != ck
    ensures (ck in next.memory <==> ck in from.memory) && (ck in next.memory ==> next.memory[ck] == from.memory[ck])
  {
    PendingAre(c, KnownOf(from), source);
    hide IsPending, Rebuild, NextFlat, NextMeta, FallbackSet;
  }

  /** The metadata of a run: what it was configured with, or without a provider what the previous run was; the counts; in
      order, each once, the keys that have the source text or whose text was one before; and the time of the last run that
      changed any of it. */
  ghost predicate Reports(c: Config, source: Ordered<string>, from: Locale, now: string, meta: Meta) {
    && meta.locale == c.locale && meta.workflow == c.workflow && meta.sourceHash == c.sourceHash
    && meta.provider == (if c.allowTranslate then c.provider else if from.meta.Some? then from.meta.value.provider else "")
    && meta.model == (if c.allowTranslate then c.model else if from.meta.Some? then from.meta.value.model else "")
    && meta.totalKeys == |source| && meta.translatedKeys == |source| - |meta.fallbackKeys|
    && meta.generatedAt ==
         (if from.meta.Some? && meta == from.meta.value.(generatedAt := meta.generatedAt) then from.meta.value.generatedAt else now)
    && Distinct(meta.fallbackKeys) && SortedBy(meta.fallbackKeys, c.localeLe)
    && forall key :: key in meta.fallbackKeys <==>
         !c.allowTranslate && exists i :: 0 <= i < |source| && source[i].key == key && Fallback(c, from, source[i])
  }

  predicate Fallback(c: Config, from: Locale, p: Property<string>) {
    || (from.meta.Some? && p.key in from.meta.value.fallbackKeys)
    || (c.cacheKey(p.key, p.value) !in from.memory && !Has(Flatten(from.texts), p.key))
  }

  lemma RunReports(c: Config, source: Ordered<string>, from: Locale, answers: Table, now: string, next: Locale)
    requires SyncsTo(c, source, from, answers, now, next)
    ensures next.meta.Some? && Reports(c, source, from, now, next.meta.value)
  {
    var k := KnownOf(from);
    var list :| Lists(list, FallbackSet(c, k, source), c.localeLe) && next.meta == Some(NextMeta(c, from.meta, |source|, list, now));
    hide Rebuild, NextFlat, Remembers, Flatten, Has, PendingItems;
    forall key ensures key in list <==>
                 !c.allowTranslate && exists i :: 0 <= i < |source| && source[i].key == key && Fallback(c, from, source[i])
    {
      assert key in list <==> key in FallbackSet(c, k, source);
    }
    MetaReports(c, from.meta, |source|, list, now);
  }

  lemma MetaReports(c: Config, before: Option<Meta>, total: nat, list: seq<string>, now: string)
    ensures var meta := NextMeta(c, before, total, list, now);
            && meta.fallbackKeys == list && meta.locale == c.locale && meta.workflow == c.workflow
            && meta.sourceHash == c.sourceHash && meta.totalKeys == total && meta.translatedKeys == total - |list|
            && meta.provider == (if c.allowTranslate then c.provider else if before.Some? then before.value.provider else "")
            && meta.model == (if c.allowTranslate then c.model else if before.Some? then before.value.model else "")
            && meta.generatedAt ==
                 if before.Some? && meta == before.value.(generatedAt := meta.generatedAt) then before.value.generatedAt else now
  {
  }

  // ----- the run -----

  ghost predicate DistinctItems(items: seq<Item>) {
    forall i, j :: 0 <= i < j < |items| ==> items[i].key != items[j].key
  }

  lemma {:induction false} PendingDistinct(c: Config, k: Known, source: Ordered<string>)
    requires DistinctKeys(source)
    ensures DistinctItems(PendingItems(c, k, source))
    decreases |source|
  {
    hide IsPending;
    if source != [] {
      var before := PendingItems(c, k, Front(source));
      PendingDistinct(c, k, Front(source));
      PendingAre(c, k, Front(source));
      forall j | 0 <= j < |before| ensures before[j].key != Last(source).key {
        assert before[j] in before;
      }
    }
  }

  lemma {:induction false} SettledAre(c: Config, k: Known, source: Ordered<string>)
    requires DistinctKeys(source)
    ensures forall i :: 0 <= i < |source| ==>
              if IsPending(c, k, source[i]) then source[i].key !in Settled(c, k, source)
              else source[i].key in Settled(c, k, source) && Settled(c, k, source)[source[i].key] == Reused(c, k, source[i])
    ensures forall key :: key in Settled(c, k, source) ==> Has(source, key)
    decreases |source|
  {
    hide IsPending, Reused;
    if source != [] {
      var front := Front(source);
      SettledAre(c, k, front);
      forall key | key in Settled(c, k, front) ensures Has(source, key) && key != Last(source).key {
        var i :| 0 <= i < |front| && front[i].key == key;
        KeysDifferAt(source, i, |front|);
        assert source[i].key == key;
      }
      assert Has(source, Last(source).key);
      forall i | 0 <= i < |front| ensures front[i] == source[i] && source[i].key != Last(source).key {
        KeysDifferAt(source, i, |front|);
      }
    }
  }

  lemma {:induction false} KeptAre(c: Config, k: Known, source: Ordered<string>)
    requires DistinctKeys(source)
    ensures Distinct(KeptFallbacks(c, k, source))
    ensures forall key :: key in KeptFallbacks(c, k, source) <==>
              exists i :: 0 <= i < |source| && !IsPending(c, k, source[i]) && source[i].key in k.previous && source[i].key == key
    decreases |source|
  {
    hide IsPending;
    if source != [] {
      var front, kept := Front(source), KeptFallbacks(c, k, Front(source));
      KeptAre(c, k, front);
      forall i | 0 <= i < |front| ensures front[i] == source[i] && source[i].key != Last(source).key {
        KeysDifferAt(source, i, |front|);
      }
      assert Last(source).key !in kept;
    }
  }

  /** The first loop: keys that are cached or present are settled, the others are collected. */
  method DecideKeys(c: Config, k: Known, source: Ordered<string>)
    returns (nextFlat: Table, pending: seq<Item>, fallbackKeys: seq<string>)
    ensures nextFlat == Settled(c, k, source)
    ensures pending == PendingItems(c, k, source)
    ensures fallbackKeys == KeptFallbacks(c, k, source)
  {
    nextFlat, pending, fallbackKeys := map[], [], [];
    for i := 0 to |source|
      invariant nextFlat == Settled(c, k, source[..i])
      invariant pending == PendingItems(c, k, source[..i])
      invariant fallbackKeys == KeptFallbacks(c, k, source[..i])
    {
      var p := source[i];
      assert Front(source[..i + 1]) == source[..i] && Last(source[..i + 1]) == p;
      var segmentCacheKey := c.cacheKey(p.key, p.value);
      var shouldRefreshFallback := p.key in k.previous;
      if segmentCacheKey in k.memory && !(c.allowTranslate && shouldRefreshFallback) {
        nextFlat := nextFlat[p.key := k.memory[segmentCacheKey]];
        if shouldRefreshFallback {
          fallbackKeys := fallbackKeys + [p.key];
        }
        continue;
      }
      if Has(k.existing, p.key) && !(c.allowTranslate && shouldRefreshFallback) {
        nextFlat := nextFlat[p.key := Get(k.existing, p.key)];
        if shouldRefreshFallback {
          fallbackKeys := fallbackKeys + [p.key];
        }
        continue;
      }
      pending := pending + [Item(p.key, p.value)];
    }
    assert source[..|source|] == source;
  }


  /** One more answer is stored. */
  lemma RemembersStep(c: Config, before: Table, after: Table, items: seq<Item>,
                      answers: Table, item: Item, value: string)
    requires CacheKeysDiffer(c) && Remembers(c, before, after, items, answers)
    requires forall i :: i in items ==> i.key != item.key
    ensures Remembers(c, before, after[c.cacheKey(item.key, item.text) := value], items + [item], answers[item.key := value])
  {
  }

  lemma KeysGrow(items: seq<Item>, item: Item)
    ensures Keys(items + [item]) == Keys(items) + {item.key}
  {
  }

  /** How far the second loop has come: `done` items have their answers in the map and in the memory. */
  ghost predicate Stored(c: Config, flat0: Table, memory0: Table, done: seq<Item>,
                         answers: Table, flat: Table, memory: Table)
  {
    && answers.Keys == Keys(done)
    && flat == flat0 + answers
    && Remembers(c, memory0, memory, done, answers)
    && forall key :: key in answers ==> !IsBlank(answers[key])
  }

  lemma LaterWins(a: Table, b: Table, key: string, value: string)
    ensures (a + b)[key := value] == a + b[key := value]
  {
  }

  lemma StoredStep(c: Config, flat0: Table, memory0: Table, done: seq<Item>, answers: Table,
                   flat: Table, memory: Table, item: Item, value: string)
    requires CacheKeysDiffer(c) && Stored(c, flat0, memory0, done, answers, flat, memory)
    requires item.key !in Keys(done) && !IsBlank(value)
    ensures Stored(c, flat0, memory0, done + [item], answers[item.key := value],
                   flat[item.key := value], memory[c.cacheKey(item.key, item.text) := value])
  {
    hide IsBlank, Remembers;
    KeysGrow(done, item);
    forall i | i in done ensures i.key != item.key { assert i.key in Keys(done); }
    RemembersStep(c, memory0, memory, done, answers, item, value);
    hide Keys;
    LaterWins(flat0, answers, item.key, value);
  }

  lemma ConcatPrefix(batches: seq<seq<Item>>, b: nat)
    requires b < |batches|
    ensures Concat(batches[..b + 1]) == Concat(batches[..b]) + batches[b]
  {
    hide Concat;
    assert batches[..b + 1] == batches[..b] + [batches[b]];
    ConcatAppend(batches[..b], batches[b]);
  }

  lemma {:induction false} PrefixConcat(batches: seq<seq<Item>>, b: nat)
    requires b <= |batches|
    ensures Concat(batches[..b]) <= Concat(batches)
    decreases |batches|
  {
    if b < |batches| {
      var front, last := batches[..|batches| - 1], batches[|batches| - 1];
      assert batches == front + [last] && front[..b] == batches[..b];
      ConcatAppend(front, last);
      PrefixConcat(front, b);
      hide Concat;
      assert Concat(front) <= Concat(front) + last;
    } else {
      assert batches[..b] == batches;
    }
  }

  lemma ItemIsNew(pending: seq<Item>, done: seq<Item>, item: Item)
    requires DistinctItems(pending) && done + [item] <= pending
    ensures item.key !in Keys(done)
  {
    assert pending[|done|] == item;
    forall i | i in done ensures i.key != item.key {
      var j :| 0 <= j < |done| && done[j] == i;
      assert pending[j] == i;
    }
  }

  /** A blank answer is never stored; this is a value the loop takes. */
  lemma NotBlankNotEmpty(value: string)
    requires !IsBlank(value)
    ensures value != ""
  {
  }

  /** The inner loop: the answers of one batch go into the map and the memory. */
  method StoreBatch(c: Config, batch: seq<Item>, values: Table, flatIn: Table, memoryIn: Table)
    returns (flat: Table, memory: Table)
    requires CacheKeysDiffer(c) && DistinctItems(batch)
    requires values.Keys == Keys(batch) && forall key :: key in values ==> !IsBlank(values[key])
    ensures Stored(c, flatIn, memoryIn, batch, values, flat, memory)
  {
    hide Stored, IsBlank;
    flat, memory := flatIn, memoryIn;
    ghost var answers: Table := map[];
    StoredNothing(c, flatIn, memoryIn);
    for i := 0 to |batch|
      invariant Stored(c, flatIn, memoryIn, batch[..i], answers, flat, memory)
      invariant forall key :: key in answers ==> key in values && answers[key] == values[key]
    {
      var item := batch[i];
      assert batch[..i + 1] == batch[..i] + [item];
      assert item in batch && item.key in values;
      ItemIsNew(batch, batch[..i], item);
      NotBlankNotEmpty(values[item.key]);
      var value := if item.key in values then values[item.key] else "";
      if value == "" {
        continue;
      }
      StoredStep(c, flatIn, memoryIn, batch[..i], answers, flat, memory, item, value);
      flat := flat[item.key := value];
      memory := memory[c.cacheKey(item.key, item.text) := value];
      answers := answers[item.key := value];
    }
    assert batch[..|batch|] == batch;
    StoredKeys(c, flatIn, memoryIn, batch, answers, flat, memory);
    assert answers == values;
  }

  lemma StoredKeys(c: Config, flat0: Table, memory0: Table, done: seq<Item>,
                   answers: Table, flat: Table, memory: Table)
    requires Stored(c, flat0, memory0, done, answers, flat, memory)
    ensures answers.Keys == Keys(done)
  {
  }

  /** Two batches stored one after the other are stored together. */
  lemma StoredTwice(c: Config, flat0: Table, memory0: Table, done: seq<Item>, answers: Table,
                    flat1: Table, memory1: Table, batch: seq<Item>, values: Table,
                    flat: Table, memory: Table)
    requires CacheKeysDiffer(c) && DistinctItems(done + batch)
    requires Stored(c, flat0, memory0, done, answers, flat1, memory1)
    requires Stored(c, flat1, memory1, batch, values, flat, memory)
    ensures Stored(c, flat0, memory0, done + batch, answers + values, flat, memory)
  {
    hide IsBlank, Remembers, Keys;
    PartsApart(c, done, batch);
    KeysAppend(c, done, batch);
    assert flat0 + answers + values == flat0 + (answers + values);
    RemembersTwice(c, memory0, memory1, memory, done, answers, batch, values);
  }

  lemma PartsApart(c: Config, a: seq<Item>, b: seq<Item>)
    requires CacheKeysDiffer(c) && DistinctItems(a + b)
    ensures forall i, j :: i in a && j in b ==> i.key != j.key && c.cacheKey(i.key, i.text) != c.cacheKey(j.key, j.text)
  {
    forall i, j | i in a && j in b ensures i.key != j.key {
      var m :| 0 <= m < |a| && a[m] == i;
      var n :| 0 <= n < |b| && b[n] == j;
      assert (a + b)[m] == i && (a + b)[|a| + n] == j;
    }
  }

  lemma KeysAppend(c: Config, a: seq<Item>, b: seq<Item>)
    ensures Keys(a + b) == Keys(a) + Keys(b)
    ensures (set i | i in a + b :: c.cacheKey(i.key, i.text)) ==
            (set i | i in a :: c.cacheKey(i.key, i.text)) + (set i | i in b :: c.cacheKey(i.key, i.text))
  {
    assert forall i :: i in a + b <==> i in a || i in b;
  }

  lemma RemembersTwice(c: Config, before: Table, between: Table, after: Table,
                       a: seq<Item>, answers: Table, b: seq<Item>, values: Table)
    requires Remembers(c, before, between, a, answers) && Remembers(c, between, after, b, values)
    requires values.Keys == Keys(b)
    requires forall i, j :: i in a && j in b ==> i.key != j.key && c.cacheKey(i.key, i.text) != c.cacheKey(j.key, j.text)
    ensures Remembers(c, before, after, a + b, answers + values)
  {
    KeysAppend(c, a, b);
    forall i | i in a + b ensures i.key in answers + values && after[c.cacheKey(i.key, i.text)] == (answers + values)[i.key] {
      if i in a {
        assert i.key !in Keys(b);
      }
    }
  }

  /** The second loop: the pending keys are translated batch by batch. */
  method TranslatePending(c: Config, client: Prompter, pending: seq<Item>, budget: real,
                          flat0: Table, memory0: Table)
    returns (failure: Option<string>, flat: Table, memory: Table, ghost answers: Table)
    requires CacheKeysDiffer(c) && DistinctItems(pending)
    modifies client
    ensures failure.None? ==> Stored(c, flat0, memory0, pending, answers, flat, memory)
    ensures AnswersOf(answers, client.oracle, old(client.prompts), client.prompts)
    ensures AsksInBatches(client.oracle, old(client.prompts), pending, budget,
                          Step(if failure.Some? then Thrown(failure.value) else Done(answers), client.prompts))
    ensures failure.Some? ==> FailsOn(client.oracle, old(client.prompts), client.prompts, pending, failure.value)
    ensures client.prompts <= old(client.prompts) + 4 * |pending|
    ensures pending == [] ==> client.prompts == old(client.prompts)
  {
    hide Stored, IsBlank, Keys, AnswersOf, Translated, FailsOnPart, Translate, TranslateAll,
         FailsOn;
    NoAnswers(client.oracle, client.prompts, client.prompts);
    var batches := BuildTranslationBatches(pending, budget);
    flat, memory, answers := flat0, memory0, map[];
    StoredNothing(c, flat0, memory0);
    NoBatches(client.oracle, client.prompts);
    assert batches[..0] == [];
    for b := 0 to |batches|
      invariant TranslateAll(client.oracle, old(client.prompts), batches[..b]) == Step(Done(answers), client.prompts)
      invariant Stored(c, flat0, memory0, Concat(batches[..b]), answers, flat, memory)
      invariant AnswersOf(answers, client.oracle, old(client.prompts), client.prompts)
      invariant old(client.prompts) <= client.prompts <= old(client.prompts) + 4 * |Concat(batches[..b])|
      invariant pending == [] ==> client.prompts == old(client.prompts)
    {
      ghost var done := Concat(batches[..b]);
      ConcatPrefix(batches, b);
      PrefixConcat(batches, b + 1);
      DistinctParts(pending, done, batches[b]);
      assert Allowed(batches[b], budget);
      ghost var sent := client.prompts;
      var result := client.TranslateBatch(batches[b]);
      PromptsBounded(client.oracle, sent, batches[b], 0);
      TranslateNext(client.oracle, old(client.prompts), batches, b, answers, sent);
      MoreAnswers(answers, result, batches[b], client.oracle, old(client.prompts), sent, client.prompts);
      if result.Thrown? {
        ThrownStays(client.oracle, old(client.prompts), batches, b + 1);
        BatchFails(pending, done, batches[b], client.oracle, old(client.prompts), sent, Step(result, client.prompts));
        return Some(result.message), flat, memory, answers;
      }
      ghost var flat1, memory1 := flat, memory;
      flat, memory := StoreBatch(c, batches[b], result.values, flat, memory);
      StoredTwice(c, flat0, memory0, done, answers, flat1, memory1, batches[b], result.values, flat, memory);
      answers := answers + result.values;
    }
    assert batches[..|batches|] == batches;
    failure := None;
  }

  /** The prompts are those of the fewest batches within the limits that the items, in their order, can be cut into, each
      batch taking as many items as it can. */
  ghost predicate AsksInBatches(oracle: Oracle, at: nat, items: seq<Item>, budget: real, step: Step) {
    exists batches :: Splits(batches, items, budget) && Eager(batches, budget) && TranslateAll(oracle, at, batches) == step
  }

  lemma NoBatches(oracle: Oracle, at: nat)
    ensures TranslateAll(oracle, at, []) == Step(Done(map[]), at)
  {
  }

  /** Some of the items gave up with this error: as one that timed out, or by failing twice running. */
  ghost predicate FailsOn(oracle: Oracle, lo: nat, hi: nat, items: seq<Item>, message: string) {
    exists part: seq<Item> :: (forall item :: item in part ==> item in items) && GivesUp(oracle, lo, hi, part, message)
  }

  lemma BatchFails(pending: seq<Item>, done: seq<Item>, batch: seq<Item>, oracle: Oracle, lo: nat, mid: nat, step: Step)
    requires lo <= mid && done + batch <= pending && step.result.Thrown? && FailsOnPart(oracle, mid, step, batch)
    ensures FailsOn(oracle, lo, step.next, pending, step.result.message)
  {
    var l: nat, h: nat, part: seq<Item> :| Stretch(batch, l, h, part) && GivesUp(oracle, mid, step.next, part, step.result.message);
    hide Attempt, IsPromptTimeout;
    assert GivesUp(oracle, lo, step.next, part, step.result.message);
    forall item | item in part ensures item in pending {
      assert item in batch;
      assert item in done + batch;
    }
  }

  lemma NoAnswers(oracle: Oracle, lo: nat, hi: nat)
    ensures AnswersOf(map[], oracle, lo, hi)
  {
  }

  /** The prompts of one more batch. */
  lemma MoreAnswers(answers: Table, result: Result, batch: seq<Item>, oracle: Oracle, lo: nat, mid: nat, hi: nat)
    requires lo <= mid <= hi && AnswersOf(answers, oracle, lo, mid) && Translated(oracle, mid, Step(result, hi), batch)
    ensures AnswersOf(answers, oracle, lo, hi)
    ensures result.Done? ==> AnswersOf(answers + result.values, oracle, lo, hi)
    ensures result.Done? ==>
              result.values.Keys == Keys(batch) && forall key :: key in result.values ==> !IsBlank(result.values[key])
  {
  }

  lemma DistinctParts(pending: seq<Item>, a: seq<Item>, b: seq<Item>)
    requires DistinctItems(pending) && a + b <= pending
    ensures DistinctItems(a + b) && DistinctItems(b)
  {
    forall i, j | 0 <= i < j < |b| ensures b[i].key != b[j].key {
      assert b[i] == pending[|a| + i] && b[j] == pending[|a| + j];
    }
  }

  lemma StoredNothing(c: Config, flat0: Table, memory0: Table)
    ensures Stored(c, flat0, memory0, [], map[], flat0, memory0) && Concat([]) == []
  {
  }

  // ----- keys without a translation -----

  function KeysInOrder(items: seq<Item>): (r: seq<string>)
    ensures |r| == |items| && forall i :: 0 <= i < |items| ==> r[i] == items[i].key
  {
    seq(|items|, i requires 0 <= i < |items| => items[i].key)
  }

  function Texts(items: seq<Item>): Table
    decreases |items|
  {
    if items == [] then map[] else Texts(Front(items))[Last(items).key := Last(items).text]
  }

  datatype Filled = Filled(flat: Table, fallbackKeys: seq<string>)

  /** One round of the third loop. */
  function FillOne(k: Known, force: bool, item: Item, so: Filled): Filled {
    if item.key in so.flat then so
    else if Has(k.existing, item.key) && !force then
      Filled(so.flat[item.key := Get(k.existing, item.key)],
             if item.key in k.previous then so.fallbackKeys + [item.key] else so.fallbackKeys)
    else Filled(so.flat[item.key := item.text], so.fallbackKeys + [item.key])
  }

  function FillAll(k: Known, force: bool, items: seq<Item>, so: Filled): Filled
    decreases |items|
  {
    if items == [] then so else FillOne(k, force, Last(items), FillAll(k, force, Front(items), so))
  }

  method FillFallbacks(k: Known, force: bool, pending: seq<Item>, flatIn: Table, fallbackIn: seq<string>)
    returns (flat: Table, fallbackKeys: seq<string>)
    ensures Filled(flat, fallbackKeys) == FillAll(k, force, pending, Filled(flatIn, fallbackIn))
  {
    flat, fallbackKeys := flatIn, fallbackIn;
    for n := 0 to |pending|
      invariant Filled(flat, fallbackKeys) == FillAll(k, force, pending[..n], Filled(flatIn, fallbackIn))
    {
      var item := pending[n];
      assert Front(pending[..n + 1]) == pending[..n] && Last(pending[..n + 1]) == item;
      if item.key in flat {
        continue;
      }
      if Has(k.existing, item.key) && !force {
        flat := flat[item.key := Get(k.existing, item.key)];
        if item.key in k.previous {
          fallbackKeys := fallbackKeys + [item.key];
        }
        continue;
      }
      flat := flat[item.key := item.text];
      fallbackKeys := fallbackKeys + [item.key];
    }
    assert pending[..|pending|] == pending;
  }

  /** After the translations nothing is left to fill in. */
  lemma {:induction false} NothingToFill(k: Known, force: bool, items: seq<Item>, so: Filled)
    requires forall i :: 0 <= i < |items| ==> items[i].key in so.flat
    ensures FillAll(k, force, items, so) == so
    decreases |items|
  {
    if items != [] {
      NothingToFill(k, force, Front(items), so);
    }
  }

  /** Without a provider every pending key takes its source text. Being forced makes no difference: no such key has an
      existing text to keep. */
  lemma {:induction false} AllFallBack(k: Known, force: bool, items: seq<Item>, so: Filled)
    requires DistinctItems(items)
    requires forall i :: 0 <= i < |items| ==> items[i].key !in so.flat && !Has(k.existing, items[i].key)
    ensures FillAll(k, force, items, so) == Filled(so.flat + Texts(items), so.fallbackKeys + KeysInOrder(items))
    decreases |items|
  {
    hide Has, Get;
    if items != [] {
      AllFallBack(k, force, Front(items), so);
      assert Last(items).key == items[|items| - 1].key;
      hide Texts, KeysInOrder, DistinctItems, FillAll;
      TextsGrow(items, |items| - 1, so.flat, so.fallbackKeys);
      assert items[..|items|] == items;
      assert FillAll(k, force, items, so) == FillOne(k, force, Last(items), FillAll(k, force, Front(items), so)) by {
        FillAllLast(k, force, items, so);
      }
    } else {
      assert so.flat + Texts(items) == so.flat;
    }
  }

  lemma FillAllLast(k: Known, force: bool, items: seq<Item>, so: Filled)
    requires items != []
    ensures FillAll(k, force, items, so) == FillOne(k, force, Last(items), FillAll(k, force, Front(items), so))
  {
  }

  lemma TextsGrow(pending: seq<Item>, n: nat, flat: Table, list: seq<string>)
    requires DistinctItems(pending) && n < |pending|
    ensures pending[n].key !in flat ==> pending[n].key !in flat + Texts(pending[..n])
    ensures flat + Texts(pending[..n + 1]) == (flat + Texts(pending[..n]))[pending[n].key := pending[n].text]
    ensures list + KeysInOrder(pending[..n + 1]) == list + KeysInOrder(pending[..n]) + [pending[n].key]
  {
    var item, before, after := pending[n], pending[..n], pending[..n + 1];
    assert Front(after) == before && Last(after) == item;
    assert KeysInOrder(after) == KeysInOrder(before) + [item.key];
    TextsAre(before);
    LaterWins(flat, Texts(before), item.key, item.text);
  }

  lemma {:induction false} TextsAre(items: seq<Item>)
    requires DistinctItems(items)
    ensures forall i :: 0 <= i < |items| ==> items[i].key in Texts(items) && Texts(items)[items[i].key] == items[i].text
    ensures forall key :: key in Texts(items) ==> key in KeysInOrder(items)
    decreases |items|
  {
    if items != [] {
      TextsAre(Front(items));
      assert KeysInOrder(items) == KeysInOrder(Front(items)) + [Last(items).key];
    }
  }

  /** [...new Set(list)]: first occurrences only. */
  function Unique(list: seq<string>): seq<string>
    decreases |list|
  {
    if list == [] then []
    else Unique(Front(list)) + if Last(list) in Front(list) then [] else [Last(list)]
  }

  lemma {:induction false} UniqueOfDistinct(list: seq<string>)
    requires Distinct(list)
    ensures Unique(list) == list
    decreases |list|
  {
    if list != [] {
      UniqueOfDistinct(Front(list));
    }
  }

  lemma SortedLists(list: seq<string>, keys: set<string>, le: (string, string) -> bool)
    requires Distinct(list) && Elements(list) == keys && TotalPreorder(le)
    ensures Lists(ToSorted(Unique(list), le), keys, le)
  {
    UniqueOfDistinct(list);
    ToSortedSorted(list, le);
    SameElements(list, ToSorted(list, le));
  }

  // ----- putting the loops together -----

  /** The map and the list the three loops end with. */
  ghost predicate Finished(c: Config, k: Known, source: Ordered<string>, answers: Table,
                           flat: Table, fallbackKeys: seq<string>)
  {
    && (forall i :: 0 <= i < |source| ==> source[i].key in flat && flat[source[i].key] == ValueOf(c, k, source[i], answers))
    && Distinct(fallbackKeys) && Elements(fallbackKeys) == FallbackSet(c, k, source)
  }

  lemma PendingOrNot(c: Config, k: Known, source: Ordered<string>, i: nat)
    requires DistinctKeys(source) && i < |source|
    ensures IsPending(c, k, source[i]) <==> source[i].key in KeysInOrder(PendingItems(c, k, source))
    ensures IsPending(c, k, source[i]) <==> source[i].key in Keys(PendingItems(c, k, source))
  {
    hide IsPending;
    var items := PendingItems(c, k, source);
    PendingAre(c, k, source);
    if IsPending(c, k, source[i]) {
      var n :| 0 <= n < |items| && items[n] == Item(source[i].key, source[i].value);
      assert KeysInOrder(items)[n] == source[i].key;
    } else {
      forall item | item in items ensures item.key != source[i].key {
        var j :| 0 <= j < |source| && IsPending(c, k, source[j]) && item == Item(source[j].key, source[j].value);
        KeysDifferAt(source, i, j);
      }
    }
  }

  lemma FinishedTranslating(c: Config, k: Known, source: Ordered<string>, answers: Table)
    requires DistinctKeys(source) && c.allowTranslate && answers.Keys == Keys(PendingItems(c, k, source))
    ensures Finished(c, k, source, answers, Settled(c, k, source) + answers, KeptFallbacks(c, k, source))
  {
    hide IsPending, Reused;
    SettledAre(c, k, source);
    KeptAre(c, k, source);
    forall i | 0 <= i < |source|
      ensures IsPending(c, k, source[i]) <==> source[i].key in answers
    {
      PendingOrNot(c, k, source, i);
    }
  }

  lemma FinishedFalling(c: Config, k: Known, source: Ordered<string>)
    requires DistinctKeys(source) && !c.allowTranslate
    ensures var items := PendingItems(c, k, source);
            Finished(c, k, source, map[], Settled(c, k, source) + Texts(items), KeptFallbacks(c, k, source) + KeysInOrder(items))
  {
    var items := PendingItems(c, k, source);
    SettledAre(c, k, source);
    KeptAre(c, k, source);
    PendingDistinct(c, k, source);
    PendingAre(c, k, source);
    TextsAre(items);
    hide IsPending, Reused, Settled, KeptFallbacks, Texts, PendingItems;
    forall i | 0 <= i < |source|
      ensures IsPending(c, k, source[i]) <==> source[i].key in KeysInOrder(items)
      ensures IsPending(c, k, source[i]) ==> source[i].key in Texts(items) && Texts(items)[source[i].key] == source[i].value
    {
      PendingOrNot(c, k, source, i);
      if IsPending(c, k, source[i]) {
        var n :| 0 <= n < |items| && items[n] == Item(source[i].key, source[i].value);
      }
    }
    FallingLists(c, k, source, items);
  }

  lemma DistinctBoth(a: seq<string>, b: seq<string>)
    requires Distinct(a) && Distinct(b) && forall x :: x in b ==> x !in a
    ensures Distinct(a + b)
  {
    var all := a + b;
    forall i, j | 0 <= i < j < |all| ensures all[i] != all[j] {
      assert |a| <= j ==> all[j] in b;
      assert i < |a| ==> all[i] in a;
    }
  }

  lemma FallingLists(c: Config, k: Known, source: Ordered<string>, items: seq<Item>)
    requires DistinctKeys(source) && !c.allowTranslate && items == PendingItems(c, k, source)
    ensures Distinct(KeptFallbacks(c, k, source) + KeysInOrder(items))
    ensures Elements(KeptFallbacks(c, k, source) + KeysInOrder(items)) == FallbackSet(c, k, source)
  {
    var kept, keys := KeptFallbacks(c, k, source), KeysInOrder(items);
    KeptAre(c, k, source);
    PendingDistinct(c, k, source);
    PendingAre(c, k, source);
    hide IsPending, KeptFallbacks, PendingItems;
    forall key | key in keys ensures key !in kept && key in FallbackSet(c, k, source) {
      var n :| 0 <= n < |keys| && keys[n] == key;
      assert items[n] in items;
      var j :| 0 <= j < |source| && IsPending(c, k, source[j]) && items[n] == Item(source[j].key, source[j].value);
      forall i | 0 <= i < |source| && source[i].key == key ensures i == j { KeysDifferAt(source, i, j); }
    }
    assert Distinct(keys);
    DistinctBoth(kept, keys);
    forall key | key in FallbackSet(c, k, source) ensures key in kept + keys {
      var i :| 0 <= i < |source| && FallsBack(c, k, source[i]) && source[i].key == key;
      PendingOrNot(c, k, source, i);
    }
  }

  lemma TranslatedFinishes(c: Config, k: Known, source: Ordered<string>, force: bool, answers: Table,
                           flat: Table, memory: Table)
    requires DistinctKeys(source) && c.allowTranslate
    requires Stored(c, Settled(c, k, source), k.memory, PendingItems(c, k, source), answers, flat, memory)
    ensures var f := FillAll(k, force, PendingItems(c, k, source), Filled(flat, KeptFallbacks(c, k, source)));
            Finished(c, k, source, answers, f.flat, f.fallbackKeys)
    ensures Remembers(c, k.memory, memory, PendingItems(c, k, source), answers)
    ensures answers.Keys == Keys(PendingItems(c, k, source))
  {
    hide Remembers, Finished, IsBlank, PendingItems, KeptFallbacks, Settled;
    var items := PendingItems(c, k, source);
    FinishedTranslating(c, k, source, answers);
    forall i | 0 <= i < |items| ensures items[i].key in flat { assert items[i] in items; }
    NothingToFill(k, force, items, Filled(flat, KeptFallbacks(c, k, source)));
  }

  lemma FallingFinishes(c: Config, k: Known, source: Ordered<string>, force: bool)
    requires DistinctKeys(source) && !c.allowTranslate
    ensures var f := FillAll(k, force, PendingItems(c, k, source), Filled(Settled(c, k, source), KeptFallbacks(c, k, source)));
            Finished(c, k, source, map[], f.flat, f.fallbackKeys)
  {
    var items := PendingItems(c, k, source);
    PendingDistinct(c, k, source);
    PendingAre(c, k, source);
    SettledAre(c, k, source);
    FinishedFalling(c, k, source);
    hide Finished, Reused, PendingItems, KeptFallbacks, Settled, Has, Get;
    forall n | 0 <= n < |items| ensures items[n].key !in Settled(c, k, source) && !Has(k.existing, items[n].key) {
      assert items[n] in items;
      var i :| 0 <= i < |source| && IsPending(c, k, source[i]) && items[n] == Item(source[i].key, source[i].value);
    }
    AllFallBack(k, force, items, Filled(Settled(c, k, source), KeptFallbacks(c, k, source)));
  }

  /** The texts the locale file is built from: a key the loops left out would take its source text. */
  function FileTexts(source: Ordered<string>, flat: Table): Ordered<string> {
    seq(|source|, i requires 0 <= i < |source| =>
      Property(source[i].key, if source[i].key in flat then flat[source[i].key] else source[i].value))
  }

  /** The map of the locale file, written key by key. */
  method BuildTexts(source: Ordered<string>, flat: Table) returns (texts: Ordered<Tree>)
    ensures texts == Rebuild(FileTexts(source, flat))
  {
    hide SetNested;
    var root := new TranslationRecords.Record();
    ghost var next := FileTexts(source, flat);
    for i := 0 to |source|
      invariant root.Valid() && fresh(root.repr)
      invariant RebuildInto(root.View(), next[i..]) == Rebuild(next)
    {
      assert next[i..][0] == next[i] && next[i..][1..] == next[i + 1..];
      root.SetNestedValue(source[i].key, if source[i].key in flat then flat[source[i].key] else source[i].value);
    }
    texts := root.Entries();
  }

  /** The files that follow from the end of the loops. */
  lemma FinishedSyncs(c: Config, source: Ordered<string>, from: Locale, answers: Table, now: string,
                      flat: Table, fallbackKeys: seq<string>, memory: Table)
    requires TotalOrder(c.localeLe) && Finished(c, KnownOf(from), source, answers, flat, fallbackKeys)
    requires c.allowTranslate ==> answers.Keys == Keys(PendingItems(c, KnownOf(from), source))
    requires if c.allowTranslate then Remembers(c, from.memory, memory, PendingItems(c, KnownOf(from), source), answers)
             else memory == from.memory
    ensures var meta := NextMeta(c, from.meta, |source|, ToSorted(Unique(fallbackKeys), c.localeLe), now);
            SyncsTo(c, source, from, answers, now, Locale(Rebuild(FileTexts(source, flat)), Some(meta), memory))
  {
    hide ValueOf, FallbackSet, KnownOf, Remembers, NextMeta;
    var k := KnownOf(from);
    SortedLists(fallbackKeys, FallbackSet(c, k, source), c.localeLe);
    assert FileTexts(source, flat) == NextFlat(c, k, source, answers);
  }

  method SyncLocale(c: Config, tree: Ordered<Tree>, from: Locale, force: bool, now: string, budget: real,
                    client: Prompter)
    returns (r: SyncResult, ghost answers: Table)
    requires CacheKeysDiffer(c) && TotalOrder(c.localeLe)
    modifies client
    ensures r.Synced? ==> SyncsTo(c, Flatten(tree), from, answers, now, r.next)
    ensures r.Synced? ==> AnswersOf(answers, client.oracle, old(client.prompts), client.prompts)
    ensures r.Synced? && WellNamed(tree) ==> forall i :: 0 <= i < |Flatten(tree)| ==>
              Brings(c, from, r.next, Flatten(tree)[i], client.oracle, old(client.prompts), client.prompts)
    ensures var items := PendingItems(c, KnownOf(from), Flatten(tree));
            c.allowTranslate && items != [] ==>
              AsksInBatches(client.oracle, old(client.prompts), items, budget,
                            Step(if r.Failed? then Thrown(r.message) else Done(answers), client.prompts))
    ensures r.Failed? ==> c.allowTranslate
                          && FailsOn(client.oracle, old(client.prompts), client.prompts,
                                     PendingItems(c, KnownOf(from), Flatten(tree)), r.message)
    ensures r.Synced? ==> r.next.meta.Some? && Reports(c, Flatten(tree), from, now, r.next.meta.value)
    ensures (forall i :: 0 <= i < |Flatten(tree)| ==> KnownBefore(c, from, Flatten(tree)[i])) ==>
              client.prompts == old(client.prompts) && r.Synced?
    ensures var items := PendingItems(c, KnownOf(from), Flatten(tree));
            && client.prompts <= old(client.prompts) + 4 * |items|
            && (!c.allowTranslate || items == [] ==> client.prompts == old(client.prompts) && r.Synced?)
  {
    hide IsBlank, Finished, SyncsTo, NextMeta, FillAll, PendingItems, Settled, KeptFallbacks, Remembers, AnswersOf, Brings,
         Reports, KnownBefore, WellNamed, FailsOn, AsksInBatches;
    NoAnswers(client.oracle, client.prompts, client.prompts);
    KnownNotPending(c, from, Flatten(tree));
    var source, k := Flatten(tree), KnownOf(from);
    assert k.memory == from.memory;
    FlattenDistinct(tree, "", []);
    hide Flatten, KnownOf, DistinctKeys;
    var nextFlat, pending, fallbackKeys := DecideKeys(c, k, source);
    PendingDistinct(c, k, source);
    var memory := from.memory;
    answers := map[];
    StoredNothing(c, nextFlat, memory);
    if c.allowTranslate && |pending| > 0 {
      var failure;
      failure, nextFlat, memory, answers := TranslatePending(c, client, pending, budget, nextFlat, memory);
      if failure.Some? {
        return Failed(failure.value), answers;
      }
    }
    if c.allowTranslate {
      TranslatedFinishes(c, k, source, force, answers, nextFlat, memory);
    } else {
      FallingFinishes(c, k, source, force);
    }
    nextFlat, fallbackKeys := FillFallbacks(k, force, pending, nextFlat, fallbackKeys);
    FinishedSyncs(c, source, from, answers, now, nextFlat, fallbackKeys, memory);
    var texts := BuildTexts(source, nextFlat);
    var sorted := ToSorted(Unique(fallbackKeys), c.localeLe);
    r := Synced(Locale(texts, Some(NextMeta(c, from.meta, |source|, sorted, now)), memory));
    AllBrought(c, tree, from, answers, now, r.next, client.oracle, old(client.prompts), client.prompts);
    RunReports(c, source, from, answers, now, r.next);
  }
}
