/** The active-memory recall cache: entries with a lifetime, an expiry sweep and a bound of 1000 entries. */
module RecallCache {
  import opened Options
  import opened Sequences

  const DEFAULT_MAX_CACHE_ENTRIES := 1000
  const CACHE_SWEEP_INTERVAL_MS := 1000

  /** An entry of the insertion-ordered Map. */
  datatype Slot<+R> = Slot(key: string, expiresAt: int, result: R)

  datatype State<+R> = State(slots: seq<Slot<R>>, lastSweepAt: int)

  // ----- the operations on values -----

  function Find<R>(slots: seq<Slot<R>>, key: string): (r: Option<Slot<R>>)
    ensures r.Some? ==> r.value in slots && r.value.key == key
    ensures r.None? ==> forall s :: s in slots ==> s.key != key
  {
    if slots == [] then None
    else if slots[0].key == key then Some(slots[0])
    else Find(slots[1..], key)
  }

  function Delete<R>(slots: seq<Slot<R>>, key: string): seq<Slot<R>> {
    if slots == [] then []
    else if slots[0].key == key then Delete(slots[1..], key)
    else [slots[0]] + Delete(slots[1..], key)
  }

  /** The entries that have not expired. */
  function Live<R>(slots: seq<Slot<R>>, now: int): seq<Slot<R>> {
    if slots == [] then []
    else if slots[0].expiresAt <= now then Live(slots[1..], now)
    else [slots[0]] + Live(slots[1..], now)
  }

  /** Oldest entries go until the bound is met; an empty oldest key stops the loop. */
  function Evict<R>(slots: seq<Slot<R>>): seq<Slot<R>> {
    if |slots| <= DEFAULT_MAX_CACHE_ENTRIES || slots[0].key == "" then slots else Evict(slots[1..])
  }

  predicate SweepDue<R>(s: State<R>, now: int) {
    |s.slots| >= DEFAULT_MAX_CACHE_ENTRIES || now - s.lastSweepAt >= CACHE_SWEEP_INTERVAL_MS
  }

  function Swept<R>(s: State<R>, now: int): State<R> {
    if SweepDue(s, now) then State(Live(s.slots, now), now) else s
  }

  function AfterSet<R>(s: State<R>, key: string, result: R, ttlMs: int, now: int): State<R> {
    var swept := Swept(s, now);
    State(Evict(Delete(swept.slots, key) + [Slot(key, now + ttlMs, result)]), swept.lastSweepAt)
  }

  function Lookup<R>(s: State<R>, key: string, now: int): Option<R> {
    var found := Find(s.slots, key);
    if found.Some? && found.value.expiresAt > now then Some(found.value.result) else None
  }

  function AfterGet<R>(s: State<R>, key: string, now: int): State<R> {
    var found := Find(s.slots, key);
    if found.Some? && found.value.expiresAt <= now then s.(slots := Delete(s.slots, key)) else s
  }

  // ----- the cache -----

  class Cache<R> {
    var slots: seq<Slot<R>>
    var lastSweepAt: int

    constructor ()
      ensures Now() == State([], 0)
    {
      slots, lastSweepAt := [], 0;
    }

    function Now(): State<R>
      reads this
    {
      State(slots, lastSweepAt)
    }

    method GetCachedResult(key: string, now: int) returns (r: Option<R>)
      modifies this
      ensures r == Lookup(old(Now()), key, now)
      ensures Now() == AfterGet(old(Now()), key, now)
    {
      var cached := Find(slots, key);
      if cached.None? {
        return None;
      }
      if cached.value.expiresAt <= now {
        slots := Delete(slots, key);
        return None;
      }
      return Some(cached.value.result);
    }

    method SweepExpiredCacheEntries(now: int)
      modifies this`slots
      ensures slots == Live(old(slots), now)
    {
      var i := 0;
      assert slots[..0] + Live(slots[0..], now) == Live(slots, now) by {
        assert slots[0..] == slots;
      }
      while i < |slots|
        invariant 0 <= i <= |slots|
        invariant slots[..i] + Live(slots[i..], now) == Live(old(slots), now)
        decreases |slots| - i
      {
        if slots[i].expiresAt <= now {
          assert (slots[..i] + slots[i + 1..])[i..] == slots[i + 1..] == slots[i..][1..];
          assert (slots[..i] + slots[i + 1..])[..i] == slots[..i];
          slots := slots[..i] + slots[i + 1..];
        } else {
          assert slots[i + 1..] == slots[i..][1..];
          assert slots[..i + 1] == slots[..i] + [slots[i]];
          i := i + 1;
        }
      }
      assert slots[..i] == slots;
    }

    method SetCachedResult(key: string, result: R, ttlMs: int, now: int)
      modifies this
      ensures Now() == AfterSet(old(Now()), key, result, ttlMs, now)
    {
      ghost var before := Now();
      if |slots| >= DEFAULT_MAX_CACHE_ENTRIES || now - lastSweepAt >= CACHE_SWEEP_INTERVAL_MS {
        SweepExpiredCacheEntries(now);
        lastSweepAt := now;
      }
      assert Now() == Swept(before, now);
      if Find(slots, key).Some? {
        slots := Delete(slots, key);
      } else {
        DeleteAbsent(slots, key);
      }
      assert State(slots, lastSweepAt) == State(Delete(Swept(before, now).slots, key), Swept(before, now).lastSweepAt);
      slots := slots + [Slot(key, now + ttlMs, result)];
      ghost var grown := slots;
      while |slots| > DEFAULT_MAX_CACHE_ENTRIES
        invariant Evict(slots) == Evict(grown)
        invariant lastSweepAt == Swept(before, now).lastSweepAt
      {
        var oldestKey := slots[0].key;
        if oldestKey == "" {
          break;
        }
        slots := slots[1..];
      }
      assert slots == Evict(grown);
    }
  }

  lemma DeleteAbsent<R>(slots: seq<Slot<R>>, key: string)
    requires forall s :: s in slots ==> s.key != key
    ensures Delete(slots, key) == slots
  {
  }

  // ----- the unbounded write log -----

  datatype Event<+R> = Set(key: string, result: R, ttlMs: int, now: int) | Get(key: string, now: int)

  function After<R>(s: State<R>, e: Event<R>): State<R> {
    if e.Set? then AfterSet(s, e.key, e.result, e.ttlMs, e.now) else AfterGet(s, e.key, e.now)
  }

  function Exec<R>(events: seq<Event<R>>): State<R> {
    if events == [] then State([], 0)
    else After(Exec(events[..|events| - 1]), events[|events| - 1])
  }

  /** What the gets of a run return, in order. */
  function Lookups<R>(events: seq<Event<R>>): seq<Option<R>> {
    if events == [] then []
    else
      var before, last := events[..|events| - 1], events[|events| - 1];
      Lookups(before) + if last.Get? then [Lookup(Exec(before), last.key, last.now)] else []
  }

  /** A cache that is called for the events of any run, from empty, ends in the state of that run. */
  method Play<R>(events: seq<Event<R>>) returns (cache: Cache<R>, answers: seq<Option<R>>)
    ensures cache.Now() == Exec(events) && answers == Lookups(events)
  {
    hide AfterSet, AfterGet, Lookup;
    cache := new Cache();
    answers := [];
    for i := 0 to |events|
      invariant fresh(cache) && cache.Now() == Exec(events[..i]) && answers == Lookups(events[..i])
    {
      assert events[..i + 1][..i] == events[..i];
      match events[i] {
        case Set(key, result, ttlMs, now) => cache.SetCachedResult(key, result, ttlMs, now);
        case Get(key, now) =>
          var answer := cache.GetCachedResult(key, now);
          answers := answers + [answer];
      }
    }
    assert events[..|events|] == events;
  }

  /** A write sweeps when the cache is full or the last sweep is a second old: then no other expired entry is left. */
  lemma WriteSweeps<R>(s: State<R>, key: string, result: R, ttlMs: int, now: int)
    ensures var after := AfterSet(s, key, result, ttlMs, now);
            if |s.slots| >= 1000 || now - s.lastSweepAt >= 1000 then
              after.lastSweepAt == now && forall x :: x in after.slots && x.key != key ==> x.expiresAt > now
            else after.lastSweepAt == s.lastSweepAt
  {
    var swept := Swept(s, now);
    LiveMembers(s.slots, now);
    DeleteMembers(swept.slots, key);
    var dropped := EvictKeepsNewest(Delete(swept.slots, key) + [Slot(key, now + ttlMs, result)]);
  }

  /** A lookup leaves no expired entry of its key, and every other entry. */
  lemma LookupDeletesExpired<R>(s: State<R>, key: string, now: int)
    requires forall i, j :: 0 <= i < j < |s.slots| ==> s.slots[i].key != s.slots[j].key
    ensures forall x :: x in AfterGet(s, key, now).slots <==> x in s.slots && (x.key != key || x.expiresAt > now)
  {
    DeleteMembers(s.slots, key);
  }

  /** The position of the latest write of the key, or -1. */
  function LastWrite<R>(events: seq<Event<R>>, key: string): (r: int)
    ensures -1 <= r < |events|
    ensures r >= 0 ==> events[r].Set? && events[r].key == key
    ensures forall i :: r < i < |events| && events[i].Set? ==> events[i].key != key
  {
    if events == [] then -1
    else
      var last := |events| - 1;
      if events[last].Set? && events[last].key == key then last else LastWrite(events[..last], key)
  }

  /** The slot holds the latest write of its key. */
  ghost predicate FromLog<R>(events: seq<Event<R>>, s: Slot<R>) {
    var i := LastWrite(events, s.key);
    i >= 0 && s.expiresAt == events[i].now + events[i].ttlMs && s.result == events[i].result
  }

  /** Slots hold latest writes, oldest first. */
  ghost predicate Tracks<R>(events: seq<Event<R>>, slots: seq<Slot<R>>) {
    && (forall i :: 0 <= i < |slots| ==> FromLog(events, slots[i]))
    && (forall i, j :: 0 <= i < j < |slots| ==> LastWrite(events, slots[i].key) < LastWrite(events, slots[j].key))
  }

  lemma {:induction false} DeleteMembers<R>(slots: seq<Slot<R>>, key: string)
    ensures forall s :: s in Delete(slots, key) ==> s in slots && s.key != key
    ensures forall s :: s in slots && s.key != key ==> s in Delete(slots, key)
    ensures |Delete(slots, key)| <= |slots|
  {
    if slots != [] {
      DeleteMembers(slots[1..], key);
    }
  }

  lemma {:induction false} LiveMembers<R>(slots: seq<Slot<R>>, now: int)
    ensures forall s :: s in Live(slots, now) ==> s in slots && s.expiresAt > now
    ensures forall s :: s in slots && s.expiresAt > now ==> s in Live(slots, now)
    ensures |Live(slots, now)| <= |slots|
  {
    if slots != [] {
      LiveMembers(slots[1..], now);
    }
  }

  lemma TracksTail<R>(events: seq<Event<R>>, slots: seq<Slot<R>>)
    requires Tracks(events, slots) && slots != []
    ensures Tracks(events, slots[1..])
    ensures forall s :: s in slots[1..] ==> LastWrite(events, slots[0].key) < LastWrite(events, s.key)
    ensures forall s :: s in slots[1..] ==> s.key != slots[0].key
  {
  }

  lemma TracksCons<R>(events: seq<Event<R>>, s: Slot<R>, slots: seq<Slot<R>>)
    requires FromLog(events, s) && Tracks(events, slots)
    requires forall x :: x in slots ==> LastWrite(events, s.key) < LastWrite(events, x.key)
    ensures Tracks(events, [s] + slots)
  {
  }

  lemma {:induction false} DeleteTracks<R>(events: seq<Event<R>>, slots: seq<Slot<R>>, key: string)
    requires Tracks(events, slots)
    ensures Tracks(events, Delete(slots, key))
  {
    if slots != [] {
      TracksTail(events, slots);
      DeleteTracks(events, slots[1..], key);
      DeleteMembers(slots[1..], key);
      TracksCons(events, slots[0], Delete(slots[1..], key));
    }
  }

  lemma {:induction false} LiveTracks<R>(events: seq<Event<R>>, slots: seq<Slot<R>>, now: int)
    requires Tracks(events, slots)
    ensures Tracks(events, Live(slots, now))
  {
    if slots != [] {
      TracksTail(events, slots);
      LiveTracks(events, slots[1..], now);
      LiveMembers(slots[1..], now);
      TracksCons(events, slots[0], Live(slots[1..], now));
    }
  }

  /** Eviction keeps the newest slots, and no more than the bound when no key is empty. */
  lemma {:induction false} EvictKeepsNewest<R>(slots: seq<Slot<R>>) returns (dropped: nat)
    ensures dropped <= |slots| && Evict(slots) == slots[dropped..]
    ensures dropped > 0 ==> |Evict(slots)| >= DEFAULT_MAX_CACHE_ENTRIES
    ensures (forall s :: s in slots ==> s.key != "") ==> |Evict(slots)| <= DEFAULT_MAX_CACHE_ENTRIES
    decreases |slots|
  {
    if |slots| <= DEFAULT_MAX_CACHE_ENTRIES || slots[0].key == "" {
      dropped := 0;
      assert |slots| > DEFAULT_MAX_CACHE_ENTRIES ==> slots[0] in slots;
    } else {
      var rest := EvictKeepsNewest(slots[1..]);
      dropped := rest + 1;
    }
  }

  /** The cache after the last event, from the cache before it. */
  lemma ExecStep<R>(events: seq<Event<R>>, e: Event<R>)
    ensures Exec(events + [e]) == After(Exec(events), e)
  {
  }

  lemma LastWriteStep<R>(events: seq<Event<R>>, e: Event<R>, key: string)
    ensures LastWrite(events + [e], key) == if e.Set? && e.key == key then |events| else LastWrite(events, key)
  {
  }

  lemma TracksStep<R>(events: seq<Event<R>>, e: Event<R>, slots: seq<Slot<R>>)
    requires Tracks(events, slots)
    requires e.Set? ==> forall s :: s in slots ==> s.key != e.key
    ensures Tracks(events + [e], slots)
  {
    forall i | 0 <= i < |slots| ensures LastWrite(events + [e], slots[i].key) == LastWrite(events, slots[i].key) {
      LastWriteStep(events, e, slots[i].key);
      assert slots[i] in slots;
    }
  }

  /** The slots after a write, before eviction. */
  function Grown<R>(s: State<R>, key: string, result: R, ttlMs: int, now: int): seq<Slot<R>> {
    Delete(Swept(s, now).slots, key) + [Slot(key, now + ttlMs, result)]
  }

  lemma AppendTracks<R>(events: seq<Event<R>>, e: Event<R>, kept: seq<Slot<R>>)
    requires e.Set? && Tracks(events, kept) && forall s :: s in kept ==> s.key != e.key
    ensures Tracks(events + [e], kept + [Slot(e.key, e.now + e.ttlMs, e.result)])
  {
  }

  lemma SweptMembers<R>(s: State<R>, now: int)
    ensures forall x :: x in s.slots && x.expiresAt > now ==> x in Swept(s, now).slots
    ensures forall x :: x in Swept(s, now).slots ==> x in s.slots
    ensures |s.slots| >= DEFAULT_MAX_CACHE_ENTRIES ==> AllLive(Swept(s, now).slots, now)
    ensures |Swept(s, now).slots| <= |s.slots|
  {
    LiveMembers(s.slots, now);
  }

  /** Before eviction every other live slot is still there, with at most one slot more than before. */
  lemma GrownMembers<R>(e: Event<R>, s: State<R>)
    requires e.Set?
    ensures var grown := Grown(s, e.key, e.result, e.ttlMs, e.now);
            && (forall x :: x in s.slots && x.expiresAt > e.now && x.key != e.key ==> x in grown)
            && (forall x :: x in grown ==> x in s.slots || x.key == e.key)
            && |grown| <= |s.slots| + 1
            && (|s.slots| >= DEFAULT_MAX_CACHE_ENTRIES && e.ttlMs > 0 ==> AllLive(grown, e.now))
  {
    SweptMembers(s, e.now);
    DeleteMembers(Swept(s, e.now).slots, e.key);
  }

  lemma GrownTracks<R>(events: seq<Event<R>>, e: Event<R>, s: State<R>)
    requires e.Set? && Tracks(events, s.slots)
    ensures Tracks(events + [e], Grown(s, e.key, e.result, e.ttlMs, e.now))
  {
    hide Tracks;
    LiveTracks(events, s.slots, e.now);
    var swept := Swept(s, e.now).slots;
    DeleteTracks(events, swept, e.key);
    DeleteMembers(swept, e.key);
    AppendTracks(events, e, Delete(swept, e.key));
  }

  lemma SetTracks<R>(events: seq<Event<R>>, e: Event<R>)
    requires e.Set? && Tracks(events, Exec(events).slots)
    ensures Tracks(events + [e], Grown(Exec(events), e.key, e.result, e.ttlMs, e.now))
    ensures Tracks(events + [e], Exec(events + [e]).slots)
    ensures Exec(events + [e]).slots == Evict(Grown(Exec(events), e.key, e.result, e.ttlMs, e.now))
  {
    ExecStep(events, e);
    var grown := Grown(Exec(events), e.key, e.result, e.ttlMs, e.now);
    assert Exec(events + [e]).slots == Evict(grown);
    GrownTracks(events, e, Exec(events));
    hide Grown;
    hide Exec;
    var dropped := EvictKeepsNewest(grown);
    TracksSuffix(events + [e], grown, dropped);
  }

  lemma TracksSuffix<R>(events: seq<Event<R>>, slots: seq<Slot<R>>, from: nat)
    requires Tracks(events, slots) && from <= |slots|
    ensures Tracks(events, slots[from..])
    ensures forall i, x :: 0 <= i < from && x in slots[from..] ==> LastWrite(events, slots[i].key) < LastWrite(events, x.key)
  {
  }

  /** After any run the slots hold latest writes, oldest first. */
  lemma {:induction false} ExecTracks<R>(events: seq<Event<R>>)
    ensures Tracks(events, Exec(events).slots)
  {
    if events != [] {
      var before, e := events[..|events| - 1], events[|events| - 1];
      assert before + [e] == events;
      ExecTracks(before);
      if e.Set? {
        SetTracks(before, e);
      } else {
        ExecStep(before, e);
        DeleteTracks(before, Exec(before).slots, e.key);
        TracksStep(before, e, Exec(before).slots);
        TracksStep(before, e, Delete(Exec(before).slots, e.key));
      }
    }
  }

  // ----- what every run guarantees -----

  /** A hit is the latest write of the key, and it has not expired. */
  lemma HitIsLatestWrite<R>(events: seq<Event<R>>, key: string, now: int)
    requires Lookup(Exec(events), key, now).Some?
    ensures var i := LastWrite(events, key);
            && i >= 0
            && Lookup(Exec(events), key, now).value == events[i].result
            && now < events[i].now + events[i].ttlMs
  {
    ExecTracks(events);
    var found := Find(Exec(events).slots, key);
    assert FromLog(events, found.value);
  }

  ghost predicate NamedKeys<R>(events: seq<Event<R>>) {
    forall i :: 0 <= i < |events| && events[i].Set? ==> events[i].key != ""
  }

  /** When no written key is empty the cache never holds more than 1000 entries. */
  lemma {:induction false} CacheBounded<R>(events: seq<Event<R>>)
    requires NamedKeys(events)
    ensures |Exec(events).slots| <= DEFAULT_MAX_CACHE_ENTRIES
  {
    if events != [] {
      var before, e := events[..|events| - 1], events[|events| - 1];
      assert before + [e] == events;
      CacheBounded(before);
      ExecTracks(before);
      ExecStep(before, e);
      if e.Set? {
        SetTracks(before, e);
        var grown := Grown(Exec(before), e.key, e.result, e.ttlMs, e.now);
        forall s | s in grown ensures s.key != "" {
          var i :| 0 <= i < |grown| && grown[i] == s;
          assert FromLog(before + [e], grown[i]);
        }
        GrownMembers(e, Exec(before));
        var dropped := EvictKeepsNewest(grown);
      } else {
        DeleteMembers(Exec(before).slots, e.key);
      }
    }
  }

  /** A fresh write is found until its lifetime ends, whatever was in the cache. */
  lemma FreshWriteSurvives<R>(s: State<R>, key: string, result: R, ttlMs: int, now: int, later: int)
    requires later < now + ttlMs
    ensures Lookup(AfterSet(s, key, result, ttlMs, now), key, later) == Some(result)
  {
    hide Swept;
    hide Evict;
    hide Find;
    var kept, last := Delete(Swept(s, now).slots, key), Slot(key, now + ttlMs, result);
    DeleteMembers(Swept(s, now).slots, key);
    hide Delete;
    var rest := EvictKeepsLast(kept, last);
    FindLast(rest, last);
  }

  lemma EvictKeepsLast<R>(kept: seq<Slot<R>>, last: Slot<R>) returns (rest: seq<Slot<R>>)
    ensures Evict(kept + [last]) == rest + [last]
    ensures forall s :: s in rest ==> s in kept
  {
    var dropped := EvictKeepsNewest(kept + [last]);
    hide Evict;
    assert dropped <= |kept|;
    rest := kept[dropped..];
    assert (kept + [last])[dropped..] == rest + [last];
  }

  lemma {:induction false} FindLast<R>(slots: seq<Slot<R>>, last: Slot<R>)
    requires forall s :: s in slots ==> s.key != last.key
    ensures Find(slots + [last], last.key) == Some(last)
  {
  }

  /** The keys written after position `i`. */
  function WrittenAfter<R>(events: seq<Event<R>>, i: int): set<string>
  {
    set j | 0 <= j < |events| && i < j && events[j].Set? :: events[j].key
  }

  ghost predicate Timely<R>(events: seq<Event<R>>) {
    && (forall i, j :: 0 <= i < j < |events| ==> events[i].now <= events[j].now)
    && (forall i :: 0 <= i < |events| && events[i].Set? ==> events[i].ttlMs > 0)
  }

  ghost predicate AllLive<R>(slots: seq<Slot<R>>, now: int) {
    forall s :: s in slots ==> s.expiresAt > now
  }

  /** The write drops the victim from the front of the grown slots, which were all live. */
  lemma EvictionOnSlots<R>(s: State<R>, e: Event<R>, victim: Slot<R>) returns (dropped: nat)
    requires e.Set? && e.ttlMs > 0 && |s.slots| <= DEFAULT_MAX_CACHE_ENTRIES
    requires victim in s.slots && victim.expiresAt > e.now && victim.key != e.key
    requires victim !in After(s, e).slots
    ensures |After(s, e).slots| == DEFAULT_MAX_CACHE_ENTRIES && AllLive(After(s, e).slots, e.now)
    ensures var grown := Grown(s, e.key, e.result, e.ttlMs, e.now);
            dropped <= |grown| && After(s, e).slots == grown[dropped..] && victim in grown[..dropped]
  {
    var grown := Grown(s, e.key, e.result, e.ttlMs, e.now);
    assert After(s, e).slots == Evict(grown);
    GrownMembers(e, s);
    hide Grown;
    hide After;
    VictimDropped(grown, victim);
    dropped := EvictKeepsNewest(grown);
    hide Evict;
    assert grown == grown[..dropped] + grown[dropped..];
    assert forall x :: x in grown[dropped..] ==> x in grown;
  }

  /** A write that pushes out a live entry leaves 1000 live entries that were all written later. */
  lemma EvictionLeavesNewerLive<R>(events: seq<Event<R>>, e: Event<R>, victim: Slot<R>)
    requires e.Set? && e.ttlMs > 0 && NamedKeys(events + [e])
    requires victim in Exec(events).slots && victim.expiresAt > e.now && victim.key != e.key
    requires victim !in Exec(events + [e]).slots
    ensures var left := Exec(events + [e]).slots;
            && |left| == DEFAULT_MAX_CACHE_ENTRIES
            && AllLive(left, e.now)
            && Tracks(events + [e], left)
            && forall s :: s in left ==> LastWrite(events + [e], victim.key) < LastWrite(events + [e], s.key)
  {
    assert NamedKeys(events) by {
      assert forall i :: 0 <= i < |events| ==> (events + [e])[i] == events[i];
    }
    CacheBounded(events);
    ExecTracks(events);
    ExecStep(events, e);
    SetTracks(events, e);
    hide After;
    hide Exec;
    var dropped := EvictionOnSlots(Exec(events), e, victim);
    TracksSuffix(events + [e], Grown(Exec(events), e.key, e.result, e.ttlMs, e.now), dropped);
  }

  lemma VictimDropped<R>(grown: seq<Slot<R>>, victim: Slot<R>)
    requires victim in grown && victim !in Evict(grown) && |grown| <= DEFAULT_MAX_CACHE_ENTRIES + 1
    ensures |grown| == DEFAULT_MAX_CACHE_ENTRIES + 1 && |Evict(grown)| == DEFAULT_MAX_CACHE_ENTRIES
  {
  }

  /** Why a written key may be missing: its latest write expired, or 1000 other keys were written since. */
  ghost predicate Excused<R>(events: seq<Event<R>>, key: string, now: int) {
    var i := LastWrite(events, key);
    i >= 0 ==>
      || events[i].now + events[i].ttlMs <= now
      || |WrittenAfter(events, i) - {key}| >= DEFAULT_MAX_CACHE_ENTRIES
  }

  ghost predicate Holds<R>(slots: seq<Slot<R>>, key: string) {
    exists s :: s in slots && s.key == key
  }

  lemma FoundHolds<R>(s: State<R>, key: string, now: int)
    ensures Lookup(s, key, now).Some? ==> Holds(s.slots, key)
  {
  }

  lemma ExcusedStep<R>(events: seq<Event<R>>, e: Event<R>, key: string, now: int, later: int)
    requires Excused(events, key, now) && now <= later && !(e.Set? && e.key == key)
    ensures Excused(events + [e], key, later)
  {
    LastWriteStep(events, e, key);
    var i := LastWrite(events, key);
    if i >= 0 {
      assert WrittenAfter(events, i) - {key} <= WrittenAfter(events + [e], i) - {key} by {
        assert forall j :: 0 <= j < |events| ==> (events + [e])[j] == events[j];
      }
      SubsetSize(WrittenAfter(events, i) - {key}, WrittenAfter(events + [e], i) - {key});
    }
  }

  lemma SubsetSize<T>(a: set<T>, b: set<T>)
    requires a <= b
    ensures |a| <= |b|
  {
    assert b == a + (b - a);
  }

  ghost function Keys<R>(slots: seq<Slot<R>>): set<string> {
    set s | s in slots :: s.key
  }

  lemma KeysTail<R>(slots: seq<Slot<R>>)
    requires slots != []
    ensures Keys(slots) == Keys(slots[1..]) + {slots[0].key}
  {
  }

  /** Tracked slots have distinct keys. */
  lemma {:induction false} KeyCount<R>(events: seq<Event<R>>, slots: seq<Slot<R>>)
    requires Tracks(events, slots)
    ensures |Keys(slots)| == |slots|
  {
    if slots != [] {
      TracksTail(events, slots);
      KeyCount(events, slots[1..]);
      hide Tracks;
      KeysTail(slots);
      assert slots[0].key !in Keys(slots[1..]);
    }
  }

  lemma EvictedExcused<R>(events: seq<Event<R>>, e: Event<R>, victim: Slot<R>)
    requires e.Set? && e.ttlMs > 0 && NamedKeys(events + [e])
    requires victim in Exec(events).slots && victim.expiresAt > e.now && victim.key != e.key
    requires victim !in Exec(events + [e]).slots
    ensures Excused(events + [e], victim.key, e.now)
  {
    hide Exec, Tracks, NamedKeys;
    EvictionLeavesNewerLive(events, e, victim);
    var all, left := events + [e], Exec(events + [e]).slots;
    var i := LastWrite(all, victim.key);
    KeyCount(all, left);
    var keys := Keys(left);
    if i >= 0 {
      forall k | k in keys ensures k in WrittenAfter(all, i) - {victim.key} {
        var s :| s in left && s.key == k;
        assert LastWrite(all, k) > i;
      }
      SubsetSize(keys, WrittenAfter(all, i) - {victim.key});
    }
  }

  /** On a clock that never goes back and with positive lifetimes, a key that is missing has an excuse. */
  lemma {:induction false} MissingIsExcused<R>(events: seq<Event<R>>, key: string)
    requires Timely(events) && NamedKeys(events) && events != []
    requires !Holds(Exec(events).slots, key)
    ensures Excused(events, key, events[|events| - 1].now)
  {
    var before, e := events[..|events| - 1], events[|events| - 1];
    assert before + [e] == events;
    assert Timely(before) && NamedKeys(before);
    if e.Set? && e.key == key {
      FreshWriteSurvives(Exec(before), key, e.result, e.ttlMs, e.now, e.now);
      ExecStep(before, e);
      FoundHolds(Exec(events), key, e.now);
    } else if !Holds(Exec(before).slots, key) {
      if before == [] {
        LastWriteStep(before, e, key);
      } else {
        MissingIsExcused(before, key);
        ExcusedStep(before, e, key, before[|before| - 1].now, e.now);
      }
    } else {
      var s :| s in Exec(before).slots && s.key == key;
      DroppedIsExcused(before, e, s);
    }
  }

  /** An entry dropped by one event had expired or was pushed out by newer ones. */
  lemma DroppedIsExcused<R>(events: seq<Event<R>>, e: Event<R>, s: Slot<R>)
    requires s in Exec(events).slots && NamedKeys(events + [e]) && (e.Set? ==> e.ttlMs > 0)
    requires !(e.Set? && e.key == s.key)
    requires !Holds(Exec(events + [e]).slots, s.key)
    ensures Excused(events + [e], s.key, e.now)
  {
    ExecTracks(events);
    var i :| 0 <= i < |Exec(events).slots| && Exec(events).slots[i] == s;
    assert FromLog(events, Exec(events).slots[i]);
    LastWriteStep(events, e, s.key);
    ExecStep(events, e);
    if s.expiresAt > e.now {
      if e.Set? {
        EvictedExcused(events, e, s);
      } else {
        GetKeepsLive(events, e, s);
      }
    }
  }

  lemma GetKeepsLive<R>(events: seq<Event<R>>, e: Event<R>, s: Slot<R>)
    requires e.Get? && Tracks(events, Exec(events).slots)
    requires s in Exec(events).slots && s.expiresAt > e.now
    ensures Holds(AfterGet(Exec(events), e.key, e.now).slots, s.key)
  {
    var slots := Exec(events).slots;
    DeleteMembers(slots, e.key);
    var found := Find(slots, e.key);
    if found.Some? && e.key == s.key {
      var i :| 0 <= i < |slots| && slots[i] == s;
      var j :| 0 <= j < |slots| && slots[j] == found.value;
      assert LastWrite(events, slots[i].key) == LastWrite(events, slots[j].key);
    }
    assert s in AfterGet(Exec(events), e.key, e.now).slots;
  }

  /** The whole refinement: a lookup at or after the last event returns the latest unexpired write of the log,
      unless 1000 other keys were written after it. */
  lemma LookupRefinesLog<R>(events: seq<Event<R>>, key: string, now: int)
    requires Timely(events) && NamedKeys(events)
    requires events != [] ==> events[|events| - 1].now <= now
    ensures var i := LastWrite(events, key);
            var wanted := if i >= 0 && now < events[i].now + events[i].ttlMs then Some(events[i].result) else None;
            || Lookup(Exec(events), key, now) == wanted
            || (Lookup(Exec(events), key, now) == None
                && |WrittenAfter(events, i) - {key}| >= DEFAULT_MAX_CACHE_ENTRIES)
  {
    var slots := Exec(events).slots;
    ExecTracks(events);
    if Lookup(Exec(events), key, now).Some? {
      HitIsLatestWrite(events, key, now);
    } else if Find(slots, key).Some? {
      assert FromLog(events, Find(slots, key).value);
    } else if events != [] {
      MissingIsExcused(events, key);
    }
  }
}
