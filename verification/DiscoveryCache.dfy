/** The single-flight discovery cache of the Bedrock provider. Callers interleave freely; everything between two
    awaits is one step. */
module DiscoveryCache {
  import opened Options

  /** The cache key holds the refresh interval, in seconds, beside everything else that identifies a request. */
  datatype Key = Key(identity: string, refreshSeconds: nat)

  /** An entry holds the models found or the discovery that is under way. */
  datatype Entry<+V> = Found(expiresAt: int, models: V, from: nat) | InFlight(expiresAt: int, discovery: nat)

  datatype Outcome<+V> = Resolved(models: V) | Rejected

  /** A discovery: its settled outcome, if any, and whether the caller that started it has gone on since. */
  datatype Discovery<+V> = Discovery(key: Key, startedAt: int, outcome: Option<Outcome<V>>, finished: bool)

  /** How a call was answered: from the cache, by joining a discovery under way, or by starting one. */
  datatype Answer<+V> =
    | FromCache(key: Key, at: int, models: V, from: nat)
    | Joined(key: Key, discovery: nat)
    | Started(key: Key, discovery: nat)

  datatype State<V> = State(cache: map<Key, Entry<V>>, discoveries: seq<Discovery<V>>, answers: seq<Answer<V>>)

  datatype Event<+V> =
    | Call(key: Key, now: int)
    | Settle(d: nat, outcome: Outcome<V>)
    | Finish(d: nat)

  function Init<V>(): State<V> {
    State(map[], [], [])
  }

  ghost predicate Enabled<V>(s: State<V>, e: Event<V>) {
    match e
    case Call(_, _) => true
    case Settle(d, _) => d < |s.discoveries| && s.discoveries[d].outcome.None?
    case Finish(d) => d < |s.discoveries| && s.discoveries[d].outcome.Some? && !s.discoveries[d].finished
  }

  /** The synchronous part of discoverBedrockModels, up to its first await. */
  function CallStep<V>(s: State<V>, key: Key, now: int): State<V> {
    if key.refreshSeconds > 0 && key in s.cache && s.cache[key].Found? && s.cache[key].expiresAt > now then
      s.(answers := s.answers + [FromCache(key, now, s.cache[key].models, s.cache[key].from)])
    else if key.refreshSeconds > 0 && key in s.cache && s.cache[key].InFlight? then
      s.(answers := s.answers + [Joined(key, s.cache[key].discovery)])
    else
      var d := |s.discoveries|;
      State(
        if key.refreshSeconds > 0 then s.cache[key := InFlight(now + key.refreshSeconds * 1000, d)] else s.cache,
        s.discoveries + [Discovery(key, now, None, false)],
        s.answers + [Started(key, d)])
  }

  /** What the starter does when its discovery has settled. */
  function FinishStep<V>(s: State<V>, d: nat): State<V>
    requires d < |s.discoveries| && s.discoveries[d].outcome.Some?
  {
    var x := s.discoveries[d];
    var cache :=
      if x.key.refreshSeconds == 0 then s.cache
      else if x.outcome.value.Resolved? then
        s.cache[x.key := Found(x.startedAt + x.key.refreshSeconds * 1000, x.outcome.value.models, d)]
      else s.cache - {x.key};
    s.(cache := cache, discoveries := s.discoveries[d := x.(finished := true)])
  }

  ghost function Step<V>(s: State<V>, e: Event<V>): State<V>
    requires Enabled(s, e)
  {
    match e
    case Call(key, now) => CallStep(s, key, now)
    case Settle(d, outcome) => s.(discoveries := s.discoveries[d := s.discoveries[d].(outcome := Some(outcome))])
    case Finish(d) => FinishStep(s, d)
  }

  ghost predicate Run<V>(events: seq<Event<V>>, states: seq<State<V>>) {
    && |states| == |events| + 1 && states[0] == Init()
    && forall k :: 0 <= k < |events| ==> Enabled(states[k], events[k]) && states[k + 1] == Step(states[k], events[k])
  }

  // ----- the sequential meaning -----

  /** The position of the latest discovery for the key, or -1. */
  function Latest<V>(discoveries: seq<Discovery<V>>, key: Key): (r: int)
    ensures -1 <= r < |discoveries|
    ensures r >= 0 ==> discoveries[r].key == key
    ensures forall d :: r < d < |discoveries| ==> discoveries[d].key != key
  {
    if discoveries == [] then -1
    else
      var last := |discoveries| - 1;
      if discoveries[last].key == key then last else Latest(discoveries[..last], key)
  }

  /** The entry a sequential history of discoveries leaves for a key: the latest one alone decides it. */
  function EntryOf<V>(discoveries: seq<Discovery<V>>, key: Key): Option<Entry<V>> {
    var d := Latest(discoveries, key);
    if key.refreshSeconds == 0 || d < 0 then None
    else
      var x := discoveries[d];
      var expiresAt := x.startedAt + key.refreshSeconds * 1000;
      if !x.finished then Some(InFlight(expiresAt, d))
      else if x.outcome.Some? && x.outcome.value.Resolved? then Some(Found(expiresAt, x.outcome.value.models, d))
      else None
  }

  function Lookup<V>(cache: map<Key, Entry<V>>, key: Key): Option<Entry<V>> {
    if key in cache then Some(cache[key]) else None
  }

  // ----- what every interleaving keeps -----

  ghost predicate CacheFollowsHistory<V>(s: State<V>) {
    forall key: Key :: Lookup(s.cache, key) == EntryOf(s.discoveries, key)
  }

  /** With caching, every discovery but the latest for its key is over. */
  ghost predicate SingleFlight<V>(s: State<V>) {
    && (forall d :: 0 <= d < |s.discoveries| && !s.discoveries[d].finished && s.discoveries[d].key.refreshSeconds > 0 ==>
          Latest(s.discoveries, s.discoveries[d].key) == d)
    && (forall d :: 0 <= d < |s.discoveries| && s.discoveries[d].finished ==> s.discoveries[d].outcome.Some?)
  }

  /** The models are what the finished discovery `d` for the key resolved to. */
  ghost predicate FoundBy<V>(s: State<V>, d: nat, key: Key, models: V) {
    && d < |s.discoveries| && s.discoveries[d].key == key && s.discoveries[d].finished
    && s.discoveries[d].outcome == Some(Resolved(models))
  }

  ghost predicate AnswerHonest<V>(s: State<V>, a: Answer<V>) {
    a.FromCache? ==>
      FoundBy(s, a.from, a.key, a.models) && a.at - s.discoveries[a.from].startedAt < a.key.refreshSeconds * 1000
  }

  ghost predicate Answers<V>(s: State<V>) {
    forall i :: 0 <= i < |s.answers| ==> AnswerHonest(s, s.answers[i])
  }

  ghost predicate Inv<V>(s: State<V>) {
    CacheFollowsHistory(s) && SingleFlight(s) && Answers(s)
  }

  lemma {:induction false} LatestUpdate<V>(discoveries: seq<Discovery<V>>, d: nat, x: Discovery<V>, key: Key)
    requires d < |discoveries| && x.key == discoveries[d].key
    ensures Latest(discoveries[d := x], key) == Latest(discoveries, key)
  {
    var a, b := Latest(discoveries[d := x], key), Latest(discoveries, key);
    assert a >= 0 ==> discoveries[a].key == key;
    assert b >= 0 ==> discoveries[d := x][b].key == key;
  }

  lemma LatestAppend<V>(discoveries: seq<Discovery<V>>, x: Discovery<V>, key: Key)
    ensures Latest(discoveries + [x], key) == if x.key == key then |discoveries| else Latest(discoveries, key)
  {
  }

  lemma AnswersKept<V>(s: State<V>, t: State<V>)
    requires Answers(s) && |s.discoveries| <= |t.discoveries|
    requires forall d :: 0 <= d < |s.discoveries| && s.discoveries[d].finished ==> t.discoveries[d] == s.discoveries[d]
    ensures forall i :: 0 <= i < |s.answers| ==> AnswerHonest(t, s.answers[i])
  {
  }

  lemma StartKeepsHistory<V>(s: State<V>, t: State<V>, x: Discovery<V>)
    requires CacheFollowsHistory(s) && !x.finished && t.discoveries == s.discoveries + [x]
    requires t.cache == if x.key.refreshSeconds > 0
                        then s.cache[x.key := InFlight(x.startedAt + x.key.refreshSeconds * 1000, |s.discoveries|)]
                        else s.cache
    ensures CacheFollowsHistory(t)
  {
    hide Latest;
    forall k: Key ensures Lookup(t.cache, k) == EntryOf(t.discoveries, k) {
      LatestAppend(s.discoveries, x, k);
      assert Lookup(s.cache, k) == EntryOf(s.discoveries, k);
    }
  }

  lemma StartKeepsFlight<V>(s: State<V>, t: State<V>, x: Discovery<V>)
    requires SingleFlight(s) && !x.finished && t.discoveries == s.discoveries + [x]
    requires x.key.refreshSeconds > 0 ==>
               Latest(s.discoveries, x.key) < 0 || s.discoveries[Latest(s.discoveries, x.key)].finished
    ensures SingleFlight(t)
  {
  }

  lemma CallKeeps<V>(s: State<V>, key: Key, now: int)
    requires Inv(s)
    ensures Inv(CallStep(s, key, now))
  {
    hide Latest;
    var t := CallStep(s, key, now);
    assert Lookup(s.cache, key) == EntryOf(s.discoveries, key);
    AnswersKept(s, t);
    if t.discoveries != s.discoveries {
      var x := Discovery(key, now, None, false);
      StartKeepsHistory(s, t, x);
      StartKeepsFlight(s, t, x);
      hide SingleFlight;
      hide CacheFollowsHistory;
    }
  }

  lemma SettleKeeps<V>(s: State<V>, d: nat, outcome: Outcome<V>)
    requires Inv(s) && Enabled(s, Settle(d, outcome))
    ensures Inv(Step(s, Settle(d, outcome)))
  {
    hide Latest;
    var t := Step(s, Settle(d, outcome));
    AnswersKept(s, t);
    UpdateKeepsFlight(s, t, d);
    forall k: Key ensures Lookup(t.cache, k) == EntryOf(t.discoveries, k) {
      LatestUpdate(s.discoveries, d, t.discoveries[d], k);
      assert Lookup(s.cache, k) == EntryOf(s.discoveries, k);
    }
  }

  lemma UpdateKeepsFlight<V>(s: State<V>, t: State<V>, d: nat)
    requires SingleFlight(s) && d < |s.discoveries| == |t.discoveries|
    requires t.discoveries == s.discoveries[d := t.discoveries[d]]
    requires t.discoveries[d].key == s.discoveries[d].key && t.discoveries[d].outcome.Some?
    requires !s.discoveries[d].finished
    ensures SingleFlight(t)
  {
  }

  lemma FinishKeeps<V>(s: State<V>, d: nat)
    requires Inv(s) && Enabled(s, Finish(d))
    ensures Inv(FinishStep(s, d))
  {
    hide Latest;
    var t := FinishStep(s, d);
    AnswersKept(s, t);
    UpdateKeepsFlight(s, t, d);
    forall k: Key ensures Lookup(t.cache, k) == EntryOf(t.discoveries, k) {
      LatestUpdate(s.discoveries, d, t.discoveries[d], k);
      assert Lookup(s.cache, k) == EntryOf(s.discoveries, k);
    }
  }

  lemma {:induction false} RunInv<V>(events: seq<Event<V>>, states: seq<State<V>>, k: nat)
    requires Run(events, states) && k < |states|
    ensures Inv(states[k])
  {
    hide Inv;
    if k > 0 {
      RunInv(events, states, k - 1);
      var s, e := states[k - 1], events[k - 1];
      match e
      case Call(key, now) => CallKeeps(s, key, now);
      case Settle(d, outcome) => SettleKeeps(s, d, outcome);
      case Finish(d) => FinishKeeps(s, d);
    } else {
      InitInv<V>();
    }
  }

  lemma InitInv<V>()
    ensures Inv(Init<V>())
  {
  }

  // ----- what every interleaving guarantees -----

  /** Started, and its starter has not gone on yet. */
  ghost predicate Running<V>(s: State<V>, d: nat, key: Key) {
    d < |s.discoveries| && s.discoveries[d].key == key && !s.discoveries[d].finished
  }

  /** With a positive refresh interval at most one discovery per key is running. */
  lemma AtMostOneRunning<V>(events: seq<Event<V>>, states: seq<State<V>>, k: nat, key: Key, a: nat, b: nat)
    requires Run(events, states) && k < |states| && key.refreshSeconds > 0
    requires Running(states[k], a, key) && Running(states[k], b, key)
    ensures a == b
  {
    RunInv(events, states, k);
  }

  /** For every interleaving the entry of a key is the one its latest discovery leaves: in flight while that runs,
      its models after success, nothing after failure. */
  lemma CacheIsSequential<V>(events: seq<Event<V>>, states: seq<State<V>>, k: nat, key: Key)
    requires Run(events, states) && k < |states|
    ensures Lookup(states[k].cache, key) == EntryOf(states[k].discoveries, key)
  {
    RunInv(events, states, k);
  }

  /** Models served from the cache are what a successful discovery for the same key found, and it was started less
      than the refresh interval before, on the callers' clocks. */
  lemma ServedModelsAreRecent<V>(events: seq<Event<V>>, states: seq<State<V>>, k: nat, i: nat)
    requires Run(events, states) && k < |states| && i < |states[k].answers| && states[k].answers[i].FromCache?
    ensures var a, s := states[k].answers[i], states[k];
            && FoundBy(s, a.from, a.key, a.models)
            && a.at - s.discoveries[a.from].startedAt < a.key.refreshSeconds * 1000
  {
    RunInv(events, states, k);
    assert AnswerHonest(states[k], states[k].answers[i]);
  }

  /** A discovery is worth waiting for or using: it is running, or it succeeded less than the interval ago. */
  ghost predicate Usable<V>(x: Discovery<V>, now: int) {
    || !x.finished
    || (x.outcome.Some? && x.outcome.value.Resolved? && now - x.startedAt < x.key.refreshSeconds * 1000)
  }

  /** A call starts a discovery, and waits for that one, exactly when the latest one for its key is of no use, and otherwise
      is answered by the latest one. */
  lemma CallUsesLatest<V>(events: seq<Event<V>>, states: seq<State<V>>, k: nat, key: Key, now: int)
    requires Run(events, states) && k < |events| && events[k] == Call(key, now) && key.refreshSeconds > 0
    ensures var before, after := states[k], states[k + 1];
            var d, next := Latest(before.discoveries, key), |before.discoveries|;
            if d < 0 || !Usable(before.discoveries[d], now) then
              && after.discoveries == before.discoveries + [Discovery(key, now, None, false)]
              && after.answers == before.answers + [Started(key, next)]
            else
              && after.discoveries == before.discoveries
              && after.answers == before.answers +
                   [if !before.discoveries[d].finished then Joined(key, d)
                    else FromCache(key, now, before.discoveries[d].outcome.value.models, d)]
  {
    RunInv(events, states, k);
    assert Lookup(states[k].cache, key) == EntryOf(states[k].discoveries, key);
  }

  /** Without a refresh interval every call starts a discovery of its own and nothing is cached. */
  lemma UncachedCallStarts<V>(events: seq<Event<V>>, states: seq<State<V>>, k: nat, key: Key, now: int)
    requires Run(events, states) && k < |events| && events[k] == Call(key, now) && key.refreshSeconds == 0
    ensures var before, after := states[k], states[k + 1];
            && after.discoveries == before.discoveries + [Discovery(key, now, None, false)]
            && after.answers == before.answers + [Started(key, |before.discoveries|)]
            && key !in after.cache
  {
    RunInv(events, states, k + 1);
    hide CacheFollowsHistory, SingleFlight, Answers;
    assert key !in states[k + 1].cache by {
      CacheIsSequential(events, states, k + 1, key);
    }
  }
}
