/** The promise-chained lock around the session-toggle store. Callers interleave freely;
    everything between two awaits is one step. */
module ToggleLock {
  import opened JsText
  import opened Options

  // ----- the toggle file -----

  /** One parsed entry of the sessions record. */
  datatype Entry = NotARecord | Entry(disabled: bool, updatedAt: Option<int>)

  /** The file: absent, without a usable sessions record, or holding one. */
  datatype File = Missing | Unusable | Sessions(entries: map<string, Entry>)

  /** The disabled sessions, with the time of the request. */
  type Toggles = map<string, Option<int>>

  /** readToggleStore on a file that can be read. */
  function Parse(file: File): (t: Toggles)
    ensures forall k :: k in t ==> !IsBlank(k)
  {
    if file.Sessions? then
      map k | k in file.entries && !IsBlank(k) && file.entries[k].Entry? && file.entries[k].disabled
        :: file.entries[k].updatedAt
    else map[]
  }

  /** What writeToggleStore leaves in the file. */
  function Written(t: Toggles): File {
    Sessions(map k | k in t :: Entry(true, t[k]))
  }

  /** An on/off request of /active-memory for one session. */
  datatype Request = Request(key: string, disabled: bool)

  function Applied(t: Toggles, r: Request, now: int): Toggles {
    if r.disabled then t[r.key := Some(now)] else t - {r.key}
  }

  /** A request as later readers see it: a blank session key is dropped on reading. */
  function Effect(t: Toggles, r: Request, now: int): Toggles {
    if IsBlank(r.key) then t else Applied(t, r, now)
  }

  lemma WrittenEffect(t: Toggles, r: Request, now: int)
    requires forall k :: k in t ==> !IsBlank(k)
    ensures Parse(Written(Applied(t, r, now))) == Effect(t, r, now)
  {
    hide IsBlank;
  }

  // ----- the protocol -----

  /** A request that reached the file. */
  datatype Write = Write(caller: nat, request: Request, readOk: bool, now: int)

  datatype Phase =
    | Waiting                      // awaiting the previous caller's promise
    | Reading                      // inside: reading the file
    | Writing(store: Toggles, readOk: bool, now: int)  // inside: the new contents are on their way
    | Finishing                    // inside: written or failed, cleaning up
    | Left                         // its promise is resolved

  /** `previous` and `own` are promise numbers; promise 0 is the resolved one the lock starts with. */
  datatype Caller = Caller(request: Request, previous: nat, own: nat, phase: Phase)

  datatype State = State(
    lock: nat, promises: nat, resolved: set<nat>, callers: seq<Caller>,
    file: File, entered: seq<nat>, writes: seq<Write>)

  function Init(file: File): State {
    State(0, 1, {0}, [], file, [], [])
  }

  predicate IsInside(p: Phase) {
    p.Reading? || p.Writing? || p.Finishing?
  }

  predicate InsideAt(s: State, c: nat) {
    c < |s.callers| && IsInside(s.callers[c].phase)
  }

  function SetPhase(s: State, c: nat, p: Phase): State
    requires c < |s.callers|
  {
    s.(callers := s.callers[c := s.callers[c].(phase := p)])
  }

  datatype Event =
    | Call(request: Request)
    | Enter(c: nat)
    | ReadDone(c: nat, readOk: bool, now: int)
    | Renamed(c: nat)
    | WriteFailed(c: nat)
    | Release(c: nat)

  ghost predicate Enabled(s: State, e: Event) {
    match e
    case Call(_) => true
    case Enter(c) => c < |s.callers| && s.callers[c].phase.Waiting? && s.callers[c].previous in s.resolved
    case ReadDone(c, _, _) => c < |s.callers| && s.callers[c].phase.Reading?
    case Renamed(c) => c < |s.callers| && s.callers[c].phase.Writing?
    case WriteFailed(c) => c < |s.callers| && s.callers[c].phase.Writing?
    case Release(c) => c < |s.callers| && s.callers[c].phase.Finishing?
  }

  ghost function Step(s: State, e: Event): State
    requires Enabled(s, e)
  {
    match e
    case Call(r) =>
      s.(callers := s.callers + [Caller(r, s.lock, s.promises, Waiting)],
         lock := s.promises, promises := s.promises + 1)
    case Enter(c) => SetPhase(s, c, Reading).(entered := s.entered + [c])
    case ReadDone(c, readOk, now) =>
      // readToggleStore never throws: when the file cannot be read it returns an empty store.
      var base := if readOk then Parse(s.file) else map[];
      SetPhase(s, c, Writing(Applied(base, s.callers[c].request, now), readOk, now))
    case Renamed(c) =>
      var p := s.callers[c].phase;
      SetPhase(s, c, Finishing).(file := Written(p.store),
                                 writes := s.writes + [Write(c, s.callers[c].request, p.readOk, p.now)])
    case WriteFailed(c) => SetPhase(s, c, Finishing)
    // The finally block: whether the task returned or threw, the caller's promise is resolved.
    case Release(c) => SetPhase(s, c, Left).(resolved := s.resolved + {s.callers[c].own})
  }

  ghost predicate Run(file: File, events: seq<Event>, states: seq<State>) {
    && |states| == |events| + 1 && states[0] == Init(file)
    && forall k :: 0 <= k < |events| ==> Enabled(states[k], events[k]) && states[k + 1] == Step(states[k], events[k])
  }

  // ----- the sequential meaning -----

  /** The requests that reached the file, applied one after the other; a failed read starts from nothing. */
  function Replay(t: Toggles, writes: seq<Write>): Toggles {
    if writes == [] then t
    else
      var w := writes[|writes| - 1];
      var before := Replay(t, writes[..|writes| - 1]);
      Effect(if w.readOk then before else map[], w.request, w.now)
  }

  /** The requests applied one after the other, each to all that came before. */
  function Sequential(t: Toggles, writes: seq<Write>): Toggles {
    if writes == [] then t
    else Effect(Sequential(t, writes[..|writes| - 1]), writes[|writes| - 1].request, writes[|writes| - 1].now)
  }

  // ----- the invariant -----

  /** Each caller waits for the one before it, and exactly the callers that left have resolved. */
  ghost predicate Chained(s: State) {
    && s.lock == |s.callers| && s.promises == |s.callers| + 1
    && (forall c :: 0 <= c < |s.callers| ==> s.callers[c].previous == c && s.callers[c].own == c + 1)
    && (forall p: nat :: p in s.resolved <==> p == 0 || (p <= |s.callers| && s.callers[p - 1].phase.Left?))
  }

  /** The callers before `turn` have left and the ones after it wait. */
  ghost predicate Turn(s: State, turn: nat) {
    && turn <= |s.callers|
    && (forall c :: 0 <= c < turn ==> s.callers[c].phase.Left?)
    && (forall c :: turn < c < |s.callers| ==> s.callers[c].phase.Waiting?)
    && (turn < |s.callers| ==> !s.callers[turn].phase.Left?)
    && (|s.entered| == if turn < |s.callers| && IsInside(s.callers[turn].phase) then turn + 1 else turn)
    && (forall c :: 0 <= c < |s.entered| ==> s.entered[c] == c)
  }

  ghost predicate WrittenBy(s: State, w: Write) {
    w.caller < |s.callers| && w.request == s.callers[w.caller].request
  }

  ghost predicate FileTracks(file: File, s: State, turn: nat) {
    && Parse(s.file) == Replay(Parse(file), s.writes)
    && (forall k :: 0 <= k < |s.writes| ==> s.writes[k].caller < |s.entered| && WrittenBy(s, s.writes[k]))
    && (forall j, k :: 0 <= j < k < |s.writes| ==> s.writes[j].caller < s.writes[k].caller)
    && (turn < |s.callers| && (s.callers[turn].phase.Reading? || s.callers[turn].phase.Writing?) ==>
          forall k :: 0 <= k < |s.writes| ==> s.writes[k].caller < turn)
    && (turn < |s.callers| && s.callers[turn].phase.Writing? ==>
          var p := s.callers[turn].phase;
          p.store == Applied(if p.readOk then Parse(s.file) else map[], s.callers[turn].request, p.now))
  }

  ghost predicate Inv(file: File, s: State, turn: nat) {
    |s.entered| <= |s.callers| && Chained(s) && Turn(s, turn) && FileTracks(file, s, turn)
  }

  function Actor(e: Event): nat
    requires !e.Call?
  {
    e.c
  }

  /** Only the caller whose turn it is can act. */
  lemma OnlyTurnActs(s: State, turn: nat, e: Event)
    requires Chained(s) && Turn(s, turn) && Enabled(s, e) && !e.Call?
    ensures Actor(e) == turn
  {
  }

  lemma StepChained(s: State, turn: nat, e: Event)
    requires Chained(s) && Turn(s, turn) && Enabled(s, e)
    ensures Chained(Step(s, e))
  {
    hide Parse;
    hide Applied;
    var t := Step(s, e);
    if !e.Call? {
      OnlyTurnActs(s, turn, e);
    }
    assert forall c :: 0 <= c < |s.callers| ==> t.callers[c].previous == c && t.callers[c].own == c + 1;
  }

  function NextTurn(turn: nat, e: Event): nat {
    if e.Release? then turn + 1 else turn
  }

  lemma StepTurn(s: State, turn: nat, e: Event)
    requires Chained(s) && Turn(s, turn) && Enabled(s, e)
    ensures Turn(Step(s, e), NextTurn(turn, e))
  {
    hide Parse;
    hide Applied;
    if !e.Call? {
      OnlyTurnActs(s, turn, e);
    }
  }

  /** Steps that leave the file and the phases inside the lock's task alone. */
  lemma StepFileKept(file: File, s: State, turn: nat, e: Event)
    requires Inv(file, s, turn) && Enabled(s, e) && (e.Call? || e.Enter? || e.WriteFailed? || e.Release?)
    ensures FileTracks(file, Step(s, e), NextTurn(turn, e))
  {
    hide Parse;
    hide Replay;
    hide Applied;
    if !e.Call? {
      OnlyTurnActs(s, turn, e);
    }
    hide Chained;
    var t := Step(s, e);
    forall k | 0 <= k < |s.writes| ensures WrittenBy(t, s.writes[k]) {
      assert WrittenBy(s, s.writes[k]);
    }
  }

  lemma StepFileRead(file: File, s: State, turn: nat, e: Event)
    requires Inv(file, s, turn) && Enabled(s, e) && e.ReadDone?
    ensures FileTracks(file, Step(s, e), NextTurn(turn, e))
  {
    hide Parse;
    hide Replay;
    hide Applied;
    OnlyTurnActs(s, turn, e);
    hide Chained;
    var t := Step(s, e);
    forall k | 0 <= k < |s.writes| ensures WrittenBy(t, s.writes[k]) {
      assert WrittenBy(s, s.writes[k]);
    }
  }

  lemma StepFileRenamed(file: File, s: State, turn: nat, e: Event)
    requires Inv(file, s, turn) && Enabled(s, e) && e.Renamed?
    ensures FileTracks(file, Step(s, e), NextTurn(turn, e))
  {
    hide Parse;
    hide Applied;
    hide Written;
    hide Effect;
    hide Replay;
    OnlyTurnActs(s, turn, e);
    hide Chained;
    var t := Step(s, e);
    var p := s.callers[turn].phase;
    var base := if p.readOk then Parse(s.file) else map[];
    WrittenEffect(base, s.callers[turn].request, p.now);
    ReplayAppend(Parse(file), s.writes, Write(turn, s.callers[turn].request, p.readOk, p.now));
    forall k | 0 <= k < |t.writes| ensures WrittenBy(t, t.writes[k]) {
      assert k < |s.writes| ==> WrittenBy(s, s.writes[k]);
    }
  }

  lemma ReplayAppend(t: Toggles, writes: seq<Write>, w: Write)
    ensures Replay(t, writes + [w]) == Effect(if w.readOk then Replay(t, writes) else map[], w.request, w.now)
  {
    hide Effect;
    assert (writes + [w])[..|writes|] == writes;
  }

  lemma StepFile(file: File, s: State, turn: nat, e: Event)
    requires Inv(file, s, turn) && Enabled(s, e)
    ensures FileTracks(file, Step(s, e), NextTurn(turn, e))
  {
    hide Inv;
    hide FileTracks;
    if e.ReadDone? {
      StepFileRead(file, s, turn, e);
    } else if e.Renamed? {
      StepFileRenamed(file, s, turn, e);
    } else {
      StepFileKept(file, s, turn, e);
    }
  }

  lemma StepKeeps(file: File, s: State, turn: nat, e: Event)
    requires Inv(file, s, turn) && Enabled(s, e)
    ensures Inv(file, Step(s, e), NextTurn(turn, e))
  {
    hide FileTracks;
    hide Chained;
    StepChained(s, turn, e);
    StepTurn(s, turn, e);
    StepFile(file, s, turn, e);
    hide Turn;
    EnteredBound(Step(s, e), NextTurn(turn, e));
  }

  lemma EnteredBound(s: State, turn: nat)
    requires Turn(s, turn)
    ensures |s.entered| <= |s.callers|
  {
  }

  lemma {:induction false} RunInv(file: File, events: seq<Event>, states: seq<State>, k: nat) returns (turn: nat)
    requires Run(file, events, states) && k < |states|
    ensures Inv(file, states[k], turn)
  {
    if k == 0 {
      turn := 0;
    } else {
      var before := RunInv(file, events, states, k - 1);
      StepKeeps(file, states[k - 1], before, events[k - 1]);
      turn := NextTurn(before, events[k - 1]);
    }
  }

  // ----- what every interleaving guarantees -----

  /** At most one task is inside, and tasks enter in call order even after earlier ones failed. */
  lemma LockIsFair(file: File, events: seq<Event>, states: seq<State>, k: nat)
    requires Run(file, events, states) && k < |states|
    ensures var s := states[k];
            && (forall a, b :: InsideAt(s, a) && InsideAt(s, b) ==> a == b)
            && |s.entered| <= |s.callers|
            && s.entered == seq(|s.entered|, i => i)
  {
    var turn := RunInv(file, events, states, k);
  }

  /** While some caller has not left, a step of a caller is possible. */
  lemma LockNeverStuck(file: File, events: seq<Event>, states: seq<State>, k: nat, c: nat) returns (e: Event)
    requires Run(file, events, states) && k < |states|
    requires c < |states[k].callers| && !states[k].callers[c].phase.Left?
    ensures Enabled(states[k], e) && !e.Call?
  {
    var turn := RunInv(file, events, states, k);
    var p := states[k].callers[turn].phase;
    e := if p.Waiting? then Enter(turn)
         else if p.Reading? then ReadDone(turn, true, 0)
         else if p.Writing? then Renamed(turn)
         else Release(turn);
  }

  /** The stored toggles are the successful requests replayed in call order: one for each rename among the events. */
  lemma ToggleStoreReplays(file: File, events: seq<Event>, states: seq<State>, k: nat)
    requires Run(file, events, states) && k < |states|
    ensures var s := states[k];
            && Parse(s.file) == Replay(Parse(file), s.writes)
            && (forall i :: 0 <= i < |s.writes| ==> WrittenBy(s, s.writes[i]))
            && (forall i, j :: 0 <= i < j < |s.writes| ==> s.writes[i].caller < s.writes[j].caller)
            && k <= |events| && s.writes == LogOf(events[..k])
  {
    RunTells(file, events, states, k);
    var turn := RunInv(file, events, states, k);
  }

  /** A request whose read failed is harmless when the toggles it should have kept are none but its own. */
  ghost predicate Harmless(t: Toggles, writes: seq<Write>, k: nat)
    requires k < |writes|
  {
    writes[k].readOk || Sequential(t, writes[..k]).Keys <= {writes[k].request.key}
  }

  lemma {:induction false} SequentialNonBlank(t: Toggles, writes: seq<Write>)
    requires forall x :: x in t ==> !IsBlank(x)
    ensures forall x :: x in Sequential(t, writes) ==> !IsBlank(x)
  {
    hide IsBlank;
    if writes != [] {
      SequentialNonBlank(t, writes[..|writes| - 1]);
    }
  }

  /** After the first `k` requests nothing was lost. */
  ghost predicate NothingLost(t: Toggles, writes: seq<Write>, k: nat)
    requires k <= |writes|
  {
    Replay(t, writes[..k]) == Sequential(t, writes[..k])
  }

  /** One more request loses nothing exactly when its read succeeded or was harmless. */
  lemma NothingLostStep(t: Toggles, writes: seq<Write>, k: nat)
    requires forall x :: x in t ==> !IsBlank(x)
    requires k < |writes| && NothingLost(t, writes, k)
    ensures NothingLost(t, writes, k + 1) <==> Harmless(t, writes, k)
  {
    hide IsBlank;
    PrefixStep(writes, k);
    SequentialNonBlank(t, writes[..k]);
    EffectAgrees(Sequential(t, writes[..k]), writes[k].request, writes[k].now);
  }

  lemma PrefixStep(writes: seq<Write>, k: nat)
    requires k < |writes|
    ensures writes[..k + 1][..k] == writes[..k] && writes[..k + 1][k] == writes[k]
  {
  }

  lemma EffectAgrees(t: Toggles, r: Request, now: int)
    requires forall x :: x in t ==> !IsBlank(x)
    ensures Effect(map[], r, now) == Effect(t, r, now) <==> t.Keys <= {r.key}
  {
    hide IsBlank;
    var a, b := Effect(map[], r, now), Effect(t, r, now);
    if IsBlank(r.key) {
      assert r.key !in t.Keys;
    } else {
      if a == b {
        forall x | x in t.Keys ensures x == r.key {
          assert x != r.key ==> x in b;
        }
      } else {
        assert t.Keys <= {r.key} ==> a.Keys == b.Keys;
      }
    }
  }

  lemma {:induction false} HarmlessPrefix(t: Toggles, writes: seq<Write>, k: nat)
    requires forall x :: x in t ==> !IsBlank(x)
    requires forall i :: 0 <= i < |writes| ==> Harmless(t, writes, i)
    requires k <= |writes|
    ensures NothingLost(t, writes, k)
  {
    hide IsBlank;
    hide Harmless;
    if k > 0 {
      HarmlessPrefix(t, writes, k - 1);
      NothingLostStep(t, writes, k - 1);
    }
  }

  // ----- the same about runs -----

  /** The requests of the calls, in call order. */
  function Calls(events: seq<Event>): seq<Request>
    decreases |events|
  {
    if events == [] then []
    else
      var e := events[|events| - 1];
      Calls(events[..|events| - 1]) + if e.Call? then [e.request] else []
  }

  /** How the caller's read ended, and when. */
  function ReadOf(events: seq<Event>, c: nat): Option<(bool, int)>
    decreases |events|
  {
    if events == [] then None
    else
      var e := events[|events| - 1];
      if e.ReadDone? && e.c == c then Some((e.readOk, e.now)) else ReadOf(events[..|events| - 1], c)
  }

  /** The writes that the events tell of: one for each rename, by its caller, with that caller's request and read. */
  function LogOf(events: seq<Event>): seq<Write>
    decreases |events|
  {
    if events == [] then []
    else
      var before, e := events[..|events| - 1], events[|events| - 1];
      LogOf(before) +
        if e.Renamed? && e.c < |Calls(before)| && ReadOf(before, e.c).Some? then
          var (readOk, now) := ReadOf(before, e.c).value;
          [Write(e.c, Calls(before)[e.c], readOk, now)]
        else []
  }

  /** The state knows of calls, reads and writes what the events tell. */
  ghost predicate Tells(events: seq<Event>, s: State) {
    && |s.callers| == |Calls(events)|
    && (forall c :: 0 <= c < |s.callers| ==>
          && s.callers[c].request == Calls(events)[c]
          && (s.callers[c].phase.Writing? ==>
                ReadOf(events, c) == Some((s.callers[c].phase.readOk, s.callers[c].phase.now))))
    && s.writes == LogOf(events)
  }

  lemma TellsStep(events: seq<Event>, s: State, e: Event)
    requires Tells(events, s) && Enabled(s, e)
    ensures Tells(events + [e], Step(s, e))
  {
    hide Parse, Applied, Written;
    assert (events + [e])[..|events|] == events;
  }

  lemma {:induction false} RunTells(file: File, events: seq<Event>, states: seq<State>, k: nat)
    requires Run(file, events, states) && k < |states|
    ensures Tells(events[..k], states[k])
  {
    hide Tells, Step, Enabled;
    if k == 0 {
      TellsNothing(file);
    } else {
      RunTells(file, events, states, k - 1);
      TellsStep(events[..k - 1], states[k - 1], events[k - 1]);
      assert events[..k] == events[..k - 1] + [events[k - 1]];
    }
  }

  lemma TellsNothing(file: File)
    ensures Tells([], Init(file))
  {
  }

  /** After the first `k` events the file holds all requests written so far, each applied to all that came before. */
  ghost predicate HoldsAll(file: File, events: seq<Event>, states: seq<State>, k: nat)
    requires k < |states| && k <= |events|
  {
    Parse(states[k].file) == Sequential(Parse(file), LogOf(events[..k]))
  }

  lemma {:induction false} LogPrefix(events: seq<Event>, k: nat)
    requires k <= |events|
    ensures LogOf(events[..k]) <= LogOf(events)
    decreases |events|
  {
    if k < |events| {
      LogPrefix(events[..|events| - 1], k);
      assert events[..|events| - 1][..k] == events[..k];
    } else {
      assert events[..k] == events;
    }
  }

  /** Every prefix of the log is the log of a prefix. */
  lemma {:induction false} LogReaches(events: seq<Event>, n: nat) returns (k: nat)
    requires n <= |LogOf(events)|
    ensures k <= |events| && LogOf(events[..k]) == LogOf(events)[..n]
    decreases |events|
  {
    if n == |LogOf(events)| {
      k := |events|;
      assert events[..k] == events;
    } else {
      var before := events[..|events| - 1];
      k := LogReaches(before, n);
      assert before[..k] == events[..k];
    }
  }

  lemma RunLength(file: File, events: seq<Event>, states: seq<State>)
    requires Run(file, events, states)
    ensures |states| == |events| + 1
  {
  }

  lemma HoldsAllIsNothingLost(file: File, events: seq<Event>, states: seq<State>, k: nat)
    requires Run(file, events, states) && k <= |events|
    ensures |LogOf(events[..k])| <= |LogOf(events)|
    ensures HoldsAll(file, events, states, k) <==> NothingLost(Parse(file), LogOf(events), |LogOf(events[..k])|)
  {
    RunLength(file, events, states);
    hide Run, Parse, LogOf, Replay, Sequential, NothingLost, WrittenBy;
    ToggleStoreReplays(file, events, states, k);
    RunTells(file, events, states, k);
    LogPrefix(events, k);
    PrefixHoldsAll(Parse(file), Parse(states[k].file), LogOf(events[..k]), LogOf(events));
  }

  lemma PrefixHoldsAll(t: Toggles, stored: Toggles, prefix: seq<Write>, log: seq<Write>)
    requires prefix <= log && stored == Replay(t, prefix)
    ensures stored == Sequential(t, prefix) <==> NothingLost(t, log, |prefix|)
  {
    hide Replay, Sequential;
    assert log[..|prefix|] == prefix;
  }

  /** No request is ever lost from the file. */
  ghost predicate NeverLost(file: File, events: seq<Event>, states: seq<State>) {
    |states| == |events| + 1 && forall k :: 0 <= k <= |events| ==> HoldsAll(file, events, states, k)
  }

  /** Every read that failed met a store with no key but the request's own. */
  ghost predicate AllHarmless(t: Toggles, log: seq<Write>) {
    forall i :: 0 <= i < |log| ==> Harmless(t, log, i)
  }

  lemma HarmlessHoldsAll(file: File, events: seq<Event>, states: seq<State>, k: nat)
    requires Run(file, events, states) && k <= |events| && AllHarmless(Parse(file), LogOf(events))
    ensures |states| == |events| + 1 && HoldsAll(file, events, states, k)
  {
    RunLength(file, events, states);
    hide Run, Parse, LogOf, HoldsAll, Sequential, NothingLost, Harmless;
    HoldsAllIsNothingLost(file, events, states, k);
    HarmlessPrefix(Parse(file), LogOf(events), |LogOf(events[..k])|);
  }

  lemma NeverLostIsHarmless(file: File, events: seq<Event>, states: seq<State>, i: nat)
    requires Run(file, events, states) && NeverLost(file, events, states) && i < |LogOf(events)|
    ensures Harmless(Parse(file), LogOf(events), i)
  {
    hide Run, Parse, LogOf, HoldsAll, Sequential, NothingLost, Harmless;
    var k := LogReaches(events, i);
    var l := LogReaches(events, i + 1);
    HoldsAllIsNothingLost(file, events, states, k);
    HoldsAllIsNothingLost(file, events, states, l);
    assert HoldsAll(file, events, states, k) && HoldsAll(file, events, states, l);
    NothingLostStep(Parse(file), LogOf(events), i);
  }

  /** In every interleaving the stored toggles are at all times the sequential application, in call order, of the
      requests that reached the file, if and only if every failed read was harmless. */
  lemma NoLostUpdateIff(file: File, events: seq<Event>, states: seq<State>)
    requires Run(file, events, states)
    ensures NeverLost(file, events, states) <==> AllHarmless(Parse(file), LogOf(events))
  {
    RunLength(file, events, states);
    hide Run, Parse, LogOf, HoldsAll, Harmless;
    if AllHarmless(Parse(file), LogOf(events)) {
      forall k | 0 <= k <= |events| ensures HoldsAll(file, events, states, k) {
        HarmlessHoldsAll(file, events, states, k);
      }
    }
    if NeverLost(file, events, states) {
      forall i | 0 <= i < |LogOf(events)| ensures Harmless(Parse(file), LogOf(events), i) {
        NeverLostIsHarmless(file, events, states, i);
      }
    }
  }

  /** When no read fails, no update is lost, whatever the interleaving and whichever writes fail. */
  lemma GoodReadsLoseNothing(file: File, events: seq<Event>, states: seq<State>)
    requires Run(file, events, states)
    requires forall e :: e in events && e.ReadDone? ==> e.readOk
    ensures NeverLost(file, events, states)
  {
    GoodLog(events);
    NoLostUpdateIff(file, events, states);
  }

  lemma {:induction false} GoodRead(events: seq<Event>, c: nat)
    requires forall e :: e in events && e.ReadDone? ==> e.readOk
    ensures ReadOf(events, c).Some? ==> ReadOf(events, c).value.0
    decreases |events|
  {
    if events != [] {
      GoodRead(events[..|events| - 1], c);
    }
  }

  lemma {:induction false} GoodLog(events: seq<Event>)
    requires forall e :: e in events && e.ReadDone? ==> e.readOk
    ensures forall i :: 0 <= i < |LogOf(events)| ==> LogOf(events)[i].readOk
    decreases |events|
  {
    if events != [] {
      var before, e := events[..|events| - 1], events[|events| - 1];
      GoodLog(before);
      if e.Renamed? {
        GoodRead(before, e.c);
      }
    }
  }

  // ----- what the file says of a session -----

  /** The file says that the session is switched off. */
  predicate DisabledIn(file: File, key: string) {
    && file.Sessions? && key in file.entries && !IsBlank(key)
    && file.entries[key].Entry? && file.entries[key].disabled
  }

  /** The position of the last request for the session, or -1. */
  function LastFor(log: seq<Write>, key: string): (i: int)
    ensures -1 <= i < |log|
    ensures i >= 0 ==> log[i].request.key == key
    ensures forall j :: i < j < |log| ==> log[j].request.key != key
  {
    if log == [] then -1
    else if log[|log| - 1].request.key == key then |log| - 1
    else LastFor(log[..|log| - 1], key)
  }

  /** The position of the last request whose read failed, or -1. */
  function LastFailed(log: seq<Write>): (i: int)
    ensures -1 <= i < |log|
    ensures i >= 0 ==> !log[i].readOk
    ensures forall j :: i < j < |log| ==> log[j].readOk
  {
    if log == [] then -1
    else if !log[|log| - 1].readOk then |log| - 1
    else LastFailed(log[..|log| - 1])
  }

  /** What a replay holds of a session: its last request, unless a later read failed; without one what was there before. */
  lemma {:induction false} ReplayHolds(t: Toggles, log: seq<Write>, key: string)
    requires !IsBlank(key)
    ensures var i, f, after := LastFor(log, key), LastFailed(log), Replay(t, log);
            && (key in after <==> if i < f then false else if i >= 0 then log[i].request.disabled else key in t)
            && (key in after ==> after[key] == if i >= 0 then Some(log[i].now) else t[key])
    decreases |log|
  {
    hide IsBlank;
    if log != [] {
      ReplayHolds(t, log[..|log| - 1], key);
    }
  }

  lemma ParsedIs(file: File, key: string)
    ensures key in Parse(file) <==> DisabledIn(file, key)
    ensures key in Parse(file) ==> Parse(file)[key] == file.entries[key].updatedAt
  {
    hide IsBlank;
  }

  /** In every interleaving, at all times, for every session whose key is not blank: it is switched off in the file exactly
      when the last request renamed into place for it switched it off, or there is none and it was switched off at first;
      a failed read of a later request has dropped it. The stored time is that of the request. */
  lemma FileFollowsRequests(file: File, events: seq<Event>, states: seq<State>, k: nat, key: string)
    requires Run(file, events, states) && k <= |events| && !IsBlank(key)
    ensures |states| == |events| + 1
    ensures var log := LogOf(events[..k]);
            var i, f, now := LastFor(log, key), LastFailed(log), states[k].file;
            && (DisabledIn(now, key) <==>
                  if i < f then false else if i >= 0 then log[i].request.disabled else DisabledIn(file, key))
            && (DisabledIn(now, key) ==>
                  now.entries[key].updatedAt == if i >= 0 then Some(log[i].now) else file.entries[key].updatedAt)
  {
    RunLength(file, events, states);
    ToggleStoreReplays(file, events, states, k);
    hide Run, LogOf, Replay, IsBlank, WrittenBy;
    ReplayHolds(Parse(file), LogOf(events[..k]), key);
    ParsedIs(file, key);
    ParsedIs(states[k].file, key);
  }

  /** When no read fails the last request for a session decides alone. */
  lemma LastRequestDecides(file: File, events: seq<Event>, states: seq<State>, k: nat, key: string)
    requires Run(file, events, states) && k <= |events| && !IsBlank(key)
    requires forall e :: e in events && e.ReadDone? ==> e.readOk
    ensures |states| == |events| + 1
    ensures var log := LogOf(events[..k]);
            var i := LastFor(log, key);
            DisabledIn(states[k].file, key) <==> if i >= 0 then log[i].request.disabled else DisabledIn(file, key)
  {
    hide Run, LogOf, IsBlank, DisabledIn;
    assert forall e :: e in events[..k] ==> e in events;
    GoodLog(events[..k]);
    FileFollowsRequests(file, events, states, k, key);
  }

  lemma FailedReadOnLog(a: string, b: string)
    requires a != b && !IsBlank(a) && !IsBlank(b)
    ensures var writes := [Write(0, Request(a, true), true, 1), Write(1, Request(b, true), false, 2)];
            && Sequential(map[], writes).Keys == {a, b}
            && Replay(map[], writes).Keys == {b}
  {
    hide IsBlank;
    var first, second := Write(0, Request(a, true), true, 1), Write(1, Request(b, true), false, 2);
    assert [first, second][..1] == [first] && [first][..0] == [];
    assert Sequential(map[], [first]) == Effect(map[], first.request, 1);
  }

  /** Two callers on a fresh file: the second one's read fails. */
  function FailingEvents(a: string, b: string): seq<Event> {
    [Call(Request(a, true)), Call(Request(b, true)), Enter(0), ReadDone(0, true, 1), Renamed(0), Release(0),
     Enter(1), ReadDone(1, false, 2), Renamed(1)]
  }

  /** The states of that run, from the second call on. */
  function Snap(a: string, b: string, first: Phase, second: Phase, resolved: set<nat>, file: File, entered: seq<nat>,
                writes: seq<Write>): State
  {
    State(2, 3, resolved, [Caller(Request(a, true), 0, 1, first), Caller(Request(b, true), 1, 2, second)],
          file, entered, writes)
  }

  function FailingStates(a: string, b: string): (r: seq<State>)
    ensures |r| == 10
  {
    var one, two := Applied(Parse(Missing), Request(a, true), 1), Applied(map[], Request(b, true), 2);
    var w1, w2 := Write(0, Request(a, true), true, 1), Write(1, Request(b, true), false, 2);
    [Init(Missing),
     State(1, 2, {0}, [Caller(Request(a, true), 0, 1, Waiting)], Missing, [], []),
     Snap(a, b, Waiting, Waiting, {0}, Missing, [], []),
     Snap(a, b, Reading, Waiting, {0}, Missing, [0], []),
     Snap(a, b, Writing(one, true, 1), Waiting, {0}, Missing, [0], []),
     Snap(a, b, Finishing, Waiting, {0}, Written(one), [0], [w1]),
     Snap(a, b, Left, Waiting, {0, 1}, Written(one), [0], [w1]),
     Snap(a, b, Left, Reading, {0, 1}, Written(one), [0, 1], [w1]),
     Snap(a, b, Left, Writing(two, false, 2), {0, 1}, Written(one), [0, 1], [w1]),
     Snap(a, b, Left, Finishing, {0, 1}, Written(two), [0, 1], [w1, w2])]
  }

  /** A single failed read loses another session's toggle. */
  lemma FailedReadLosesToggle(a: string, b: string)
    requires a != b && !IsBlank(a) && !IsBlank(b)
    ensures var events, states := FailingEvents(a, b), FailingStates(a, b);
            && Run(Missing, events, states)
            && Sequential(Parse(Missing), LogOf(events)).Keys == {a, b}
            && Parse(states[|events|].file).Keys == {b}
  {
    hide FailingEvents, FailingStates, Run, Sequential, Replay, LogOf, Parse, IsBlank, WrittenBy;
    FailingRun(a, b);
    FailingLog(a, b);
    NothingStored();
    FailedReadOnLog(a, b);
    ToggleStoreReplays(Missing, FailingEvents(a, b), FailingStates(a, b), 9);
  }

  lemma NothingStored()
    ensures Parse(Missing) == map[]
  {
  }

  lemma FailingLog(a: string, b: string)
    ensures |FailingEvents(a, b)| == 9
    ensures LogOf(FailingEvents(a, b)) == FailingStates(a, b)[9].writes ==
              [Write(0, Request(a, true), true, 1), Write(1, Request(b, true), false, 2)]
  {
    FailingRun(a, b);
    hide Run, LogOf, Parse, Applied, Written;
    var events := FailingEvents(a, b);
    RunTells(Missing, events, FailingStates(a, b), 9);
    assert events[..9] == events;
  }

  ghost predicate FailingStep(a: string, b: string, k: nat)
    requires k < 9
  {
    var e, s, t := FailingEvents(a, b)[k], FailingStates(a, b)[k], FailingStates(a, b)[k + 1];
    Enabled(s, e) && t == Step(s, e)
  }

  lemma FailingCalls(a: string, b: string)
    ensures FailingStep(a, b, 0) && FailingStep(a, b, 1)
  {
    hide Parse, Applied, Written;
  }

  lemma FailingStepsFirst(a: string, b: string)
    ensures FailingStep(a, b, 2) && FailingStep(a, b, 3)
  {
    hide Parse, Applied, Written;
  }

  lemma FailingStepsMiddle(a: string, b: string)
    ensures FailingStep(a, b, 4) && FailingStep(a, b, 5)
  {
    hide Parse, Applied, Written;
  }

  lemma FailingStepsLast(a: string, b: string)
    ensures FailingStep(a, b, 6) && FailingStep(a, b, 7) && FailingStep(a, b, 8)
  {
    hide Parse, Applied, Written;
  }

  lemma FailingRun(a: string, b: string)
    ensures Run(Missing, FailingEvents(a, b), FailingStates(a, b))
  {
    FailingCalls(a, b);
    FailingStepsFirst(a, b);
    FailingStepsMiddle(a, b);
    FailingStepsLast(a, b);
    FailingEnds(a, b);
    hide FailingEvents, FailingStates, Step, Enabled;
    forall k | 0 <= k < 9 ensures FailingStep(a, b, k) {}
  }

  lemma FailingEnds(a: string, b: string)
    ensures |FailingEvents(a, b)| == 9 && FailingStates(a, b)[0] == Init(Missing)
  {
  }
}
