/** The client of the translation process: prompts are chained, one request is outstanding, replies arrive over a pipe. */
module RpcClient {
  import opened Options

  /** How a prompt's promise ended. A result remembers the request the process was answering. */
  datatype Outcome = Unsettled | Resolved(answers: nat) | Rejected

  /** A request that was sent, with its timeout and its progress heartbeat. */
  datatype Request = Request(outcome: Outcome, timer: bool, heartbeat: bool)

  /** The promise the prompts are chained on: fulfilled, waiting for its last link, or rejected for good. */
  datatype Chain = Fulfilled | Waiting | Broken

  /** A line of the process. Anything that is blank, no JSON, of another type or for an unknown id is noise. */
  datatype Line = Response(id: nat, success: bool) | AgentEnd(answers: nat, usable: bool) | Noise

  /** Requests are numbered in the order they are sent; `calls` prompts have been asked for, `refused` failed unsent. */
  datatype State = State(
    closed: bool, pending: Option<nat>, responseReceived: bool, requests: seq<Request>,
    calls: nat, refused: nat, chain: Chain)

  // ----- what the callbacks do -----

  const INITIAL := State(false, None, false, [], 0, 0, Fulfilled)

  /** Settling a promise counts once; the chain follows its last link. */
  function Settle(s: State, r: nat, outcome: Outcome): State {
    if r < |s.requests| && s.requests[r].outcome.Unsettled? then
      s.(requests := s.requests[r := s.requests[r].(outcome := outcome)],
         chain := if outcome.Resolved? then Fulfilled else Broken)
    else s
  }

  function ClearTimers(s: State, r: nat): State {
    if r < |s.requests| then s.(requests := s.requests[r := s.requests[r].(timer := false, heartbeat := false)]) else s
  }

  /** The reject and resolve functions kept in the pending slot. */
  function SettlePending(s: State, outcome: Outcome): State {
    if s.pending.Some? then Settle(ClearTimers(s.(pending := None), s.pending.value), s.pending.value, outcome) else s
  }

  function OnLine(s: State, line: Line): State {
    if s.pending.None? then s
    else match line
      case Response(id, success) =>
        if id != s.pending.value then s
        else if !success then SettlePending(s, Rejected)
        else s.(responseReceived := true)
      case AgentEnd(answers, usable) => SettlePending(s, if usable then Resolved(answers) else Rejected)
      case Noise => s
  }

  function OnTimeout(s: State, r: nat): State
    requires r < |s.requests|
  {
    var fired := s.(requests := s.requests[r := s.requests[r].(timer := false)]);
    if s.pending == Some(r) then
      Settle(fired.(pending := None, requests := fired.requests[r := fired.requests[r].(heartbeat := false)], closed := true), r, Rejected)
    else fired
  }

  function OnWritten(s: State, r: nat, failed: bool): State {
    if !failed then s
    else
      var cleared := ClearTimers(s, r);
      Settle(if s.pending == Some(r) then cleared.(pending := None) else cleared, r, Rejected)
  }

  /** The next link of the chain runs: it is skipped after a rejection, refused when closed, and otherwise sends. */
  function RunLink(s: State): State {
    if s.chain.Broken? then s.(refused := s.refused + 1)
    else if s.closed then s.(refused := s.refused + 1, chain := Broken)
    else s.(requests := s.requests + [Request(Unsettled, true, true)], pending := Some(|s.requests|),
            responseReceived := false, chain := Waiting)
  }

  // ----- runs -----

  /** The client, the lines under way, the requests the process has answered, and the writes that have been reported. */
  datatype World = World(client: State, pipe: seq<Line>, ended: set<nat>, written: set<nat>)

  datatype Event =
    | Prompt
    | Link
    | Emit(line: Line)
    | Deliver
    | Timeout(r: nat)
    | Written(r: nat, failed: bool)
    | ProcessError
    | ProcessClose
    | Close

  predicate Enabled(w: World, e: Event) {
    match e
    case Link => |w.client.requests| + w.client.refused < w.client.calls && !w.client.chain.Waiting?
    case Emit(line) => line.AgentEnd? ==> line.answers < |w.client.requests|
    case Deliver => w.pipe != []
    case Timeout(r) => r < |w.client.requests| && w.client.requests[r].timer
    case Written(r, _) => r < |w.client.requests| && r !in w.written
    case _ => true
  }

  function Next(w: World, e: Event): World
    requires Enabled(w, e)
  {
    var s := w.client;
    match e
    case Prompt => w.(client := s.(calls := s.calls + 1))
    case Link => w.(client := RunLink(s))
    case Emit(line) => w.(pipe := w.pipe + [line], ended := if line.AgentEnd? then w.ended + {line.answers} else w.ended)
    case Deliver => w.(client := OnLine(s, w.pipe[0]), pipe := w.pipe[1..])
    case Timeout(r) => w.(client := OnTimeout(s, r))
    case Written(r, failed) => w.(client := OnWritten(s, r, failed), written := w.written + {r})
    case ProcessError => w.(client := SettlePending(s, Rejected))
    case ProcessClose => w.(client := SettlePending(s.(closed := true), Rejected))
    case Close => w.(client := s.(closed := true))
  }

  ghost predicate Runs(w: World, events: seq<Event>)
    decreases |events|
  {
    events == [] || (Enabled(w, events[0]) && Runs(Next(w, events[0]), events[1..]))
  }

  ghost function After(w: World, events: seq<Event>): World
    requires Runs(w, events)
    decreases |events|
  {
    if events == [] then w else After(Next(w, events[0]), events[1..])
  }

  const START := World(INITIAL, [], {}, {})

  // ----- one outstanding request -----

  ghost predicate Open(s: State, r: nat) {
    r < |s.requests| && s.requests[r].outcome.Unsettled?
  }

  /** Only the last request can be open; it is open exactly while the chain waits, fills the slot, and has its timers. */
  ghost predicate Inv(s: State) {
    && (forall r :: 0 <= r < |s.requests| - 1 ==> s.requests[r].outcome.Resolved?)
    && (forall r :: 0 <= r < |s.requests| ==>
          s.requests[r].timer == s.requests[r].heartbeat == s.requests[r].outcome.Unsettled?)
    && (s.chain.Waiting? <==> |s.requests| > 0 && s.requests[|s.requests| - 1].outcome.Unsettled?)
    && s.pending == (if s.chain.Waiting? then Some(|s.requests| - 1) else None)
    && (|s.requests| > 0 && s.requests[|s.requests| - 1].outcome.Rejected? ==> s.chain.Broken?)
    && (s.refused > 0 ==> s.chain.Broken?)
    && (s.chain.Broken? ==> s.refused > 0 || (|s.requests| > 0 && s.requests[|s.requests| - 1].outcome.Rejected?))
    && |s.requests| + s.refused <= s.calls
  }

  lemma InvSteps(w: World, e: Event)
    requires Enabled(w, e) && Inv(w.client)
    ensures Inv(Next(w, e).client)
  {
    match e {
      case Deliver => InvLine(w.client, w.pipe[0]);
      case Link => InvLink(w.client);
      case Timeout(r) => InvTimeout(w.client, r);
      case Written(r, failed) => InvWritten(w.client, r, failed);
      case ProcessError => InvSettle(w.client, Rejected);
      case ProcessClose => InvSettle(w.client.(closed := true), Rejected);
      case _ =>
    }
  }

  lemma InvSettle(s: State, outcome: Outcome)
    requires Inv(s) && !outcome.Unsettled?
    ensures Inv(SettlePending(s, outcome))
  {
  }

  lemma InvLine(s: State, line: Line)
    requires Inv(s)
    ensures Inv(OnLine(s, line))
  {
    InvSettle(s, Rejected);
    if line.AgentEnd? {
      InvSettle(s, Resolved(line.answers));
    }
  }

  lemma InvLink(s: State)
    requires Inv(s) && |s.requests| + s.refused < s.calls && !s.chain.Waiting?
    ensures Inv(RunLink(s))
    ensures s.pending.None?
  {
  }

  lemma InvTimeout(s: State, r: nat)
    requires Inv(s) && r < |s.requests| && s.requests[r].timer
    ensures Inv(OnTimeout(s, r))
  {
  }

  lemma InvWritten(s: State, r: nat, failed: bool)
    requires Inv(s) && r < |s.requests|
    ensures Inv(OnWritten(s, r, failed))
  {
  }

  ghost predicate Reachable(w: World) {
    exists events :: Runs(START, events) && After(START, events) == w
  }

  lemma {:induction false} RunKeepsInv(w: World, events: seq<Event>)
    requires Inv(w.client) && Runs(w, events)
    ensures Inv(After(w, events).client)
    decreases |events|
  {
    hide Inv, Next, Enabled;
    if events != [] {
      InvSteps(w, events[0]);
      RunKeepsInv(Next(w, events[0]), events[1..]);
    }
  }

  lemma ReachableInv(w: World)
    requires Reachable(w)
    ensures Inv(w.client)
  {
    var events :| Runs(START, events) && After(START, events) == w;
    RunKeepsInv(START, events);
  }

  /** In every run at most one request is open, and the slot holds just that one. */
  lemma OneOutstanding(w: World, r: nat, q: nat)
    requires Reachable(w) && Open(w.client, r)
    ensures w.client.pending == Some(r)
    ensures Open(w.client, q) ==> q == r
  {
    ReachableInv(w);
  }

  /** When a link runs the slot is empty, so it never drops a request. */
  lemma SlotNeverOverwritten(w: World)
    requires Reachable(w) && Enabled(w, Link)
    ensures w.client.pending.None?
    ensures forall r :: 0 <= r < |w.client.requests| ==> !w.client.requests[r].outcome.Unsettled?
  {
    ReachableInv(w);
  }

  /** A settled prompt has no timer and no heartbeat left; an open one has both, and its timer settles it. */
  lemma TimersFollowPrompts(w: World, r: nat)
    requires Reachable(w) && r < |w.client.requests|
    ensures var q := w.client.requests[r];
            if q.outcome.Unsettled? then q.timer && q.heartbeat && !Open(Next(w, Timeout(r)).client, r)
            else !q.timer && !q.heartbeat
  {
    ReachableInv(w);
  }

  /** Some prompt has failed, sent or not. */
  ghost predicate SomeFailed(s: State) {
    s.refused > 0 || exists r :: 0 <= r < |s.requests| && s.requests[r].outcome.Rejected?
  }

  lemma FailedIsBroken(s: State)
    requires Inv(s)
    ensures SomeFailed(s) <==> s.chain.Broken?
  {
  }

  /** What is settled stays as it is, requests only grow, and a broken chain sends nothing. */
  ghost predicate Extends(s: State, s': State) {
    && |s.requests| <= |s'.requests|
    && (forall r :: 0 <= r < |s.requests| && !s.requests[r].outcome.Unsettled? ==>
          s'.requests[r].outcome == s.requests[r].outcome)
    && (s.chain.Broken? ==> s'.chain.Broken? && |s'.requests| == |s.requests|)
  }

  lemma StepExtends(w: World, e: Event)
    requires Enabled(w, e) && Inv(w.client)
    ensures Extends(w.client, Next(w, e).client)
  {
    match e {
      case Written(r, failed) => WrittenExtends(w.client, r, failed);
      case _ =>
    }
  }

  lemma WrittenExtends(s: State, r: nat, failed: bool)
    requires Inv(s) && r < |s.requests|
    ensures Extends(s, OnWritten(s, r, failed))
  {
  }

  lemma {:induction false} RunExtends(w: World, events: seq<Event>)
    requires Inv(w.client) && Runs(w, events)
    ensures Extends(w.client, After(w, events).client)
    decreases |events|
  {
    hide Inv, Next, Enabled;
    if events != [] {
      InvSteps(w, events[0]);
      StepExtends(w, events[0]);
      RunExtends(Next(w, events[0]), events[1..]);
    }
  }

  /** Once a prompt has failed, whatever happens, nothing more is sent, and no settled prompt changes its outcome. */
  lemma NothingSentAfterFailure(w: World, events: seq<Event>)
    requires Reachable(w) && Runs(w, events)
    ensures SomeFailed(w.client) ==> |After(w, events).client.requests| == |w.client.requests|
    ensures forall r :: 0 <= r < |w.client.requests| && !w.client.requests[r].outcome.Unsettled? ==>
              r < |After(w, events).client.requests|
              && After(w, events).client.requests[r].outcome == w.client.requests[r].outcome
  {
    ReachableInv(w);
    FailedIsBroken(w.client);
    RunExtends(w, events);
  }

  /** A closed client stays closed and sends nothing more, though an open prompt may still get its reply. */
  lemma {:induction false} ClosedSendsNothing(w: World, events: seq<Event>)
    requires Runs(w, events) && w.client.closed
    ensures After(w, events).client.closed && |After(w, events).client.requests| == |w.client.requests|
    decreases |events|
  {
    if events != [] {
      ClosedStep(w, events[0]);
      hide Next, Enabled;
      ClosedSendsNothing(Next(w, events[0]), events[1..]);
    }
  }

  lemma ClosedStep(w: World, e: Event)
    requires Enabled(w, e) && w.client.closed
    ensures Next(w, e).client.closed && |Next(w, e).client.requests| == |w.client.requests|
  {
  }

  /** A timer only ever fires for the open prompt, which it rejects, and it closes the client: nothing is sent after it. */
  lemma TimeoutEndsClient(w: World, r: nat, events: seq<Event>)
    requires Reachable(w) && Enabled(w, Timeout(r)) && Runs(Next(w, Timeout(r)), events)
    ensures Open(w.client, r) && Next(w, Timeout(r)).client.requests[r].outcome == Rejected
    ensures |After(Next(w, Timeout(r)), events).client.requests| == |w.client.requests|
  {
    ReachableInv(w);
    ClosedSendsNothing(Next(w, Timeout(r)), events);
  }

  // ----- what a step does to the prompts -----

  /** How a step ends an open request: from the event and the delivered line alone. */
  function Verdict(w: World, e: Event, r: nat): Outcome
    requires Enabled(w, e)
  {
    match e
    case Deliver =>
      if w.pipe[0] == Response(r, false) then Rejected
      else if w.pipe[0].AgentEnd? then (if w.pipe[0].usable then Resolved(w.pipe[0].answers) else Rejected)
      else Unsettled
    case Timeout(q) => if q == r then Rejected else Unsettled
    case Written(q, failed) => if failed && q == r then Rejected else Unsettled
    case ProcessError => Rejected
    case ProcessClose => Rejected
    case _ => Unsettled
  }

  /** Every step in every run: a settled request keeps its outcome, and the open one is settled exactly by an unsuccessful
      response to it, an end of work, its timer, the failure of its write, or the failure or close of the process. A
      successful response, noise and a response to another request settle nothing. */
  lemma StepSettles(w: World, e: Event, r: nat)
    requires Reachable(w) && Enabled(w, e) && r < |w.client.requests|
    ensures r < |Next(w, e).client.requests|
    ensures Next(w, e).client.requests[r].outcome == if Open(w.client, r) then Verdict(w, e, r) else w.client.requests[r].outcome
  {
    ReachableInv(w);
    OpenIsPending(w.client, r);
    hide Inv;
    match e {
      case Deliver => LineSettles(w, r);
      case Written(_, _) => WrittenSettles(w, e, r);
      case _ =>
    }
  }

  lemma OpenIsPending(s: State, r: nat)
    requires Inv(s) && r < |s.requests|
    ensures Open(s, r) <==> s.pending == Some(r)
    ensures s.pending.Some? ==> s.pending.value < |s.requests|
  {
  }

  lemma LineSettles(w: World, r: nat)
    requires Enabled(w, Deliver) && r < |w.client.requests| && (Open(w.client, r) <==> w.client.pending == Some(r))
    ensures r < |Next(w, Deliver).client.requests|
    ensures Next(w, Deliver).client.requests[r].outcome ==
              if Open(w.client, r) then Verdict(w, Deliver, r) else w.client.requests[r].outcome
  {
  }

  lemma WrittenSettles(w: World, e: Event, r: nat)
    requires e.Written? && Enabled(w, e) && r < |w.client.requests|
    ensures r < |Next(w, e).client.requests|
    ensures Next(w, e).client.requests[r].outcome == if Open(w.client, r) then Verdict(w, e, r) else w.client.requests[r].outcome
  {
  }

  /** Only a link sends: nothing after a failed prompt or on a closed client, and otherwise the next request, which is open
      with its timer and heartbeat, and to which no response has come. */
  lemma LinkSends(w: World, e: Event)
    requires Reachable(w) && Enabled(w, e)
    ensures var s, s' := w.client, Next(w, e).client;
            if e.Link? && !SomeFailed(s) && !s.closed then
              s'.requests == s.requests + [Request(Unsettled, true, true)] && !s'.responseReceived && s'.refused == s.refused
            else |s'.requests| == |s.requests| && s'.refused == s.refused + if e.Link? then 1 else 0
  {
    ReachableInv(w);
    FailedIsBroken(w.client);
  }

  /** A client is closed by a timeout, the close of its process or a call of close, and by nothing else. */
  lemma ClosedBy(w: World, e: Event)
    requires Reachable(w) && Enabled(w, e)
    ensures Next(w, e).client.closed <==> w.client.closed || e.Timeout? || e.ProcessClose? || e.Close?
  {
    ReachableInv(w);
  }

  /** The response to the open request is noted when it is successful. */
  lemma ResponseNoted(w: World, r: nat)
    requires Reachable(w) && Enabled(w, Deliver) && Open(w.client, r)
    ensures Next(w, Deliver).client.responseReceived <==> w.client.responseReceived || w.pipe[0] == Response(r, true)
  {
    ReachableInv(w);
  }

  // ----- no reply is credited to another prompt -----

  ghost predicate Credited(s: State) {
    forall r :: 0 <= r < |s.requests| && s.requests[r].outcome.Resolved? ==> s.requests[r].outcome.answers == r
  }

  /** A usable end of work arrives while another request than the one it ends is pending. */
  predicate StrayEnd(w: World, e: Event) {
    && e.Deliver? && w.pipe != [] && w.pipe[0].AgentEnd? && w.pipe[0].usable
    && w.client.pending.Some? && w.pipe[0].answers != w.client.pending.value
  }

  ghost predicate NoStrayEnds(w: World, events: seq<Event>)
    requires Runs(w, events)
    decreases |events|
  {
    events == [] || (!StrayEnd(w, events[0]) && NoStrayEnds(Next(w, events[0]), events[1..]))
  }

  /** The step brings no result. */
  ghost predicate NoResult(s: State, s': State) {
    && |s.requests| <= |s'.requests|
    && (forall r :: 0 <= r < |s'.requests| && s'.requests[r].outcome.Resolved? ==>
          r < |s.requests| && s.requests[r].outcome == s'.requests[r].outcome)
  }

  lemma QuietStep(w: World, e: Event)
    requires Enabled(w, e) && Inv(w.client) && !e.Emit? && !e.Deliver?
    ensures NoResult(w.client, Next(w, e).client)
  {
  }

  lemma StepCredits(w: World, e: Event)
    requires Enabled(w, e) && Inv(w.client) && Credited(w.client)
    ensures Credited(Next(w, e).client) <==> !StrayEnd(w, e)
  {
    match e {
      case Deliver =>
        var s, line := w.client, w.pipe[0];
        if s.pending.Some? && line.AgentEnd? && line.usable {
          var last, s' := |s.requests| - 1, SettlePending(s, Resolved(line.answers));
          assert s'.requests == s.requests[last := s'.requests[last]] && s'.requests[last].outcome == Resolved(line.answers);
        }
      case Emit(_) =>
      case _ => QuietStep(w, e);
    }
  }

  /** A result that was credited to another prompt stays there. */
  lemma MisplacedStays(w: World, events: seq<Event>)
    requires Runs(w, events) && Inv(w.client) && !Credited(w.client)
    ensures !Credited(After(w, events).client)
  {
    RunExtends(w, events);
  }

  lemma {:induction false} RunCredits(w: World, events: seq<Event>)
    requires Runs(w, events) && Inv(w.client) && Credited(w.client)
    ensures Credited(After(w, events).client) <==> NoStrayEnds(w, events)
    decreases |events|
  {
    hide Inv, Next, Enabled, Credited, StrayEnd;
    if events != [] {
      InvSteps(w, events[0]);
      StepCredits(w, events[0]);
      if StrayEnd(w, events[0]) {
        MisplacedStays(Next(w, events[0]), events[1..]);
      } else {
        RunCredits(Next(w, events[0]), events[1..]);
      }
    }
  }

  /** In every run: each prompt that resolved has the reply to its own request if and only if no usable end of work was
      delivered while another request was pending, which is what the agent_end branch does not test. */
  lemma RepliesCreditedIff(events: seq<Event>)
    requires Runs(START, events)
    ensures Credited(After(START, events).client) <==> NoStrayEnds(START, events)
  {
    RunCredits(START, events);
  }

  /** The process ends its work on a request once. */
  predicate Polite(w: World, e: Event) {
    e.Emit? && e.line.AgentEnd? ==> e.line.answers !in w.ended
  }

  ghost predicate PoliteRun(w: World, events: seq<Event>)
    requires Runs(w, events)
    decreases |events|
  {
    events == [] || (Polite(w, events[0]) && PoliteRun(Next(w, events[0]), events[1..]))
  }

  /** Ends under way are of different requests, and of none that has its result. */
  ghost predicate PipeInv(w: World) {
    && (forall r :: 0 <= r < |w.client.requests| && w.client.requests[r].outcome.Resolved? ==> r in w.ended)
    && (forall i :: 0 <= i < |w.pipe| && w.pipe[i].AgentEnd? ==> UnderWay(w, w.pipe[i].answers))
    && (forall i, j :: 0 <= i < j < |w.pipe| && w.pipe[i].AgentEnd? && w.pipe[j].AgentEnd? ==>
          w.pipe[i].answers != w.pipe[j].answers)
  }

  ghost predicate UnderWay(w: World, t: nat) {
    t < |w.client.requests| && t in w.ended && !w.client.requests[t].outcome.Resolved?
  }

  lemma NoResultKeeps(w: World, w': World)
    requires PipeInv(w) && NoResult(w.client, w'.client) && w.ended <= w'.ended
    requires w'.pipe == w.pipe || (w.pipe != [] && w'.pipe == w.pipe[1..])
    ensures PipeInv(w')
  {
  }

  lemma PoliteSteps(w: World, e: Event)
    requires Enabled(w, e) && Polite(w, e) && Inv(w.client) && PipeInv(w)
    ensures !StrayEnd(w, e) && PipeInv(Next(w, e))
  {
    match e {
      case Deliver => DeliverKeeps(w);
      case Emit(line) => EmitKeeps(w, line);
      case _ =>
        QuietStep(w, e);
        NoResultKeeps(w, Next(w, e));
    }
  }

  lemma EmitKeeps(w: World, line: Line)
    requires Enabled(w, Emit(line)) && Polite(w, Emit(line)) && PipeInv(w)
    ensures PipeInv(Next(w, Emit(line)))
  {
  }

  lemma OnlyLastUnderWay(w: World, i: nat)
    requires Inv(w.client) && PipeInv(w) && i < |w.pipe|
    ensures w.pipe[i].AgentEnd? ==> w.pipe[i].answers == |w.client.requests| - 1
  {
  }

  lemma DeliverKeeps(w: World)
    requires Enabled(w, Deliver) && Inv(w.client) && PipeInv(w)
    ensures !StrayEnd(w, Deliver) && PipeInv(Next(w, Deliver))
  {
    var s, s', line := w.client, OnLine(w.client, w.pipe[0]), w.pipe[0];
    OnlyLastUnderWay(w, 0);
    if s.pending.Some? && line.AgentEnd? && line.usable {
      var last := |s.requests| - 1;
      assert s' == SettlePending(s, Resolved(last));
      assert s'.requests == s.requests[last := s'.requests[last]] && s'.requests[last].outcome == Resolved(last);
      forall i | 0 < i < |w.pipe| ensures !w.pipe[i].AgentEnd? {
        OnlyLastUnderWay(w, i);
      }
    } else {
      NoResultKeeps(w, Next(w, Deliver));
    }
  }

  lemma {:induction false} PoliteHasNoStrays(w: World, events: seq<Event>)
    requires Runs(w, events) && PoliteRun(w, events) && Inv(w.client) && PipeInv(w)
    ensures NoStrayEnds(w, events)
    decreases |events|
  {
    hide Inv, Next, Enabled, PipeInv, Polite, StrayEnd;
    if events != [] {
      InvSteps(w, events[0]);
      PoliteSteps(w, events[0]);
      PoliteHasNoStrays(Next(w, events[0]), events[1..]);
    }
  }

  /** In every run in which the process ends each request at most once, a prompt that resolves has its own reply. */
  lemma NoReplyMisplaced(events: seq<Event>)
    requires Runs(START, events) && PoliteRun(START, events)
    ensures Credited(After(START, events).client)
  {
    PoliteHasNoStrays(START, events);
    RepliesCreditedIff(events);
  }

  /** Such a run exists: a second end of the first request is taken for the reply to the second. */
  lemma SecondEndMisplaced()
    ensures exists events :: Runs(START, events) && !Credited(After(START, events).client)
  {
    hide Next, Enabled;
    var end := Emit(AgentEnd(0, true));
    var w5, w6, w7, w8 := Ended(2, 0), Ended(1, 1), Ended(1, 2), Ended(0, 3);
    SecondPart();
    RunsCons(w7, Deliver, []);
    RunsCons(w6, Link, [Deliver]);
    RunsCons(w5, Deliver, [Link, Deliver]);
    FirstPart();
    var w2, w3, w4 := Begun(0), Begun(1), Begun(2);
    RunsCons(w4, end, [Deliver, Link, Deliver]);
    RunsCons(w3, end, [end, Deliver, Link, Deliver]);
    RunsCons(w2, Link, [end, end, Deliver, Link, Deliver]);
    RunsCons(Next(START, Prompt), Prompt, [Link, end, end, Deliver, Link, Deliver]);
    RunsCons(START, Prompt, [Prompt, Link, end, end, Deliver, Link, Deliver]);
    assert w8.client.requests[1].outcome == Resolved(0);
  }

  /** The worlds of that run before the first delivery. */
  function Begun(k: nat): World {
    var open := State(false, Some(0), false, [Request(Unsettled, true, true)], 2, 0, Waiting);
    if k == 0 then World(INITIAL.(calls := 2), [], {}, {})
    else if k == 1 then World(open, [], {}, {})
    else World(open, [AgentEnd(0, true)], {0}, {})
  }

  /** The worlds after both ends were sent, by the number of ends under way and of steps taken. */
  function Ended(ends: nat, k: nat): World {
    var done := Request(Resolved(0), false, false);
    var client :=
      if k == 0 then State(false, Some(0), false, [Request(Unsettled, true, true)], 2, 0, Waiting)
      else if k == 1 then State(false, None, false, [done], 2, 0, Fulfilled)
      else if k == 2 then State(false, Some(1), false, [done, Request(Unsettled, true, true)], 2, 0, Waiting)
      else State(false, None, false, [done, done], 2, 0, Fulfilled);
    World(client, seq(ends, _ => AgentEnd(0, true)), {0}, {})
  }

  lemma FirstPart()
    ensures Enabled(START, Prompt) && Enabled(Next(START, Prompt), Prompt)
    ensures Next(Next(START, Prompt), Prompt) == Begun(0)
    ensures Enabled(Begun(0), Link) && Next(Begun(0), Link) == Begun(1)
    ensures Enabled(Begun(1), Emit(AgentEnd(0, true))) && Next(Begun(1), Emit(AgentEnd(0, true))) == Begun(2)
    ensures Enabled(Begun(2), Emit(AgentEnd(0, true))) && Next(Begun(2), Emit(AgentEnd(0, true))) == Ended(2, 0)
  {
  }

  lemma SecondPart()
    ensures Enabled(Ended(2, 0), Deliver) && Next(Ended(2, 0), Deliver) == Ended(1, 1)
    ensures Enabled(Ended(1, 1), Link) && Next(Ended(1, 1), Link) == Ended(1, 2)
    ensures Enabled(Ended(1, 2), Deliver) && Next(Ended(1, 2), Deliver) == Ended(0, 3)
  {
  }

  lemma RunsCons(w: World, e: Event, rest: seq<Event>)
    requires Enabled(w, e) && Runs(Next(w, e), rest)
    ensures Runs(w, [e] + rest) && After(w, [e] + rest) == After(Next(w, e), rest)
  {
  }

  // ----- the client object -----

  class PiRpcClient {
    var closed: bool
    var pending: Option<nat>
    var responseReceived: bool
    var requests: seq<Request>
    var calls: nat
    var refused: nat
    var sequence: Chain

    ghost function View(): State
      reads this
    {
      State(closed, pending, responseReceived, requests, calls, refused, sequence)
    }

    /** The client is in a state that the protocol allows. */
    ghost predicate Valid()
      reads this
    {
      Inv(View())
    }

    constructor ()
      ensures Valid() && View() == INITIAL
    {
      closed, pending, responseReceived := false, None, false;
      requests, calls, refused, sequence := [], 0, 0, Fulfilled;
    }

    method SettlePromise(r: nat, outcome: Outcome)
      modifies this
      ensures View() == Settle(old(View()), r, outcome)
    {
      if r < |requests| && requests[r].outcome.Unsettled? {
        requests := requests[r := requests[r].(outcome := outcome)];
        sequence := if outcome.Resolved? then Fulfilled else Broken;
      }
    }

    method ClearBoth(r: nat)
      modifies this
      ensures View() == ClearTimers(old(View()), r)
    {
      if r < |requests| {
        requests := requests[r := requests[r].(timer := false, heartbeat := false)];
      }
    }

    method CloseOnce()
      modifies this
      ensures View() == old(View()).(closed := true)
    {
      if closed {
        return;
      }
      closed := true;
    }

    method RejectPending()
      requires Valid()
      modifies this
      ensures Valid() && View() == SettlePending(old(View()), Rejected)
    {
      InvSettle(View(), Rejected);
      hide Inv;
      var slot := pending;
      pending := None;
      if slot.Some? {
        ClearBoth(slot.value);
        SettlePromise(slot.value, Rejected);
      }
    }

    method HandleStdoutLine(line: Line)
      requires Valid()
      modifies this
      ensures Valid() && View() == OnLine(old(View()), line)
    {
      InvLine(View(), line);
      hide Inv;
      if pending.None? {
        return;
      }
      var id := pending.value;
      match line {
        case Response(of, success) =>
          if of != id {
            return;
          }
          if !success {
            RejectPending();
            return;
          }
          responseReceived := true;
        case AgentEnd(answers, usable) =>
          pending := None;
          ClearBoth(id);
          SettlePromise(id, if usable then Resolved(answers) else Rejected);
        case Noise =>
      }
    }

    /** A timer that has not been cleared fires. */
    method HandleTimeout(r: nat)
      requires Valid() && r < |requests| && requests[r].timer
      modifies this
      ensures Valid() && View() == OnTimeout(old(View()), r)
    {
      InvTimeout(View(), r);
      hide Inv;
      requests := requests[r := requests[r].(timer := false)];
      if pending == Some(r) {
        pending := None;
        requests := requests[r := requests[r].(heartbeat := false)];
        CloseOnce();
        SettlePromise(r, Rejected);
      }
    }

    method HandleWritten(r: nat, failed: bool)
      requires Valid() && r < |requests|
      modifies this
      ensures Valid() && View() == OnWritten(old(View()), r, failed)
    {
      InvWritten(View(), r, failed);
      hide Inv;
      if !failed {
        return;
      }
      ClearBoth(r);
      if pending == Some(r) {
        pending := None;
      }
      SettlePromise(r, Rejected);
    }

    method HandleClose()
      requires Valid()
      modifies this
      ensures Valid() && View() == SettlePending(old(View()).(closed := true), Rejected)
    {
      closed := true;
      RejectPending();
    }

    method CloseClient()
      requires Valid()
      modifies this
      ensures Valid() && View() == old(View()).(closed := true)
    {
      CloseOnce();
    }

    /** A call of prompt chains one more link. */
    method ChainPrompt()
      requires Valid()
      modifies this
      ensures Valid() && View() == old(View()).(calls := old(calls) + 1)
    {
      calls := calls + 1;
    }

    /** A link of the chain: skipped after a rejection, refused when closed, otherwise it sends the next request. */
    method RunPrompt()
      requires Valid() && |requests| + refused < calls && !sequence.Waiting?
      modifies this
      ensures Valid() && View() == RunLink(old(View()))
    {
      InvLink(View());
      hide Inv;
      if sequence.Broken? {
        refused := refused + 1;
        return;
      }
      if closed {
        refused := refused + 1;
        sequence := Broken;
        return;
      }
      var id := |requests|;
      requests := requests + [Request(Unsettled, true, true)];
      pending := Some(id);
      responseReceived := false;
      sequence := Waiting;
    }

    /** The callback of one event; `line` is the next one of the process. */
    method Handle(e: Event, line: Line, ghost w: World)
      requires Valid() && View() == w.client && Enabled(w, e) && (e.Deliver? ==> line == w.pipe[0])
      modifies this
      ensures Valid() && View() == Next(w, e).client
    {
      match e {
        case Prompt => ChainPrompt();
        case Link => RunPrompt();
        case Emit(_) =>
        case Deliver => HandleStdoutLine(line);
        case Timeout(r) => HandleTimeout(r);
        case Written(r, failed) => HandleWritten(r, failed);
        case ProcessError => RejectPending();
        case ProcessClose => HandleClose();
        case Close => CloseClient();
      }
    }
  }

  /** A client that is called back for the events of any run ends in the run's state. */
  method Play(events: seq<Event>) returns (client: PiRpcClient)
    requires Runs(START, events)
    ensures client.Valid() && client.View() == After(START, events).client
  {
    hide Enabled, Inv;
    client := new PiRpcClient();
    var pipe: seq<Line> := [];
    ghost var w := START;
    for i := 0 to |events|
      invariant fresh(client) && client.Valid() && client.View() == w.client && pipe == w.pipe
      invariant Runs(w, events[i..]) && After(w, events[i..]) == After(START, events)
    {
      var e := events[i];
      assert events[i..][0] == e && events[i..][1..] == events[i + 1..];
      DeliverReady(w, e);
      client.Handle(e, if e.Deliver? then pipe[0] else Noise, w);
      if e.Emit? {
        pipe := pipe + [e.line];
      } else if e.Deliver? {
        pipe := pipe[1..];
      }
      w := Next(w, e);
    }
  }

  lemma DeliverReady(w: World, e: Event)
    requires Enabled(w, e)
    ensures e.Deliver? ==> w.pipe != []
  {
  }
}
