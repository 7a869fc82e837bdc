/** The runtime import-cycle check: strongly connected components, cycle witnesses and the verdict. */
module ImportCycles {
  import opened Graphs
  import opened Options
  import opened Sequences

  type Name = string

  // ----- what the walk must compute -----

  /** A listed component: a whole class of mutually reachable nodes that contains a cycle. */
  ghost predicate IsComponent(g: Graph<Name>, c: seq<Name>) {
    && |c| > 0
    && Distinct(c)
    && (forall x, y :: x in c ==> (y in c <==> Mutual(g, x, y)))
    && (|c| > 1 || c[0] in Succ(g, c[0]))
  }

  /** The components found once the nodes in `done` are finished. */
  ghost predicate Output(g: Graph<Name>, done: set<Name>, comps: seq<seq<Name>>) {
    && (forall i, x :: 0 <= i < |comps| && x in comps[i] ==> x in done)
    && (forall i :: 0 <= i < |comps| ==> IsComponent(g, comps[i]))
    && (forall i, j, x :: 0 <= i < j < |comps| && x in comps[i] ==> x !in comps[j])
    && (forall x :: x in done && OnCycle(g, x) ==> Listed(comps, x))
  }

  ghost predicate Listed(comps: seq<seq<Name>>, x: Name) {
    exists i :: 0 <= i < |comps| && x in comps[i]
  }

  ghost predicate AllSorted(comps: seq<seq<Name>>, le: (Name, Name) -> bool) {
    forall i :: 0 <= i < |comps| ==> SortedBy(comps[i], le)
  }

  /** The list holds every class of mutually reachable nodes that contains a cycle, each once. */
  ghost predicate ListsCyclicClasses(g: Graph<Name>, comps: seq<seq<Name>>) {
    && (forall i :: 0 <= i < |comps| ==> IsComponent(g, comps[i]))
    && (forall i, j, x :: 0 <= i < j < |comps| && x in comps[i] ==> x !in comps[j])
    && (forall x :: OnCycle(g, x) <==> Listed(comps, x))
  }

  // ----- the state of the walk -----

  datatype State = State(
    next: nat, stack: seq<Name>, onStack: set<Name>,
    index: map<Name, nat>, low: map<Name, nat>, comps: seq<seq<Name>>)
  {
    ghost function Done(): set<Name> { index.Keys - onStack }
  }

  ghost predicate Shape(s: State) {
    && s.low.Keys == s.index.Keys
    && s.onStack <= s.index.Keys
    && (forall x :: x in s.index ==> s.index[x] < s.next)
    && (forall x :: x in s.onStack <==> x in s.stack)
    && Distinct(s.stack)
  }

  /** Finished nodes lead only to finished nodes, and their cyclic classes are the ones listed. */
  ghost predicate Settled(g: Graph<Name>, s: State) {
    && s.index.Keys <= Nodes(g)
    && Closed(g, s.Done())
    && "" !in s.Done()
    && Output(g, s.Done(), s.comps)
  }

  ghost predicate Inv(g: Graph<Name>, s: State) {
    Shape(s) && Settled(g, s)
  }

  /** Later states only add newer nodes, and keep what was on the stack where it was. */
  ghost predicate Grows(s: State, t: State) {
    && s.next <= t.next
    && (forall x :: x in s.index ==> x in t.index && t.index[x] == s.index[x])
    && (forall x :: x in t.index && x !in s.index ==> t.index[x] >= s.next)
    && (forall x :: x in s.index ==> (x in t.onStack <==> x in s.onStack))
    && s.stack <= t.stack
  }

  ghost predicate LowKept(s: State, t: State) {
    forall x :: x in s.low && x in t.low ==> t.low[x] == s.low[x]
  }

  ghost predicate AllReach(g: Graph<Name>, nodes: set<Name>, v: Name) {
    forall y :: y in nodes ==> Reach(g, y, v)
  }

  /** Successors of the nodes visited since `s`, apart from `but`, have been visited. */
  ghost predicate LeadsToVisited(g: Graph<Name>, s: State, t: State, but: set<Name>) {
    forall u, w :: u in t.index && u !in s.index && u !in but && w in Succ(g, u) ==> w in t.index
  }

  /** Some node of `below` is reachable from `v` and has the index recorded as the low link of `v`. */
  ghost predicate LowWitness(g: Graph<Name>, t: State, below: set<Name>, v: Name) {
    exists y :: y in below && y in t.index && v in t.low && t.low[v] == t.index[y] && Reach(g, v, y)
  }

  ghost predicate LowBound(t: State, below: set<Name>, v: Name, w: Name) {
    w in below && w in t.index && v in t.low ==> t.low[v] <= t.index[w]
  }

  /** Edges from the nodes stacked since `s`, apart from `but`, into the old stack respect the low link of `v`. */
  ghost predicate LowBounds(g: Graph<Name>, s: State, t: State, v: Name, but: set<Name>) {
    forall u, w :: u in t.onStack && u !in s.onStack && u !in but && w in Succ(g, u) ==> LowBound(t, s.onStack, v, w)
  }

  /** `v` finished and its whole class was popped. */
  ghost predicate Retired(s: State, t: State, v: Name) {
    t.stack == s.stack && t.onStack == s.onStack && v in t.low && v in t.index && t.low[v] == t.index[v]
  }

  /** `v` finished but its class is still open: it leads below itself on the stack. */
  ghost predicate Pending(g: Graph<Name>, s: State, t: State, v: Name) {
    && v in t.onStack
    && LowWitness(g, t, s.onStack, v)
    && (forall y :: y in t.onStack && y !in s.onStack ==> Mutual(g, v, y))
    && LowBounds(g, s, t, v, {})
  }

  ghost predicate Visited(g: Graph<Name>, s: State, t: State, v: Name) {
    && Inv(g, t)
    && Grows(s, t)
    && LowKept(s, t)
    && LeadsToVisited(g, s, t, {})
    && v in t.index && v !in s.index
    && (Retired(s, t, v) || Pending(g, s, t, v))
  }

  // While `v` is being scanned, `s` is the state before its visit and `us` the successors looked at so far.

  ghost predicate Entered(g: Graph<Name>, s: State, t: State, v: Name) {
    && Inv(g, t)
    && Grows(s, t)
    && LowKept(s, t)
    && v !in s.index && v !in s.low && v in t.onStack && t.index[v] == s.next
    && |s.stack| < |t.stack| && t.stack[|s.stack|] == v
  }

  ghost predicate Explored(g: Graph<Name>, s: State, t: State, v: Name, us: seq<Name>) {
    && LeadsToVisited(g, s, t, {v})
    && (forall w :: w in us ==> w in t.index)
  }

  ghost predicate Linked(g: Graph<Name>, s: State, t: State, v: Name) {
    && AllReach(g, t.onStack, v)
    && (forall y :: y in t.onStack && y !in s.onStack ==> Reach(g, v, y))
  }

  ghost predicate Lows(g: Graph<Name>, s: State, t: State, v: Name, us: seq<Name>) {
    && v in t.low && v in t.index && t.low[v] <= t.index[v]
    && LowWitness(g, t, t.onStack, v)
    && LowBounds(g, s, t, v, {v})
    && (forall w :: w in us ==> LowBound(t, s.onStack, v, w))
  }

  ghost predicate Scanning(g: Graph<Name>, s: State, t: State, v: Name, us: seq<Name>) {
    && Entered(g, s, t, v)
    && Explored(g, s, t, v, us)
    && Linked(g, s, t, v)
    && Lows(g, s, t, v, us)
  }

  function Min(a: nat, b: nat): nat {
    if a < b then a else b
  }

  function Opened(s: State, v: Name): State {
    State(s.next + 1, s.stack + [v], s.onStack + {v}, s.index[v := s.next], s.low[v := s.next], s.comps)
  }

  function LowSet(t: State, v: Name, bound: nat): State
    requires v in t.low
  {
    t.(low := t.low[v := Min(t.low[v], bound)])
  }

  lemma ScanStart(g: Graph<Name>, s: State, v: Name)
    requires Inv(g, s) && v in Nodes(g) && v !in s.index && AllReach(g, s.onStack, v)
    ensures Scanning(g, s, Opened(s, v), v, [])
  {
    hide Reach;
    hide Output;
    var t := Opened(s, v);
    ReachSelf(g, v);
    assert t.Done() == s.Done();
    assert LowWitness(g, t, t.onStack, v) by {
      assert v in t.onStack && v in t.index;
    }
  }

  lemma LowSetEntered(g: Graph<Name>, s: State, t: State, v: Name, bound: nat)
    requires Entered(g, s, t, v)
    ensures Entered(g, s, LowSet(t, v, bound), v)
  {
  }

  /** The successor `c` was already visited and is still on the stack. */
  lemma ScanStacked(g: Graph<Name>, s: State, t: State, v: Name, us: seq<Name>, c: Name)
    requires Scanning(g, s, t, v, us) && c in Succ(g, v) && c in t.onStack
    ensures Scanning(g, s, LowSet(t, v, t.index[c]), v, us + [c])
  {
    hide Reach;
    hide Output;
    var r := LowSet(t, v, t.index[c]);
    LowSetEntered(g, s, t, v, t.index[c]);
    ReachEdge(g, v, c);
    var y :| y in t.onStack && y in t.index && t.low[v] == t.index[y] && Reach(g, v, y);
    assert r.low[v] == r.index[c] || r.low[v] == r.index[y];
    assert LowWitness(g, r, r.onStack, v);
    assert Linked(g, s, r, v);
    assert Explored(g, s, r, v, us + [c]);
    assert LowBounds(g, s, r, v, {v}) by {
      assert forall w :: LowBound(t, s.onStack, v, w) ==> LowBound(r, s.onStack, v, w);
    }
  }

  /** The successor `c` was already visited and is finished. */
  lemma ScanFinished(g: Graph<Name>, s: State, t: State, v: Name, us: seq<Name>, c: Name)
    requires Inv(g, s) && Scanning(g, s, t, v, us) && c in t.index && c !in t.onStack
    ensures Scanning(g, s, t, v, us + [c])
  {
  }

  lemma ChildEntered(g: Graph<Name>, s: State, t: State, u: State, v: Name, c: Name)
    requires Shape(s) && Entered(g, s, t, v) && Visited(g, t, u, c)
    ensures Entered(g, s, u, v)
    ensures u.low[v] == t.low[v]
  {
  }

  lemma ChildExplored(g: Graph<Name>, s: State, t: State, u: State, v: Name, us: seq<Name>, c: Name)
    requires Explored(g, s, t, v, us) && Visited(g, t, u, c)
    ensures Explored(g, s, u, v, us + [c])
  {
  }

  lemma ChildLinked(g: Graph<Name>, s: State, t: State, u: State, v: Name, c: Name)
    requires Linked(g, s, t, v) && Visited(g, t, u, c) && c in Succ(g, v)
    ensures Linked(g, s, u, v)
  {
    hide Reach;
    hide Output;
    if Pending(g, t, u, c) {
      ReachEdge(g, v, c);
      var y :| y in t.onStack && y in u.index && u.low[c] == u.index[y] && Reach(g, c, y);
      ReachTrans(g, c, y, v);
      forall x | x in u.onStack && x !in t.onStack
        ensures Mutual(g, v, x)
      {
        ReachTrans(g, v, c, x);
        ReachTrans(g, x, c, v);
      }
    }
  }

  lemma ChildLowWitness(g: Graph<Name>, s: State, t: State, u: State, v: Name, us: seq<Name>, c: Name)
    requires Lows(g, s, t, v, us) && Visited(g, t, u, c) && c in Succ(g, v)
    requires v in u.low && u.low[v] == t.low[v] && Shape(t)
    ensures LowWitness(g, LowSet(u, v, u.low[c]), u.onStack, v)
  {
    hide Reach;
    hide Settled;
    hide LowBounds;
    var r := LowSet(u, v, u.low[c]);
    var z :| z in t.onStack && z in t.index && t.low[v] == t.index[z] && Reach(g, v, z);
    assert z in u.onStack && u.index[z] == t.index[z];
    if Retired(t, u, c) {
      assert u.low[c] >= t.next;
      assert r.low[v] == r.index[z];
    } else {
      ReachEdge(g, v, c);
      var y :| y in t.onStack && y in u.index && u.low[c] == u.index[y] && Reach(g, c, y);
      ReachTrans(g, v, c, y);
      assert r.low[v] == r.index[y] || r.low[v] == r.index[z];
    }
  }

  lemma ChildLowBounds(g: Graph<Name>, s: State, t: State, u: State, v: Name, c: Name)
    requires LowBounds(g, s, t, v, {v}) && Visited(g, t, u, c)
    requires s.onStack <= t.onStack && v in u.low && v in t.low && u.low[v] == t.low[v] && Shape(t)
    ensures LowBounds(g, s, LowSet(u, v, u.low[c]), v, {v})
  {
    hide LowWitness;
    hide Settled;
    var r := LowSet(u, v, u.low[c]);
    forall a, w | a in r.onStack && a !in s.onStack && a !in {v} && w in Succ(g, a)
      ensures LowBound(r, s.onStack, v, w)
    {
      if a in t.onStack {
        assert LowBound(t, s.onStack, v, w);
      } else {
        assert LowBound(u, t.onStack, c, w);
      }
    }
  }

  /** The successor `c` was new and its visit has finished in state `u`. */
  lemma ScanChild(g: Graph<Name>, s: State, t: State, u: State, v: Name, us: seq<Name>, c: Name)
    requires Inv(g, s) && Scanning(g, s, t, v, us) && Visited(g, t, u, c) && c in Succ(g, v)
    ensures v in u.low && c in u.low
    ensures Scanning(g, s, LowSet(u, v, u.low[c]), v, us + [c])
  {
    hide Reach;
    hide Settled;
    hide LowWitness;
    hide LowBounds;
    hide Linked;
    hide Explored;
    hide LeadsToVisited;
    hide Pending;
    ChildEntered(g, s, t, u, v, c);
    LowSetEntered(g, s, u, v, u.low[c]);
    ChildExplored(g, s, t, u, v, us, c);
    ChildLinked(g, s, t, u, v, c);
    ChildLowWitness(g, s, t, u, v, us, c);
    assert s.onStack <= t.onStack;
    ChildLowBounds(g, s, t, u, v, c);
    assert c !in s.onStack;
    LowSetKeeps(g, s, u, v, us + [c], u.low[c]);
  }

  /** Changing a low link does not touch what else is known while scanning. */
  lemma LowSetKeeps(g: Graph<Name>, s: State, t: State, v: Name, us: seq<Name>, bound: nat)
    requires v in t.low
    ensures Linked(g, s, t, v) ==> Linked(g, s, LowSet(t, v, bound), v)
    ensures Explored(g, s, t, v, us) ==> Explored(g, s, LowSet(t, v, bound), v, us)
  {
  }

  /** What the visit of a new successor needs, and what keeps the map accesses defined. */
  lemma ScanReady(g: Graph<Name>, s: State, t: State, v: Name, us: seq<Name>)
    requires Inv(g, s) && Scanning(g, s, t, v, us)
    ensures Inv(g, t)
    ensures v in t.low && v in t.index && t.low.Keys == t.index.Keys
    ensures s.index.Keys <= t.index.Keys && t.index.Keys <= Nodes(g)
    ensures forall c :: c in Succ(g, v) ==> c in Nodes(g) && AllReach(g, t.onStack, c)
  {
    hide Reach;
    hide Output;
    NodesClosed(g);
    forall c | c in Succ(g, v) ensures AllReach(g, t.onStack, c) {
      ReachEdge(g, v, c);
      forall y | y in t.onStack ensures Reach(g, y, c) {
        ReachTrans(g, y, v, c);
      }
    }
  }

  /** All successors looked at and the low link went below `v`: the class stays open. */
  lemma ScanPends(g: Graph<Name>, s: State, t: State, v: Name)
    requires Scanning(g, s, t, v, Succ(g, v))
    requires t.low[v] != t.index[v]
    ensures Visited(g, s, t, v)
  {
  }

  // ----- popping a finished class -----

  ghost function Segment(s: State, t: State): set<Name> {
    t.onStack - s.onStack
  }

  /** No edge of the popped segment leads to the old stack, so with the finished nodes it is closed. */
  lemma SegmentCloses(g: Graph<Name>, s: State, t: State, v: Name)
    requires Inv(g, s) && Scanning(g, s, t, v, Succ(g, v))
    requires t.low[v] == t.index[v]
    ensures Closed(g, t.Done() + Segment(s, t))
  {
    hide Reach;
    hide Output;
    forall u, w | u in Segment(s, t) && w in Succ(g, u)
      ensures w in t.Done() + Segment(s, t)
    {
      assert w in t.index;
      assert LowBound(t, s.onStack, v, w);
    }
  }

  /** The popped segment is exactly one class of mutually reachable nodes. */
  lemma SegmentIsClass(g: Graph<Name>, s: State, t: State, v: Name, x: Name, y: Name)
    requires Inv(g, s) && Scanning(g, s, t, v, Succ(g, v))
    requires t.low[v] == t.index[v]
    requires x in Segment(s, t)
    ensures y in Segment(s, t) <==> Mutual(g, x, y)
  {
    hide Reach;
    hide Output;
    if y in Segment(s, t) {
      ReachTrans(g, x, v, y);
      ReachTrans(g, y, v, x);
    } else if Mutual(g, x, y) {
      SegmentCloses(g, s, t, v);
      ClosedReach(g, t.Done() + Segment(s, t), x, y);
      ClosedReach(g, t.Done(), y, x);
    }
  }

  /** A class of one node without a self-edge lies on no cycle. */
  lemma LoneNodeOffCycle(g: Graph<Name>, v: Name)
    requires forall y :: Reach(g, v, y) && Reach(g, y, v) ==> y == v
    requires v !in Succ(g, v)
    ensures !OnCycle(g, v)
  {
    hide Reach;
    if OnCycle(g, v) {
      var w :| w in Succ(g, v) && Reach(g, w, v);
      ReachEdge(g, v, w);
    }
  }

  /** The list grows by the class when it has several nodes or a self-edge, and stays otherwise. */
  ghost predicate Recorded(g: Graph<Name>, v: Name, segment: set<Name>, before: seq<seq<Name>>, comps: seq<seq<Name>>) {
    if segment != {v} || v in Succ(g, v)
    then |comps| == |before| + 1 && comps[..|before|] == before && Distinct(comps[|before|])
         && forall x :: x in comps[|before|] <==> x in segment
    else comps == before
  }

  lemma OutputExtends(g: Graph<Name>, done: set<Name>, segment: set<Name>, before: seq<seq<Name>>,
                      v: Name, comps: seq<seq<Name>>)
    requires Output(g, done, before) && done !! segment && v in segment
    requires forall x, y :: x in segment ==> (y in segment <==> Mutual(g, x, y))
    requires Recorded(g, v, segment, before, comps)
    ensures Output(g, done + segment, comps)
  {
    hide Reach;
    if segment != {v} || v in Succ(g, v) {
      var n := |before|;
      assert forall i :: 0 <= i < n ==> comps[i] == before[i];
      assert v in comps[n];
      assert IsComponent(g, comps[n]) by {
        if |comps[n]| == 1 {
          assert comps[n][0] == v;
          assert forall x :: x in comps[n] ==> x == v;
        }
      }
      forall x | x in done + segment && OnCycle(g, x) ensures Listed(comps, x) {
        if x in done {
          var i :| 0 <= i < n && x in before[i];
          assert x in comps[i];
        } else {
          assert x in comps[n];
        }
      }
    } else {
      assert forall y :: Mutual(g, v, y) ==> y == v;
      assert forall y :: Reach(g, v, y) && Reach(g, y, v) ==> Mutual(g, v, y);
      LoneNodeOffCycle(g, v);
    }
  }


  lemma SegmentReady(g: Graph<Name>, s: State, t: State, v: Name)
    requires Inv(g, s) && Scanning(g, s, t, v, Succ(g, v))
    ensures |s.stack| < |t.stack| && t.stack[|s.stack|] == v && t.stack[..|s.stack|] == s.stack
    ensures Distinct(t.stack) && Distinct(t.stack[|s.stack|..])
    ensures s.onStack <= t.onStack
    ensures forall x :: x in t.stack[|s.stack|..] <==> x in Segment(s, t)
    ensures Segment(s, t) <= Nodes(g)
  {
  }

  function WithComponent(g: Graph<Name>, v: Name, component: seq<Name>, le: (Name, Name) -> bool,
                         comps: seq<seq<Name>>): seq<seq<Name>> {
    if |component| > 1 || v in Succ(g, v) then comps + [ToSorted(component, le)] else comps
  }

  lemma RecordComponent(g: Graph<Name>, v: Name, component: seq<Name>, le: (Name, Name) -> bool,
                        comps: seq<seq<Name>>, segment: set<Name>)
    requires Distinct(component) && v in component
    requires forall x :: x in component <==> x in segment
    ensures Recorded(g, v, segment, comps, WithComponent(g, v, component, le, comps))
    ensures TotalPreorder(le) && AllSorted(comps, le) ==> AllSorted(WithComponent(g, v, component, le, comps), le)
  {
    SegmentSize(component, v, segment);
    SameElements(component, ToSorted(component, le));
    if TotalPreorder(le) {
      ToSortedSorted(component, le);
    }
  }

  lemma SegmentSize(component: seq<Name>, v: Name, segment: set<Name>)
    requires Distinct(component) && v in component
    requires forall x :: x in component <==> x in segment
    ensures |component| > 1 <==> segment != {v}
  {
    if |component| == 1 {
      assert component == [v];
    } else {
      assert component[0] != component[1];
      assert component[0] in segment && component[1] in segment;
    }
  }

  function Popped(s: State, t: State, comps: seq<seq<Name>>): State {
    State(t.next, s.stack, s.onStack, t.index, t.low, comps)
  }

  lemma ScanRetires(g: Graph<Name>, s: State, t: State, v: Name, comps: seq<seq<Name>>)
    requires Inv(g, s) && Scanning(g, s, t, v, Succ(g, v))
    requires t.low[v] == t.index[v]
    requires "" !in Segment(s, t)
    requires Recorded(g, v, Segment(s, t), t.comps, comps)
    ensures Visited(g, s, Popped(s, t, comps), v)
  {
    hide Reach;
    hide Output;
    var r := Popped(s, t, comps);
    assert r.Done() == t.Done() + Segment(s, t);
    SegmentCloses(g, s, t, v);
    forall x, y | x in Segment(s, t) ensures y in Segment(s, t) <==> Mutual(g, x, y) {
      SegmentIsClass(g, s, t, v, x, y);
    }
    OutputExtends(g, t.Done(), Segment(s, t), t.comps, v, comps);
  }

  // ----- the walk -----

  /** The mutable variables that the recursive closure shares. */
  class ComponentWalk {
    const graph: Graph<Name>
    const le: (Name, Name) -> bool
    var nextIndex: nat
    var stack: seq<Name>
    var onStack: set<Name>
    var indexByNode: map<Name, nat>
    var lowLinkByNode: map<Name, nat>
    var components: seq<seq<Name>>

    constructor (graph: Graph<Name>, le: (Name, Name) -> bool)
      ensures this.graph == graph && this.le == le
      ensures Snap() == State(0, [], {}, map[], map[], [])
    {
      this.graph := graph;
      this.le := le;
      nextIndex, stack, onStack := 0, [], {};
      indexByNode, lowLinkByNode, components := map[], map[], [];
    }

    ghost function Snap(): State
      reads this
    {
      State(nextIndex, stack, onStack, indexByNode, lowLinkByNode, components)
    }

    /** The do-while loop that pops the class of `node`; `ok` is false when it throws. */
    method PopComponent(node: Name, ghost base: nat) returns (component: seq<Name>, ok: bool)
      requires base < |stack| && stack[base] == node
      requires Distinct(stack)
      modifies this`stack, this`onStack
      ensures ok <==> "" !in old(stack)[base..]
      ensures ok ==> stack == old(stack)[..base]
      ensures ok ==> onStack == old(onStack) - set x | x in component
      ensures ok ==> multiset(component) == multiset(old(stack)[base..])
    {
      component := [];
      ok := true;
      var current := "";
      var more := true;
      while more
        invariant base <= |stack| <= |old(stack)| && stack == old(stack)[..|stack|]
        invariant multiset(component) == multiset(old(stack)[|stack|..])
        invariant "" !in old(stack)[|stack|..]
        invariant onStack == old(onStack) - set x | x in component
        invariant more <==> |stack| > base
        decreases |stack|
      {
        if |stack| == 0 {
          return component, false;
        }
        var n := |stack| - 1;
        current := stack[n];
        assert old(stack)[n..] == [current] + old(stack)[n + 1..];
        assert old(stack)[base..][n - base] == current;
        stack := stack[..n];
        if current == "" {
          return component, false;
        }
        onStack := onStack - {current};
        component := component + [current];
        more := current != node;
        assert more <==> n > base by {
          assert old(stack)[n] == current && old(stack)[base] == node;
        }
      }
    }

    /** Visits an unvisited node; `ok` is false when the underflow error is thrown. */
    method Visit(node: Name) returns (ok: bool)
      requires Inv(graph, Snap())
      requires node in Nodes(graph) && node !in indexByNode
      requires AllReach(graph, onStack, node)
      modifies this
      ensures ok ==> Visited(graph, old(Snap()), Snap(), node)
      ensures TotalPreorder(le) && AllSorted(old(components), le) ==> AllSorted(components, le)
      ensures !ok ==> "" in Nodes(graph)
      decreases Nodes(graph) - indexByNode.Keys
    {
      hide Reach;
      hide Output;
      hide Inv;
      hide Scanning;
      hide Visited;
      hide AllReach;
      hide AllSorted;
      ghost var s := Snap();
      indexByNode := indexByNode[node := nextIndex];
      lowLinkByNode := lowLinkByNode[node := nextIndex];
      nextIndex := nextIndex + 1;
      stack := stack + [node];
      onStack := onStack + {node};
      assert Snap() == Opened(s, node);
      ScanStart(graph, s, node);

      var nexts := Succ(graph, node);
      for k := 0 to |nexts|
        invariant Scanning(graph, s, Snap(), node, nexts[..k])
        invariant TotalPreorder(le) && AllSorted(s.comps, le) ==> AllSorted(components, le)
      {
        var next := nexts[k];
        assert nexts[..k + 1] == nexts[..k] + [next];
        ghost var t := Snap();
        ScanReady(graph, s, t, node, nexts[..k]);
        if next !in indexByNode {
          var visited := Visit(next);
          if !visited {
            return false;
          }
          ghost var u := Snap();
          ScanChild(graph, s, t, u, node, nexts[..k], next);
          lowLinkByNode := lowLinkByNode[node := Min(lowLinkByNode[node], lowLinkByNode[next])];
          assert Snap() == LowSet(u, node, u.low[next]);
        } else if next in onStack {
          ScanStacked(graph, s, t, node, nexts[..k], next);
          lowLinkByNode := lowLinkByNode[node := Min(lowLinkByNode[node], indexByNode[next])];
          assert Snap() == LowSet(t, node, t.index[next]);
        } else {
          ScanFinished(graph, s, t, node, nexts[..k], next);
        }
      }
      assert nexts[..|nexts|] == nexts;

      ghost var t := Snap();
      ScanReady(graph, s, t, node, nexts);
      if lowLinkByNode[node] != indexByNode[node] {
        ScanPends(graph, s, t, node);
        return true;
      }
      ok := Retire(node, s);
    }

    /** Pops the class rooted at `node` and lists it when it contains a cycle. */
    method Retire(node: Name, ghost s: State) returns (ok: bool)
      requires Inv(graph, s) && Scanning(graph, s, Snap(), node, Succ(graph, node))
      requires lowLinkByNode[node] == indexByNode[node]
      modifies this
      ensures ok ==> Visited(graph, s, Snap(), node)
      ensures TotalPreorder(le) && AllSorted(old(components), le) ==> AllSorted(components, le)
      ensures !ok ==> "" in Nodes(graph)
    {
      hide Reach;
      hide Inv;
      hide Scanning;
      hide Visited;
      hide Recorded;
      hide AllSorted;
      hide Distinct;
      hide Shape;
      ghost var t := Snap();
      SegmentReady(graph, s, t, node);
      ghost var segment := t.stack[|s.stack|..];
      var component, popped := PopComponent(node, |s.stack|);
      if !popped {
        return false;
      }
      SameElements(segment, component);
      assert segment[0] == node;
      assert onStack == s.onStack;
      assert "" !in Segment(s, t);
      RecordComponent(graph, node, component, le, components, Segment(s, t));
      if |component| > 1 || node in Succ(graph, node) {
        components := components + [ToSorted(component, le)];
      }
      ScanRetires(graph, s, t, node, components);
      assert Snap() == Popped(s, t, components);
      return true;
    }
  }

  // ----- the whole search -----

  function CycleSignature(files: seq<Name>, le: (Name, Name) -> bool): Name {
    Join(ToSorted(files, le), "\n")
  }

  /** Larger components first, equal sizes by signature. */
  predicate ComponentLe(a: seq<Name>, b: seq<Name>, le: (Name, Name) -> bool) {
    |a| > |b| || (|a| == |b| && le(CycleSignature(a, le), CycleSignature(b, le)))
  }

  function ComponentOrder(le: (Name, Name) -> bool): (seq<Name>, seq<Name>) -> bool {
    (a, b) => ComponentLe(a, b, le)
  }

  /** Every member of a component lies on a cycle. */
  lemma MemberOnCycle(g: Graph<Name>, c: seq<Name>, x: Name) returns (next: Name)
    requires IsComponent(g, c) && x in c
    ensures next in Succ(g, x) && next in c && Reach(g, next, x)
  {
    hide Reach;
    if |c| == 1 {
      next := x;
      ReachSelf(g, x);
    } else {
      var y := if c[0] == x then c[1] else c[0];
      assert Mutual(g, x, y);
      next := ReachFirstEdge(g, x, y);
      ReachTrans(g, next, y, x);
      ReachEdge(g, x, next);
      assert Mutual(g, x, next);
    }
  }

  lemma FinishedListsClasses(g: Graph<Name>, s: State)
    requires Inv(g, s) && s.onStack == {} && g.Keys <= s.index.Keys
    ensures ListsCyclicClasses(g, s.comps)
    ensures Nodes(g) == s.Done()
  {
    hide Reach;
    forall k, n | k in g && n in g[k] ensures n in s.Done() {
      assert n in Succ(g, k);
    }
    forall x ensures OnCycle(g, x) <==> Listed(s.comps, x) {
      if Listed(s.comps, x) {
        var i :| 0 <= i < |s.comps| && x in s.comps[i];
        var next := MemberOnCycle(g, s.comps[i], x);
      }
    }
  }

  /** Reordering the list keeps what it lists. */
  lemma ReorderKeepsClasses(g: Graph<Name>, a: seq<seq<Name>>, b: seq<seq<Name>>)
    requires ListsCyclicClasses(g, a) && multiset(a) == multiset(b)
    ensures ListsCyclicClasses(g, b)
  {
    hide Reach;
    hide OnCycle;
    forall i, j | 0 <= i < j < |a| ensures a[i] != a[j] {
      assert a[i][0] in a[i];
    }
    SameElements(a, b);
    forall x ensures Listed(a, x) <==> Listed(b, x) {
      if Listed(a, x) {
        var i :| 0 <= i < |a| && x in a[i];
        assert a[i] in b;
      }
      if Listed(b, x) {
        var i :| 0 <= i < |b| && x in b[i];
        assert b[i] in a;
      }
    }
    forall i | 0 <= i < |b| ensures IsComponent(g, b[i]) {
      assert b[i] in b && b[i] in a;
    }
    forall i, j, x | 0 <= i < j < |b| && x in b[i] ensures x !in b[j] {
      assert b[i] in b && b[j] in b;
      var p :| 0 <= p < |a| && a[p] == b[i];
      var q :| 0 <= q < |a| && a[q] == b[j];
      assert b[i] != b[j];
    }
  }

  /** Larger components come first; among equal sizes the joined names decide. */
  ghost predicate LargestFirst(components: seq<seq<Name>>, le: (Name, Name) -> bool) {
    forall i, j :: 0 <= i < j < |components| ==>
      && |components[i]| >= |components[j]|
      && (|components[i]| == |components[j]| ==> le(Join(components[i], "\n"), Join(components[j], "\n")))
  }

  lemma {:induction false} ToSortedOfSorted(s: seq<Name>, le: (Name, Name) -> bool)
    requires SortedBy(s, le)
    ensures ToSorted(s, le) == s
  {
    if |s| > 1 {
      ToSortedOfSorted(s[1..], le);
      assert le(s[0], s[1..][0]);
    }
  }

  lemma SortedIsLargestFirst(components: seq<seq<Name>>, le: (Name, Name) -> bool)
    requires AllSorted(components, le) && SortedBy(components, ComponentOrder(le))
    ensures LargestFirst(components, le)
  {
    forall i, j | 0 <= i < j < |components|
      ensures |components[i]| >= |components[j]|
      ensures |components[i]| == |components[j]| ==> le(Join(components[i], "\n"), Join(components[j], "\n"))
    {
      ToSortedOfSorted(components[i], le);
      ToSortedOfSorted(components[j], le);
      assert ComponentOrder(le)(components[i], components[j]);
    }
  }

  lemma ComponentOrderTotal(le: (Name, Name) -> bool)
    requires TotalPreorder(le)
    ensures TotalPreorder(ComponentOrder(le))
  {
  }

  /** `order` is the insertion order of the graph's keys; `ok` is false when the underflow error is thrown. */
  method CollectComponents(order: seq<Name>, graph: Graph<Name>, le: (Name, Name) -> bool)
    returns (components: seq<seq<Name>>, ok: bool)
    requires forall x :: x in order <==> x in graph
    ensures ok <==> "" !in Nodes(graph)
    ensures ok ==> ListsCyclicClasses(graph, components)
    ensures ok && TotalPreorder(le) ==> AllSorted(components, le) && LargestFirst(components, le)
  {
    hide Reach;
    hide OnCycle;
    hide Output;
    var walk := new ComponentWalk(graph, le);
    assert walk.Snap().Done() == {};
    EmptyOutput(graph);
    for k := 0 to |order|
      invariant fresh(walk) && walk.graph == graph && walk.le == le
      invariant Inv(graph, walk.Snap()) && walk.onStack == {}
      invariant forall x :: x in order[..k] ==> x in walk.indexByNode
      invariant TotalPreorder(le) ==> AllSorted(walk.components, le)
    {
      assert order[..k + 1] == order[..k] + [order[k]];
      if order[k] !in walk.indexByNode {
        var visited := walk.Visit(order[k]);
        if !visited {
          return [], false;
        }
      }
    }
    FinishedListsClasses(graph, walk.Snap());
    components, ok := ToSorted(walk.components, ComponentOrder(le)), true;
    ReorderKeepsClasses(graph, walk.components, components);
    SameElements(walk.components, components);
    if TotalPreorder(le) {
      ComponentOrderTotal(le);
      ToSortedSorted(walk.components, ComponentOrder(le));
      forall i | 0 <= i < |components| ensures SortedBy(components[i], le) {
        assert components[i] in walk.components;
      }
      SortedIsLargestFirst(components, le);
    }
  }

  lemma EmptyOutput(g: Graph<Name>)
    ensures Output(g, {}, [])
  {
  }

  // ----- cycle witnesses -----

  /** A closed walk inside `members` that repeats only its first node, at the end. */
  ghost predicate SimpleCycle(g: Graph<Name>, members: set<Name>, w: seq<Name>) {
    && |w| >= 2 && w[0] == w[|w| - 1]
    && Distinct(w[..|w| - 1])
    && Walk(g, w)
    && forall x :: x in w ==> x in members
  }

  /** No edge between members leaves the set. */
  ghost predicate ClosedWithin(g: Graph<Name>, members: set<Name>, s: set<Name>) {
    forall n, t :: n in s && t in Succ(g, n) && t in members ==> t in s
  }

  /** Array.prototype.indexOf, with -1 for an absent element. */
  function IndexOf(s: seq<Name>, x: Name): (r: int)
    ensures -1 <= r < |s|
    ensures r >= 0 ==> s[r] == x
    ensures r < 0 ==> x !in s
  {
    if s == [] then -1
    else if s[0] == x then 0
    else
      var r := IndexOf(s[1..], x);
      if r < 0 then -1 else r + 1
  }

  /** The nodes whose search ended without a cycle. */
  ghost function Exhausted(path: seq<Name>, visited: set<Name>): set<Name> {
    visited - Elements(path)
  }

  ghost predicate SearchInv(g: Graph<Name>, members: set<Name>, path: seq<Name>, visited: set<Name>) {
    && Distinct(path)
    && (forall x :: x in path ==> x in visited)
    && visited <= members
    && (|path| > 0 ==> Walk(g, path))
    && ClosedWithin(g, members, Exhausted(path, visited))
  }

  /** The given successors of `node` inside the component lie in `s`, which is closed and lacks `node`. */
  ghost predicate Spent(g: Graph<Name>, members: set<Name>, s: set<Name>, node: Name, nexts: seq<Name>) {
    && node !in s
    && ClosedWithin(g, members, s)
    && forall t :: t in nexts && t in members ==> t in s
  }

  lemma SearchPush(g: Graph<Name>, members: set<Name>, path: seq<Name>, visited: set<Name>, node: Name)
    requires SearchInv(g, members, path, visited) && node in members && node !in visited
    requires path != [] ==> node in Succ(g, path[|path| - 1])
    ensures SearchInv(g, members, path + [node], visited + {node})
    ensures Spent(g, members, Exhausted(path + [node], visited + {node}), node, [])
  {
  }

  lemma SearchPop(g: Graph<Name>, members: set<Name>, path: seq<Name>, visited: set<Name>, node: Name)
    requires SearchInv(g, members, path + [node], visited)
    requires Spent(g, members, Exhausted(path + [node], visited), node, Succ(g, node))
    ensures SearchInv(g, members, path, visited)
    ensures Spent(g, members, Exhausted(path, visited) - {node}, node, Succ(g, node))
  {
    assert (path + [node])[|path|] == node;
    assert forall i :: 0 <= i < |path| ==> (path + [node])[i] == path[i];
    assert node !in path;
    assert Exhausted(path, visited) == Exhausted(path + [node], visited) + {node};
    assert Exhausted(path, visited) - {node} == Exhausted(path + [node], visited);
  }

  lemma CycleFound(g: Graph<Name>, members: set<Name>, path: seq<Name>, visited: set<Name>, k: nat, next: Name)
    requires SearchInv(g, members, path, visited) && next in members
    requires k < |path| && path[k] == next && next in Succ(g, path[|path| - 1])
    ensures SimpleCycle(g, members, path[k..] + [next])
  {
  }

  class WitnessSearch {
    const graph: Graph<Name>
    const members: set<Name>
    var activePath: seq<Name>
    var visited: set<Name>

    constructor (graph: Graph<Name>, members: set<Name>)
      ensures this.graph == graph && this.members == members && activePath == [] && visited == {}
    {
      this.graph, this.members := graph, members;
      activePath, visited := [], {};
    }

    ghost predicate Valid()
      reads this
    {
      SearchInv(graph, members, activePath, visited)
    }

    ghost function ExhaustedNodes(): set<Name>
      reads this
    {
      Exhausted(activePath, visited)
    }

    method Visit(node: Name) returns (found: Option<seq<Name>>)
      requires Valid() && node in members && node !in visited
      requires activePath != [] ==> node in Succ(graph, activePath[|activePath| - 1])
      modifies this
      ensures found.Some? ==> SimpleCycle(graph, members, found.value)
      ensures found.None? ==> Valid() && activePath == old(activePath)
      ensures found.None? ==> node in visited && old(visited) <= visited
      // Before `node` itself was exhausted, its successors inside the component already were.
      ensures found.None? ==> Spent(graph, members, ExhaustedNodes() - {node}, node, Succ(graph, node))
      decreases members - visited
    {
      hide Distinct;
      hide Walk;
      SearchPush(graph, members, activePath, visited, node);
      activePath := activePath + [node];
      visited := visited + {node};
      var nexts := Succ(graph, node);
      for k := 0 to |nexts|
        invariant Valid() && activePath == old(activePath) + [node]
        invariant old(visited) + {node} <= visited
        invariant Spent(graph, members, ExhaustedNodes(), node, nexts[..k])
      {
        var next := nexts[k];
        assert nexts[..k + 1] == nexts[..k] + [next];
        if next !in members {
          continue;
        }
        var existingIndex := IndexOf(activePath, next);
        if existingIndex >= 0 {
          CycleFound(graph, members, activePath, visited, existingIndex, next);
          return Some(activePath[existingIndex..] + [next]);
        }
        if next !in visited {
          var result := Visit(next);
          if result.Some? {
            return result;
          }
        }
      }
      assert nexts[..|nexts|] == nexts;
      SearchPop(graph, members, old(activePath), visited, node);
      activePath := activePath[..|activePath| - 1];
      assert activePath == old(activePath);
      return None;
    }
  }

  /** A set closed inside one class that meets the class contains all of it. */
  lemma ClosedWithinClass(g: Graph<Name>, c: seq<Name>, s: set<Name>, a: Name, b: Name)
    requires IsComponent(g, c) && a in c && b in c && a in s && s <= Elements(c)
    requires ClosedWithin(g, Elements(c), s)
    ensures b in s
  {
    hide Reach;
    assert Mutual(g, a, b);
    ReachSelf(g, b);
    var reaching := s + set n | n in Nodes(g) && !Reach(g, n, b);
    forall n, t | n in reaching && t in Succ(g, n) ensures t in reaching {
      ReachEdge(g, n, t);
      NodesClosed(g);
      if Reach(g, t, b) {
        ReachTrans(g, n, t, b);
        assert Mutual(g, n, b);
        ReachTrans(g, t, b, n);
        assert Mutual(g, n, t);
      }
    }
    ClosedReach(g, reaching, a, b);
  }

  method FindCycleWitness(component: seq<Name>, graph: Graph<Name>) returns (cycle: seq<Name>)
    ensures IsComponent(graph, component) && component[0] != "" ==>
              SimpleCycle(graph, Elements(component), cycle)
  {
    if component == [] || component[0] == "" {
      return [];
    }
    var members := Elements(component);
    var start := component[0];
    var search := new WitnessSearch(graph, members);
    var found := search.Visit(start);
    if found.Some? {
      return found.value;
    }
    if IsComponent(graph, component) {
      var next := MemberOnCycle(graph, component, start);
      ClosedWithinClass(graph, component, search.ExhaustedNodes() - {start}, next, start);
    }
    return component;
  }

  // ----- the verdict -----

  ghost predicate ReportOf(component: seq<Name>, report: seq<Name>) {
    |report| > 0 && report[0] in component
  }

  /** Each report is a real cycle, and every node on a cycle is covered by exactly one of them. */
  ghost predicate OneReportPerClass(g: Graph<Name>, reports: seq<seq<Name>>) {
    && (forall i :: 0 <= i < |reports| ==> SimpleCycle(g, Nodes(g), reports[i]))
    && (forall x :: OnCycle(g, x) ==> exists i :: 0 <= i < |reports| && Mutual(g, x, reports[i][0]))
    && (forall i, j :: 0 <= i < j < |reports| ==> !Mutual(g, reports[i][0], reports[j][0]))
  }

  /** The reports are cycles inside the components, one for each, the largest component first. */
  ghost predicate ReportsInOrder(g: Graph<Name>, reports: seq<seq<Name>>, le: (Name, Name) -> bool) {
    exists components: seq<seq<Name>> ::
      && ListsCyclicClasses(g, components) && (TotalPreorder(le) ==> LargestFirst(components, le))
      && |reports| == |components|
      && forall i :: 0 <= i < |reports| ==> SimpleCycle(g, Elements(components[i]), reports[i])
  }

  /** The check's exit code and the cycle printed for each component; `ok` is false when it throws. */
  method CheckImportCycles(order: seq<Name>, graph: Graph<Name>, le: (Name, Name) -> bool)
    returns (exitCode: int, reports: seq<seq<Name>>, ok: bool)
    requires forall x :: x in order <==> x in graph
    ensures ok <==> "" !in Nodes(graph)
    ensures ok ==> (exitCode == 0 <==> forall x :: !OnCycle(graph, x))
    ensures ok ==> exitCode in {0, 1}
    ensures ok ==> OneReportPerClass(graph, reports)
    ensures ok ==> ReportsInOrder(graph, reports, le)
  {
    hide Reach;
    hide OnCycle;
    var components, collected := CollectComponents(order, graph, le);
    reports, ok := [], collected;
    if !collected {
      return 1, [], false;
    }
    for k := 0 to |components|
      invariant |reports| == k
      invariant forall i :: 0 <= i < k ==> SimpleCycle(graph, Elements(components[i]), reports[i])
    {
      var cycle := FindCycleWitness(components[k], graph);
      assert components[k][0] in Nodes(graph) by {
        var next := MemberOnCycle(graph, components[k], components[k][0]);
      }
      reports := reports + [cycle];
    }
    exitCode := if |components| == 0 then 0 else 1;
    ReportsCoverCycles(graph, components, reports);
    assert components != [] ==> Listed(components, components[0][0]);
  }

  lemma ReportsCoverCycles(g: Graph<Name>, components: seq<seq<Name>>, reports: seq<seq<Name>>)
    requires ListsCyclicClasses(g, components) && |reports| == |components|
    requires forall i :: 0 <= i < |reports| ==> SimpleCycle(g, Elements(components[i]), reports[i])
    ensures OneReportPerClass(g, reports)
  {
    hide Reach;
    hide OnCycle;
    forall i | 0 <= i < |reports| ensures ReportOf(components[i], reports[i]) {
      assert SimpleCycle(g, Elements(components[i]), reports[i]);
      assert reports[i][0] in reports[i];
    }
    forall i, x | 0 <= i < |reports| && x in components[i] ensures x in Nodes(g) {
      var next := MemberOnCycle(g, components[i], x);
    }
    forall x | OnCycle(g, x) ensures exists i :: 0 <= i < |reports| && Mutual(g, x, reports[i][0]) {
      var i :| 0 <= i < |components| && x in components[i];
      assert ReportOf(components[i], reports[i]);
      assert Mutual(g, x, reports[i][0]);
    }
    forall i, j | 0 <= i < j < |reports| ensures !Mutual(g, reports[i][0], reports[j][0]) {
      assert ReportOf(components[i], reports[i]) && ReportOf(components[j], reports[j]);
    }
  }
}
