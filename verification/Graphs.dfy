/** Finite directed graphs given as adjacency lists, walks in them, and reachability. */
module Graphs {

  type Graph<T> = map<T, seq<T>>

  /** The successor list of a node; a node that is not a key has no successors. */
  function Succ<T>(g: Graph<T>, n: T): seq<T> {
    if n in g then g[n] else []
  }

  /** Every node the graph mentions, as a key or as a successor. */
  ghost function Nodes<T>(g: Graph<T>): set<T> {
    g.Keys + set k, n | k in g && n in g[k] :: n
  }

  ghost predicate Walk<T>(g: Graph<T>, p: seq<T>) {
    |p| > 0 && forall i :: 0 <= i < |p| - 1 ==> p[i + 1] in Succ(g, p[i])
  }

  ghost predicate WalkFromTo<T>(g: Graph<T>, p: seq<T>, a: T, b: T) {
    Walk(g, p) && p[0] == a && p[|p| - 1] == b
  }

  ghost predicate Reach<T(!new)>(g: Graph<T>, a: T, b: T) {
    exists p: seq<T> :: WalkFromTo(g, p, a, b)
  }

  ghost predicate Mutual<T(!new)>(g: Graph<T>, a: T, b: T) {
    Reach(g, a, b) && Reach(g, b, a)
  }

  /** A node lies on a cycle when one of its successors leads back to it. */
  ghost predicate OnCycle<T(!new)>(g: Graph<T>, a: T) {
    exists s :: s in Succ(g, a) && Reach(g, s, a)
  }

  /** No edge leaves the set. */
  ghost predicate Closed<T>(g: Graph<T>, s: set<T>) {
    forall n, t :: n in s && t in Succ(g, n) ==> t in s
  }

  lemma ReachSelf<T(!new)>(g: Graph<T>, a: T)
    ensures Reach(g, a, a)
  {
    assert WalkFromTo(g, [a], a, a);
  }

  lemma ReachTrans<T(!new)>(g: Graph<T>, a: T, b: T, c: T)
    requires Reach(g, a, b) && Reach(g, b, c)
    ensures Reach(g, a, c)
  {
    var p: seq<T> :| WalkFromTo(g, p, a, b);
    var q: seq<T> :| WalkFromTo(g, q, b, c);
    var r := p + q[1..];
    forall i | 0 <= i < |r| - 1
      ensures r[i + 1] in Succ(g, r[i])
    {
      if i < |p| - 1 {
      } else {
        assert r[i] == q[i - |p| + 1];
        assert r[i + 1] == q[i - |p| + 2];
      }
    }
    assert WalkFromTo(g, r, a, c);
  }

  lemma ReachEdge<T(!new)>(g: Graph<T>, a: T, b: T)
    requires b in Succ(g, a)
    ensures Reach(g, a, b)
  {
    assert WalkFromTo(g, [a, b], a, b);
  }

  /** Reachability never leaves a closed set. */
  lemma ClosedReach<T(!new)>(g: Graph<T>, s: set<T>, a: T, b: T)
    requires Closed(g, s) && a in s && Reach(g, a, b)
    ensures b in s
  {
    var p: seq<T> :| WalkFromTo(g, p, a, b);
    ClosedWalk(g, s, p, |p| - 1);
  }

  lemma {:induction false} ClosedWalk<T>(g: Graph<T>, s: set<T>, p: seq<T>, k: nat)
    requires Closed(g, s) && Walk(g, p) && p[0] in s && k < |p|
    ensures p[k] in s
  {
    if k > 0 {
      ClosedWalk(g, s, p, k - 1);
    }
  }

  lemma NodesClosed<T>(g: Graph<T>)
    ensures Closed(g, Nodes(g))
  {
  }

  /** Every walk that reaches its end from elsewhere starts with an edge. */
  lemma ReachFirstEdge<T(!new)>(g: Graph<T>, a: T, b: T) returns (s: T)
    requires Reach(g, a, b) && a != b
    ensures s in Succ(g, a) && Reach(g, s, b)
  {
    var p: seq<T> :| WalkFromTo(g, p, a, b);
    s := p[1];
    assert WalkFromTo(g, p[1..], s, b);
  }
}
