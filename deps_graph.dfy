/**
 * The dependency graph of the definitions. An edge `(a, b)` says that `a`
 * must be declared before `b`: a referenced type before its user, a member
 * before its namespace. Sorting yields an order of all nodes that respects
 * every edge, or fails when the edges form a cycle.
 */
module DepsGraph {
  import opened Schema

  /** `(a, b)`: `a` comes before `b`. */
  type Edge = (string, string)

  /** `nodes` with `v` added last unless it is already there. */
  function WithNode(nodes: seq<string>, v: string): (r: seq<string>)
    ensures Distinct(nodes) ==> Distinct(r)
    ensures forall u :: u in r <==> u in nodes || u == v
  {
    if v in nodes then nodes else nodes + [v]
  }

  /**
   * The nodes of a graph built by `add(a, b)` calls, in order of first
   * mention: each call adds `a`, then `b`, when new.
   */
  function NodesOf(edges: seq<Edge>): (nodes: seq<string>)
    ensures Distinct(nodes)
    ensures forall e | e in edges :: e.0 in nodes && e.1 in nodes
  {
    if edges == [] then []
    else
      var last := edges[|edges| - 1];
      assert forall e | e in edges :: e in edges[..|edges| - 1] || e == last;
      WithNode(WithNode(NodesOf(edges[..|edges| - 1]), last.0), last.1)
  }

  /** A topological order: every node exactly once, and no edge points backwards. */
  ghost predicate IsTopologicalOrder(order: seq<string>, edges: seq<Edge>) {
    && Distinct(order)
    && (forall v :: v in order <==> v in NodesOf(edges))
    && (forall i, j | 0 <= i <= j < |order| :: (order[j], order[i]) !in edges)
  }

  /** `v` has no predecessor among the nodes still to be placed. */
  predicate Ready(v: string, remaining: seq<string>, edges: seq<Edge>) {
    forall e | e in edges :: !(e.1 == v && e.0 in remaining)
  }

  /** The first node still to be placed whose predecessors are all placed. */
  function FirstReady(remaining: seq<string>, edges: seq<Edge>, from: nat): (r: Option<nat>)
    requires from <= |remaining|
    ensures r.Some? ==> from <= r.value < |remaining| && Ready(remaining[r.value], remaining, edges)
    ensures r.None? ==> forall k | from <= k < |remaining| :: !Ready(remaining[k], remaining, edges)
    decreases |remaining| - from
  {
    if from == |remaining| then None
    else if Ready(remaining[from], remaining, edges) then Some(from)
    else FirstReady(remaining, edges, from + 1)
  }

  /**
   * Kahn's algorithm: `placed` is the order so far, `remaining` the nodes not
   * yet placed. Each step places the first ready node; when none is ready
   * while nodes remain, the graph has a cycle.
   */
  function KahnFrom(placed: seq<string>, remaining: seq<string>, edges: seq<Edge>): Result<seq<string>>
    decreases |remaining|
  {
    if remaining == [] then Ok(placed)
    else
      var k := FirstReady(remaining, edges, 0);
      if k.None? then Err(CyclicDependency)
      else KahnFrom(placed + [remaining[k.value]], remaining[..k.value] + remaining[k.value + 1..], edges)
  }

  /** `toposort`: a topological order of the graph's nodes, or a cycle error exactly when none exists. */
  function Kahn(edges: seq<Edge>): (r: Result<seq<string>>)
    ensures r.Ok? ==> IsTopologicalOrder(r.value, edges)
    ensures r.Err? ==> r.error == CyclicDependency && forall order :: !IsTopologicalOrder(order, edges)
  {
    KahnStart(edges);
    KahnCorrect([], NodesOf(edges), edges);
    KahnFrom([], NodesOf(edges), edges)
  }

  /** Removing the element at `k` from a sequence without repetitions. */
  lemma RemoveAt(s: seq<string>, k: nat)
    requires Distinct(s) && k < |s|
    ensures Distinct(s[..k] + s[k + 1..])
    ensures forall v :: v in s[..k] + s[k + 1..] <==> v in s && v != s[k]
  {
    var t := s[..k] + s[k + 1..];
    assert forall i | 0 <= i < |t| :: t[i] == if i < k then s[i] else s[i + 1];
    forall v | v in s && v != s[k] ensures v in t {
      var i :| 0 <= i < |s| && s[i] == v;
      assert t[if i < k then i else i - 1] == v;
    }
  }

  /** What holds of the placed and the remaining nodes at every step of Kahn's algorithm. */
  ghost predicate KahnInvariant(placed: seq<string>, remaining: seq<string>, edges: seq<Edge>) {
    && Distinct(placed) && Distinct(remaining)
    && (forall v | v in placed :: v !in remaining)
    && (forall v :: v in placed || v in remaining <==> v in NodesOf(edges))
    && (forall i, j | 0 <= i <= j < |placed| :: (placed[j], placed[i]) !in edges)
    && (forall e | e in edges && e.1 in placed :: e.0 in placed)
  }

  /** Placing a ready node keeps the invariant. */
  lemma KahnStep(placed: seq<string>, remaining: seq<string>, edges: seq<Edge>, k: nat)
    requires KahnInvariant(placed, remaining, edges)
    requires k < |remaining| && Ready(remaining[k], remaining, edges)
    ensures KahnInvariant(placed + [remaining[k]], remaining[..k] + remaining[k + 1..], edges)
  {
    var v := remaining[k];
    var p := placed + [v];
    var r := remaining[..k] + remaining[k + 1..];
    RemoveAt(remaining, k);
    PlacedStaysDistinct(placed, v);
    NodesStayPartitioned(placed, remaining, edges, k);
    PlacedStaysOrdered(placed, remaining, edges, k);
    PlacedStaysClosed(placed, remaining, edges, k);
  }

  /** Moving the node at `k` from the remaining to the placed ones keeps them apart and covering the graph. */
  lemma NodesStayPartitioned(placed: seq<string>, remaining: seq<string>, edges: seq<Edge>, k: nat)
    requires KahnInvariant(placed, remaining, edges) && k < |remaining|
    ensures var p := placed + [remaining[k]];
      var r := remaining[..k] + remaining[k + 1..];
      && (forall u | u in p :: u !in r)
      && (forall u :: u in p || u in r <==> u in NodesOf(edges))
  {
    var v := remaining[k];
    var p := placed + [v];
    var r := remaining[..k] + remaining[k + 1..];
    RemoveAt(remaining, k);
    forall u ensures u in p || u in r <==> u in NodesOf(edges) {
      assert u in p <==> u in placed || u == v;
    }
  }

  lemma PlacedStaysDistinct(placed: seq<string>, v: string)
    requires Distinct(placed) && v !in placed
    ensures Distinct(placed + [v])
  {
    var p := placed + [v];
    forall i, j | 0 <= i < j < |p| ensures p[i] != p[j] {
      if j == |placed| {
        assert p[i] in placed;
      }
    }
  }

  /** No edge points backwards into the placed nodes once a ready node is appended. */
  lemma PlacedStaysOrdered(placed: seq<string>, remaining: seq<string>, edges: seq<Edge>, k: nat)
    requires KahnInvariant(placed, remaining, edges)
    requires k < |remaining| && Ready(remaining[k], remaining, edges)
    ensures var p := placed + [remaining[k]];
      forall i, j | 0 <= i <= j < |p| :: (p[j], p[i]) !in edges
  {
    var v := remaining[k];
    var p := placed + [v];
    forall i, j | 0 <= i <= j < |p| ensures (p[j], p[i]) !in edges {
      if j == |placed| {
        if i < |placed| {
          // an edge into a placed node starts at a placed node, and `v` is not placed
          assert p[i] in placed && v !in placed;
        } else {
          // an edge into `v` would start at a remaining node, and `v` is ready
          assert p[i] == v && v in remaining;
        }
      } else {
        assert p[i] == placed[i] && p[j] == placed[j];
      }
    }
  }

  /** Every predecessor of a placed node is placed, once a ready node is appended. */
  lemma PlacedStaysClosed(placed: seq<string>, remaining: seq<string>, edges: seq<Edge>, k: nat)
    requires KahnInvariant(placed, remaining, edges)
    requires k < |remaining| && Ready(remaining[k], remaining, edges)
    ensures var p := placed + [remaining[k]];
      forall e | e in edges && e.1 in p :: e.0 in p
  {
    var v := remaining[k];
    var p := placed + [v];
    forall e | e in edges && e.1 in p ensures e.0 in p {
      if e.1 == v {
        assert e.0 !in remaining;
        assert e.0 in NodesOf(edges);
      } else {
        assert e.1 in placed;
      }
    }
  }

  /** In a topological order, the source of an edge comes strictly before its target. */
  lemma EdgeForward(order: seq<string>, edges: seq<Edge>, e: Edge, j: nat)
    requires IsTopologicalOrder(order, edges) && e in edges
    requires j < |order| && order[j] == e.1
    ensures exists i | 0 <= i < j :: order[i] == e.0
  {
    assert e.0 in order;
    var i :| 0 <= i < |order| && order[i] == e.0;
    if i >= j {
      assert false;
    }
  }

  /**
   * When every remaining node has a remaining predecessor, no topological
   * order exists: in such an order, the earliest remaining node would have
   * its predecessor before it.
   */
  lemma {:induction false} NoneRemainingBefore(order: seq<string>, remaining: seq<string>, edges: seq<Edge>, i: nat)
    requires IsTopologicalOrder(order, edges)
    requires forall k | 0 <= k < |remaining| :: !Ready(remaining[k], remaining, edges)
    requires i < |order|
    ensures order[i] !in remaining
    decreases i
  {
    if order[i] in remaining {
      var k :| 0 <= k < |remaining| && remaining[k] == order[i];
      assert !Ready(remaining[k], remaining, edges);
      var e :| e in edges && e.1 == order[i] && e.0 in remaining;
      EdgeForward(order, edges, e, i);
      var j :| 0 <= j < i && order[j] == e.0;
      NoneRemainingBefore(order, remaining, edges, j);
    }
  }

  lemma NoOrderWhenBlocked(remaining: seq<string>, edges: seq<Edge>)
    requires remaining != [] && (forall v | v in remaining :: v in NodesOf(edges))
    requires forall k | 0 <= k < |remaining| :: !Ready(remaining[k], remaining, edges)
    ensures forall order :: !IsTopologicalOrder(order, edges)
  {
    forall order | IsTopologicalOrder(order, edges) ensures false {
      assert remaining[0] in order;
      var i :| 0 <= i < |order| && order[i] == remaining[0];
      NoneRemainingBefore(order, remaining, edges, i);
    }
  }

  /**
   * Kahn's algorithm is correct: it succeeds with a topological order exactly
   * when one exists, and otherwise reports a cycle.
   */
  lemma {:induction false} KahnCorrect(placed: seq<string>, remaining: seq<string>, edges: seq<Edge>)
    requires KahnInvariant(placed, remaining, edges)
    ensures KahnFrom(placed, remaining, edges).Ok? ==> IsTopologicalOrder(KahnFrom(placed, remaining, edges).value, edges)
    ensures KahnFrom(placed, remaining, edges).Err? ==>
      KahnFrom(placed, remaining, edges).error == CyclicDependency && forall order :: !IsTopologicalOrder(order, edges)
    decreases |remaining|
  {
    if remaining != [] {
      var k := FirstReady(remaining, edges, 0);
      if k.None? {
        NoOrderWhenBlocked(remaining, edges);
      } else {
        KahnStep(placed, remaining, edges, k.value);
        KahnCorrect(placed + [remaining[k.value]], remaining[..k.value] + remaining[k.value + 1..], edges);
      }
    }
  }

  /** Before the first step nothing is placed and every node remains. */
  lemma KahnStart(edges: seq<Edge>)
    ensures KahnInvariant([], NodesOf(edges), edges)
  {
  }

  /** The graph of the definitions, built edge by edge. */
  class Graph {
    var nodes: seq<string>
    var edges: seq<Edge>

    ghost predicate Valid()
      reads this
    {
      nodes == NodesOf(edges)
    }

    constructor ()
      ensures Valid() && edges == []
    {
      nodes := [];
      edges := [];
    }

    /** `add(a, b)`: record that `a` comes before `b`; new nodes go last, `a` first. */
    method Add(a: string, b: string)
      requires Valid()
      modifies this
      ensures Valid()
      ensures edges == old(edges) + [(a, b)]
    {
      if a !in nodes {
        nodes := nodes + [a];
      }
      if b !in nodes {
        nodes := nodes + [b];
      }
      edges := edges + [(a, b)];
      assert edges[..|edges| - 1] == old(edges);
    }

    /**
     * `sort()`: every node once, each after all of its predecessors; a cycle
     * is an error.
     */
    method Sort() returns (r: Result<seq<string>>)
      requires Valid()
      ensures r == Kahn(edges)
      ensures r.Ok? ==> IsTopologicalOrder(r.value, edges)
      ensures r.Err? ==> r.error == CyclicDependency && forall order :: !IsTopologicalOrder(order, edges)
    {
      KahnStart(edges);
      KahnCorrect([], nodes, edges);
      var placed: seq<string> := [];
      var remaining := nodes;
      while remaining != []
        invariant KahnFrom(placed, remaining, edges) == Kahn(edges)
        decreases |remaining|
      {
        var k := FirstReady(remaining, edges, 0);
        if k.None? {
          return Err(CyclicDependency);
        }
        placed := placed + [remaining[k.value]];
        remaining := remaining[..k.value] + remaining[k.value + 1..];
      }
      r := Ok(placed);
    }
  }
}
