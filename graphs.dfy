/**
 * The directed graph the sequencer builds, and the two graph services it
 * needs from the graph library: adding nodes and edges, and a topological
 * sort that either orders every node or names a node that lies on a cycle.
 *
 * Nodes are the indices `0 .. |adj| - 1`; `adj[u]` lists the targets of the
 * outgoing edges of `u` in the order the library visits them (the edge added
 * last comes first).  Duplicate edges and self-loops are allowed.
 */
module ImportGraphs {
  import opened Wrappers

  /** Every edge target is a node of the graph. */
  ghost predicate ValidGraph(g: seq<seq<nat>>) {
    forall u, k :: 0 <= u < |g| && 0 <= k < |g[u]| ==> g[u][k] < |g|
  }

  predicate Edge(g: seq<seq<nat>>, u: nat, v: nat) {
    u < |g| && v in g[u]
  }

  /** The nodes `0 .. n - 1`. */
  function NodesBelow(n: nat): (r: set<nat>)
    ensures forall u: nat :: u in r <==> u < n
  {
    if n == 0 then {} else NodesBelow(n - 1) + {n - 1}
  }

  /** Consecutive nodes of `w` are joined by edges, read forwards. */
  ghost predicate IsWalk(g: seq<seq<nat>>, w: seq<nat>) {
    forall i :: 0 <= i < |w| - 1 ==> Edge(g, w[i], w[i + 1])
  }

  /** `w` leaves `v` along at least one edge and comes back to `v`. */
  ghost predicate ClosedWalk(g: seq<seq<nat>>, w: seq<nat>, v: nat) {
    |w| >= 2 && w[0] == v && w[|w| - 1] == v && IsWalk(g, w)
  }

  ghost predicate OnCycle(g: seq<seq<nat>>, v: nat) {
    exists w :: ClosedWalk(g, w, v)
  }

  ghost predicate Distinct<T>(s: seq<T>) {
    forall i, j :: 0 <= i < j < |s| ==> s[i] != s[j]
  }

  /** `order` lists every node exactly once and every edge points forwards in it. */
  ghost predicate IsTopologicalOrder(g: seq<seq<nat>>, order: seq<nat>) {
    && Distinct(order)
    && (forall i :: 0 <= i < |order| ==> order[i] < |g|)
    && (forall u :: 0 <= u < |g| ==> u in order)
    && (forall i, j :: 0 <= i < |order| && 0 <= j < |order| && Edge(g, order[i], order[j]) ==> i < j)
  }

  lemma PrependWalk(g: seq<seq<nat>>, u: nat, w: seq<nat>)
    requires |w| >= 1 && IsWalk(g, w) && Edge(g, u, w[0])
    ensures IsWalk(g, [u] + w) && ([u] + w)[1..] == w
  {
    var w' := [u] + w;
    forall i | 0 <= i < |w'| - 1 ensures Edge(g, w'[i], w'[i + 1]) {
      if i > 0 { assert w'[i] == w[i - 1] && w'[i + 1] == w[i]; }
    }
  }

  /** No edge enters `v` from a node of `r`. */
  predicate NoEdgeFrom(g: seq<seq<nat>>, r: set<nat>, v: nat) {
    forall u :: u in r ==> !Edge(g, u, v)
  }

  /** Some edge enters `v` from a node of `r`. */
  ghost predicate HasPredecessorIn(g: seq<seq<nat>>, r: set<nat>, v: nat) {
    exists u :: u in r && Edge(g, u, v)
  }

  /** The mutable graph object: node and edge insertion as the graph library provides them. */
  class ImportGraph {
    var adj: seq<seq<nat>>

    ghost predicate Valid()
      reads this
    {
      ValidGraph(adj)
    }

    constructor ()
      ensures adj == [] && Valid()
    {
      adj := [];
    }

    /** Adds a node without edges; its index is the number of nodes before the call. */
    method AddNode() returns (index: nat)
      requires Valid()
      modifies this
      ensures Valid()
      ensures index == |old(adj)| && adj == old(adj) + [[]]
    {
      index := |adj|;
      adj := adj + [[]];
    }

    /** Adds the edge `from -> to`; it becomes the first outgoing edge `from` visits. */
    method AddEdge(from: nat, to: nat)
      requires Valid() && from < |adj| && to < |adj|
      modifies this
      ensures Valid()
      ensures adj == old(adj)[from := [to] + old(adj)[from]]
    {
      adj := adj[from := [to] + adj[from]];
    }
  }

  /**
   * Topological sort.  On success every node appears once and every edge
   * `u -> v` has `u` before `v`; on failure the returned node lies on a cycle.
   * Nodes are taken one at a time among those that no remaining node points to.
   */
  method TopoSort(g: seq<seq<nat>>) returns (r: Result<seq<nat>, nat>)
    requires ValidGraph(g)
    ensures r.Ok? ==> IsTopologicalOrder(g, r.value)
    ensures r.Err? ==> r.error < |g| && OnCycle(g, r.error)
  {
    var remaining := NodesBelow(|g|);
    var order: seq<nat> := [];
    while remaining != {}
      invariant forall u :: u in remaining ==> u < |g|
      invariant forall i :: 0 <= i < |order| ==> order[i] < |g| && order[i] !in remaining
      invariant forall u :: 0 <= u < |g| && u !in remaining ==> u in order
      invariant Distinct(order)
      invariant forall i, u :: 0 <= i < |order| && u in remaining ==> !Edge(g, u, order[i])
      invariant forall i, j :: 0 <= i < |order| && 0 <= j < |order| && Edge(g, order[i], order[j]) ==> i < j
      decreases remaining
    {
      var found, v := FindSource(g, remaining);
      if found {
        order := order + [v];
        remaining := remaining - {v};
      } else {
        v := CycleNode(g, remaining);
        return Err(v);
      }
    }
    return Ok(order);
  }

  /** Looks for a node of `r` that no node of `r` points to. */
  method FindSource(g: seq<seq<nat>>, r: set<nat>) returns (found: bool, v: nat)
    requires forall x :: x in r ==> x < |g|
    ensures found ==> v in r && NoEdgeFrom(g, r, v)
    ensures !found ==> forall x {:trigger HasPredecessorIn(g, r, x)} :: x in r ==> HasPredecessorIn(g, r, x)
  {
    v := 0;
    while v < |g|
      invariant v <= |g|
      invariant forall x {:trigger HasPredecessorIn(g, r, x)} :: x in r && x < v ==> HasPredecessorIn(g, r, x)
    {
      if v in r && NoEdgeFrom(g, r, v) {
        return true, v;
      }
      assert v in r ==> HasPredecessorIn(g, r, v);
      v := v + 1;
    }
    found := false;
  }

  /**
   * When every node of the non-empty set `r` has a predecessor in `r`, walking
   * backwards from predecessor to predecessor must revisit a node; that node
   * lies on a cycle.
   */
  method CycleNode(g: seq<seq<nat>>, r: set<nat>) returns (v: nat)
    requires r != {}
    requires forall x {:trigger HasPredecessorIn(g, r, x)} :: x in r ==> HasPredecessorIn(g, r, x)
    ensures v in r && OnCycle(g, v)
  {
    var cur :| cur in r;
    var visited: set<nat> := {};
    ghost var walk: seq<nat> := [cur];
    while cur !in visited
      invariant cur in r && visited <= r
      invariant |walk| >= 1 && walk[0] == cur && IsWalk(g, walk)
      invariant forall x :: x in visited ==> x in walk[1..]
      decreases r - visited
    {
      visited := visited + {cur};
      assert HasPredecessorIn(g, r, cur);
      var u :| u in r && Edge(g, u, cur);
      PrependWalk(g, u, walk);
      assert forall x :: x in visited ==> x in walk;
      walk := [u] + walk;
      cur := u;
    }
    assert cur in walk[1..];
    ghost var j :| 1 <= j < |walk| && walk[j] == cur;
    ghost var cycle := walk[..j + 1];
    assert IsWalk(g, cycle) by {
      forall i | 0 <= i < |cycle| - 1 ensures Edge(g, cycle[i], cycle[i + 1]) {
        assert cycle[i] == walk[i] && cycle[i + 1] == walk[i + 1];
      }
    }
    assert ClosedWalk(g, cycle, cur);
    v := cur;
  }
}
