/**
  The road network: named nodes and, per node, an ordered list of weighted
  outgoing edges. Node coordinates only matter for drawing and are dropped.
 */
module Graphs {
  import opened Wrappers

  /** A cumulative weight in kilometres, or `Infinite` for a node not reached yet. */
  datatype Distance = Finite(km: nat) | Infinite {

    /** Strict order with `Infinite` above every finite distance. */
    predicate Below(other: Distance) {
      match this
      case Infinite => false
      case Finite(a) => other.Infinite? || a < other.km
    }

    predicate AtMost(other: Distance) {
      !other.Below(this)
    }
  }

  /** One `[neighbour, weight]` entry of an adjacency list. */
  datatype Edge = Edge(target: string, weight: nat)

  datatype Graph = Graph(nodes: set<string>, edges: map<string, seq<Edge>>)

  /** Every node has an adjacency list and every edge ends at a node. */
  predicate WellFormed(g: Graph) {
    && (forall v :: v in g.nodes ==> v in g.edges)
    && (forall u, i :: u in g.edges && 0 <= i < |g.edges[u]| ==> g.edges[u][i].target in g.nodes)
  }

  /** The lightest edge towards `v` in an adjacency list, if there is one. */
  function MinWeight(adj: seq<Edge>, v: string): (r: Option<nat>)
    ensures r.Some? <==> exists i :: 0 <= i < |adj| && adj[i].target == v
    ensures r.Some? ==> exists i :: 0 <= i < |adj| && adj[i] == Edge(v, r.value)
    ensures r.Some? ==> forall i :: 0 <= i < |adj| && adj[i].target == v ==> r.value <= adj[i].weight
  {
    if |adj| == 0 then None
    else
      var rest := MinWeight(adj[1..], v);
      assert forall i :: 0 < i < |adj| ==> adj[i] == adj[1..][i - 1];
      if adj[0].target != v then rest
      else if rest.Some? && rest.value < adj[0].weight then rest
      else Some(adj[0].weight)
  }

  /** The cheapest edge of a list is no heavier than its head edge or the cheapest of its tail. */
  lemma MinWeightCons(adj: seq<Edge>, v: string)
    requires |adj| > 0
    ensures adj[0].target == v ==> MinWeight(adj, v).Some? && MinWeight(adj, v).value <= adj[0].weight
    ensures MinWeight(adj[1..], v).Some? ==>
      MinWeight(adj, v).Some? && MinWeight(adj, v).value <= MinWeight(adj[1..], v).value
  {
  }

  /** The weight of the cheapest direct edge from `u` to `v`. */
  function EdgeWeight(g: Graph, u: string, v: string): Option<nat> {
    if u in g.edges then MinWeight(g.edges[u], v) else None
  }

  /** A non-empty sequence of nodes, each joined to the next by an edge. */
  predicate IsWalk(g: Graph, p: seq<string>) {
    && |p| > 0
    && (forall i :: 0 <= i < |p| ==> p[i] in g.nodes)
    && (forall i :: 0 <= i < |p| - 1 ==> EdgeWeight(g, p[i], p[i + 1]).Some?)
  }

  predicate IsWalkBetween(g: Graph, p: seq<string>, a: string, b: string) {
    IsWalk(g, p) && p[0] == a && p[|p| - 1] == b
  }

  /** Total weight of a walk, taking the cheapest edge for every step. */
  function WalkWeight(g: Graph, p: seq<string>): nat
    requires IsWalk(g, p)
    decreases |p|
  {
    if |p| == 1 then 0
    else
      assert IsWalk(g, p[1..]) by {
        assert forall i :: 0 <= i < |p| - 1 ==> p[1..][i] == p[i + 1];
      }
      EdgeWeight(g, p[0], p[1]).value + WalkWeight(g, p[1..])
  }

  /** `v` can be reached from `a` along a walk. */
  ghost predicate Reachable(g: Graph, a: string, v: string) {
    exists p :: IsWalkBetween(g, p, a, v)
  }

  /** `u` has an adjacency list and every edge in it ends at a node, so both lookups at `u` succeed. */
  predicate SoundAt(g: Graph, u: string) {
    && u in g.edges
    && forall i :: 0 <= i < |g.edges[u]| ==> g.edges[u][i].target in g.nodes
  }

  /** Every node reachable from `a` is sound: the search from `a` never looks up a missing key. */
  ghost predicate SoundFrom(g: Graph, a: string) {
    forall p :: IsWalk(g, p) && p[0] == a ==> SoundAt(g, p[|p| - 1])
  }

  /** A walk followed by an edge out of its last node is a walk. */
  lemma WalkExtend(g: Graph, p: seq<string>, v: string)
    requires IsWalk(g, p) && v in g.nodes
    requires EdgeWeight(g, p[|p| - 1], v).Some?
    ensures IsWalk(g, p + [v])
  {
    var q := p + [v];
    assert forall i :: 0 <= i < |p| ==> q[i] == p[i];
  }

  /** A well-formed graph is sound from every node. */
  lemma WellFormedIsSound(g: Graph, a: string)
    requires WellFormed(g)
    ensures SoundFrom(g, a)
  {
  }
}
