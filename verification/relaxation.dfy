/**
  One step of the search: the state it works on (distance map, predecessor
  map, heap), its initialisation, the relaxation of one edge and of a whole
  adjacency list, and the visit of one popped heap entry.
 */
module Relaxation {
  import opened Wrappers
  import opened Graphs
  import opened PriorityQueue

  /** `distances`, `previous` and the heap `pq` of the search. */
  datatype SearchState = SearchState(
    dist: map<string, Distance>,
    prev: map<string, Option<string>>,
    queue: multiset<Entry>)

  /** The two lookups of the search loop that raise `KeyError` on a malformed graph. */
  datatype RouteError =
    | MissingAdjacency(node: string)
    | UnknownNeighbour(node: string, neighbour: string)

  /** The error names a real defect of the graph. */
  predicate Defect(g: Graph, err: RouteError) {
    match err
    case MissingAdjacency(u) => u in g.nodes && u !in g.edges
    case UnknownNeighbour(u, v) =>
      && u in g.edges && v !in g.nodes
      && exists i :: 0 <= i < |g.edges[u]| && g.edges[u][i].target == v
  }

  /** A defect at a node reachable from `a` means the graph is not sound from `a`. */
  lemma DefectBreaksSound(g: Graph, a: string, err: RouteError)
    requires Defect(g, err) && Reachable(g, a, err.node)
    ensures !SoundFrom(g, a)
  {
    var p :| IsWalkBetween(g, p, a, err.node);
    assert !SoundAt(g, p[|p| - 1]) by {
      match err
      case MissingAdjacency(u) =>
      case UnknownNeighbour(u, v) =>
        var i :| 0 <= i < |g.edges[u]| && g.edges[u][i].target == v;
    }
  }

  /** A graph whose search raises is not well formed. */
  lemma DefectMeansMalformed(g: Graph, err: RouteError)
    requires Defect(g, err)
    ensures !WellFormed(g)
  {
    match err
    case MissingAdjacency(u) =>
    case UnknownNeighbour(u, v) =>
      var i :| 0 <= i < |g.edges[u]| && g.edges[u][i].target == v;
  }

  /** Every node at distance infinity with no predecessor; `start` at 0; the heap holds `(0, start)`. */
  function Init(g: Graph, start: string): (s: SearchState)
    requires start in g.nodes
    ensures s.dist.Keys == g.nodes && s.prev.Keys == g.nodes
    ensures s.dist[start] == Finite(0)
    ensures forall v :: v in g.nodes && v != start ==> s.dist[v] == Infinite
    ensures forall v :: v in g.nodes ==> s.prev[v] == None
    ensures s.queue == multiset{Entry(0, start)}
  {
    var dist := map v | v in g.nodes :: Infinite;
    SearchState(dist[start := Finite(0)], map v | v in g.nodes :: None, multiset{Entry(0, start)})
  }

  /**
    Relaxes the edge `u -> e.target` with `u` popped at distance `d`: the
    target improves only on a strict decrease, and then gets `u` as its
    predecessor and a fresh heap entry.
   */
  function Relax(s: SearchState, u: string, d: nat, e: Edge): (s': SearchState)
    requires e.target in s.dist && e.target in s.prev
    ensures s'.dist.Keys == s.dist.Keys && s'.prev.Keys == s.prev.Keys
    ensures s' != s <==> Finite(d + e.weight).Below(s.dist[e.target])
    ensures s' != s ==>
      && s'.dist == s.dist[e.target := Finite(d + e.weight)]
      && s'.prev == s.prev[e.target := Some(u)]
      && s'.queue == s.queue + multiset{Entry(d + e.weight, e.target)}
    ensures forall x :: x in s.dist ==> s'.dist[x].AtMost(s.dist[x])
    ensures s'.dist[e.target].AtMost(Finite(d + e.weight))
  {
    var candidate := d + e.weight;
    if Finite(candidate).Below(s.dist[e.target]) then
      SearchState(
        s.dist[e.target := Finite(candidate)],
        s.prev[e.target := Some(u)],
        s.queue + multiset{Entry(candidate, e.target)})
    else s
  }

  /**
    Relaxes the edges of `u` in list order; the first edge to a node with no
    distance entry raises, carrying that neighbour's name.
   */
  function RelaxEdges(s: SearchState, u: string, d: nat, adj: seq<Edge>): (r: Result<SearchState, string>)
    requires s.dist.Keys == s.prev.Keys
    ensures r.Failure? ==> r.error !in s.dist && exists i :: 0 <= i < |adj| && adj[i].target == r.error
    ensures (exists i :: 0 <= i < |adj| && adj[i].target !in s.dist) ==> r.Failure?
    ensures r.Success? ==> r.value.dist.Keys == s.dist.Keys && r.value.prev.Keys == s.prev.Keys
    decreases |adj|
  {
    if |adj| == 0 then Success(s)
    else if adj[0].target !in s.dist then Failure(adj[0].target)
    else
      assert forall i :: 0 < i < |adj| ==> adj[i] == adj[1..][i - 1];
      RelaxEdges(Relax(s, u, d, adj[0]), u, d, adj[1..])
  }

  /** Relaxing a list never raises a distance, and a node whose distance is unchanged keeps its predecessor. */
  lemma {:induction false} RelaxEdgesMonotone(s: SearchState, u: string, d: nat, adj: seq<Edge>)
    requires s.dist.Keys == s.prev.Keys
    requires RelaxEdges(s, u, d, adj).Success?
    ensures var s' := RelaxEdges(s, u, d, adj).value;
      && (forall x :: x in s.dist ==> s'.dist[x].AtMost(s.dist[x]))
      && (forall x :: x in s.dist && s'.dist[x] == s.dist[x] ==> s'.prev[x] == s.prev[x])
      && (s'.dist == s.dist ==> s' == s)
    decreases |adj|
  {
    if |adj| > 0 {
      RelaxEdgesUnfold(s, u, d, adj);
      var s1 := Relax(s, u, d, adj[0]);
      RelaxEdgesMonotone(s1, u, d, adj[1..]);
      var s' := RelaxEdges(s, u, d, adj).value;
      if s1 != s {
        var v := adj[0].target;
        assert s1.dist[v].Below(s.dist[v]);
        assert s'.dist[v] != s.dist[v];
      }
    }
  }

  /** After relaxing a list, every edge in it satisfies `dist[v] <= d + w`. */
  lemma {:induction false} RelaxEdgesSettles(s: SearchState, u: string, d: nat, adj: seq<Edge>)
    requires s.dist.Keys == s.prev.Keys
    requires RelaxEdges(s, u, d, adj).Success?
    ensures var s' := RelaxEdges(s, u, d, adj).value;
      forall i :: 0 <= i < |adj| ==> adj[i].target in s'.dist && s'.dist[adj[i].target].AtMost(Finite(d + adj[i].weight))
    decreases |adj|
  {
    if |adj| > 0 {
      RelaxEdgesUnfold(s, u, d, adj);
      var s1 := Relax(s, u, d, adj[0]);
      var tail := adj[1..];
      RelaxEdgesSettles(s1, u, d, tail);
      RelaxEdgesMonotone(s1, u, d, tail);
      var s' := RelaxEdges(s1, u, d, tail).value;
      forall i | 0 <= i < |adj|
        ensures adj[i].target in s'.dist && s'.dist[adj[i].target].AtMost(Finite(d + adj[i].weight))
      {
        if i > 0 {
          assert adj[i] == tail[i - 1];
        }
      }
    }
  }

  /** Relaxing a list only adds heap entries, and each new one is at least its node's distance. */
  lemma {:induction false} RelaxEdgesQueue(s: SearchState, u: string, d: nat, adj: seq<Edge>)
    requires s.dist.Keys == s.prev.Keys
    requires RelaxEdges(s, u, d, adj).Success?
    ensures var s' := RelaxEdges(s, u, d, adj).value;
      && s.queue <= s'.queue
      && (forall e :: e in s'.queue ==> e in s.queue || Queued(s'.dist, e))
    decreases |adj|
  {
    if |adj| > 0 {
      RelaxEdgesUnfold(s, u, d, adj);
      var s1 := Relax(s, u, d, adj[0]);
      var tail := adj[1..];
      RelaxEdgesQueue(s1, u, d, tail);
      RelaxEdgesMonotone(s1, u, d, tail);
      var s' := RelaxEdges(s1, u, d, tail).value;
      forall e | e in s'.queue
        ensures e in s.queue || Queued(s'.dist, e)
      {
        if e in s1.queue && e !in s.queue {
          assert e == Entry(d + adj[0].weight, adj[0].target);
          assert Queued(s1.dist, e);
        }
      }
    }
  }

  /** A successful relaxation of a non-empty list is the relaxation of its tail after its head. */
  lemma RelaxEdgesUnfold(s: SearchState, u: string, d: nat, adj: seq<Edge>)
    requires s.dist.Keys == s.prev.Keys && |adj| > 0
    requires RelaxEdges(s, u, d, adj).Success?
    ensures adj[0].target in s.dist && adj[0].target in s.prev
    ensures RelaxEdges(Relax(s, u, d, adj[0]), u, d, adj[1..]) == RelaxEdges(s, u, d, adj)
  {
  }

  /** A node whose distance changed got `u` as predecessor and a finite distance. */
  lemma {:induction false} RelaxEdgesPredecessor(s: SearchState, u: string, d: nat, adj: seq<Edge>, x: string)
    requires s.dist.Keys == s.prev.Keys
    requires RelaxEdges(s, u, d, adj).Success?
    requires x in s.dist && RelaxEdges(s, u, d, adj).value.dist[x] != s.dist[x]
    ensures var s' := RelaxEdges(s, u, d, adj).value;
      s'.prev[x] == Some(u) && s'.dist[x].Finite?
    decreases |adj|
  {
    assert |adj| > 0;
    RelaxEdgesUnfold(s, u, d, adj);
    var s1 := Relax(s, u, d, adj[0]);
    var rest := RelaxEdges(s1, u, d, adj[1..]);
    assert x in s1.dist && rest.value.dist.Keys == s1.dist.Keys;
    if rest.value.dist[x] != s1.dist[x] {
      RelaxEdgesPredecessor(s1, u, d, adj[1..], x);
    } else {
      RelaxEdgesHeadChanged(s, u, d, adj, x);
    }
  }

  /** A node whose distance changed has a heap entry carrying its new, finite distance. */
  lemma {:induction false} RelaxEdgesRequeued(s: SearchState, u: string, d: nat, adj: seq<Edge>, x: string)
    requires s.dist.Keys == s.prev.Keys
    requires RelaxEdges(s, u, d, adj).Success?
    requires x in s.dist && RelaxEdges(s, u, d, adj).value.dist[x] != s.dist[x]
    ensures var s' := RelaxEdges(s, u, d, adj).value;
      s'.dist[x].Finite? && Entry(s'.dist[x].km, x) in s'.queue
    decreases |adj|
  {
    assert |adj| > 0;
    RelaxEdgesUnfold(s, u, d, adj);
    var s1 := Relax(s, u, d, adj[0]);
    var rest := RelaxEdges(s1, u, d, adj[1..]);
    assert x in s1.dist && rest.value.dist.Keys == s1.dist.Keys;
    if rest.value.dist[x] != s1.dist[x] {
      RelaxEdgesRequeued(s1, u, d, adj[1..], x);
    } else {
      RelaxEdgesHeadChanged(s, u, d, adj, x);
    }
  }

  /** A node whose distance changed has an edge from `u`, and its new distance is no better than `d` plus the cheapest one. */
  lemma {:induction false} RelaxEdgesCheapest(s: SearchState, u: string, d: nat, adj: seq<Edge>, x: string)
    requires s.dist.Keys == s.prev.Keys
    requires RelaxEdges(s, u, d, adj).Success?
    requires x in s.dist && RelaxEdges(s, u, d, adj).value.dist[x] != s.dist[x]
    ensures var s' := RelaxEdges(s, u, d, adj).value;
      && s'.dist[x].Finite?
      && MinWeight(adj, x).Some?
      && d + MinWeight(adj, x).value <= s'.dist[x].km
    decreases |adj|
  {
    assert |adj| > 0;
    RelaxEdgesUnfold(s, u, d, adj);
    var s1 := Relax(s, u, d, adj[0]);
    var tail := adj[1..];
    MinWeightCons(adj, x);
    if RelaxEdges(s1, u, d, tail).value.dist[x] != s1.dist[x] {
      RelaxEdgesCheapest(s1, u, d, tail, x);
    } else {
      RelaxEdgesHeadChanged(s, u, d, adj, x);
    }
  }

  /** The case of `RelaxEdgesPredecessor`, `RelaxEdgesRequeued` and `RelaxEdgesCheapest` where the head edge made the change and the tail kept it. */
  lemma RelaxEdgesHeadChanged(s: SearchState, u: string, d: nat, adj: seq<Edge>, x: string)
    requires s.dist.Keys == s.prev.Keys && |adj| > 0 && adj[0].target in s.dist
    requires x in s.dist && Relax(s, u, d, adj[0]).dist[x] != s.dist[x]
    requires RelaxEdges(Relax(s, u, d, adj[0]), u, d, adj[1..]).Success?
    requires RelaxEdges(Relax(s, u, d, adj[0]), u, d, adj[1..]).value.dist[x] == Relax(s, u, d, adj[0]).dist[x]
    ensures var s' := RelaxEdges(Relax(s, u, d, adj[0]), u, d, adj[1..]).value;
      && x == adj[0].target
      && s'.prev[x] == Some(u)
      && s'.dist[x] == Finite(d + adj[0].weight)
      && Entry(d + adj[0].weight, x) in s'.queue
  {
    var s1 := Relax(s, u, d, adj[0]);
    RelaxEdgesMonotone(s1, u, d, adj[1..]);
    RelaxEdgesQueue(s1, u, d, adj[1..]);
  }

  /** A node already at or below `d` keeps its distance and predecessor: no edge out of `u` can improve it. */
  lemma {:induction false} RelaxEdgesKeepsSettled(s: SearchState, u: string, d: nat, adj: seq<Edge>, x: string)
    requires s.dist.Keys == s.prev.Keys
    requires RelaxEdges(s, u, d, adj).Success?
    requires x in s.dist && s.dist[x].AtMost(Finite(d))
    ensures var s' := RelaxEdges(s, u, d, adj).value;
      s'.dist[x] == s.dist[x] && s'.prev[x] == s.prev[x]
    decreases |adj|
  {
    if |adj| > 0 {
      RelaxEdgesUnfold(s, u, d, adj);
      var s1 := Relax(s, u, d, adj[0]);
      assert s1.dist[x] == s.dist[x] && s1.prev[x] == s.prev[x];
      RelaxEdgesKeepsSettled(s1, u, d, adj[1..], x);
    }
  }

  /** A heap entry is never below its node's recorded distance. */
  predicate Queued(dist: map<string, Distance>, e: Entry) {
    e.node in dist && dist[e.node].Finite? && dist[e.node].km <= e.d
  }

  /** `u` is reached and all its edges satisfy `dist[v] <= dist[u] + w`. */
  predicate Relaxed(g: Graph, dist: map<string, Distance>, u: string) {
    && u in dist && dist[u].Finite? && u in g.edges
    && forall i :: 0 <= i < |g.edges[u]| ==>
         g.edges[u][i].target in dist
         && dist[g.edges[u][i].target].AtMost(Finite(dist[u].km + g.edges[u][i].weight))
  }

  /** An entry whose distance exceeds the node's recorded distance is stale. */
  predicate Stale(s: SearchState, e: Entry)
    requires e.node in s.dist
  {
    s.dist[e.node].Below(Finite(e.d))
  }

  /** A successful visit of an entry that is not stale is the relaxation of its node's edges. */
  lemma VisitRelaxes(g: Graph, s: SearchState, e: Entry)
    requires s.dist.Keys == g.nodes && s.prev.Keys == g.nodes
    requires e.node in g.nodes && !Stale(s, e)
    requires Visit(g, s, e).Success?
    ensures e.node in g.edges
    ensures RelaxEdges(s, e.node, e.d, g.edges[e.node]).Success?
    ensures Visit(g, s, e).value == RelaxEdges(s, e.node, e.d, g.edges[e.node]).value
  {
  }

  /**
    Handles one popped entry (already removed from the heap): a stale entry
    leaves the state alone; otherwise every edge of the node is relaxed.
   */
  function Visit(g: Graph, s: SearchState, e: Entry): (r: Result<SearchState, RouteError>)
    requires s.dist.Keys == g.nodes && s.prev.Keys == g.nodes
    requires e.node in g.nodes
    ensures Stale(s, e) ==> r == Success(s)
    ensures r.Failure? ==> Defect(g, r.error) && r.error.node == e.node
    ensures WellFormed(g) ==> r.Success?
    ensures r.Success? ==> r.value.dist.Keys == g.nodes && r.value.prev.Keys == g.nodes
    ensures r.Success? ==> forall x :: x in g.nodes ==> r.value.dist[x].AtMost(s.dist[x])
    ensures r.Success? && !Stale(s, e) ==>
      && e.node in g.edges
      && forall i :: 0 <= i < |g.edges[e.node]| ==>
           g.edges[e.node][i].target in r.value.dist &&
           r.value.dist[g.edges[e.node][i].target].AtMost(Finite(e.d + g.edges[e.node][i].weight))
  {
    if Stale(s, e) then Success(s)
    else if e.node !in g.edges then Failure(MissingAdjacency(e.node))
    else
      var adj := g.edges[e.node];
      var r := RelaxEdges(s, e.node, e.d, adj);
      if r.Failure? then Failure(UnknownNeighbour(e.node, r.error))
      else
        RelaxEdgesMonotone(s, e.node, e.d, adj);
        RelaxEdgesSettles(s, e.node, e.d, adj);
        Success(r.value)
  }
}
