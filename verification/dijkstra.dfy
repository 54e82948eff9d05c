/**
  The route search: Dijkstra's algorithm with lazy deletion over the whole
  reachable part of the graph, followed by the walk back along the
  predecessor links from the destination.
 */
module Dijkstra {
  import opened Wrappers
  import opened Graphs
  import opened PriorityQueue
  import opened Relaxation
  import opened SearchInvariant

  /** The path from start to destination and its total distance. */
  datatype Route = Route(path: seq<string>, distance: Distance)

  /**
    Pops entries of least distance until the heap is empty. On success the
    distances are a fixpoint of relaxation, the start sits at 0 with no
    predecessor, and the predecessor links are consistent and acyclic.
   */
  method Search(g: Graph, start: string) returns (r: Result<SearchState, RouteError>)
    requires start in g.nodes
    ensures r.Failure? ==> Defect(g, r.error) && Reachable(g, start, r.error.node)
    ensures r.Success? <==> SoundFrom(g, start)
    ensures WellFormed(g) ==> r.Success?
    ensures r.Success? ==> r.value.dist.Keys == g.nodes && r.value.prev.Keys == g.nodes
    ensures r.Success? ==> r.value.dist[start] == Finite(0) && r.value.prev[start] == None
    ensures r.Success? ==> r.value.queue == multiset{}
    ensures r.Success? ==> Fixpoint(g, r.value.dist)
    ensures r.Success? ==> forall v :: v in g.nodes ==> PredOk(g, start, r.value, v)
    ensures r.Success? ==> exists stamp :: Ranked(r.value.dist, r.value.prev, stamp)
  {
    var s := Init(g, start);
    InitInvariant(g, start);
    InitReachable(g, start);
    ghost var order := Enumerate(g.nodes);
    ghost var stamp: map<string, nat> := map v | v in g.nodes :: 0;
    ghost var clock: nat := 1;
    while s.queue != multiset{}
      invariant Invariant(g, start, s)
      invariant Ranked(s.dist, s.prev, stamp) && stamp.Keys == g.nodes
      invariant forall x :: x in stamp ==> stamp[x] < clock
      invariant ReachedReachable(g, start, s.dist)
      decreases Unreached(s.dist, order), ReachedTotal(s.dist, order), |s.queue|
    {
      MinExists(s.queue);
      var e :| e in s.queue && IsMin(e, s.queue);
      var next := Visit(g, Pop(s, e), e);
      if next.Failure? {
        VisitFailure(g, start, s, e);
        return Failure(next.error);
      }
      Step(g, start, s, e, stamp, clock, order);
      stamp := Restamp(stamp, s.dist, next.value.dist, clock);
      clock := clock + 1;
      s := next.value;
    }
    EmptyQueueFixpoint(g, start, s);
    FixpointSound(g, start, s.dist);
    r := Success(s);
  }

  /** Height of the walk position in the predecessor order; 0 once the walk has stopped. */
  ghost function Height(dist: map<string, Distance>, current: Option<string>): nat {
    if current.Some? && current.value in dist && dist[current.value].Finite? then dist[current.value].km else 0
  }

  ghost function StampOf(stamp: map<string, nat>, current: Option<string>): nat {
    if current.Some? && current.value in stamp then stamp[current.value] else 0
  }

  /**
    Follows predecessor links back from `end` until a node without one;
    the result lists the nodes from that node to `end`, each the
    predecessor of the next.
   */
  method Reconstruct(prev: map<string, Option<string>>, end: string, ghost dist: map<string, Distance>)
    returns (path: seq<string>)
    requires end in prev
    requires forall v :: v in prev && prev[v].Some? ==> prev[v].value in prev
    requires exists stamp :: Ranked(dist, prev, stamp)
    ensures |path| > 0 && path[|path| - 1] == end
    ensures forall i :: 0 <= i < |path| ==> path[i] in prev
    ensures prev[path[0]] == None
    ensures prev[end] == None ==> path == [end]
    ensures forall i :: 0 <= i < |path| - 1 ==> prev[path[i + 1]] == Some(path[i])
    ensures forall i, j :: 0 <= i < j < |path| ==> path[i] != path[j]
  {
    ghost var stamp :| Ranked(dist, prev, stamp);
    path := [];
    var current: Option<string> := Some(end);
    while current.Some?
      invariant current.Some? ==> current.value in prev
      invariant |path| == 0 ==> current == Some(end)
      invariant forall i :: 0 <= i < |path| ==> path[i] in prev
      invariant |path| > 0 ==> path[|path| - 1] == end && prev[path[0]] == current
      invariant prev[end].None? && |path| > 0 ==> path == [end] && current.None?
      invariant forall i :: 0 <= i < |path| - 1 ==> prev[path[i + 1]] == Some(path[i])
      decreases current.Some?, Height(dist, current), StampOf(stamp, current)
    {
      var node := current.value;
      if prev[node].Some? {
        assert Ahead(dist, stamp, prev[node].value, node);
      }
      path := [node] + path;
      current := prev[node];
    }
    ChainAhead(dist, prev, stamp, path);
  }

  /** Along a ranked predecessor chain each node comes strictly after every node before it in (distance, stamp). */
  lemma {:induction false} ChainAhead(dist: map<string, Distance>, prev: map<string, Option<string>>, stamp: map<string, nat>, path: seq<string>)
    requires Ranked(dist, prev, stamp)
    requires forall i :: 0 <= i < |path| ==> path[i] in prev
    requires forall i :: 0 <= i < |path| - 1 ==> prev[path[i + 1]] == Some(path[i])
    ensures forall i, j :: 0 <= i < j < |path| ==> Ahead(dist, stamp, path[i], path[j])
    decreases |path|
  {
    if |path| > 1 {
      var n := |path| - 1;
      var q := path[..n];
      ChainAhead(dist, prev, stamp, q);
      assert Ahead(dist, stamp, path[n - 1], path[n]);
      forall i, j | 0 <= i < j < |path| ensures Ahead(dist, stamp, path[i], path[j]) {
        if j < n {
          assert q[i] == path[i] && q[j] == path[j];
        } else if i < n - 1 {
          assert Ahead(dist, stamp, q[i], q[n - 1]);
        }
      }
    }
  }

  /**
    A predecessor chain ending at a reached node is a walk whose weight is
    the difference of the distances at its ends.
   */
  lemma {:induction false} ChainIsWalk(g: Graph, start: string, s: SearchState, p: seq<string>)
    requires s.dist.Keys == g.nodes && s.prev.Keys == g.nodes
    requires Fixpoint(g, s.dist)
    requires forall v :: v in g.nodes ==> PredOk(g, start, s, v)
    requires |p| > 0 && forall i :: 0 <= i < |p| ==> p[i] in g.nodes
    requires forall i :: 0 <= i < |p| - 1 ==> s.prev[p[i + 1]] == Some(p[i])
    requires s.dist[p[|p| - 1]].Finite?
    ensures IsWalk(g, p) && s.dist[p[0]].Finite?
    ensures s.dist[p[0]].km + WalkWeight(g, p) == s.dist[p[|p| - 1]].km
    decreases |p|
  {
    if |p| > 1 {
      var q := p[1..];
      assert forall i :: 0 <= i < |q| ==> q[i] == p[i + 1];
      ChainIsWalk(g, start, s, q);
      var u, v := p[0], p[1];
      assert PredOk(g, start, s, v);
      var m := EdgeWeight(g, u, v).value;
      assert Relaxed(g, s.dist, u);
      var i :| 0 <= i < |g.edges[u]| && g.edges[u][i] == Edge(v, m);
      assert s.dist[v].km == s.dist[u].km + m;
      assert IsWalk(g, p);
      assert WalkWeight(g, p) == m + WalkWeight(g, q);
    }
  }

  /** Along any walk from a reached node, the fixpoint bounds the distance of the last node. */
  lemma {:induction false} WalkBound(g: Graph, dist: map<string, Distance>, p: seq<string>)
    requires dist.Keys == g.nodes && Fixpoint(g, dist)
    requires IsWalk(g, p) && dist[p[0]].Finite?
    ensures dist[p[|p| - 1]].Finite?
    ensures dist[p[|p| - 1]].km <= dist[p[0]].km + WalkWeight(g, p)
    decreases |p|
  {
    if |p| > 1 {
      var q := p[1..];
      assert forall i :: 0 <= i < |q| ==> q[i] == p[i + 1];
      var u, v := p[0], p[1];
      var m := EdgeWeight(g, u, v).value;
      assert Relaxed(g, dist, u);
      var i :| 0 <= i < |g.edges[u]| && g.edges[u][i] == Edge(v, m);
      assert dist[v].AtMost(Finite(dist[u].km + m));
      WalkBound(g, dist, q);
    }
  }

  /** At the fixpoint, every node reachable from a reached `start` has passed both lookups. */
  lemma FixpointSound(g: Graph, start: string, dist: map<string, Distance>)
    requires dist.Keys == g.nodes && Fixpoint(g, dist)
    requires start in dist && dist[start].Finite?
    ensures SoundFrom(g, start)
  {
    forall p | IsWalk(g, p) && p[0] == start ensures SoundAt(g, p[|p| - 1]) {
      WalkBound(g, dist, p);
      assert Relaxed(g, dist, p[|p| - 1]);
    }
  }

  /**
    Turns a finished search into the route to `end`: the distance is the
    recorded distance of `end`, and the path is the predecessor chain.
   */
  method Finish(g: Graph, start: string, s: SearchState, end: string) returns (route: Route)
    requires start in g.nodes && end in g.nodes
    requires s.dist.Keys == g.nodes && s.prev.Keys == g.nodes
    requires s.dist[start] == Finite(0) && s.prev[start] == None
    requires Fixpoint(g, s.dist)
    requires forall v :: v in g.nodes ==> PredOk(g, start, s, v)
    requires exists stamp :: Ranked(s.dist, s.prev, stamp)
    ensures route.distance == s.dist[end]
    ensures |route.path| > 0 && route.path[|route.path| - 1] == end
    ensures route.distance.Infinite? ==> route.path == [end]
    ensures s.prev[end] == None ==> route.path == [end]
    ensures forall i :: 0 <= i < |route.path| ==> route.path[i] in g.nodes
    ensures s.prev[route.path[0]] == None
    ensures forall i :: 0 <= i < |route.path| - 1 ==> s.prev[route.path[i + 1]] == Some(route.path[i])
    ensures forall i, j :: 0 <= i < j < |route.path| ==> route.path[i] != route.path[j]
    ensures route.distance.Finite? ==>
      IsWalkBetween(g, route.path, start, end) && WalkWeight(g, route.path) == route.distance.km
  {
    forall v | v in s.prev && s.prev[v].Some? ensures s.prev[v].value in s.prev {
      assert PredOk(g, start, s, v);
    }
    var path := Reconstruct(s.prev, end, s.dist);
    var n := |path|;
    if s.dist[end].Finite? {
      ChainIsWalk(g, start, s, path);
      assert PredOk(g, start, s, path[0]);
    }
    route := Route(path, s.dist[end]);
  }

  /**
    `dijkstra(graph, start, end)`: the shortest walk from `start` to `end`
    and its weight, `Infinite` with the one-node path `[end]` when `end`
    cannot be reached, or the error a malformed graph raises.
   */
  method ShortestPath(g: Graph, start: string, end: string) returns (r: Result<Route, RouteError>)
    requires start in g.nodes && end in g.nodes
    ensures r.Failure? ==> Defect(g, r.error) && Reachable(g, start, r.error.node)
    ensures r.Success? <==> SoundFrom(g, start)
    ensures WellFormed(g) ==> r.Success?
    ensures r.Success? ==> |r.value.path| > 0 && r.value.path[|r.value.path| - 1] == end
    ensures r.Success? && r.value.distance.Infinite? ==> r.value.path == [end]
    ensures r.Success? && start == end ==> r.value == Route([start], Finite(0))
    ensures r.Success? ==> forall i, j :: 0 <= i < j < |r.value.path| ==> r.value.path[i] != r.value.path[j]
    ensures r.Success? && r.value.distance.Finite? ==>
      IsWalkBetween(g, r.value.path, start, end) && WalkWeight(g, r.value.path) == r.value.distance.km
    ensures r.Success? ==> forall p :: IsWalkBetween(g, p, start, end) ==>
      r.value.distance.Finite? && r.value.distance.km <= WalkWeight(g, p)
  {
    var searched := Search(g, start);
    if searched.Failure? {
      DefectMeansMalformed(g, searched.error);
      return Failure(searched.error);
    }
    if WellFormed(g) {
      WellFormedIsSound(g, start);
    }
    var s := searched.value;
    var route := Finish(g, start, s, end);
    forall p | IsWalkBetween(g, p, start, end)
      ensures route.distance.Finite? && route.distance.km <= WalkWeight(g, p)
    {
      WalkBound(g, s.dist, p);
    }
    r := Success(route);
  }
}
