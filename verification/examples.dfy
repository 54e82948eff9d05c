/**
  A worked query on a three-node network: the direct edge A -> C (10 km)
  loses to the detour A -> B -> C (2 + 3 km).
 */
module Examples {
  import opened Wrappers
  import opened Graphs
  import opened Relaxation
  import opened Dijkstra

  function Triangle(): Graph {
    Graph({"A", "B", "C"}, map["A" := [Edge("B", 2), Edge("C", 10)], "B" := [Edge("C", 3)], "C" := []])
  }

  /** Every node of the network has an adjacency list and every edge ends at a node. */
  lemma TriangleWellFormed()
    ensures WellFormed(Triangle())
  {
    var g := Triangle();
    assert g.edges.Keys == {"A", "B", "C"};
    forall u, i | u in g.edges && 0 <= i < |g.edges[u]| ensures g.edges[u][i].target in g.nodes {
      assert u == "A" || u == "B";
    }
  }

  /** The only walk from A to C of at most 5 km is A, B, C. */
  lemma OnlyShortWalk(p: seq<string>)
    requires IsWalkBetween(Triangle(), p, "A", "C") && WalkWeight(Triangle(), p) <= 5
    ensures p == ["A", "B", "C"]
  {
    var g := Triangle();
    assert |p| > 1;
    assert WalkWeight(g, p) >= EdgeWeight(g, p[0], p[1]).value;
    assert p[1] == "B" by {
      assert EdgeWeight(g, "A", p[1]).Some?;
    }
    assert |p| > 2;
    assert p[2] == "C" by {
      assert EdgeWeight(g, "B", p[2]).Some?;
    }
    assert forall x :: EdgeWeight(g, "C", x).None?;
    forall i | 0 <= i < |p| - 1 ensures p[i] != "C" {
      assert EdgeWeight(g, p[i], p[i + 1]).Some?;
    }
  }

  /** The detour A, B, C is a walk of 5 km. */
  lemma DetourWeight()
    ensures IsWalkBetween(Triangle(), ["A", "B", "C"], "A", "C")
    ensures WalkWeight(Triangle(), ["A", "B", "C"]) == 5
  {
    var detour := ["A", "B", "C"];
    assert detour[1..] == ["B", "C"];
    assert detour[1..][1..] == ["C"];
  }

  /** A route that is a walk of its own weight and no heavier than any walk from A to C is the detour. */
  lemma ShortestIsDetour(route: Route)
    requires route.distance.Finite? ==>
      IsWalkBetween(Triangle(), route.path, "A", "C") && WalkWeight(Triangle(), route.path) == route.distance.km
    requires forall p :: IsWalkBetween(Triangle(), p, "A", "C") ==>
      route.distance.Finite? && route.distance.km <= WalkWeight(Triangle(), p)
    ensures route == Route(["A", "B", "C"], Finite(5))
  {
    DetourWeight();
    OnlyShortWalk(route.path);
  }

  /** Searching the network from A to C returns the detour and its 5 km. */
  method TriangleRoute() returns (r: Result<Route, RouteError>)
    ensures r == Success(Route(["A", "B", "C"], Finite(5)))
  {
    TriangleWellFormed();
    r := ShortestPath(Triangle(), "A", "C");
    ShortestIsDetour(r.value);
  }
}
