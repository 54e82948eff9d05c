/**
  What holds of the search state between two heap pops, why one visit
  keeps it, why the predecessor links never form a cycle, and why the loop
  ends.
 */
module SearchInvariant {
  import opened Wrappers
  import opened Graphs
  import opened PriorityQueue
  import opened Relaxation

  /**
    The predecessor link of `v` is consistent: no link means `v` is the
    start or unreached; a link to `u` means both are reached and `v` costs
    at least `u` plus the cheapest edge `u -> v`.
   */
  ghost predicate PredOk(g: Graph, start: string, s: SearchState, v: string)
    requires v in s.dist && v in s.prev
  {
    match s.prev[v]
    case None => v == start || s.dist[v].Infinite?
    case Some(u) =>
      && u in s.dist && u in g.edges
      && s.dist[u].Finite? && s.dist[v].Finite?
      && EdgeWeight(g, u, v).Some?
      && s.dist[u].km + EdgeWeight(g, u, v).value <= s.dist[v].km
  }

  /**
    The loop invariant: the maps cover exactly the nodes, the start stays at
    0 with no predecessor, heap entries never undercut their node's
    distance, a reached node either still has its current entry in the heap
    or has all its edges relaxed, and every predecessor link is consistent.
   */
  ghost predicate Invariant(g: Graph, start: string, s: SearchState) {
    && s.dist.Keys == g.nodes && s.prev.Keys == g.nodes
    && start in g.nodes && s.dist[start] == Finite(0) && s.prev[start] == None
    && (forall e :: e in s.queue ==> Queued(s.dist, e))
    && (forall u :: u in g.nodes && s.dist[u].Finite? ==>
          Entry(s.dist[u].km, u) in s.queue || Relaxed(g, s.dist, u))
    && (forall v :: v in g.nodes ==> PredOk(g, start, s, v))
  }

  /** `a` precedes `b` in the order (distance, stamp). */
  ghost predicate Ahead(dist: map<string, Distance>, stamp: map<string, nat>, a: string, b: string) {
    && a in dist && b in dist && a in stamp && b in stamp
    && dist[a].Finite? && dist[b].Finite?
    && (dist[a].km < dist[b].km || (dist[a].km == dist[b].km && stamp[a] < stamp[b]))
  }

  /** Every predecessor comes strictly earlier in the order (distance, stamp). */
  ghost predicate Ranked(dist: map<string, Distance>, prev: map<string, Option<string>>, stamp: map<string, nat>) {
    forall v :: v in prev && prev[v].Some? ==> Ahead(dist, stamp, prev[v].value, v)
  }

  /** Stamps every node whose distance changed with `clock`. */
  ghost function Restamp(stamp: map<string, nat>, before: map<string, Distance>, after: map<string, Distance>, clock: nat): (r: map<string, nat>)
    ensures r.Keys == stamp.Keys
    ensures forall x :: x in r ==> r[x] == clock || r[x] == stamp[x]
  {
    map x | x in stamp :: if x in before && x in after && after[x] != before[x] then clock else stamp[x]
  }

  /** Restamping with no distance changed keeps every stamp. */
  lemma RestampUnchanged(stamp: map<string, nat>, dist: map<string, Distance>, clock: nat)
    ensures Restamp(stamp, dist, dist, clock) == stamp
  {
  }

  /** Restamping with the current clock keeps every stamp below the next clock. */
  lemma RestampBelow(stamp: map<string, nat>, before: map<string, Distance>, after: map<string, Distance>, clock: nat)
    requires forall x :: x in stamp ==> stamp[x] < clock
    ensures var r := Restamp(stamp, before, after, clock);
      r.Keys == stamp.Keys && forall x :: x in r ==> r[x] < clock + 1
  {
  }

  /** The state right after popping `e`. */
  function Pop(s: SearchState, e: Entry): SearchState {
    s.(queue := s.queue - multiset{e})
  }

  /** The initial state satisfies the invariant, with all stamps 0. */
  lemma InitInvariant(g: Graph, start: string)
    requires start in g.nodes
    ensures Invariant(g, start, Init(g, start))
    ensures Ranked(Init(g, start).dist, Init(g, start).prev, map v | v in g.nodes :: 0)
  {
    var s := Init(g, start);
    assert forall u :: u in g.nodes && s.dist[u].Finite? ==> u == start;
  }

  /** A stale entry is dropped without touching the rest of the invariant. */
  lemma StaleInvariant(g: Graph, start: string, s: SearchState, e: Entry)
    requires Invariant(g, start, s) && e in s.queue && Stale(s, e)
    ensures Invariant(g, start, Pop(s, e))
  {
    var p := Pop(s, e);
    forall u | u in g.nodes && p.dist[u].Finite? && Entry(p.dist[u].km, u) in s.queue
      ensures Entry(p.dist[u].km, u) in p.queue
    {
      assert Entry(p.dist[u].km, u) != e;
    }
  }

  /** `e` is the current entry of its node: its distance is the node's recorded distance. */
  ghost predicate Current(g: Graph, s: SearchState, e: Entry) {
    && s.dist.Keys == g.nodes && s.prev.Keys == g.nodes
    && e.node in g.nodes && s.dist[e.node] == Finite(e.d)
  }

  /** Under the invariant, a queued entry that is not stale is current. */
  lemma NotStaleIsCurrent(g: Graph, start: string, s: SearchState, e: Entry)
    requires Invariant(g, start, s) && e in s.queue && !Stale(s, e)
    ensures Current(g, s, e)
  {
    assert Queued(s.dist, e);
  }

  /** Facts about a successful visit of a current entry. */
  lemma SettleFacts(g: Graph, s: SearchState, e: Entry)
    requires Current(g, s, e)
    requires Visit(g, Pop(s, e), e).Success?
    ensures var p := Pop(s, e); var s' := Visit(g, p, e).value;
      && s'.dist.Keys == g.nodes && s'.prev.Keys == g.nodes
      && (forall x :: x in g.nodes ==> s'.dist[x].AtMost(s.dist[x]))
      && s'.dist[e.node] == Finite(e.d)
      && Relaxed(g, s'.dist, e.node)
      && p.queue <= s'.queue
      && (forall f :: f in s'.queue ==> f in p.queue || Queued(s'.dist, f))
      && (forall x :: x in g.nodes && s'.dist[x] == p.dist[x] ==> s'.prev[x] == p.prev[x])
      && (s'.dist == p.dist ==> s' == p)
  {
    var p := Pop(s, e);
    var u := e.node;
    VisitRelaxes(g, p, e);
    var adj := g.edges[u];
    RelaxEdgesMonotone(p, u, e.d, adj);
    RelaxEdgesQueue(p, u, e.d, adj);
    RelaxEdgesKeepsSettled(p, u, e.d, adj, u);
  }

  /** A node whose distance changed in the visit of a current entry points back to it and is re-queued. */
  lemma SettleChanged(g: Graph, s: SearchState, e: Entry, x: string)
    requires Current(g, s, e)
    requires Visit(g, Pop(s, e), e).Success?
    requires x in g.nodes && Visit(g, Pop(s, e), e).value.dist[x] != s.dist[x]
    ensures var s' := Visit(g, Pop(s, e), e).value;
      && s'.prev[x] == Some(e.node)
      && s'.dist[x].Finite?
      && EdgeWeight(g, e.node, x).Some?
      && e.d + EdgeWeight(g, e.node, x).value <= s'.dist[x].km
      && Entry(s'.dist[x].km, x) in s'.queue
  {
    var p := Pop(s, e);
    VisitRelaxes(g, p, e);
    RelaxEdgesPredecessor(p, e.node, e.d, g.edges[e.node], x);
    RelaxEdgesRequeued(p, e.node, e.d, g.edges[e.node], x);
    RelaxEdgesCheapest(p, e.node, e.d, g.edges[e.node], x);
  }

  /** Visiting a current entry keeps every heap entry at or above its node's distance. */
  lemma SettleQueued(g: Graph, s: SearchState, e: Entry)
    requires Current(g, s, e)
    requires Visit(g, Pop(s, e), e).Success?
    requires forall f :: f in s.queue ==> Queued(s.dist, f)
    ensures var s' := Visit(g, Pop(s, e), e).value;
      forall f :: f in s'.queue ==> Queued(s'.dist, f)
  {
    SettleFacts(g, s, e);
    var p := Pop(s, e);
    var s' := Visit(g, p, e).value;
    forall f | f in s'.queue ensures Queued(s'.dist, f) {
      if f in p.queue {
        assert Queued(s.dist, f);
      }
    }
  }

  /** A node that was relaxed stays relaxed while its own distance stays and the others only fall. */
  lemma StaysRelaxed(g: Graph, d: map<string, Distance>, d': map<string, Distance>, x: string)
    requires Relaxed(g, d, x) && x in d' && d'[x] == d[x]
    requires forall t :: t in d ==> t in d' && d'[t].AtMost(d[t])
    ensures Relaxed(g, d', x)
  {
    forall i | 0 <= i < |g.edges[x]|
      ensures d'[g.edges[x][i].target].AtMost(Finite(d'[x].km + g.edges[x][i].weight))
    {
      var t := g.edges[x][i].target;
      assert d'[t].AtMost(d[t]);
    }
  }

  /** After visiting a current entry, a reached node is still queued at its distance or relaxed. */
  lemma SettlePendingAt(g: Graph, s: SearchState, e: Entry, x: string)
    requires Current(g, s, e)
    requires Visit(g, Pop(s, e), e).Success?
    requires x in g.nodes && Visit(g, Pop(s, e), e).value.dist[x].Finite?
    requires s.dist[x].Finite? ==> Entry(s.dist[x].km, x) in s.queue || Relaxed(g, s.dist, x)
    ensures var s' := Visit(g, Pop(s, e), e).value;
      Entry(s'.dist[x].km, x) in s'.queue || Relaxed(g, s'.dist, x)
  {
    SettleFacts(g, s, e);
    var p := Pop(s, e);
    var s' := Visit(g, p, e).value;
    if x != e.node {
      if s'.dist[x] != s.dist[x] {
        SettleChanged(g, s, e, x);
      } else if Entry(s.dist[x].km, x) in s.queue {
        assert Entry(s.dist[x].km, x) in p.queue;
      } else {
        StaysRelaxed(g, s.dist, s'.dist, x);
      }
    }
  }

  /** Visiting a current entry keeps the predecessor link of `v` consistent. */
  lemma SettlePredecessorAt(g: Graph, start: string, s: SearchState, e: Entry, v: string)
    requires Current(g, s, e)
    requires Visit(g, Pop(s, e), e).Success?
    requires v in g.nodes && PredOk(g, start, s, v)
    requires s.prev[v].Some? ==> s.prev[v].value in g.nodes
    ensures PredOk(g, start, Visit(g, Pop(s, e), e).value, v)
  {
    SettleFacts(g, s, e);
    var s' := Visit(g, Pop(s, e), e).value;
    if s'.dist[v] != s.dist[v] {
      SettleChanged(g, s, e, v);
    } else if s'.prev[v].Some? {
      var y := s'.prev[v].value;
      assert s'.dist[y].AtMost(s.dist[y]);
    }
  }

  /** Visiting a current entry keeps the invariant. */
  lemma SettleInvariant(g: Graph, start: string, s: SearchState, e: Entry)
    requires Invariant(g, start, s) && e in s.queue && !Stale(s, e)
    requires Visit(g, Pop(s, e), e).Success?
    ensures Invariant(g, start, Visit(g, Pop(s, e), e).value)
  {
    NotStaleIsCurrent(g, start, s, e);
    SettleFacts(g, s, e);
    SettleQueued(g, s, e);
    var s' := Visit(g, Pop(s, e), e).value;
    forall x | x in g.nodes && s'.dist[x].Finite?
      ensures Entry(s'.dist[x].km, x) in s'.queue || Relaxed(g, s'.dist, x)
    {
      SettlePendingAt(g, s, e, x);
    }
    forall v | v in g.nodes ensures PredOk(g, start, s', v) {
      assert PredOk(g, start, s, v);
      SettlePredecessorAt(g, start, s, e, v);
    }
    assert s'.dist[start].AtMost(s.dist[start]);
  }

  /** One visit keeps the invariant whenever it does not raise. */
  lemma VisitInvariant(g: Graph, start: string, s: SearchState, e: Entry)
    requires Invariant(g, start, s) && e in s.queue
    ensures var r := Visit(g, Pop(s, e), e);
      r.Success? ==> Invariant(g, start, r.value)
  {
    if Stale(s, e) {
      StaleInvariant(g, start, s, e);
    } else if Visit(g, Pop(s, e), e).Success? {
      SettleInvariant(g, start, s, e);
    }
  }

  /** Visiting a current entry keeps the predecessor links ranked once the changed nodes get a fresh stamp. */
  lemma SettleRanked(g: Graph, s: SearchState, e: Entry, stamp: map<string, nat>, clock: nat)
    requires Current(g, s, e)
    requires Visit(g, Pop(s, e), e).Success?
    requires Ranked(s.dist, s.prev, stamp) && stamp.Keys == g.nodes
    requires forall x :: x in stamp ==> stamp[x] < clock
    ensures var s' := Visit(g, Pop(s, e), e).value;
      Ranked(s'.dist, s'.prev, Restamp(stamp, s.dist, s'.dist, clock))
  {
    SettleFacts(g, s, e);
    var s' := Visit(g, Pop(s, e), e).value;
    var stamp' := Restamp(stamp, s.dist, s'.dist, clock);
    forall v | v in s'.prev && s'.prev[v].Some?
      ensures Ahead(s'.dist, stamp', s'.prev[v].value, v)
    {
      var y := s'.prev[v].value;
      if s'.dist[v] != s.dist[v] {
        SettleChanged(g, s, e, v);
      } else {
        assert Ahead(s.dist, stamp, y, v);
        assert s'.dist[y].AtMost(s.dist[y]);
      }
    }
  }

  /** One visit keeps the predecessor links ranked once the changed nodes get a fresh stamp. */
  lemma VisitRanked(g: Graph, start: string, s: SearchState, e: Entry, stamp: map<string, nat>, clock: nat)
    requires Invariant(g, start, s) && e in s.queue
    requires Ranked(s.dist, s.prev, stamp) && stamp.Keys == g.nodes
    requires forall x :: x in stamp ==> stamp[x] < clock
    requires Visit(g, Pop(s, e), e).Success?
    ensures var s' := Visit(g, Pop(s, e), e).value;
      Ranked(s'.dist, s'.prev, Restamp(stamp, s.dist, s'.dist, clock))
  {
    if Stale(s, e) {
      RestampUnchanged(stamp, s.dist, clock);
    } else {
      NotStaleIsCurrent(g, start, s, e);
      SettleRanked(g, s, e, stamp, clock);
    }
  }

  /** Every reached node can be reached from `start` along a walk. */
  ghost predicate ReachedReachable(g: Graph, start: string, dist: map<string, Distance>) {
    forall v :: v in dist && dist[v].Finite? ==> Reachable(g, start, v)
  }

  /** Only `start` is reached initially, along the one-node walk. */
  lemma InitReachable(g: Graph, start: string)
    requires start in g.nodes
    ensures ReachedReachable(g, start, Init(g, start).dist)
  {
    assert IsWalkBetween(g, [start], start, start);
  }

  /** A node newly reached in the visit of a current entry extends the walk to the popped node by one edge. */
  lemma SettleReachable(g: Graph, start: string, s: SearchState, e: Entry)
    requires Current(g, s, e)
    requires Visit(g, Pop(s, e), e).Success?
    requires ReachedReachable(g, start, s.dist)
    ensures ReachedReachable(g, start, Visit(g, Pop(s, e), e).value.dist)
  {
    SettleFacts(g, s, e);
    var s' := Visit(g, Pop(s, e), e).value;
    forall x | x in s'.dist && s'.dist[x].Finite? ensures Reachable(g, start, x) {
      if s'.dist[x] != s.dist[x] {
        SettleChanged(g, s, e, x);
        assert Reachable(g, start, e.node);
        var p :| IsWalkBetween(g, p, start, e.node);
        WalkExtend(g, p, x);
        assert IsWalkBetween(g, p + [x], start, x);
      }
    }
  }

  /** Any successful visit keeps every reached node reachable. */
  lemma VisitReachable(g: Graph, start: string, s: SearchState, e: Entry)
    requires Invariant(g, start, s) && e in s.queue
    requires Visit(g, Pop(s, e), e).Success?
    requires ReachedReachable(g, start, s.dist)
    ensures ReachedReachable(g, start, Visit(g, Pop(s, e), e).value.dist)
  {
    if !Stale(s, e) {
      NotStaleIsCurrent(g, start, s, e);
      SettleReachable(g, start, s, e);
    }
  }

  /** A visit raises only at a reached, hence reachable, node: the graph is not sound from `start`. */
  lemma VisitFailure(g: Graph, start: string, s: SearchState, e: Entry)
    requires Invariant(g, start, s) && e in s.queue
    requires ReachedReachable(g, start, s.dist)
    requires Visit(g, Pop(s, e), e).Failure?
    ensures var err := Visit(g, Pop(s, e), e).error;
      Defect(g, err) && Reachable(g, start, err.node) && !SoundFrom(g, start)
  {
    assert Queued(s.dist, e);
    DefectBreaksSound(g, start, Visit(g, Pop(s, e), e).error);
  }

  /** Every edge out of every reached node satisfies `dist[v] <= dist[u] + w`. */
  ghost predicate Fixpoint(g: Graph, dist: map<string, Distance>) {
    forall u :: u in dist && dist[u].Finite? ==> Relaxed(g, dist, u)
  }

  /** When the heap runs empty the invariant gives the fixpoint. */
  lemma EmptyQueueFixpoint(g: Graph, start: string, s: SearchState)
    requires Invariant(g, start, s) && s.queue == multiset{}
    ensures Fixpoint(g, s.dist)
  {
  }

  /**
    One successful visit lowers (unreached count, finite total, heap size)
    lexicographically: either some distance fell, or nothing but the heap
    changed and the heap lost the popped entry.
   */
  lemma VisitProgress(g: Graph, start: string, s: SearchState, e: Entry, order: seq<string>)
    requires Invariant(g, start, s) && e in s.queue
    requires Visit(g, Pop(s, e), e).Success?
    requires forall x :: x in order <==> x in g.nodes
    ensures var s' := Visit(g, Pop(s, e), e).value;
      || Unreached(s'.dist, order) < Unreached(s.dist, order)
      || (Unreached(s'.dist, order) == Unreached(s.dist, order) && ReachedTotal(s'.dist, order) < ReachedTotal(s.dist, order))
      || (s'.dist == s.dist && |s'.queue| < |s.queue|)
  {
    var p := Pop(s, e);
    var s' := Visit(g, p, e).value;
    if Stale(s, e) {
      assert s' == p;
    } else {
      NotStaleIsCurrent(g, start, s, e);
      SettleProgress(g, s, e, order);
    }
  }

  /** The visit of a current entry lowers (unreached count, finite total, heap size) lexicographically. */
  lemma SettleProgress(g: Graph, s: SearchState, e: Entry, order: seq<string>)
    requires Current(g, s, e) && e in s.queue
    requires Visit(g, Pop(s, e), e).Success?
    requires forall x :: x in order <==> x in g.nodes
    ensures var s' := Visit(g, Pop(s, e), e).value;
      || Unreached(s'.dist, order) < Unreached(s.dist, order)
      || (Unreached(s'.dist, order) == Unreached(s.dist, order) && ReachedTotal(s'.dist, order) < ReachedTotal(s.dist, order))
      || (s'.dist == s.dist && |s'.queue| < |s.queue|)
  {
    SettleFacts(g, s, e);
    var s' := Visit(g, Pop(s, e), e).value;
    if s'.dist != s.dist {
      Progress(s.dist, s'.dist, order);
      var k :| k in g.nodes && s'.dist[k] != s.dist[k];
      var i :| 0 <= i < |order| && order[i] == k;
    } else {
      assert s' == Pop(s, e);
      assert |Pop(s, e).queue| == |s.queue| - 1;
    }
  }

  /**
    One successful visit keeps every part of the loop invariant (with the
    changed nodes restamped) and lowers the termination measure.
   */
  lemma Step(g: Graph, start: string, s: SearchState, e: Entry, stamp: map<string, nat>, clock: nat, order: seq<string>)
    requires Invariant(g, start, s) && e in s.queue
    requires Ranked(s.dist, s.prev, stamp) && stamp.Keys == g.nodes
    requires forall x :: x in stamp ==> stamp[x] < clock
    requires ReachedReachable(g, start, s.dist)
    requires forall x :: x in order <==> x in g.nodes
    requires Visit(g, Pop(s, e), e).Success?
    ensures var s' := Visit(g, Pop(s, e), e).value;
      var stamp' := Restamp(stamp, s.dist, s'.dist, clock);
      && Invariant(g, start, s')
      && Ranked(s'.dist, s'.prev, stamp') && stamp'.Keys == g.nodes
      && (forall x :: x in stamp' ==> stamp'[x] < clock + 1)
      && ReachedReachable(g, start, s'.dist)
      && (|| Unreached(s'.dist, order) < Unreached(s.dist, order)
          || (Unreached(s'.dist, order) == Unreached(s.dist, order) && ReachedTotal(s'.dist, order) < ReachedTotal(s.dist, order))
          || (s'.dist == s.dist && |s'.queue| < |s.queue|))
  {
    var s' := Visit(g, Pop(s, e), e).value;
    VisitInvariant(g, start, s, e);
    VisitReachable(g, start, s, e);
    VisitRanked(g, start, s, e, stamp, clock);
    VisitProgress(g, start, s, e, order);
    RestampBelow(stamp, s.dist, s'.dist, clock);
  }

  /** Number of unreached nodes in `order`. */
  ghost function Unreached(dist: map<string, Distance>, order: seq<string>): nat
    decreases |order|
  {
    if |order| == 0 then 0
    else (if order[0] in dist && dist[order[0]].Infinite? then 1 else 0) + Unreached(dist, order[1..])
  }

  /** Sum of the finite distances of the nodes in `order`. */
  ghost function ReachedTotal(dist: map<string, Distance>, order: seq<string>): nat
    decreases |order|
  {
    if |order| == 0 then 0
    else (if order[0] in dist && dist[order[0]].Finite? then dist[order[0]].km else 0) + ReachedTotal(dist, order[1..])
  }

  /** Lowering distances pointwise lowers (unreached count, finite total) lexicographically, strictly if any changed. */
  lemma {:induction false} Progress(d: map<string, Distance>, d': map<string, Distance>, order: seq<string>)
    requires forall i :: 0 <= i < |order| ==> order[i] in d && order[i] in d' && d'[order[i]].AtMost(d[order[i]])
    ensures || Unreached(d', order) < Unreached(d, order)
            || (&& Unreached(d', order) == Unreached(d, order)
                && ReachedTotal(d', order) <= ReachedTotal(d, order)
                && ((exists i :: 0 <= i < |order| && d'[order[i]] != d[order[i]]) ==>
                      ReachedTotal(d', order) < ReachedTotal(d, order)))
    decreases |order|
  {
    if |order| > 0 {
      var tail := order[1..];
      assert forall i :: 0 < i < |order| ==> order[i] == tail[i - 1];
      Progress(d, d', tail);
      if exists i :: 0 <= i < |order| && d'[order[i]] != d[order[i]] {
        var i :| 0 <= i < |order| && d'[order[i]] != d[order[i]];
        if i > 0 {
          assert d'[tail[i - 1]] != d[tail[i - 1]];
        }
      }
    }
  }

  /** A sequence listing exactly the elements of a set. */
  ghost function Enumerate(s: set<string>): (r: seq<string>)
    ensures forall x :: x in r <==> x in s
    decreases s
  {
    if s == {} then []
    else
      var x :| x in s;
      [x] + Enumerate(s - {x})
  }
}
