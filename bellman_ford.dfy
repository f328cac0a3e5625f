/**
 * Bellman-Ford shortest paths with negative-cycle detection
 * (lab3/bellman_ford.py), over the exchange-rate graph of lab 3: a dict of
 * dicts in which graph[u][v] holds the quote for the edge u -> v.
 *
 * Prices are reals and the tolerance is a non-negative real.  The graph is
 * a value: shortest_paths only reads it.  Distances are `Inf` (the source's
 * float('inf')) or finite, and the proof keeps, for every finite distance,
 * a walk from the start vertex whose weight it is.
 */
module BellmanFord {
  import opened Wrappers
  import opened PyDicts

  /** One quote on an edge: `{'timestamp': ..., 'price': ...}`, timestamps in microseconds. */
  datatype Edge = Edge(timestamp: int, price: real)

  /** `graph[u][v]` is the edge u -> v. */
  type Graph<V(==)> = Dict<V, Dict<V, Edge>>

  /** Both levels of dicts are well formed. */
  predicate GraphValid<V(==)>(g: Graph<V>)
  {
    g.Valid() && forall u :: u in g.items ==> g.items[u].Valid()
  }

  predicate HasEdge<V(==)>(g: Graph<V>, u: V, v: V)
  {
    u in g.items && v in g.items[u].items
  }

  function Price<V(==)>(g: Graph<V>, u: V, v: V): real
    requires HasEdge(g, u, v)
  {
    g.items[u].items[v].price
  }

  /** A distance: float('inf') or a finite value. */
  datatype Dist = Inf | Fin(value: real)

  /** `distance[u] is not FLOAT_REF and distance[u] + w + tolerance < distance[v]` */
  predicate Improves(du: Dist, w: real, tol: real, dv: Dist)
  {
    du.Fin? && (dv.Inf? || du.value + w + tol < dv.value)
  }

  /** The edge u -> v still satisfies the relaxation condition under dist. */
  predicate Violates<V(==)>(g: Graph<V>, dist: map<V, Dist>, tol: real, u: V, v: V)
  {
    HasEdge(g, u, v) && u in dist && v in dist && Improves(dist[u], Price(g, u, v), tol, dist[v])
  }

  /** Position (i, j) of the iteration: the j-th edge out of the i-th vertex. */
  predicate EdgeAt<V(==)>(g: Graph<V>, i: int, j: int)
  {
    0 <= i < |g.order| && g.order[i] in g.items && 0 <= j < |g.items[g.order[i]].order|
  }

  function Source<V(==)>(g: Graph<V>, i: int, j: int): V
    requires EdgeAt(g, i, j)
  {
    g.order[i]
  }

  function Target<V(==)>(g: Graph<V>, i: int, j: int): V
    requires EdgeAt(g, i, j)
  {
    g.items[g.order[i]].order[j]
  }

  /** Every edge is met by the iteration. */
  lemma EdgePosition<V>(g: Graph<V>, u: V, v: V) returns (i: int, j: int)
    requires GraphValid(g) && HasEdge(g, u, v)
    ensures EdgeAt(g, i, j) && Source(g, i, j) == u && Target(g, i, j) == v
  {
    i :| 0 <= i < |g.order| && g.order[i] == u;
    j :| 0 <= j < |g.items[u].order| && g.items[u].order[j] == v;
  }

  /** Consecutive vertices of w are joined by edges. */
  ghost predicate Chained<V>(g: Graph<V>, w: seq<V>)
  {
    forall i :: 0 <= i < |w| - 1 ==> HasEdge(g, w[i], w[i + 1])
  }

  /** w is a walk through g from s to t. */
  ghost predicate IsWalk<V>(g: Graph<V>, w: seq<V>, s: V, t: V)
  {
    |w| >= 1 && w[0] == s && w[|w| - 1] == t && Chained(g, w)
  }

  /** Sum of the prices along a walk. */
  ghost function WalkWeight<V>(g: Graph<V>, w: seq<V>): real
    requires Chained(g, w)
  {
    if |w| <= 1 then 0.0
    else
      assert Chained(g, w[..|w| - 1]);
      WalkWeight(g, w[..|w| - 1]) + Price(g, w[|w| - 2], w[|w| - 1])
  }

  /** Extending a walk by one edge adds that edge's price. */
  lemma WalkExtend<V>(g: Graph<V>, w: seq<V>, s: V, u: V, v: V)
    requires IsWalk(g, w, s, u) && HasEdge(g, u, v)
    ensures IsWalk(g, w + [v], s, v)
    ensures WalkWeight(g, w + [v]) == WalkWeight(g, w) + Price(g, u, v)
  {
    var w' := w + [v];
    assert w'[..|w'| - 1] == w;
  }

  /** u is a sound predecessor of v: an edge u -> v that dist[v] is no cheaper than. */
  ghost predicate Linked<V>(g: Graph<V>, dist: map<V, Dist>, v: V, u: V)
  {
    && HasEdge(g, u, v) && u in dist && v in dist && dist[u].Fin? && dist[v].Fin?
    && dist[u].value + Price(g, u, v) <= dist[v].value
  }

  /** The vertices with a predecessor entry have a distance; one other than the start is finite iff it has a predecessor. */
  ghost predicate FinIffPred<V>(start: V, dist: map<V, Dist>, pred: map<V, Option<V>>)
  {
    && (forall v :: v in pred ==> v in dist)
    && (forall v :: v in dist && v != start ==> (dist[v].Fin? <==> v in pred && pred[v].Some?))
  }

  /** Giving v a finite distance and a predecessor together keeps FinIffPred. */
  lemma RelaxFinite<V>(start: V, dist: map<V, Dist>, pred: map<V, Option<V>>, u: V, v: V, d: real)
    requires FinIffPred(start, dist, pred) && v in dist
    ensures FinIffPred(start, dist[v := Fin(d)], pred[v := Some(u)])
  {
  }

  /** Every predecessor is sound. */
  ghost predicate PredsLinked<V>(g: Graph<V>, dist: map<V, Dist>, pred: map<V, Option<V>>)
  {
    forall v :: v in pred && pred[v].Some? ==> Linked(g, dist, v, pred[v].value)
  }

  /** Every finite distance is the weight of a walk from the start, kept in walks. */
  ghost predicate WalksWitness<V>(g: Graph<V>, start: V, dist: map<V, Dist>, walks: map<V, seq<V>>)
  {
    forall v :: v in dist && dist[v].Fin? ==>
      v in walks && IsWalk(g, walks[v], start, v) && WalkWeight(g, walks[v]) == dist[v].value
  }

  /**
   * What relaxation keeps: the start stays finite and non-positive; a vertex
   * other than the start is finite exactly when it has a predecessor, which
   * has an edge to it; every finite distance is the weight of a walk from
   * the start (walks[v]).
   */
  ghost predicate Inv<V>(g: Graph<V>, start: V, dist: map<V, Dist>, pred: map<V, Option<V>>, walks: map<V, seq<V>>)
  {
    && start in dist && dist[start].Fin? && dist[start].value <= 0.0
    && FinIffPred(start, dist, pred)
    && PredsLinked(g, dist, pred)
    && WalksWitness(g, start, dist, walks)
  }

  /** d is no larger than e. */
  predicate AtMost(d: Dist, e: Dist)
  {
    e.Inf? || (d.Fin? && d.value <= e.value)
  }

  /** Lowering v's distance to d through u keeps every predecessor sound. */
  lemma RelaxLinks<V>(g: Graph<V>, dist: map<V, Dist>, pred: map<V, Option<V>>, u: V, v: V, d: real)
    requires PredsLinked(g, dist, pred) && HasEdge(g, u, v) && u in dist && v in dist && dist[u].Fin?
    requires d == dist[u].value + Price(g, u, v) && AtMost(Fin(d), dist[v])
    ensures PredsLinked(g, dist[v := Fin(d)], pred[v := Some(u)])
  {
    var dist', pred' := dist[v := Fin(d)], pred[v := Some(u)];
    forall x | x in pred' && pred'[x].Some?
      ensures Linked(g, dist', x, pred'[x].value)
    {
      if x != v {
        assert Linked(g, dist, x, pred[x].value);
      }
    }
  }

  /** Lowering v's distance to d through u keeps a witnessing walk for every finite distance. */
  lemma RelaxWalks<V>(g: Graph<V>, start: V, dist: map<V, Dist>, walks: map<V, seq<V>>, u: V, v: V, d: real)
    requires WalksWitness(g, start, dist, walks) && HasEdge(g, u, v) && u in dist && dist[u].Fin?
    requires d == dist[u].value + Price(g, u, v)
    ensures WalksWitness(g, start, dist[v := Fin(d)], walks[v := walks[u] + [v]])
  {
    WalkExtend(g, walks[u], start, u, v);
  }

  /**
   * Relaxing an improving edge u -> v (distance[v] = distance[u] + w,
   * predecessor[v] = u) keeps the invariant, and lowers v's distance and
   * no other.
   */
  lemma RelaxStep<V>(g: Graph<V>, start: V, tol: real, dist: map<V, Dist>, pred: map<V, Option<V>>,
                     walks: map<V, seq<V>>, u: V, v: V)
    requires Inv(g, start, dist, pred, walks) && tol >= 0.0
    requires Violates(g, dist, tol, u, v)
    ensures Inv(g, start, dist[v := Fin(dist[u].value + Price(g, u, v))], pred[v := Some(u)],
                walks[v := walks[u] + [v]])
    ensures AtMost(Fin(dist[u].value + Price(g, u, v)), dist[v])
  {
    var d := dist[u].value + Price(g, u, v);
    RelaxLinks(g, dist, pred, u, v, d);
    RelaxWalks(g, start, dist, walks, u, v, d);
    RelaxFinite(start, dist, pred, u, v, d);
  }

  /** RelaxStep on the key sets too, with every distance no larger than before. */
  lemma RelaxState<V>(g: Graph<V>, start: V, tol: real, dist: map<V, Dist>, pred: map<V, Option<V>>,
                      walks: map<V, seq<V>>, u: V, v: V, dist0: map<V, Dist>)
    requires State(g, start, dist, pred, walks) && tol >= 0.0
    requires Violates(g, dist, tol, u, v)
    requires dist0.Keys == dist.Keys && forall x :: x in dist0 ==> AtMost(dist[x], dist0[x])
    ensures var d := dist[u].value + Price(g, u, v);
      && State(g, start, dist[v := Fin(d)], pred[v := Some(u)], walks[v := walks[u] + [v]])
      && forall x :: x in dist0 ==> AtMost(dist[v := Fin(d)][x], dist0[x])
  {
    RelaxStep(g, start, tol, dist, pred, walks, u, v);
    var d := dist[u].value + Price(g, u, v);
    forall x | x in dist0
      ensures AtMost(dist[v := Fin(d)][x], dist0[x])
    {
      if x == v {
        assert AtMost(Fin(d), dist[v]) && AtMost(dist[v], dist0[v]);
      }
    }
  }

  /**
   * With no improving edge left, distances grow along any walk by at most
   * the walk's weight plus the tolerance per edge.
   */
  lemma {:induction false} WalkBound<V>(g: Graph<V>, dist: map<V, Dist>, tol: real, w: seq<V>, a: V, b: V)
    requires IsWalk(g, w, a, b) && a in dist && dist[a].Fin?
    requires forall x, y :: HasEdge(g, x, y) ==> y in dist
    requires forall x, y :: HasEdge(g, x, y) && x in dist ==> !Violates(g, dist, tol, x, y)
    ensures b in dist && dist[b].Fin?
    ensures dist[b].value <= dist[a].value + WalkWeight(g, w) + tol * (|w| - 1) as real
    decreases |w|
  {
    if |w| > 1 {
      var w' := w[..|w| - 1];
      var u := w[|w| - 2];
      assert IsWalk(g, w', a, u);
      WalkBound(g, dist, tol, w', a, u);
      assert !Violates(g, dist, tol, u, b);
    }
  }

  /**
   * When no edge is reported, no closed walk through a reachable vertex
   * weighs less than minus the tolerance per edge: with tolerance 0, no
   * negative cycle is reachable from the start.
   */
  lemma NoReportNoNegativeCycle<V>(g: Graph<V>, dist: map<V, Dist>, tol: real, c: seq<V>, x: V)
    requires IsWalk(g, c, x, x) && x in dist && dist[x].Fin?
    requires forall a, b :: HasEdge(g, a, b) ==> b in dist
    requires forall a, b :: HasEdge(g, a, b) && a in dist ==> !Violates(g, dist, tol, a, b)
    ensures WalkWeight(g, c) + tol * (|c| - 1) as real >= 0.0
  {
    WalkBound(g, dist, tol, c, x, x);
  }

  /** `{vertex: FLOAT_REF ...}` with `distance[start_vertex] = 0`. */
  function InitialDistances<V(==)>(g: Graph<V>, start: V): (dist: map<V, Dist>)
    ensures dist.Keys == g.items.Keys + {start}
    ensures dist[start] == Fin(0.0) && forall v :: v in dist && v != start ==> dist[v] == Inf
  {
    (map v | v in g.items :: Inf)[start := Fin(0.0)]
  }

  /** With no improving edge left, the start's distance bounds every walk from it. */
  lemma UnreportedBound<V>(g: Graph<V>, start: V, dist: map<V, Dist>, tol: real)
    requires start in dist && dist[start].Fin? && dist[start].value <= 0.0
    requires forall a, b :: HasEdge(g, a, b) ==> b in dist
    requires forall a, b :: HasEdge(g, a, b) ==> !Violates(g, dist, tol, a, b)
    ensures forall v, w :: IsWalk(g, w, start, v) ==>
      v in dist && dist[v].Fin? && dist[v].value <= WalkWeight(g, w) + tol * (|w| - 1) as real
  {
    forall v, w | IsWalk(g, w, start, v)
      ensures v in dist && dist[v].Fin? && dist[v].value <= WalkWeight(g, w) + tol * (|w| - 1) as real
    {
      WalkBound(g, dist, tol, w, start, v);
    }
  }

  // Path relaxation: after k passes, every walk from the start with at most
  // k edges bounds the distance at its end.

  /** The distance at v is finite and at most the weight of w plus the tolerance per edge. */
  ghost predicate Bounded<V(!new)>(g: Graph<V>, dist: map<V, Dist>, tol: real, w: seq<V>, v: V)
  {
    Chained(g, w) && v in dist && dist[v].Fin? && dist[v].value <= WalkWeight(g, w) + tol * (|w| - 1) as real
  }

  /** Every walk from the start with at most k edges bounds the distance at its end. */
  ghost predicate ShortWalksBounded<V(!new)>(g: Graph<V>, start: V, dist: map<V, Dist>, tol: real, k: int)
  {
    forall w, v :: IsWalk(g, w, start, v) && |w| <= k + 1 ==> Bounded(g, dist, tol, w, v)
  }

  /** Within pass k + 1: walks with k + 1 edges whose last edge is in done bound their end. */
  ghost predicate DoneBounded<V(!new)>(g: Graph<V>, start: V, dist: map<V, Dist>, tol: real, k: nat, done: set<(V, V)>)
  {
    forall w, v :: IsWalk(g, w, start, v) && |w| == k + 2 && (w[k], v) in done ==> Bounded(g, dist, tol, w, v)
  }

  /** Every edge out of the vertices us has been relaxed in this pass. */
  ghost predicate SourcesDone<V(!new)>(g: Graph<V>, done: set<(V, V)>, us: seq<V>)
  {
    forall u, v :: u in us && HasEdge(g, u, v) ==> (u, v) in done
  }

  /** Relaxing every edge out of u extends the vertices done by u. */
  lemma SourcesDoneStep<V(!new)>(g: Graph<V>, done0: set<(V, V)>, done: set<(V, V)>, us: seq<V>, u: V)
    requires SourcesDone(g, done0, us) && done0 <= done
    requires forall v :: HasEdge(g, u, v) ==> (u, v) in done
    ensures SourcesDone(g, done, us + [u])
  {
  }

  lemma PrefixStep<T>(s: seq<T>, i: int)
    requires 0 <= i < |s|
    ensures s[..i + 1] == s[..i] + [s[i]]
  {
  }

  /** The start vertex at distance at most 0 bounds the one walk without edges. */
  lemma InitialBounded<V(!new)>(g: Graph<V>, start: V, dist: map<V, Dist>, tol: real)
    requires start in dist && dist[start].Fin? && dist[start].value <= 0.0
    ensures ShortWalksBounded(g, start, dist, tol, 0)
  {
    forall w, v | IsWalk(g, w, start, v) && |w| <= 1
      ensures Bounded(g, dist, tol, w, v)
    {
      assert w == [start];
    }
  }

  /** Lowering distances keeps every bound. */
  lemma LoweredBounds<V(!new)>(g: Graph<V>, start: V, tol: real, k: nat, done: set<(V, V)>,
                         dist0: map<V, Dist>, dist: map<V, Dist>)
    requires ShortWalksBounded(g, start, dist0, tol, k) && DoneBounded(g, start, dist0, tol, k, done)
    requires dist0.Keys <= dist.Keys && forall x :: x in dist0 ==> AtMost(dist[x], dist0[x])
    ensures ShortWalksBounded(g, start, dist, tol, k) && DoneBounded(g, start, dist, tol, k, done)
  {
    forall w, v | IsWalk(g, w, start, v) && |w| <= k + 1
      ensures Bounded(g, dist, tol, w, v)
    {
      assert Bounded(g, dist0, tol, w, v);
    }
    forall w, v | IsWalk(g, w, start, v) && |w| == k + 2 && (w[k], v) in done
      ensures Bounded(g, dist, tol, w, v)
    {
      assert Bounded(g, dist0, tol, w, v);
    }
  }

  /**
   * Relaxing u -> v leaves dist[v] at most dist[u] + price + tolerance, so
   * every walk with k + 1 edges ending in u -> v is bounded.
   */
  lemma EdgeSettled<V(!new)>(g: Graph<V>, start: V, tol: real, k: nat, done: set<(V, V)>,
                       dist1: map<V, Dist>, dist: map<V, Dist>, u: V, v: V)
    requires ShortWalksBounded(g, start, dist1, tol, k) && DoneBounded(g, start, dist1, tol, k, done)
    requires dist1.Keys <= dist.Keys && forall x :: x in dist1 ==> AtMost(dist[x], dist1[x])
    requires HasEdge(g, u, v) && u in dist1
    requires dist1[u].Fin? ==>
      v in dist && dist[v].Fin? && dist[v].value <= dist1[u].value + Price(g, u, v) + tol
    ensures ShortWalksBounded(g, start, dist, tol, k) && DoneBounded(g, start, dist, tol, k, done + {(u, v)})
  {
    LoweredBounds(g, start, tol, k, done, dist1, dist);
    forall w, x | IsWalk(g, w, start, x) && |w| == k + 2 && (w[k], x) in done + {(u, v)}
      ensures Bounded(g, dist, tol, w, x)
    {
      if (w[k], x) !in done {
        var p := w[..k + 1];
        assert IsWalk(g, p, start, u);
        assert Bounded(g, dist1, tol, p, u);
        assert p == w[..|w| - 1];
        assert tol * (k + 1) as real == tol * k as real + tol;
      }
    }
  }

  /** Once every edge has been relaxed in pass k + 1, walks with k + 1 edges are bounded. */
  lemma PassDone<V(!new)>(g: Graph<V>, start: V, tol: real, k: nat, done: set<(V, V)>, dist: map<V, Dist>)
    requires GraphValid(g)
    requires ShortWalksBounded(g, start, dist, tol, k) && DoneBounded(g, start, dist, tol, k, done)
    requires SourcesDone(g, done, g.order)
    ensures ShortWalksBounded(g, start, dist, tol, k + 1)
  {
    forall w, v | IsWalk(g, w, start, v) && |w| <= k + 2
      ensures Bounded(g, dist, tol, w, v)
    {
      if |w| == k + 2 {
        assert HasEdge(g, w[k], w[k + 1]);
      }
    }
  }

  // Cycle removal: without a reachable negative cycle, a walk can be cut
  // down to at most len(graph) vertices without gaining weight.

  /** Some closed walk of negative weight is reachable from the start. */
  ghost predicate NegativeCycleReachable<V(!new)>(g: Graph<V>, start: V)
  {
    exists p, c, x :: IsWalk(g, p, start, x) && IsWalk(g, c, x, x) && |c| >= 2 && WalkWeight(g, c) < 0.0
  }

  /** A slice of a chained sequence is chained. */
  lemma ChainedSlice<V(!new)>(g: Graph<V>, w: seq<V>, a: int, b: int)
    requires Chained(g, w) && 0 <= a <= b <= |w|
    ensures Chained(g, w[a..b])
  {
    forall j | 0 <= j < b - a - 1
      ensures HasEdge(g, w[a..b][j], w[a..b][j + 1])
    {
      assert w[a..b][j] == w[a + j] && w[a..b][j + 1] == w[a + j + 1];
    }
  }

  /** A walk's weight is the weights of its two halves, split at vertex i. */
  lemma {:induction false} WeightSplit<V(!new)>(g: Graph<V>, w: seq<V>, i: int)
    requires Chained(g, w) && 0 <= i < |w|
    ensures Chained(g, w[..i + 1]) && Chained(g, w[i..])
    ensures WalkWeight(g, w) == WalkWeight(g, w[..i + 1]) + WalkWeight(g, w[i..])
    decreases |w|
  {
    ChainedSlice(g, w, 0, i + 1);
    ChainedSlice(g, w, i, |w|);
    if i == |w| - 1 {
      assert w[..i + 1] == w;
    } else {
      var init, head, tail := w[..|w| - 1], w[..i + 1], w[i..];
      var last := Price(g, w[|w| - 2], w[|w| - 1]);
      ChainedSlice(g, w, 0, |w| - 1);
      WeightSplit(g, init, i);
      assert init[..i + 1] == head;
      assert tail[..|tail| - 1] == init[i..];
      assert tail[|tail| - 2] == w[|w| - 2] && tail[|tail| - 1] == w[|w| - 1];
      assert WalkWeight(g, tail) == WalkWeight(g, init[i..]) + last;
      assert WalkWeight(g, w) == WalkWeight(g, init) + last;
    }
  }

  /** Some value occurs twice in a sequence longer than the set holding its values. */
  lemma {:induction false} Pigeonhole<T>(s: seq<T>, values: set<T>) returns (i: int, j: int)
    requires forall k :: 0 <= k < |s| ==> s[k] in values
    requires |s| > |values|
    ensures 0 <= i < j < |s| && s[i] == s[j]
    decreases |s|
  {
    if s[0] in s[1..] {
      var k :| 0 <= k < |s[1..]| && s[1..][k] == s[0];
      i, j := 0, k + 1;
    } else {
      var rest := values - {s[0]};
      forall k | 0 <= k < |s[1..]|
        ensures s[1..][k] in rest
      {
        assert s[1..][k] == s[k + 1];
      }
      var i', j' := Pigeonhole(s[1..], rest);
      i, j := i' + 1, j' + 1;
    }
  }

  /** The distinct values of a sequence are no more than its length. */
  lemma {:induction false} ValuesAtMostLength<T>(s: seq<T>)
    ensures |set x | x in s| <= |s|
  {
    if |s| > 0 {
      var init := s[..|s| - 1];
      ValuesAtMostLength(init);
      assert s == init + [s[|s| - 1]];
      assert (set x | x in s) == (set x | x in init) + {s[|s| - 1]};
    }
  }

  /** Dropping w[i..j) from a chained w with w[i] == w[j] leaves it chained. */
  lemma CutChained<V(!new)>(g: Graph<V>, w: seq<V>, i: int, j: int)
    requires Chained(g, w) && 0 <= i < j < |w| && w[i] == w[j]
    ensures Chained(g, w[..i] + w[j..])
    ensures (w[..i] + w[j..])[..i + 1] == w[..i + 1] && (w[..i] + w[j..])[i..] == w[j..]
  {
    var short := w[..i] + w[j..];
    forall k | 0 <= k < |short| - 1
      ensures HasEdge(g, short[k], short[k + 1])
    {
      if k < i - 1 {
        assert short[k] == w[k] && short[k + 1] == w[k + 1];
      } else if k == i - 1 {
        assert short[k] == w[i - 1] && short[k + 1] == w[i];
      } else {
        assert short[k] == w[k + j - i] && short[k + 1] == w[k + j - i + 1];
      }
    }
    assert short[..i + 1] == w[..i + 1];
  }

  /** Cutting the closed walk w[i..j] out of a walk from the start. */
  lemma CutCycle<V(!new)>(g: Graph<V>, start: V, w: seq<V>, v: V, i: int, j: int) returns (short: seq<V>)
    requires IsWalk(g, w, start, v) && 0 <= i < j < |w| && w[i] == w[j]
    ensures IsWalk(g, w[..i + 1], start, w[i]) && IsWalk(g, w[i..j + 1], w[i], w[i])
    ensures IsWalk(g, short, start, v) && |short| == |w| - (j - i)
    ensures WalkWeight(g, short) == WalkWeight(g, w) - WalkWeight(g, w[i..j + 1])
  {
    short := w[..i] + w[j..];
    var head, cycle, rest, tail := w[..i + 1], w[i..j + 1], w[j..], w[i..];
    CutChained(g, w, i, j);
    ChainedSlice(g, w, i, j + 1);
    assert IsWalk(g, short, start, v) by {
      assert short[0] == start && short[|short| - 1] == v;
    }
    WeightSplit(g, w, i);
    WeightSplit(g, tail, j - i);
    assert tail[..j - i + 1] == cycle && tail[j - i..] == rest;
    WeightSplit(g, short, i);
    assert WalkWeight(g, w) == WalkWeight(g, head) + WalkWeight(g, cycle) + WalkWeight(g, rest);
    assert WalkWeight(g, short) == WalkWeight(g, head) + WalkWeight(g, rest);
  }

  /** Every vertex of a walk from the start with at least one edge is a key of the graph. */
  lemma WalkInGraph<V(!new)>(g: Graph<V>, start: V, w: seq<V>, v: V)
    requires GraphValid(g) && Closed(g, start) && IsWalk(g, w, start, v) && |w| >= 2
    ensures forall k :: 0 <= k < |w| ==> w[k] in g.order
  {
    forall k | 0 <= k < |w|
      ensures w[k] in g.order
    {
      assert HasEdge(g, w[0], w[1]);
      if k < |w| - 1 {
        assert HasEdge(g, w[k], w[k + 1]);
      } else {
        assert HasEdge(g, w[k - 1], w[k]);
      }
    }
  }

  /** A walk from the start with more vertices than the graph visits some vertex twice. */
  lemma RepeatedVertex<V(!new)>(g: Graph<V>, start: V, w: seq<V>, v: V) returns (i: int, j: int)
    requires GraphValid(g) && Closed(g, start) && IsWalk(g, w, start, v) && |w| >= 2 && |w| > |g.order|
    ensures 0 <= i < j < |w| && w[i] == w[j]
  {
    var values := set x | x in g.order;
    WalkInGraph(g, start, w, v);
    ValuesAtMostLength(g.order);
    i, j := Pigeonhole(w, values);
  }

  /** Without a reachable negative cycle, a closed walk reached from the start weighs at least 0. */
  lemma NoNegativeCycleAt<V(!new)>(g: Graph<V>, start: V, p: seq<V>, c: seq<V>, x: V)
    requires !NegativeCycleReachable(g, start)
    requires IsWalk(g, p, start, x) && IsWalk(g, c, x, x) && |c| >= 2
    ensures WalkWeight(g, c) >= 0.0
  {
  }

  /**
   * Without a reachable negative cycle, every walk from the start has one to
   * the same end with at most len(graph) vertices and no greater weight.
   */
  lemma {:induction false} Shorten<V(!new)>(g: Graph<V>, start: V, w: seq<V>, v: V) returns (w': seq<V>)
    requires GraphValid(g) && Closed(g, start) && !NegativeCycleReachable(g, start)
    requires IsWalk(g, w, start, v)
    ensures IsWalk(g, w', start, v) && (|w'| <= |g.order| || |w'| == 1)
    ensures WalkWeight(g, w') <= WalkWeight(g, w)
    decreases |w|
  {
    if |w| <= |g.order| || |w| == 1 {
      return w;
    }
    var i, j := RepeatedVertex(g, start, w, v);
    var short := CutCycle(g, start, w, v, i, j);
    NoNegativeCycleAt(g, start, w[..i + 1], w[i..j + 1], w[i]);
    w' := Shorten(g, start, short, v);
  }

  /**
   * With tolerance 0, an edge that still improves after len(graph) - 1
   * passes shows a negative cycle reachable from the start.
   */
  lemma ReportMeansNegativeCycle<V(!new)>(g: Graph<V>, start: V, dist: map<V, Dist>, pred: map<V, Option<V>>,
                                    walks: map<V, seq<V>>, k: int, u: V, v: V)
    requires GraphValid(g) && Closed(g, start) && Inv(g, start, dist, pred, walks)
    requires ShortWalksBounded(g, start, dist, 0.0, k) && k + 1 >= |g.order|
    requires Violates(g, dist, 0.0, u, v)
    ensures NegativeCycleReachable(g, start)
  {
    if !NegativeCycleReachable(g, start) {
      var w := walks[u] + [v];
      WalkExtend(g, walks[u], start, u, v);
      var w' := Shorten(g, start, w, v);
      assert false;
    }
  }

  /** With tolerance 0 and no edge improving, no negative cycle is reachable. */
  lemma NoReportNoReachableCycle<V(!new)>(g: Graph<V>, start: V, dist: map<V, Dist>)
    requires start in dist && dist[start].Fin? && dist[start].value <= 0.0
    requires forall a, b :: HasEdge(g, a, b) ==> b in dist
    requires forall a, b :: HasEdge(g, a, b) ==> !Violates(g, dist, 0.0, a, b)
    ensures !NegativeCycleReachable(g, start)
  {
    UnreportedBound(g, start, dist, 0.0);
    forall p, c, x | IsWalk(g, p, start, x) && IsWalk(g, c, x, x) && |c| >= 2
      ensures WalkWeight(g, c) >= 0.0
    {
      NoReportNoNegativeCycle(g, dist, 0.0, c, x);
    }
  }

  /** The dictionaries' key sets and the invariant, between relaxations. */
  ghost predicate State<V>(g: Graph<V>, start: V, dist: map<V, Dist>, pred: map<V, Option<V>>, walks: map<V, seq<V>>)
  {
    && dist.Keys == g.items.Keys + {start} && g.items.Keys <= pred.Keys <= dist.Keys
    && Inv(g, start, dist, pred, walks)
  }

  /** Every edge target is a key of distance (or lines 92-93 raise KeyError). */
  ghost predicate Closed<V>(g: Graph<V>, start: V)
  {
    forall u, v :: u in g.items && v in g.items[u].items ==> v in g.items || v == start
  }

  /**
   * `shortest_paths(start_vertex, tolerance)`: len(graph) - 1 passes of
   * relaxation over every edge in dict order, then a scan that returns the
   * first edge still satisfying the relaxation condition, or None.
   */
  method ShortestPaths<V(==,!new)>(g: Graph<V>, start: V, tol: real)
    returns (dist: map<V, Dist>, pred: map<V, Option<V>>, cycle: Option<(V, V)>)
    requires GraphValid(g) && tol >= 0.0 && Closed(g, start)
    ensures dist.Keys == g.items.Keys + {start}
    ensures g.items.Keys <= pred.Keys <= dist.Keys
    ensures exists walks :: Inv(g, start, dist, pred, walks)
    ensures cycle.Some? ==>
      exists i, j :: EdgeAt(g, i, j) && cycle.value == (Source(g, i, j), Target(g, i, j))
        && Violates(g, dist, tol, Source(g, i, j), Target(g, i, j))
        && forall i', j' :: EdgeAt(g, i', j') && (i' < i || (i' == i && j' < j)) ==>
             !Violates(g, dist, tol, Source(g, i', j'), Target(g, i', j'))
    ensures cycle.None? ==> forall u, v :: HasEdge(g, u, v) ==> !Violates(g, dist, tol, u, v)
    ensures cycle.None? ==> forall v, w :: IsWalk(g, w, start, v) ==>
      v in dist && dist[v].Fin? && dist[v].value <= WalkWeight(g, w) + tol * (|w| - 1) as real
    ensures tol == 0.0 ==> (cycle.Some? <==> NegativeCycleReachable(g, start))
  {
    dist := InitialDistances(g, start);
    pred := map v | v in g.items :: None;
    ghost var walks: map<V, seq<V>> := map[start := [start]];
    InitialBounded(g, start, dist, tol);
    var passes := if |g.order| > 0 then |g.order| - 1 else 0;
    for pass := 0 to passes
      invariant State(g, start, dist, pred, walks)
      invariant ShortWalksBounded(g, start, dist, tol, pass)
    {
      dist, pred, walks := RelaxPass(g, start, tol, dist, pred, walks, pass);
    }
    cycle := Detect(g, start, tol, dist);
    if cycle.None? {
      UnreportedBound(g, start, dist, tol);
      if tol == 0.0 {
        NoReportNoReachableCycle(g, start, dist);
      }
    } else if tol == 0.0 {
      ghost var i, j :| EdgeAt(g, i, j) && cycle.value == (Source(g, i, j), Target(g, i, j))
        && Violates(g, dist, tol, Source(g, i, j), Target(g, i, j));
      ReportMeansNegativeCycle(g, start, dist, pred, walks, passes, Source(g, i, j), Target(g, i, j));
    }
  }

  /** One pass: `for current in graph: for next in graph[current]: ...` */
  method RelaxPass<V(==,!new)>(g: Graph<V>, start: V, tol: real, dist0: map<V, Dist>, pred0: map<V, Option<V>>,
                          ghost walks0: map<V, seq<V>>, ghost k: nat)
    returns (dist: map<V, Dist>, pred: map<V, Option<V>>, ghost walks: map<V, seq<V>>)
    requires GraphValid(g) && tol >= 0.0 && Closed(g, start)
    requires State(g, start, dist0, pred0, walks0)
    requires ShortWalksBounded(g, start, dist0, tol, k)
    ensures State(g, start, dist, pred, walks)
    ensures forall v :: v in dist0 ==> AtMost(dist[v], dist0[v])
    ensures ShortWalksBounded(g, start, dist, tol, k + 1)
  {
    dist, pred, walks := dist0, pred0, walks0;
    ghost var done: set<(V, V)> := {};
    for ci := 0 to |g.order|
      invariant State(g, start, dist, pred, walks)
      invariant dist0.Keys == dist.Keys && forall v :: v in dist0 ==> AtMost(dist[v], dist0[v])
      invariant ShortWalksBounded(g, start, dist, tol, k) && DoneBounded(g, start, dist, tol, k, done)
      invariant SourcesDone(g, done, g.order[..ci])
    {
      var current := g.order[ci];
      ghost var done0 := done;
      dist, pred, walks, done := RelaxOut(g, start, tol, current, dist, pred, walks, k, done);
      SourcesDoneStep(g, done0, done, g.order[..ci], current);
      PrefixStep(g.order, ci);
    }
    assert g.order[..|g.order|] == g.order;
    PassDone(g, start, tol, k, done, dist);
  }

  /** The edges out of one vertex, relaxed in dict order. */
  method RelaxOut<V(==,!new)>(g: Graph<V>, start: V, tol: real, current: V, dist0: map<V, Dist>,
                         pred0: map<V, Option<V>>, ghost walks0: map<V, seq<V>>,
                         ghost k: nat, ghost done0: set<(V, V)>)
    returns (dist: map<V, Dist>, pred: map<V, Option<V>>, ghost walks: map<V, seq<V>>, ghost done: set<(V, V)>)
    requires GraphValid(g) && tol >= 0.0 && Closed(g, start) && current in g.items
    requires State(g, start, dist0, pred0, walks0)
    requires ShortWalksBounded(g, start, dist0, tol, k) && DoneBounded(g, start, dist0, tol, k, done0)
    ensures State(g, start, dist, pred, walks)
    ensures forall v :: v in dist0 ==> AtMost(dist[v], dist0[v])
    ensures ShortWalksBounded(g, start, dist, tol, k) && DoneBounded(g, start, dist, tol, k, done)
    ensures done0 <= done && forall v :: HasEdge(g, current, v) ==> (current, v) in done
  {
    dist, pred, walks, done := dist0, pred0, walks0, done0;
    var out := g.items[current];
    for ni := 0 to |out.order|
      invariant State(g, start, dist, pred, walks)
      invariant dist0.Keys == dist.Keys && forall v :: v in dist0 ==> AtMost(dist[v], dist0[v])
      invariant ShortWalksBounded(g, start, dist, tol, k) && DoneBounded(g, start, dist, tol, k, done)
      invariant done0 <= done && forall v :: v in out.order[..ni] ==> (current, v) in done
    {
      var next := out.order[ni];
      dist, pred, walks := RelaxEdge(g, start, tol, current, next, dist0, dist, pred, walks, k, done);
      done := done + {(current, next)};
    }
    assert out.order[..|out.order|] == out.order;
  }

  /**
   * The body of the inner loop for the edge current -> next: relax it when
   * `distance[current] + weight + tolerance < distance[next]`.
   */
  method RelaxEdge<V(==,!new)>(g: Graph<V>, start: V, tol: real, current: V, next: V, ghost dist0: map<V, Dist>,
                          dist1: map<V, Dist>, pred1: map<V, Option<V>>, ghost walks1: map<V, seq<V>>,
                          ghost k: nat, ghost done: set<(V, V)>)
    returns (dist: map<V, Dist>, pred: map<V, Option<V>>, ghost walks: map<V, seq<V>>)
    requires tol >= 0.0 && Closed(g, start) && HasEdge(g, current, next)
    requires State(g, start, dist1, pred1, walks1)
    requires dist0.Keys == dist1.Keys && forall v :: v in dist0 ==> AtMost(dist1[v], dist0[v])
    requires ShortWalksBounded(g, start, dist1, tol, k) && DoneBounded(g, start, dist1, tol, k, done)
    ensures State(g, start, dist, pred, walks)
    ensures dist0.Keys == dist.Keys && forall v :: v in dist0 ==> AtMost(dist[v], dist0[v])
    ensures Violates(g, dist1, tol, current, next) ==>
      dist == dist1[next := Fin(dist1[current].value + Price(g, current, next))]
      && pred == pred1[next := Some(current)]
    ensures !Violates(g, dist1, tol, current, next) ==> dist == dist1 && pred == pred1
    ensures dist1[current].Fin? ==>
      dist[next].Fin? && dist[next].value <= dist1[current].value + Price(g, current, next) + tol
    ensures ShortWalksBounded(g, start, dist, tol, k)
    ensures DoneBounded(g, start, dist, tol, k, done + {(current, next)})
  {
    var weight := g.items[current].items[next].price;
    dist, pred, walks := dist1, pred1, walks1;
    if Improves(dist[current], weight, tol, dist[next]) {
      RelaxState(g, start, tol, dist, pred, walks, current, next, dist0);
      assert weight == Price(g, current, next);
      dist, pred, walks := dist[next := Fin(dist[current].value + Price(g, current, next))],
        pred[next := Some(current)], walks[next := walks[current] + [next]];
    }
    EdgeSettled(g, start, tol, k, done, dist1, dist, current, next);
  }

  /** The negative-cycle scan: the first edge, in dict order, that still improves. */
  method Detect<V(==)>(g: Graph<V>, start: V, tol: real, dist: map<V, Dist>) returns (cycle: Option<(V, V)>)
    requires GraphValid(g) && dist.Keys == g.items.Keys + {start} && Closed(g, start)
    ensures cycle.Some? ==>
      exists i, j :: EdgeAt(g, i, j) && cycle.value == (Source(g, i, j), Target(g, i, j))
        && Violates(g, dist, tol, Source(g, i, j), Target(g, i, j))
        && forall i', j' :: EdgeAt(g, i', j') && (i' < i || (i' == i && j' < j)) ==>
             !Violates(g, dist, tol, Source(g, i', j'), Target(g, i', j'))
    ensures cycle.None? ==> forall u, v :: HasEdge(g, u, v) ==> !Violates(g, dist, tol, u, v)
  {
    for ci := 0 to |g.order|
      invariant forall i, j :: EdgeAt(g, i, j) && i < ci ==>
        !Violates(g, dist, tol, Source(g, i, j), Target(g, i, j))
    {
      var current := g.order[ci];
      var out := g.items[current];
      for ni := 0 to |out.order|
        invariant forall i, j :: EdgeAt(g, i, j) && (i < ci || (i == ci && j < ni)) ==>
          !Violates(g, dist, tol, Source(g, i, j), Target(g, i, j))
      {
        var next := out.order[ni];
        var weight := out.items[next].price;
        assert HasEdge(g, current, next);
        if Improves(dist[current], weight, tol, dist[next]) {
          assert EdgeAt(g, ci, ni);
          return Some((current, next));
        }
      }
    }
    forall u, v | HasEdge(g, u, v)
      ensures !Violates(g, dist, tol, u, v)
    {
      var i, j := EdgePosition(g, u, v);
    }
    return None;
  }
}
