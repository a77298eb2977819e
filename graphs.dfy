/** Walks over the solvers' adjacency lists `adj[u]` (a `vector<vector<Edge>>`)
    and what a table of costs indexed by node can promise about them: every
    finite cost is the weight of a walk from the source (soundness), and no
    walk is cheaper (optimality). */
module Graphs {
  import opened Types

  type Adj = seq<seq<Edge>>

  /** Every edge points at a node of the graph. */
  predicate WellFormed(adj: Adj) {
    forall u, j :: 0 <= u < |adj| && 0 <= j < |adj[u]| ==> 0 <= adj[u][j].to < |adj|
  }

  /** No edge has a negative weight (what the generator's weights in
      [0.1, 100) give; the solvers do not check it). */
  predicate NonNegativeWeights(adj: Adj) {
    forall u, j :: 0 <= u < |adj| && 0 <= j < |adj[u]| ==> adj[u][j].weight >= 0.0
  }

  /** A hop `(u, j)` is the `j`-th edge out of `u`. */
  predicate IsHop(adj: Adj, h: (int, int)) {
    0 <= h.0 < |adj| && 0 <= h.1 < |adj[h.0]|
  }

  /** `hops` is a walk from `src` to `dst`; parallel edges are told apart by
      their position in `adj[u]`. */
  predicate IsWalk(adj: Adj, src: int, hops: seq<(int, int)>, dst: int)
    decreases |hops|
  {
    if hops == [] then dst == src
    else
      var h := hops[|hops| - 1];
      IsHop(adj, h) && adj[h.0][h.1].to == dst && IsWalk(adj, src, hops[..|hops| - 1], h.0)
  }

  /** The sum of the weights along `hops`. */
  function Weight(adj: Adj, hops: seq<(int, int)>): real
    decreases |hops|
  {
    if hops == [] then 0.0
    else
      var h := hops[|hops| - 1];
      Weight(adj, hops[..|hops| - 1]) + (if IsHop(adj, h) then adj[h.0][h.1].weight else 0.0)
  }

  /** Some walk leads from `src` to `v`. */
  ghost predicate Reaches(adj: Adj, src: int, v: int) {
    exists hops :: IsWalk(adj, src, hops, v)
  }

  /** A finite cost is the weight of some walk from `src` to `v`. */
  ghost predicate Witnessed(adj: Adj, src: int, v: int, c: ExtReal) {
    c.Fin? ==> exists hops :: IsWalk(adj, src, hops, v) && Weight(adj, hops) == c.r
  }

  /** Every finite entry of `dist` is the weight of a walk from `src`. */
  ghost predicate Sound(adj: Adj, src: int, dist: seq<ExtReal>) {
    forall v :: 0 <= v < |dist| ==> Witnessed(adj, src, v, dist[v])
  }

  /** No walk from `src` is cheaper than the entry of its end, which is finite. */
  ghost predicate Least(adj: Adj, src: int, dist: seq<ExtReal>) {
    forall v, hops :: IsWalk(adj, src, hops, v) ==>
      0 <= v < |dist| && dist[v].Fin? && dist[v].r <= Weight(adj, hops)
  }

  /** `dist` holds the shortest-path distances from `src`, INF for the
      nodes no walk reaches. */
  ghost predicate Shortest(adj: Adj, src: int, dist: seq<ExtReal>) {
    Sound(adj, src, dist) && Least(adj, src, dist)
  }

  /** No edge out of `x` offers a cheaper cost to its head. */
  ghost predicate Relaxed(adj: Adj, dist: seq<ExtReal>, x: int)
    requires 0 <= x < |adj| && x < |dist|
  {
    forall j :: 0 <= j < |adj[x]| ==>
      0 <= adj[x][j].to < |dist| && dist[adj[x][j].to].Le(dist[x].Plus(adj[x][j].weight))
  }

  /** Every node with a finite entry is relaxed. */
  ghost predicate AllRelaxed(adj: Adj, dist: seq<ExtReal>)
    requires |dist| == |adj|
  {
    forall x :: 0 <= x < |dist| && dist[x].Fin? ==> Relaxed(adj, dist, x)
  }

  /** A walk followed by one more edge is a walk, and its weight grows by
      that edge's weight. */
  lemma WalkExtend(adj: Adj, src: int, hops: seq<(int, int)>, u: int, j: int)
    requires IsWalk(adj, src, hops, u) && IsHop(adj, (u, j))
    ensures IsWalk(adj, src, hops + [(u, j)], adj[u][j].to)
    ensures Weight(adj, hops + [(u, j)]) == Weight(adj, hops) + adj[u][j].weight
  {
    assert (hops + [(u, j)])[..|hops|] == hops;
  }

  /** The empty walk reaches the source and weighs nothing. */
  lemma EmptyWalk(adj: Adj, src: int)
    ensures IsWalk(adj, src, [], src) && Weight(adj, []) == 0.0
  {
  }

  /** When all finite nodes are relaxed and the source's entry is at most 0,
      the entry at the end of every walk is finite and at most its weight. */
  lemma {:induction false} LeastAlongWalk(adj: Adj, src: int, dist: seq<ExtReal>, hops: seq<(int, int)>, v: int)
    requires WellFormed(adj) && |dist| == |adj| && 0 <= src < |adj|
    requires dist[src].Le(Fin(0.0)) && AllRelaxed(adj, dist)
    requires IsWalk(adj, src, hops, v)
    ensures 0 <= v < |dist| && dist[v].Fin? && dist[v].r <= Weight(adj, hops)
    decreases |hops|
  {
    if hops != [] {
      var h := hops[|hops| - 1];
      var init := hops[..|hops| - 1];
      LeastAlongWalk(adj, src, dist, init, h.0);
      assert Relaxed(adj, dist, h.0);
      assert dist[v].Le(dist[h.0].Plus(adj[h.0][h.1].weight));
    }
  }

  /** Relaxed everywhere, with the source at most 0: no walk is cheaper than
      its end's entry (this holds for any weights, negative ones included). */
  lemma RelaxedMeansLeast(adj: Adj, src: int, dist: seq<ExtReal>)
    requires WellFormed(adj) && |dist| == |adj| && 0 <= src < |adj|
    requires dist[src].Le(Fin(0.0)) && AllRelaxed(adj, dist)
    ensures Least(adj, src, dist)
  {
    forall v, hops | IsWalk(adj, src, hops, v)
      ensures 0 <= v < |dist| && dist[v].Fin? && dist[v].r <= Weight(adj, hops)
    {
      LeastAlongWalk(adj, src, dist, hops, v);
    }
  }

  /** For shortest distances, an entry is INF exactly when no walk reaches
      its node, and a finite entry is the least weight of a walk. */
  lemma ShortestMeansInfIffUnreachable(adj: Adj, src: int, dist: seq<ExtReal>, v: int)
    requires Shortest(adj, src, dist) && 0 <= v < |dist|
    ensures dist[v] == Inf <==> !Reaches(adj, src, v)
    ensures dist[v].Fin? ==>
              (exists hops :: IsWalk(adj, src, hops, v) && Weight(adj, hops) == dist[v].r) &&
              (forall hops :: IsWalk(adj, src, hops, v) ==> dist[v].r <= Weight(adj, hops))
  {
    assert Witnessed(adj, src, v, dist[v]);
  }

  /** A sound table never undercuts the shortest distances: each entry is at
      least the node's distance, and a finite entry means the node is reached. */
  lemma SoundIsUpperBound(adj: Adj, src: int, costs: seq<ExtReal>, dist: seq<ExtReal>, v: int)
    requires Sound(adj, src, costs) && Shortest(adj, src, dist) && 0 <= v < |costs|
    ensures costs[v].Fin? ==> Reaches(adj, src, v) && 0 <= v < |dist| && dist[v].Le(costs[v])
  {
    assert Witnessed(adj, src, v, costs[v]);
    if costs[v].Fin? {
      var hops :| IsWalk(adj, src, hops, v) && Weight(adj, hops) == costs[v].r;
      assert dist[v].r <= Weight(adj, hops);
    }
  }
}
