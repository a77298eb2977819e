/** `generate_connected_graph(n, m, seed)` (experiments/run_experiments.py:20-61):
    a random spanning arborescence over a shuffled node order, then extra
    random edges without self-loops or repeated pairs under an attempt cap,
    then a shuffle of the edge list. The draws come from a `Stream` (the
    seeded generator), so the result is a function of `n`, `m` and the stream. */
module Generator {
  import opened Randomness

  /** WEIGHT_MIN and WEIGHT_MAX (experiments/run_experiments.py:16-17). */
  const WeightMin: real := 0.1
  const WeightMax: real := 100.0

  /** An edge `(u, v, w)`. */
  type WEdge = (int, int, real)

  /** The ValueErrors the generator can raise: too few edges requested, or
      `randint(0, n - 1)` on an empty range. */
  datatype GenError = InsufficientEdges | EmptyRange

  datatype Result<T> = Ok(value: T) | Err(error: GenError)

  /** The lists the generator builds (`edges`, `edge_set`) and the next draw. */
  datatype Building = Building(edges: seq<WEdge>, edgeSet: set<(int, int)>, pos: nat)

  /** `list(range(n))`. */
  function Range(n: int): (r: seq<int>)
    ensures |r| == (if n > 0 then n else 0) && forall i :: 0 <= i < |r| ==> r[i] == i
  {
    seq(if n > 0 then n else 0, i => i)
  }

  /** The ordered pair of an edge. */
  function PairOf(e: WEdge): (int, int) {
    (e.0, e.1)
  }

  /** The tree phase (experiments/run_experiments.py:40-45) from position `i`
      of the shuffled `nodes`: a random earlier parent, a random weight. */
  function TreePhase(nodes: seq<int>, i: nat, draws: Stream, b: Building): Building
    requires i >= 1
    decreases |nodes| - i
  {
    if i >= |nodes| then b
    else
      var parent := RandInt(draws, b.pos, 0, i - 1);
      var u, v := nodes[parent], nodes[i];
      var w := Uniform(draws, b.pos + 1, WeightMin, WeightMax);
      TreePhase(nodes, i + 1, draws, Building(b.edges + [(u, v, w)], b.edgeSet + {(u, v)}, b.pos + 2))
  }

  /** The extra-edge loop (experiments/run_experiments.py:51-58) from the given
      attempt count: draw both ends; keep a new non-loop pair with a random
      weight. `randint(0, n - 1)` raises when `n <= 0`. */
  function ExtraPhase(n: int, m: int, draws: Stream, b: Building, attempts: int, maxAttempts: int): Result<Building>
    decreases maxAttempts - attempts
  {
    if !(|b.edges| < m && attempts < maxAttempts) then Ok(b)
    else if n - 1 < 0 then Err(EmptyRange)
    else
      var u := RandInt(draws, b.pos, 0, n - 1);
      var v := RandInt(draws, b.pos + 1, 0, n - 1);
      if u != v && (u, v) !in b.edgeSet then
        var w := Uniform(draws, b.pos + 2, WeightMin, WeightMax);
        ExtraPhase(n, m, draws, Building(b.edges + [(u, v, w)], b.edgeSet + {(u, v)}, b.pos + 3), attempts + 1, maxAttempts)
      else
        ExtraPhase(n, m, draws, Building(b.edges, b.edgeSet, b.pos + 2), attempts + 1, maxAttempts)
  }

  /** The identity, as a key for `DistinctBy`. */
  function Id(x: int): int {
    x
  }

  /** The shuffled node order, a permutation of 0..n-1 without repeats; its
      first element is the tree's root. */
  function Nodes(n: int, draws: Stream): (r: seq<int>)
    ensures |r| == |Range(n)| && multiset(r) == multiset(Range(n))
    ensures DistinctBy(r, Id)
  {
    FisherYatesIsPermutation(Range(n), |Range(n)| - 1, draws, 0, Id);
    Shuffled(Range(n), draws, 0)
  }

  /** The root of the spanning tree: the first node of the shuffled order. */
  function Root(n: int, draws: Stream): int
    requires n >= 1
  {
    Nodes(n, draws)[0]
  }

  /** The state after the tree phase. */
  function Tree(n: int, draws: Stream): Building {
    TreePhase(Nodes(n, draws), 1, draws, Building([], {}, ShuffleDraws(n)))
  }

  /** The attempt cap `remaining * 100`. */
  function MaxAttempts(n: int, m: int): int {
    (m - (n - 1)) * 100
  }

  /** What `generate_connected_graph(n, m, seed)` returns or raises when
      `draws` is the stream the seed selects. */
  function Generated(n: int, m: int, draws: Stream): Result<seq<WEdge>> {
    if m < n - 1 then Err(InsufficientEdges)
    else
      match Built(n, m, draws)
      case Err(e) => Err(e)
      case Ok(b) => Ok(Shuffled(b.edges, draws, b.pos))
  }

  /** The edges before the final shuffle. */
  function Built(n: int, m: int, draws: Stream): Result<Building> {
    ExtraPhase(n, m, draws, Tree(n, draws), 0, MaxAttempts(n, m))
  }

  /** `generate_connected_graph` (experiments/run_experiments.py:20-61). */
  method GenerateConnectedGraph(n: int, m: int, draws: Stream) returns (r: Result<seq<WEdge>>)
    ensures r == Generated(n, m, draws)
  {
    if m < n - 1 {
      return Err(InsufficientEdges);
    }
    var nodes := Shuffle(Range(n), draws, 0);
    var tree := GrowTree(nodes, draws, ShuffleDraws(n));
    var extra := AddExtraEdges(n, m, draws, tree);
    match extra {
      case Err(e) =>
        r := Err(e);
      case Ok(b) =>
        var edges := Shuffle(b.edges, draws, b.pos);
        r := Ok(edges);
    }
  }

  /** The tree loop (experiments/run_experiments.py:40-45) over `nodes`,
      whose first draw is at `start`. */
  method GrowTree(nodes: seq<int>, draws: Stream, start: nat) returns (b: Building)
    ensures b == TreePhase(nodes, 1, draws, Building([], {}, start))
  {
    var edges: seq<WEdge> := [];
    var edgeSet: set<(int, int)> := {};
    var pos := start;
    var i := 1;
    while i < |nodes|
      invariant i >= 1
      invariant TreePhase(nodes, i, draws, Building(edges, edgeSet, pos)) ==
                TreePhase(nodes, 1, draws, Building([], {}, start))
      decreases |nodes| - i
    {
      var parent := RandInt(draws, pos, 0, i - 1);
      var u, v := nodes[parent], nodes[i];
      var w := Uniform(draws, pos + 1, WeightMin, WeightMax);
      edges := edges + [(u, v, w)];
      edgeSet := edgeSet + {(u, v)};
      pos := pos + 2;
      i := i + 1;
    }
    b := Building(edges, edgeSet, pos);
  }

  /** The extra-edge loop (experiments/run_experiments.py:47-58). */
  method AddExtraEdges(n: int, m: int, draws: Stream, tree: Building) returns (r: Result<Building>)
    ensures r == ExtraPhase(n, m, draws, tree, 0, MaxAttempts(n, m))
  {
    var edges, edgeSet, pos := tree.edges, tree.edgeSet, tree.pos;
    var remaining := m - (n - 1);
    var attempts := 0;
    var maxAttempts := remaining * 100;
    while |edges| < m && attempts < maxAttempts
      invariant ExtraPhase(n, m, draws, Building(edges, edgeSet, pos), attempts, maxAttempts) ==
                ExtraPhase(n, m, draws, tree, 0, MaxAttempts(n, m))
      decreases maxAttempts - attempts
    {
      if n - 1 < 0 {
        return Err(EmptyRange);
      }
      var u := RandInt(draws, pos, 0, n - 1);
      var v := RandInt(draws, pos + 1, 0, n - 1);
      pos := pos + 2;
      if u != v && (u, v) !in edgeSet {
        var w := Uniform(draws, pos, WeightMin, WeightMax);
        edges := edges + [(u, v, w)];
        edgeSet := edgeSet + {(u, v)};
        pos := pos + 1;
      }
      attempts := attempts + 1;
    }
    r := Ok(Building(edges, edgeSet, pos));
  }

  /** No edge joins a node to itself. */
  predicate NoSelfLoops(edges: seq<WEdge>) {
    forall i :: 0 <= i < |edges| ==> edges[i].0 != edges[i].1
  }

  /** No ordered pair occurs twice. */
  predicate UniquePairs(edges: seq<WEdge>) {
    DistinctBy(edges, PairOf)
  }

  /** Both ends are nodes 0..n-1. */
  predicate EndsBelow(edges: seq<WEdge>, n: int) {
    forall i :: 0 <= i < |edges| ==> 0 <= edges[i].0 < n && 0 <= edges[i].1 < n
  }

  /** Every weight lies in [WeightMin, WeightMax). */
  predicate WeightsInRange(edges: seq<WEdge>) {
    forall i :: 0 <= i < |edges| ==> WeightMin <= edges[i].2 < WeightMax
  }

  /** The pairs of the edges: what `edge_set` holds. */
  function PairSet(edges: seq<WEdge>): set<(int, int)> {
    set i | 0 <= i < |edges| :: PairOf(edges[i])
  }

  /** Some edge leads from `u` to `v`. */
  ghost predicate HasEdge(edges: seq<WEdge>, u: int, v: int) {
    exists w :: (u, v, w) in edges
  }

  /** Consecutive nodes of `path` are joined by edges. */
  ghost predicate Chain(edges: seq<WEdge>, path: seq<int>) {
    forall k :: 0 <= k < |path| - 1 ==> HasEdge(edges, path[k], path[k + 1])
  }

  /** A directed path of edges leads from `root` to `v`. */
  ghost predicate ReachableIn(edges: seq<WEdge>, root: int, v: int) {
    exists path :: Chain(edges, path) && |path| >= 1 && path[0] == root && path[|path| - 1] == v
  }

  /** The bookkeeping both loops keep and the promises about every edge. */
  predicate GoodEdges(n: int, b: Building) {
    b.edgeSet == PairSet(b.edges) && NoSelfLoops(b.edges) && UniquePairs(b.edges) &&
    EndsBelow(b.edges, n) && WeightsInRange(b.edges)
  }

  /** The `k`-th tree edge enters `nodes[k + 1]` from an earlier node. */
  predicate TreeEdge(nodes: seq<int>, edges: seq<WEdge>, k: int)
    requires 0 <= k < |edges|
  {
    k + 1 < |nodes| && edges[k].1 == nodes[k + 1] &&
    (exists p :: 0 <= p <= k && nodes[p] == edges[k].0) &&
    WeightMin <= edges[k].2 < WeightMax
  }

  /** What the tree loop keeps after `i - 1` steps. */
  predicate TreeShape(nodes: seq<int>, i: int, b: Building) {
    |b.edges| == i - 1 && b.edgeSet == PairSet(b.edges) &&
    forall k :: 0 <= k < |b.edges| ==> TreeEdge(nodes, b.edges, k)
  }

  /** One more edge adds its pair to the pair set. */
  lemma PairSetAppend(edges: seq<WEdge>, e: WEdge)
    ensures PairSet(edges + [e]) == PairSet(edges) + {PairOf(e)}
  {
    var t := edges + [e];
    assert forall i :: 0 <= i < |edges| ==> t[i] == edges[i];
    assert t[|edges|] == e;
  }

  /** The tree phase gives each node after the first one edge from an
      earlier node of the order, with a weight in range, and consumes two
      draws per edge. */
  lemma {:induction false} TreePhaseShape(nodes: seq<int>, i: nat, draws: Stream, b: Building)
    requires 1 <= i && (i <= |nodes| || i == 1) && TreeShape(nodes, i, b)
    ensures var r := TreePhase(nodes, i, draws, b);
            TreeShape(nodes, if |nodes| > 0 then |nodes| else 1, r) && b.edges <= r.edges
    decreases |nodes| - i
  {
    if i < |nodes| {
      var parent := RandInt(draws, b.pos, 0, i - 1);
      var u, v := nodes[parent], nodes[i];
      var w := Uniform(draws, b.pos + 1, WeightMin, WeightMax);
      var e := (u, v, w);
      var b' := Building(b.edges + [e], b.edgeSet + {(u, v)}, b.pos + 2);
      PairSetAppend(b.edges, e);
      forall k | 0 <= k < |b'.edges| ensures TreeEdge(nodes, b'.edges, k) {
        if k < |b.edges| {
          assert b'.edges[k] == b.edges[k];
          assert TreeEdge(nodes, b.edges, k);
        } else {
          assert b'.edges[k] == e && nodes[parent] == e.0;
        }
      }
      TreePhaseShape(nodes, i + 1, draws, b');
    }
  }

  /** Every node of the order is reached from the first along tree edges. */
  lemma {:induction false} TreeReaches(nodes: seq<int>, edges: seq<WEdge>, k: int)
    requires |nodes| >= 1 && |edges| == |nodes| - 1
    requires forall j :: 0 <= j < |edges| ==> TreeEdge(nodes, edges, j)
    requires 0 <= k < |nodes|
    ensures ReachableIn(edges, nodes[0], nodes[k])
    decreases k
  {
    if k == 0 {
      assert Chain(edges, [nodes[0]]);
    } else {
      assert TreeEdge(nodes, edges, k - 1);
      var p :| 0 <= p <= k - 1 && nodes[p] == edges[k - 1].0;
      TreeReaches(nodes, edges, p);
      var path :| Chain(edges, path) && |path| >= 1 && path[0] == nodes[0] && path[|path| - 1] == nodes[p];
      var path' := path + [nodes[k]];
      assert (nodes[p], nodes[k], edges[k - 1].2) == edges[k - 1];
      assert HasEdge(edges, nodes[p], nodes[k]);
      assert Chain(edges, path') by {
        forall j | 0 <= j < |path'| - 1 ensures HasEdge(edges, path'[j], path'[j + 1]) {
          if j < |path| - 1 {
            assert path'[j] == path[j] && path'[j + 1] == path[j + 1];
          }
        }
      }
    }
  }

  /** The shuffled order holds exactly the nodes 0..n-1. */
  lemma NodesCover(n: int, draws: Stream)
    ensures forall j :: 0 <= j < |Nodes(n, draws)| ==> 0 <= Nodes(n, draws)[j] < n
    ensures forall v :: 0 <= v < n ==> v in Nodes(n, draws)
  {
    var nodes := Nodes(n, draws);
    forall j | 0 <= j < |nodes| ensures 0 <= nodes[j] < n {
      assert nodes[j] in multiset(Range(n));
    }
    forall v | 0 <= v < n ensures v in nodes {
      assert Range(n)[v] == v;
      assert v in multiset(Range(n));
    }
  }

  /** Tree edges over an order without repeats of nodes 0..n-1 keep the
      promises about every edge. */
  lemma TreeEdgesGood(nodes: seq<int>, n: int, b: Building)
    requires DistinctBy(nodes, Id) && forall j :: 0 <= j < |nodes| ==> 0 <= nodes[j] < n
    requires b.edgeSet == PairSet(b.edges)
    requires forall k :: 0 <= k < |b.edges| ==> TreeEdge(nodes, b.edges, k)
    ensures GoodEdges(n, b)
  {
    var edges := b.edges;
    forall k | 0 <= k < |edges| ensures edges[k].0 != edges[k].1 && 0 <= edges[k].0 < n && 0 <= edges[k].1 < n {
      assert TreeEdge(nodes, edges, k);
      var p :| 0 <= p <= k && nodes[p] == edges[k].0;
      assert Id(nodes[p]) != Id(nodes[k + 1]);
    }
    forall a, c | 0 <= a < |edges| && 0 <= c < |edges| && a != c ensures PairOf(edges[a]) != PairOf(edges[c]) {
      assert TreeEdge(nodes, edges, a) && TreeEdge(nodes, edges, c);
      assert Id(nodes[a + 1]) != Id(nodes[c + 1]);
    }
    forall k | 0 <= k < |edges| ensures WeightMin <= edges[k].2 < WeightMax {
      assert TreeEdge(nodes, edges, k);
    }
  }

  /** After the tree phase: n-1 edges forming a spanning arborescence of
      0..n-1 rooted at the first node of the shuffled order, with no
      self-loop, no repeated pair and every weight in range. */
  lemma TreeIsSpanning(n: int, draws: Stream)
    ensures var t := Tree(n, draws);
            GoodEdges(n, t) && |t.edges| == (if n > 0 then n - 1 else 0) &&
            (n >= 1 ==> forall v :: 0 <= v < n ==> ReachableIn(t.edges, Root(n, draws), v))
  {
    var nodes := Nodes(n, draws);
    var t := Tree(n, draws);
    assert TreeShape(nodes, 1, Building([], {}, ShuffleDraws(n)));
    TreePhaseShape(nodes, 1, draws, Building([], {}, ShuffleDraws(n)));
    NodesCover(n, draws);
    TreeEdgesGood(nodes, n, t);
    if n >= 1 {
      forall v | 0 <= v < n ensures ReachableIn(t.edges, Root(n, draws), v) {
        assert v in nodes;
        var k :| 0 <= k < |nodes| && nodes[k] == v;
        TreeReaches(nodes, t.edges, k);
      }
    }
  }

  /** A fresh pair without a self-loop, inside the node range, with a weight
      in range keeps the promises about every edge. */
  lemma AddEdgeKeepsGood(n: int, b: Building, e: WEdge, pos: nat)
    requires GoodEdges(n, b)
    requires e.0 != e.1 && (e.0, e.1) !in b.edgeSet
    requires 0 <= e.0 < n && 0 <= e.1 < n && WeightMin <= e.2 < WeightMax
    ensures GoodEdges(n, Building(b.edges + [e], b.edgeSet + {(e.0, e.1)}, pos))
  {
    var edges := b.edges + [e];
    PairSetAppend(b.edges, e);
    forall i | 0 <= i < |b.edges| ensures PairOf(edges[i]) != PairOf(e) {
      assert edges[i] == b.edges[i];
      assert PairOf(b.edges[i]) in PairSet(b.edges);
    }
    forall i | 0 <= i < |b.edges| ensures edges[i] == b.edges[i] {
    }
  }

  /** The extra-edge loop fails exactly when it starts on an empty node
      range, and then with the `randint` error. */
  lemma {:induction false} ExtraPhaseFails(n: int, m: int, draws: Stream, b: Building, attempts: int, maxAttempts: int)
    ensures var r := ExtraPhase(n, m, draws, b, attempts, maxAttempts);
            (r.Err? <==> |b.edges| < m && attempts < maxAttempts && n <= 0) &&
            (r.Err? ==> r.error == EmptyRange)
    decreases maxAttempts - attempts
  {
    if |b.edges| < m && attempts < maxAttempts && n - 1 >= 0 {
      var u := RandInt(draws, b.pos, 0, n - 1);
      var v := RandInt(draws, b.pos + 1, 0, n - 1);
      if u != v && (u, v) !in b.edgeSet {
        var w := Uniform(draws, b.pos + 2, WeightMin, WeightMax);
        ExtraPhaseFails(n, m, draws, Building(b.edges + [(u, v, w)], b.edgeSet + {(u, v)}, b.pos + 3), attempts + 1, maxAttempts);
      } else {
        ExtraPhaseFails(n, m, draws, Building(b.edges, b.edgeSet, b.pos + 2), attempts + 1, maxAttempts);
      }
    }
  }

  /** `r` extends `b` by edges that keep the promises, holds no more than
      `m` edges unless `b` already did, and lies at most `3 * budget` draws
      further on. */
  predicate Grows(n: int, m: int, b: Building, r: Building, budget: int) {
    GoodEdges(n, r) && b.edges <= r.edges &&
    |r.edges| <= (if |b.edges| > m then |b.edges| else m) &&
    b.pos <= r.pos <= b.pos + 3 * budget
  }

  /** One attempt that appends at most one edge below `m` and makes at most
      three draws, followed by growth on a smaller budget, is growth. */
  lemma GrowsStep(n: int, m: int, b: Building, b': Building, r: Building, budget: int)
    requires |b.edges| < m && budget >= 1
    requires b'.edges == b.edges || (|b'.edges| == |b.edges| + 1 && b.edges <= b'.edges)
    requires b.pos <= b'.pos <= b.pos + 3
    requires Grows(n, m, b', r, budget - 1)
    ensures Grows(n, m, b, r, budget)
  {
  }

  /** When it succeeds, the extra-edge loop has only appended edges that keep
      the promises about every edge, stopped at `m` edges, and made at most
      three draws per attempt left. */
  lemma {:induction false} ExtraPhaseKeeps(n: int, m: int, draws: Stream, b: Building, attempts: int, maxAttempts: int)
    requires GoodEdges(n, b)
    requires ExtraPhase(n, m, draws, b, attempts, maxAttempts).Ok?
    ensures Grows(n, m, b, ExtraPhase(n, m, draws, b, attempts, maxAttempts).value,
                  if maxAttempts > attempts then maxAttempts - attempts else 0)
    decreases maxAttempts - attempts
  {
    var r := ExtraPhase(n, m, draws, b, attempts, maxAttempts).value;
    var budget := if maxAttempts > attempts then maxAttempts - attempts else 0;
    if |b.edges| < m && attempts < maxAttempts {
      var u := RandInt(draws, b.pos, 0, n - 1);
      var v := RandInt(draws, b.pos + 1, 0, n - 1);
      var b';
      if u != v && (u, v) !in b.edgeSet {
        var w := Uniform(draws, b.pos + 2, WeightMin, WeightMax);
        b' := Building(b.edges + [(u, v, w)], b.edgeSet + {(u, v)}, b.pos + 3);
        AddEdgeKeepsGood(n, b, (u, v, w), b.pos + 3);
      } else {
        b' := Building(b.edges, b.edgeSet, b.pos + 2);
      }
      assert r == ExtraPhase(n, m, draws, b', attempts + 1, maxAttempts).value;
      ExtraPhaseKeeps(n, m, draws, b', attempts + 1, maxAttempts);
      GrowsStep(n, m, b, b', r, budget);
    }
  }

  /** `generate_connected_graph` raises exactly when fewer than n-1 edges are
      asked for, or when edges are asked for over no nodes (the first
      `randint(0, -1)`). */
  lemma GeneratedErrors(n: int, m: int, draws: Stream)
    ensures Generated(n, m, draws).Err? <==> m < n - 1 || (n <= 0 && m > 0)
    ensures Generated(n, m, draws) == Err(InsufficientEdges) <==> m < n - 1
  {
    if m >= n - 1 {
      TreeIsSpanning(n, draws);
      ExtraPhaseFails(n, m, draws, Tree(n, draws), 0, MaxAttempts(n, m));
    }
  }

  /** A permutation of the edges keeps every per-edge promise and every
      directed path. */
  lemma PermutationKeeps(n: int, e1: seq<WEdge>, e2: seq<WEdge>)
    requires multiset(e1) == multiset(e2)
    requires NoSelfLoops(e1) && EndsBelow(e1, n) && WeightsInRange(e1)
    ensures NoSelfLoops(e2) && EndsBelow(e2, n) && WeightsInRange(e2)
    ensures forall u, v :: HasEdge(e1, u, v) ==> HasEdge(e2, u, v)
  {
    forall i | 0 <= i < |e2|
      ensures e2[i].0 != e2[i].1 && 0 <= e2[i].0 < n && 0 <= e2[i].1 < n && WeightMin <= e2[i].2 < WeightMax
    {
      assert e2[i] in multiset(e1);
      var j :| 0 <= j < |e1| && e1[j] == e2[i];
    }
    forall u, v | HasEdge(e1, u, v) ensures HasEdge(e2, u, v) {
      var w :| (u, v, w) in e1;
      assert (u, v, w) in multiset(e2);
    }
  }

  /** Paths survive when every edge of the first list is in the second. */
  lemma ReachableTransfer(e1: seq<WEdge>, e2: seq<WEdge>, root: int, v: int)
    requires forall a, c :: HasEdge(e1, a, c) ==> HasEdge(e2, a, c)
    requires ReachableIn(e1, root, v)
    ensures ReachableIn(e2, root, v)
  {
    var path :| Chain(e1, path) && |path| >= 1 && path[0] == root && path[|path| - 1] == v;
    assert Chain(e2, path);
  }

  /** When the generator succeeds, the extra-edge loop succeeded too, its
      list starts with the tree edges and keeps the promises about every edge. */
  lemma BuiltExtendsTree(n: int, m: int, draws: Stream)
    requires Generated(n, m, draws).Ok?
    ensures Built(n, m, draws).Ok? && GoodEdges(n, Built(n, m, draws).value)
    ensures Tree(n, draws).edges <= Built(n, m, draws).value.edges
    ensures Generated(n, m, draws).value == Shuffled(Built(n, m, draws).value.edges, draws, Built(n, m, draws).value.pos)
  {
    TreeIsSpanning(n, draws);
    ExtraPhaseKeeps(n, m, draws, Tree(n, draws), 0, MaxAttempts(n, m));
  }

  /** The returned edges are the built list reordered. */
  lemma GeneratedIsShuffle(n: int, m: int, draws: Stream)
    requires Generated(n, m, draws).Ok?
    ensures Built(n, m, draws).Ok? &&
            multiset(Generated(n, m, draws).value) == multiset(Built(n, m, draws).value.edges) &&
            UniquePairs(Generated(n, m, draws).value)
  {
    BuiltExtendsTree(n, m, draws);
    var b := Built(n, m, draws).value;
    FisherYatesIsPermutation(b.edges, |b.edges| - 1, draws, b.pos, PairOf);
  }

  /** The edges never repeat a pair and have no self-loop, both ends are
      nodes of the graph, every weight is in [0.1, 100), and there are
      between n-1 and m of them (exactly n-1 when m is n-1). */
  lemma GeneratedGraph(n: int, m: int, draws: Stream)
    requires Generated(n, m, draws).Ok?
    ensures var edges := Generated(n, m, draws).value;
            NoSelfLoops(edges) && UniquePairs(edges) && EndsBelow(edges, n) && WeightsInRange(edges) &&
            (n >= 1 ==> n - 1 <= |edges| <= m) &&
            (n >= 1 && m == n - 1 ==> |edges| == n - 1)
  {
    var edges := Generated(n, m, draws).value;
    GeneratedIsShuffle(n, m, draws);
    BuiltExtendsTree(n, m, draws);
    TreeIsSpanning(n, draws);
    ExtraPhaseKeeps(n, m, draws, Tree(n, draws), 0, MaxAttempts(n, m));
    var b := Built(n, m, draws).value;
    PermutationKeeps(n, b.edges, edges);
    assert |edges| == |b.edges| by {
      assert |multiset(edges)| == |multiset(b.edges)|;
    }
  }

  /** Every node is reached from the root along a directed path of the
      returned edges: the graph is connected. */
  lemma GeneratedConnected(n: int, m: int, draws: Stream)
    requires Generated(n, m, draws).Ok? && n >= 1
    ensures forall v :: 0 <= v < n ==> ReachableIn(Generated(n, m, draws).value, Root(n, draws), v)
  {
    TreeIsSpanning(n, draws);
    BuiltExtendsTree(n, m, draws);
    GeneratedIsShuffle(n, m, draws);
    var t := Tree(n, draws).edges;
    var b := Built(n, m, draws).value;
    var edges := Generated(n, m, draws).value;
    PermutationKeeps(n, b.edges, edges);
    forall u, v | HasEdge(t, u, v) ensures HasEdge(b.edges, u, v) {
      var w :| (u, v, w) in t;
      var i :| 0 <= i < |t| && t[i] == (u, v, w);
      assert b.edges[i] == t[i];
    }
    forall v | 0 <= v < n ensures ReachableIn(edges, Root(n, draws), v) {
      ReachableTransfer(t, b.edges, Root(n, draws), v);
      ReachableTransfer(b.edges, edges, Root(n, draws), v);
    }
  }
}
