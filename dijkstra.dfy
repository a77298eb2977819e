/** The Dijkstra baseline of dijkstra.cpp: the adjacency lists built from the
    edge list read from stdin, and the lazy-deletion heap loop that fills
    `dist`. Reading stdin, the clock and the printing of doubles are not
    modelled. */
module Dijkstra {
  import opened Types
  import opened Heaps
  import opened Graphs
  import opened Text

  /** An edge line `u v w` of the input. */
  type InputEdge = (int, int, real)

  /** The edges kept for `u`, in input order: those with both ends below `n`
      (dijkstra.cpp:20). */
  function OutEdges(edges: seq<InputEdge>, u: int, n: int): seq<Edge>
    decreases |edges|
  {
    if edges == [] then []
    else
      var e := edges[|edges| - 1];
      OutEdges(edges[..|edges| - 1], u, n) +
        (if e.0 == u && e.0 < n && e.1 < n then [Edge(e.1, e.2)] else [])
  }

  /** An edge is kept for `u` exactly when some input line `u v w` with
      `v < n` produced it; an input line with an end at or above `n` is dropped. */
  lemma {:induction false} OutEdgesMembers(edges: seq<InputEdge>, u: int, n: int, e: Edge)
    ensures e in OutEdges(edges, u, n) <==>
            exists i :: 0 <= i < |edges| && edges[i] == (u, e.to, e.weight) && u < n && e.to < n
    ensures |OutEdges(edges, u, n)| <= |edges|
    decreases |edges|
  {
    if edges != [] {
      var init := edges[..|edges| - 1];
      OutEdgesMembers(init, u, n, e);
      if e in OutEdges(edges, u, n) && e !in OutEdges(init, u, n) {
        assert edges[|edges| - 1] == (u, e.to, e.weight);
      }
      if exists i :: 0 <= i < |edges| && edges[i] == (u, e.to, e.weight) && u < n && e.to < n {
        var i :| 0 <= i < |edges| && edges[i] == (u, e.to, e.weight) && u < n && e.to < n;
        if i < |init| {
          assert init[i] == edges[i];
        }
      }
    }
  }

  /** The kept edges of an input whose ids are non-negative point into the graph. */
  lemma {:induction false} OutEdgesInRange(edges: seq<InputEdge>, u: int, n: int)
    requires forall i :: 0 <= i < |edges| ==> edges[i].1 >= 0
    ensures forall j :: 0 <= j < |OutEdges(edges, u, n)| ==> 0 <= OutEdges(edges, u, n)[j].to < n
    decreases |edges|
  {
    if edges != [] {
      OutEdgesInRange(edges[..|edges| - 1], u, n);
    }
  }

  /** The adjacency construction (dijkstra.cpp:15-23): `n` empty lists, then
      each input line with both ends below `n` appended to its tail's list.
      The source indexes `adj[u]` with the ids it reads, so they must not be
      negative. */
  method BuildAdjacency(n: nat, edges: seq<InputEdge>) returns (adj: Adj)
    requires forall i :: 0 <= i < |edges| ==> edges[i].0 >= 0 && edges[i].1 >= 0
    ensures |adj| == n && forall u :: 0 <= u < n ==> adj[u] == OutEdges(edges, u, n)
    ensures WellFormed(adj)
  {
    adj := seq(n, _ => []);
    for i := 0 to |edges|
      invariant |adj| == n && forall u :: 0 <= u < n ==> adj[u] == OutEdges(edges[..i], u, n)
    {
      var (u, v, w) := edges[i];
      assert edges[..i + 1][..i] == edges[..i];
      if u < n && v < n {
        adj := adj[u := adj[u] + [Edge(v, w)]];
      }
    }
    assert edges[..|edges|] == edges;
    forall u | 0 <= u < n ensures forall j :: 0 <= j < |adj[u]| ==> 0 <= adj[u][j].to < n {
      OutEdgesInRange(edges, u, n);
    }
  }

  // ---------------------------------------------------------------------------
  // The heap loop (dijkstra.cpp:30-49)

  /** Every heap entry names a node, has a finite cost, and is not below the
      node's current entry. */
  ghost predicate EntriesCurrent(dist: seq<ExtReal>, pq: Heap) {
    forall s :: s in pq ==> 0 <= s.nodeId < |dist| && s.cost.Fin? && dist[s.nodeId].Le(s.cost)
  }

  /** Every finite node other than `u` still has its current entry in the
      heap or has all its out-edges relaxed. */
  ghost predicate PendingExcept(adj: Adj, dist: seq<ExtReal>, pq: Heap, u: int)
    requires |dist| == |adj|
  {
    forall x :: 0 <= x < |dist| && x != u && dist[x].Fin? ==>
      State(x, dist[x]) in pq || Relaxed(adj, dist, x)
  }

  /** The invariant of the outer loop. */
  ghost predicate Invariant(adj: Adj, src: int, dist: seq<ExtReal>, pq: Heap) {
    WellFormed(adj) && |dist| == |adj| && 0 <= src < |adj| &&
    dist[src].Le(Fin(0.0)) && EntriesCurrent(dist, pq) &&
    Sound(adj, src, dist) && PendingExcept(adj, dist, pq, -1)
  }

  /** The invariant of the inner loop over `adj[u]`, popped with cost `c`,
      after its first `j` edges. */
  ghost predicate Scanning(adj: Adj, src: int, dist: seq<ExtReal>, pq: Heap, u: int, c: ExtReal, j: int) {
    WellFormed(adj) && |dist| == |adj| && 0 <= src < |adj| && 0 <= u < |adj| &&
    0 <= j <= |adj[u]| && c.Fin? && Witnessed(adj, src, u, c) &&
    dist[src].Le(Fin(0.0)) && EntriesCurrent(dist, pq) &&
    Sound(adj, src, dist) && PendingExcept(adj, dist, pq, u) &&
    dist[u].Le(c) && (dist[u] == c || State(u, dist[u]) in pq) &&
    forall k :: 0 <= k < j ==> dist[adj[u][k].to].Le(c.Plus(adj[u][k].weight))
  }

  /** The initial state (dijkstra.cpp:30-33) satisfies the invariant. */
  lemma InitialInvariant(adj: Adj, src: int)
    requires WellFormed(adj) && 0 <= src < |adj|
    ensures var dist := seq(|adj|, _ => Inf)[src := Fin(0.0)];
            Invariant(adj, src, dist, multiset{State(src, Fin(0.0))})
  {
    var dist := seq(|adj|, _ => Inf)[src := Fin(0.0)];
    EmptyWalk(adj, src);
    assert Witnessed(adj, src, src, Fin(0.0));
    forall v | 0 <= v < |dist| ensures Witnessed(adj, src, v, dist[v]) {
      if v != src {
        assert dist[v] == Inf;
      }
    }
  }

  /** The top of the heap names a node with a finite cost. */
  lemma TopInRange(dist: seq<ExtReal>, pq: Heap)
    requires EntriesCurrent(dist, pq) && |pq| > 0
    ensures 0 <= Top(pq).nodeId < |dist| && Top(pq).cost.Fin?
  {
    assert Top(pq) in pq;
  }

  /** Skipping a stale top (dijkstra.cpp:39-40) keeps the invariant. */
  lemma SkipKeeps(adj: Adj, src: int, dist: seq<ExtReal>, pq: Heap)
    requires Invariant(adj, src, dist, pq) && |pq| > 0
    requires 0 <= Top(pq).nodeId < |dist| && dist[Top(pq).nodeId].Lt(Top(pq).cost)
    ensures Invariant(adj, src, dist, Pop(pq))
  {
    var top := Top(pq);
    LtIsStrictTotalOrder(dist[top.nodeId], top.cost, top.cost);
    forall x | 0 <= x < |dist| && dist[x].Fin? && State(x, dist[x]) in pq
      ensures State(x, dist[x]) in Pop(pq)
    {
      assert State(x, dist[x]) != top;
    }
  }

  /** Popping a current top starts the scan of its edges: the top's cost is
      the node's entry. */
  lemma StartScan(adj: Adj, src: int, dist: seq<ExtReal>, pq: Heap)
    requires Invariant(adj, src, dist, pq) && |pq| > 0
    requires 0 <= Top(pq).nodeId < |dist| && !dist[Top(pq).nodeId].Lt(Top(pq).cost)
    ensures dist[Top(pq).nodeId] == Top(pq).cost
    ensures Scanning(adj, src, dist, Pop(pq), Top(pq).nodeId, Top(pq).cost, 0)
  {
    var top := Top(pq);
    assert top in pq;
    assert Witnessed(adj, src, top.nodeId, dist[top.nodeId]);
    forall x | 0 <= x < |dist| && x != top.nodeId && dist[x].Fin? && State(x, dist[x]) in pq
      ensures State(x, dist[x]) in Pop(pq)
    {
      assert State(x, dist[x]) != top;
    }
  }

  /** Relaxing the `j`-th edge (dijkstra.cpp:43-46) keeps the scan's
      invariant, and it never raises an entry. */
  lemma RelaxKeeps(adj: Adj, src: int, dist: seq<ExtReal>, pq: Heap, u: int, c: ExtReal, j: int)
    requires Scanning(adj, src, dist, pq, u, c, j) && j < |adj[u]|
    ensures var e := adj[u][j];
            var nd := c.Plus(e.weight);
            var dist' := if nd.Lt(dist[e.to]) then dist[e.to := nd] else dist;
            var pq' := if nd.Lt(dist[e.to]) then pq + multiset{State(e.to, nd)} else pq;
            Scanning(adj, src, dist', pq', u, c, j + 1) &&
            forall v :: 0 <= v < |dist| ==> dist'[v].Le(dist[v])
  {
    var e := adj[u][j];
    var nd := c.Plus(e.weight);
    if nd.Lt(dist[e.to]) {
      var dist' := dist[e.to := nd];
      var pq' := pq + multiset{State(e.to, nd)};
      RelaxSound(adj, src, dist, u, c, j);
      RelaxEntries(dist, pq, e.to, nd);
      RelaxPending(adj, dist, pq, u, e.to, nd);
      RelaxScanned(adj, dist, u, c, j);
      if e.to == u {
        LtIsStrictTotalOrder(nd, dist[u], c);
      }
      if e.to == src {
        LtIsStrictTotalOrder(nd, dist[src], Fin(0.0));
      }
      forall v | 0 <= v < |dist| ensures dist'[v].Le(dist[v]) {
        LtIsStrictTotalOrder(dist'[v], dist[v], dist[v]);
      }
    } else {
      LtIsStrictTotalOrder(dist[e.to], nd, dist[e.to]);
    }
  }

  /** A lowered entry is the weight of the popped node's walk plus the edge. */
  lemma RelaxSound(adj: Adj, src: int, dist: seq<ExtReal>, u: int, c: ExtReal, j: int)
    requires WellFormed(adj) && |dist| == |adj| && 0 <= u < |adj| && 0 <= j < |adj[u]|
    requires c.Fin? && Witnessed(adj, src, u, c) && Sound(adj, src, dist)
    ensures Sound(adj, src, dist[adj[u][j].to := c.Plus(adj[u][j].weight)])
  {
    var e := adj[u][j];
    var nd := c.Plus(e.weight);
    var dist' := dist[e.to := nd];
    var hu :| IsWalk(adj, src, hu, u) && Weight(adj, hu) == c.r;
    WalkExtend(adj, src, hu, u, j);
    assert Witnessed(adj, src, e.to, nd);
    forall v | 0 <= v < |dist'| ensures Witnessed(adj, src, v, dist'[v]) {
      if v != e.to {
        assert Witnessed(adj, src, v, dist[v]);
      }
    }
  }

  /** Lowering an entry and pushing it keeps every heap entry current. */
  lemma RelaxEntries(dist: seq<ExtReal>, pq: Heap, v: int, nd: ExtReal)
    requires EntriesCurrent(dist, pq) && 0 <= v < |dist| && nd.Fin? && nd.Lt(dist[v])
    ensures EntriesCurrent(dist[v := nd], pq + multiset{State(v, nd)})
  {
    var dist' := dist[v := nd];
    forall s | s in pq + multiset{State(v, nd)}
      ensures 0 <= s.nodeId < |dist'| && s.cost.Fin? && dist'[s.nodeId].Le(s.cost)
    {
      if s != State(v, nd) {
        assert s in pq;
        if s.nodeId == v {
          LtIsStrictTotalOrder(nd, dist[v], s.cost);
        }
      }
    }
  }

  /** Lowering an entry and pushing it keeps every other node pending or relaxed. */
  lemma RelaxPending(adj: Adj, dist: seq<ExtReal>, pq: Heap, u: int, v: int, nd: ExtReal)
    requires |dist| == |adj| && 0 <= v < |dist| && nd.Lt(dist[v])
    requires PendingExcept(adj, dist, pq, u)
    ensures PendingExcept(adj, dist[v := nd], pq + multiset{State(v, nd)}, u)
  {
    var dist' := dist[v := nd];
    var pq' := pq + multiset{State(v, nd)};
    forall x | 0 <= x < |dist'| && x != u && x != v && dist'[x].Fin? && State(x, dist[x]) !in pq
      ensures Relaxed(adj, dist', x)
    {
      assert Relaxed(adj, dist, x);
      forall k | 0 <= k < |adj[x]|
        ensures dist'[adj[x][k].to].Le(dist'[x].Plus(adj[x][k].weight))
      {
        if adj[x][k].to == v {
          LtIsStrictTotalOrder(nd, dist[v], dist[x].Plus(adj[x][k].weight));
        }
      }
    }
  }

  /** After the `j`-th edge, the first `j + 1` edges of `u` are relaxed against `c`. */
  lemma RelaxScanned(adj: Adj, dist: seq<ExtReal>, u: int, c: ExtReal, j: int)
    requires WellFormed(adj) && |dist| == |adj| && 0 <= u < |adj| && 0 <= j < |adj[u]|
    requires forall k :: 0 <= k < j ==> dist[adj[u][k].to].Le(c.Plus(adj[u][k].weight))
    requires c.Plus(adj[u][j].weight).Lt(dist[adj[u][j].to])
    ensures var dist' := dist[adj[u][j].to := c.Plus(adj[u][j].weight)];
            forall k :: 0 <= k < j + 1 ==> dist'[adj[u][k].to].Le(c.Plus(adj[u][k].weight))
  {
    var e := adj[u][j];
    var nd := c.Plus(e.weight);
    var dist' := dist[e.to := nd];
    forall k | 0 <= k < j + 1 ensures dist'[adj[u][k].to].Le(c.Plus(adj[u][k].weight)) {
      if k < j && adj[u][k].to == e.to {
        LtIsStrictTotalOrder(nd, dist[e.to], c.Plus(adj[u][k].weight));
      }
    }
  }

  /** After the last edge, `u` is relaxed or its new entry is in the heap. */
  lemma FinishScan(adj: Adj, src: int, dist: seq<ExtReal>, pq: Heap, u: int, c: ExtReal)
    requires 0 <= u < |adj| && Scanning(adj, src, dist, pq, u, c, |adj[u]|)
    ensures Invariant(adj, src, dist, pq)
  {
    if dist[u] == c {
      assert Relaxed(adj, dist, u);
    }
  }

  /** With the heap empty, every entry is the shortest distance. */
  lemma DoneIsShortest(adj: Adj, src: int, dist: seq<ExtReal>)
    requires Invariant(adj, src, dist, multiset{})
    ensures Shortest(adj, src, dist)
  {
    RelaxedMeansLeast(adj, src, dist);
  }

  /** The heap loop (dijkstra.cpp:30-49), run for at most `fuel` pops. It
      keeps every finite entry the weight of a walk from `source`, never
      raises `dist[source]` above 0, and if the heap runs empty (`done`) the
      entries are the shortest distances, INF exactly for the nodes no walk
      reaches. */
  method ShortestPaths(adj: Adj, source: int, fuel: nat) returns (dist: seq<ExtReal>, done: bool)
    requires WellFormed(adj) && 0 <= source < |adj|
    ensures |dist| == |adj| && dist[source].Le(Fin(0.0))
    ensures Sound(adj, source, dist)
    ensures done ==> Shortest(adj, source, dist)
  {
    dist := seq(|adj|, _ => Inf);
    dist := dist[source := Fin(0.0)];
    var pq: Heap := multiset{State(source, Fin(0.0))};
    InitialInvariant(adj, source);
    var steps := 0;
    while |pq| > 0 && steps < fuel
      invariant Invariant(adj, source, dist, pq)
      decreases fuel - steps
    {
      steps := steps + 1;
      TopInRange(dist, pq);
      var cur := Top(pq);
      ghost var before := pq;
      pq := Pop(pq);
      if dist[cur.nodeId].Lt(cur.cost) {
        SkipKeeps(adj, source, dist, before);
        continue;
      }
      StartScan(adj, source, dist, before);
      var u := cur.nodeId;
      for j := 0 to |adj[u]|
        invariant Scanning(adj, source, dist, pq, u, cur.cost, j)
      {
        var e := adj[u][j];
        var newDist := cur.cost.Plus(e.weight);
        RelaxKeeps(adj, source, dist, pq, u, cur.cost, j);
        if newDist.Lt(dist[e.to]) {
          dist := dist[e.to := newDist];
          pq := pq + multiset{State(e.to, newDist)};
        }
      }
      FinishScan(adj, source, dist, pq, u, cur.cost);
    }
    done := |pq| == 0;
    if done {
      DoneIsShortest(adj, source, dist);
    }
  }

  /** The program's run without its I/O: build the lists, then run the loop
      from `source`, which the source indexes `dist` with. */
  method Run(n: nat, edges: seq<InputEdge>, source: int, fuel: nat) returns (dist: seq<ExtReal>, done: bool)
    requires forall i :: 0 <= i < |edges| ==> edges[i].0 >= 0 && edges[i].1 >= 0
    requires 0 <= source < n
    ensures |dist| == n && dist[source].Le(Fin(0.0))
    ensures var adj := seq(n, u => OutEdges(edges, u, n));
            Sound(adj, source, dist) && (done ==> Shortest(adj, source, dist))
  {
    var adj := BuildAdjacency(n, edges);
    assert adj == seq(n, u => OutEdges(edges, u, n));
    dist, done := ShortestPaths(adj, source, fuel);
  }

  /** The line printed for node `i` (dijkstra.cpp:58-63); `fmt` stands for
      `ostream << double`. */
  function NodeLine(i: int, d: ExtReal, fmt: real -> string): string {
    "Node " + IntToString(i) + ": " + (if d.Inf? then "INF" else fmt(d.r))
  }

  /** The lines printed after the timing line, one per node. */
  function Report(dist: seq<ExtReal>, fmt: real -> string): (lines: seq<string>)
    ensures |lines| == |dist| && forall i :: 0 <= i < |dist| ==> lines[i] == NodeLine(i, dist[i], fmt)
  {
    seq(|dist|, i requires 0 <= i < |dist| => NodeLine(i, dist[i], fmt))
  }

  /** With shortest distances, and a number format that never prints "INF",
      node `v`'s line says INF exactly when no walk from the source reaches it. */
  lemma ReportSaysInfIffUnreachable(adj: Adj, src: int, dist: seq<ExtReal>, fmt: real -> string, v: int)
    requires Shortest(adj, src, dist) && 0 <= v < |dist|
    requires forall r :: fmt(r) != "INF"
    ensures Report(dist, fmt)[v] == "Node " + IntToString(v) + ": INF" <==> !Reaches(adj, src, v)
  {
    ShortestMeansInfIffUnreachable(adj, src, dist, v);
    var prefix := "Node " + IntToString(v) + ": ";
    if dist[v].Fin? {
      var line := prefix + fmt(dist[v].r);
      assert line[|prefix|..] == fmt(dist[v].r);
      assert (prefix + "INF")[|prefix|..] == "INF";
    }
  }
}
