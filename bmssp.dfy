/** The BMSSP solver of bmssp.cpp: `find_pivots`, `base_bmssp`,
    `bmssp_bounded` and the set-up of `solve_sssp`, all working on the table
    `min_costs` (an `array<ExtReal>` here) that they lower in place.

    What the model proves about every procedure: no entry of `min_costs` is
    ever raised, and every finite entry stays the weight of a walk from the
    source (so the table never undercuts a true distance). Beyond that, each
    contract states what the procedure's own code does: the layers and
    pivots of `find_pivots`, the nodes `base_bmssp` settles and the bound it
    returns, and the recursive calls and stop condition of the loop of
    `bmssp_bounded`. That the entries a call returns are final (shortest) is
    not stated. */
module Bmssp {
  import opened Types
  import opened Heaps
  import opened Graphs
  import opened BlockLists
  import opened Text

  // ---------------------------------------------------------------------------
  // The cost table

  /** No entry of `after` is above the same entry of `before`. */
  predicate NoneRaised(before: seq<ExtReal>, after: seq<ExtReal>) {
    |before| == |after| && forall v :: 0 <= v < |after| ==> after[v].Le(before[v])
  }

  /** Not raising is transitive. */
  lemma NoneRaisedTrans(a: seq<ExtReal>, b: seq<ExtReal>, c: seq<ExtReal>)
    requires NoneRaised(a, b) && NoneRaised(b, c)
    ensures NoneRaised(a, c)
  {
    forall v | 0 <= v < |c| ensures c[v].Le(a[v]) {
      LtIsStrictTotalOrder(c[v], b[v], a[v]);
    }
  }

  /** All ids are nodes of a graph with `n` nodes. */
  predicate Nodes(ids: seq<int>, n: int) {
    forall i :: 0 <= i < |ids| ==> 0 <= ids[i] < n
  }

  /** A cost for `u` that a walk attains gives its head the cost plus the edge. */
  lemma WitnessStep(adj: Adj, src: int, u: int, j: int, c: ExtReal)
    requires 0 <= u < |adj| && 0 <= j < |adj[u]| && Witnessed(adj, src, u, c)
    ensures Witnessed(adj, src, adj[u][j].to, c.Plus(adj[u][j].weight))
  {
    if c.Fin? {
      var hops :| IsWalk(adj, src, hops, u) && Weight(adj, hops) == c.r;
      WalkExtend(adj, src, hops, u, j);
    }
  }

  /** Writing a cost that a walk attains keeps the table sound. */
  lemma SoundUpdate(adj: Adj, src: int, costs: seq<ExtReal>, v: int, c: ExtReal)
    requires Sound(adj, src, costs) && 0 <= v < |costs| && Witnessed(adj, src, v, c)
    ensures Sound(adj, src, costs[v := c])
  {
    var after := costs[v := c];
    forall x | 0 <= x < |after| ensures Witnessed(adj, src, x, after[x]) {
      if x != v {
        assert Witnessed(adj, src, x, costs[x]);
      }
    }
  }

  /** Lowering one entry raises nothing. */
  lemma LowerOne(costs: seq<ExtReal>, v: int, c: ExtReal)
    requires 0 <= v < |costs| && c.Le(costs[v])
    ensures NoneRaised(costs, costs[v := c])
  {
  }

  /** An entry strictly below a cost stays below it when lowered. */
  lemma StillBelow(a: ExtReal, b: ExtReal, bound: ExtReal)
    ensures a.Le(b) && b.Lt(bound) ==> a.Lt(bound)
  {
    LtIsStrictTotalOrder(a, b, bound);
  }

  /** The ids of `ids` whose cost is strictly below `b`, in order. */
  function Below(ids: seq<int>, costs: seq<ExtReal>, b: ExtReal): (r: seq<int>)
    requires Nodes(ids, |costs|)
    ensures forall x :: x in r <==> x in ids && costs[x].Lt(b)
    ensures |r| <= |ids| && Nodes(r, |costs|)
    decreases |ids|
  {
    if ids == [] then []
    else
      var last := ids[|ids| - 1];
      Below(ids[..|ids| - 1], costs, b) + (if costs[last].Lt(b) then [last] else [])
  }

  /** Ids appear once each. */
  predicate Distinct(ids: seq<int>) {
    forall i, j :: 0 <= i < j < |ids| ==> ids[i] != ids[j]
  }

  // ---------------------------------------------------------------------------
  // find_pivots: the walk up `bp_map`

  /** Following `bp_map` from `x` (bmssp.cpp:41-46) for at most `fuel` steps:
      the root reached and the number of steps taken, or None when the walk
      has not ended after `fuel` steps. */
  function Walk(bp: map<int, int>, x: int, fuel: nat): Option<(int, nat)>
    decreases fuel
  {
    if x !in bp then Some((x, 0))
    else if fuel == 0 then None
    else
      match Walk(bp, bp[x], fuel - 1)
      case None => None
      case Some(rc) => Some((rc.0, rc.1 + 1))
  }

  /** `x` after `m` steps up `bp_map`, staying put at a root. */
  function Follow(bp: map<int, int>, x: int, m: nat): int
    decreases m
  {
    if m == 0 || x !in bp then x else Follow(bp, bp[x], m - 1)
  }

  /** A finished walk ends at a root reached by following `bp_map` as many
      times as it counts, and stays there. */
  lemma {:induction false} WalkEndsAtRoot(bp: map<int, int>, x: int, fuel: nat)
    requires Walk(bp, x, fuel).Some?
    ensures var rc := Walk(bp, x, fuel).value;
            rc.0 !in bp && rc.1 <= fuel && Follow(bp, x, rc.1) == rc.0
    decreases fuel
  {
    if x in bp {
      WalkEndsAtRoot(bp, bp[x], fuel - 1);
    }
  }

  /** The walk counts what it walks: ending after `c` steps at `r` means the
      walk from the next node ends at `r` after `c - 1`. */
  function Shift(w: Option<(int, nat)>, c: nat): Option<(int, nat)> {
    match w
    case None => None
    case Some(rc) => Some((rc.0, rc.1 + c))
  }

  /** The walk from `x` ends at the root `r`. */
  predicate EndsAt(bp: map<int, int>, x: int, r: int) {
    var w := Walk(bp, x, |bp|);
    w.Some? && w.value.0 == r
  }

  /** The accumulated `tree_size[r]` once the walks from `leaves` have been
      tallied (bmssp.cpp:47): the steps of every walk ending at `r`. */
  function TreeSize(bp: map<int, int>, leaves: seq<int>, r: int): int
    decreases |leaves|
  {
    if leaves == [] then 0
    else
      var x := leaves[|leaves| - 1];
      TreeSize(bp, leaves[..|leaves| - 1], r) + (if EndsAt(bp, x, r) then Walk(bp, x, |bp|).value.1 else 0)
  }

  /** One more leaf adds its walk's length to its root's tally only. */
  lemma TreeSizeStep(bp: map<int, int>, leaves: seq<int>, a: nat, r: int)
    requires a < |leaves|
    ensures TreeSize(bp, leaves[..a + 1], r) ==
            TreeSize(bp, leaves[..a], r) + (if EndsAt(bp, leaves[a], r) then Walk(bp, leaves[a], |bp|).value.1 else 0)
  {
    assert leaves[..a + 1][..a] == leaves[..a];
  }

  /** Every walk up `bp_map` from `leaves` ends within `|bp_map|` steps. */
  ghost predicate AllEnd(bp: map<int, int>, leaves: seq<int>) {
    forall i :: 0 <= i < |leaves| ==> Walk(bp, leaves[i], |bp|).Some?
  }

  /** `r` became a pivot while the first `a` leaves were tallied: the walk
      from one of them ends at `r`, and right after it `r`'s tally had reached
      `k`. */
  ghost predicate PivotBy(bp: map<int, int>, leaves: seq<int>, a: int, k: int, r: int)
    requires 0 <= a <= |leaves|
  {
    exists i :: 0 <= i < a && EndsAt(bp, leaves[i], r) && TreeSize(bp, leaves[..i + 1], r) >= k
  }

  /** One more leaf, whose walk ends at `root`: `r` is a pivot after it iff
      it was one before, or it is the root and its tally has reached `k`. */
  lemma PivotByStep(bp: map<int, int>, leaves: seq<int>, a: nat, k: int, root: int, r: int)
    requires a < |leaves| && EndsAt(bp, leaves[a], root)
    ensures PivotBy(bp, leaves, a + 1, k, r) <==>
            PivotBy(bp, leaves, a, k, r) || (r == root && TreeSize(bp, leaves[..a + 1], r) >= k)
  {
    if PivotBy(bp, leaves, a + 1, k, r) && !PivotBy(bp, leaves, a, k, r) {
      var i :| 0 <= i < a + 1 && EndsAt(bp, leaves[i], r) && TreeSize(bp, leaves[..i + 1], r) >= k;
      assert i == a;
    }
    if r == root && TreeSize(bp, leaves[..a + 1], r) >= k {
      assert EndsAt(bp, leaves[a], r);
    }
  }

  /** The walk up `bp_map` from `leaf` (bmssp.cpp:41-46): the root and the
      number of steps, or `ok` false when the walk has not ended after
      `|bp_map|` steps. */
  method WalkUp(bp: map<int, int>, leaf: int) returns (cur: int, count: nat, ok: bool)
    ensures ok <==> Walk(bp, leaf, |bp|).Some?
    ensures ok ==> Walk(bp, leaf, |bp|) == Some((cur, count))
  {
    cur, count := leaf, 0;
    while cur in bp
      invariant count <= |bp|
      invariant Shift(Walk(bp, cur, |bp| - count), count) == Walk(bp, leaf, |bp|)
      decreases |bp| - count
    {
      if count == |bp| {
        return cur, count, false;
      }
      cur := bp[cur];
      count := count + 1;
    }
    ok := true;
  }

  /** The state of the pivot loop after `a` leaves: every walk so far has
      ended, `treeSize` holds the tallies and `pivots` the roots that became
      pivots, once each. */
  ghost predicate Tallied(bp: map<int, int>, leaves: seq<int>, a: nat, k: int, treeSize: map<int, int>, pivots: seq<int>)
    requires a <= |leaves|
  {
    && AllEnd(bp, leaves[..a])
    && Distinct(pivots)
    && (forall r :: r in treeSize ==> treeSize[r] == TreeSize(bp, leaves[..a], r))
    && (forall r :: r !in treeSize ==> TreeSize(bp, leaves[..a], r) == 0)
    && (forall r :: r in pivots <==> PivotBy(bp, leaves, a, k, r))
  }

  /** Before any leaf, no walk is counted and nothing is a pivot. */
  lemma TalliedStarts(bp: map<int, int>, leaves: seq<int>, k: int)
    ensures Tallied(bp, leaves, 0, k, map[], [])
  {
    assert leaves[..0] == [];
  }

  /** One iteration of the pivot loop keeps the loop's state. */
  lemma TallyStep(bp: map<int, int>, leaves: seq<int>, a: nat, k: int, treeSize: map<int, int>, pivots: seq<int>,
                  cur: int, count: nat)
    requires a < |leaves| && Tallied(bp, leaves, a, k, treeSize, pivots)
    requires Walk(bp, leaves[a], |bp|) == Some((cur, count))
    ensures var size := (if cur in treeSize then treeSize[cur] else 0) + count;
            Tallied(bp, leaves, a + 1, k, treeSize[cur := size],
                    if size >= k && cur !in pivots then pivots + [cur] else pivots)
  {
    forall r ensures TreeSize(bp, leaves[..a + 1], r) ==
                     TreeSize(bp, leaves[..a], r) + (if r == cur then count else 0)
    {
      TreeSizeStep(bp, leaves, a, r);
    }
    forall r ensures PivotBy(bp, leaves, a + 1, k, r) <==>
                     PivotBy(bp, leaves, a, k, r) || (r == cur && TreeSize(bp, leaves[..a + 1], r) >= k)
    {
      PivotByStep(bp, leaves, a, k, cur, r);
    }
    assert forall i :: 0 <= i < a ==> leaves[..a + 1][i] == leaves[..a][i];
  }

  /** The pivot loop (bmssp.cpp:38-50): walk up from every leaf, add the walk's
      length to its root's tally, and insert the root into `pivots` once its
      tally reaches `k`. `ok` is false when some walk has not ended after
      `|bp_map|` steps: it then goes round a cycle and never ends
      (`WalkRunsForever`). The set's iteration order is modelled as insertion
      order. */
  method CollectPivots(bp: map<int, int>, leaves: seq<int>, k: int) returns (pivots: seq<int>, ok: bool)
    ensures ok <==> AllEnd(bp, leaves)
    ensures ok ==> Distinct(pivots)
    ensures ok ==> forall r :: r in pivots <==> PivotBy(bp, leaves, |leaves|, k, r)
  {
    var treeSize: map<int, int> := map[];
    pivots := [];
    TalliedStarts(bp, leaves, k);
    for a := 0 to |leaves|
      invariant Tallied(bp, leaves, a, k, treeSize, pivots)
    {
      var cur, count, ended := WalkUp(bp, leaves[a]);
      if !ended {
        return pivots, false;
      }
      TallyStep(bp, leaves, a, k, treeSize, pivots, cur, count);
      var size := (if cur in treeSize then treeSize[cur] else 0) + count;
      treeSize := treeSize[cur := size];
      if size >= k && cur !in pivots {
        pivots := pivots + [cur];
      }
    }
    ok := true;
    TalliedAll(bp, leaves, k, treeSize, pivots);
  }

  /** Once every leaf is tallied, every walk has ended and the pivots are the
      roots that became pivots. */
  lemma TalliedAll(bp: map<int, int>, leaves: seq<int>, k: int, treeSize: map<int, int>, pivots: seq<int>)
    requires Tallied(bp, leaves, |leaves|, k, treeSize, pivots)
    ensures AllEnd(bp, leaves) && Distinct(pivots)
    ensures forall r :: r in pivots <==> PivotBy(bp, leaves, |leaves|, k, r)
  {
    assert leaves[..|leaves|] == leaves;
  }

  /** Tallies never shrink as leaves are added, and leaves whose walks end
      elsewhere leave a root's tally as it was. */
  lemma {:induction false} TreeSizeGrows(bp: map<int, int>, leaves: seq<int>, i: nat, r: int)
    requires i <= |leaves|
    ensures TreeSize(bp, leaves[..i], r) <= TreeSize(bp, leaves, r)
    ensures (forall j :: i <= j < |leaves| ==> !EndsAt(bp, leaves[j], r)) ==>
              TreeSize(bp, leaves[..i], r) == TreeSize(bp, leaves, r)
    decreases |leaves|
  {
    if i == |leaves| {
      assert leaves[..i] == leaves;
    } else {
      var init := leaves[..|leaves| - 1];
      assert init[..i] == leaves[..i];
      assert forall j :: i <= j < |init| ==> init[j] == leaves[j];
      TreeSizeGrows(bp, init, i, r);
    }
  }

  /** Some leaf's walk ends at `r`: then a last such leaf exists. */
  lemma {:induction false} LastEnding(bp: map<int, int>, leaves: seq<int>, r: int) returns (i: nat)
    requires exists j :: 0 <= j < |leaves| && EndsAt(bp, leaves[j], r)
    ensures i < |leaves| && EndsAt(bp, leaves[i], r)
    ensures forall j :: i < j < |leaves| ==> !EndsAt(bp, leaves[j], r)
    decreases |leaves|
  {
    if EndsAt(bp, leaves[|leaves| - 1], r) {
      i := |leaves| - 1;
    } else {
      var init := leaves[..|leaves| - 1];
      var j :| 0 <= j < |leaves| && EndsAt(bp, leaves[j], r);
      assert init[j] == leaves[j];
      i := LastEnding(bp, init, r);
      assert init[i] == leaves[i];
    }
  }

  /** A pivot has a walk ending at it, and its final tally is at least `k`. */
  lemma PivotHasFinalTally(bp: map<int, int>, leaves: seq<int>, k: int, r: int)
    requires PivotBy(bp, leaves, |leaves|, k, r)
    ensures exists i :: 0 <= i < |leaves| && EndsAt(bp, leaves[i], r)
    ensures TreeSize(bp, leaves, r) >= k
  {
    var i :| 0 <= i < |leaves| && EndsAt(bp, leaves[i], r) && TreeSize(bp, leaves[..i + 1], r) >= k;
    TreeSizeGrows(bp, leaves, i + 1, r);
  }

  /** A root some walk ends at, whose final tally is at least `k`, is a pivot:
      its tally at the last walk ending there is already the final one. */
  lemma FinalTallyMakesPivot(bp: map<int, int>, leaves: seq<int>, k: int, r: int)
    requires exists i :: 0 <= i < |leaves| && EndsAt(bp, leaves[i], r)
    requires TreeSize(bp, leaves, r) >= k
    ensures PivotBy(bp, leaves, |leaves|, k, r)
  {
    var i := LastEnding(bp, leaves, r);
    TreeSizeGrows(bp, leaves, i + 1, r);
    assert TreeSize(bp, leaves[..i + 1], r) >= k;
  }

  /** Since tallies only grow, a root becomes a pivot exactly when some walk
      ends at it and its final tally is at least `k`. */
  lemma PivotsByFinalTally(bp: map<int, int>, leaves: seq<int>, k: int, r: int)
    ensures PivotBy(bp, leaves, |leaves|, k, r) <==>
            (exists i :: 0 <= i < |leaves| && EndsAt(bp, leaves[i], r)) && TreeSize(bp, leaves, r) >= k
  {
    if PivotBy(bp, leaves, |leaves|, k, r) {
      PivotHasFinalTally(bp, leaves, k, r);
    }
    if (exists i :: 0 <= i < |leaves| && EndsAt(bp, leaves[i], r)) && TreeSize(bp, leaves, r) >= k {
      FinalTallyMakesPivot(bp, leaves, k, r);
    }
  }

  // ---------------------------------------------------------------------------
  // A walk that does not end

  /** While the walk has not ended, every node it passes is a key. */
  lemma {:induction false} UnendedWalkStaysInKeys(bp: map<int, int>, x: int, fuel: nat, i: nat)
    requires Walk(bp, x, fuel).None? && i <= fuel
    ensures Follow(bp, x, i) in bp
    decreases fuel
  {
    if i > 0 {
      UnendedWalkStaysInKeys(bp, bp[x], fuel - 1, i - 1);
    }
  }

  /** `a + b` steps are `a` steps and then `b` more. */
  lemma {:induction false} FollowAdds(bp: map<int, int>, x: int, a: nat, b: nat)
    ensures Follow(bp, x, a + b) == Follow(bp, Follow(bp, x, a), b)
    decreases a
  {
    if a > 0 && x in bp {
      FollowAdds(bp, bp[x], a - 1, b);
    } else if a > 0 {
      FollowStaysAtRoot(bp, x, b);
      FollowStaysAtRoot(bp, x, a + b);
    }
  }

  /** From a root, following stays at the root. */
  lemma FollowStaysAtRoot(bp: map<int, int>, x: int, m: nat)
    requires x !in bp
    ensures Follow(bp, x, m) == x
  {
  }

  /** A sequence with no repeats has as many members as elements. */
  lemma {:induction false} DistinctCard(xs: seq<int>)
    requires Distinct(xs)
    ensures |set i | 0 <= i < |xs| :: xs[i]| == |xs|
    decreases |xs|
  {
    if xs != [] {
      var init := xs[..|xs| - 1];
      assert Distinct(init);
      DistinctCard(init);
      var s := set i | 0 <= i < |xs| :: xs[i];
      var t := set i | 0 <= i < |init| :: init[i];
      assert s == t + {xs[|xs| - 1]};
      assert xs[|xs| - 1] !in t;
    }
  }

  /** `|bp| + 1` steps pass some key twice. */
  lemma WalkRepeats(bp: map<int, int>, x: int)
    requires Walk(bp, x, |bp|).None?
    ensures exists i, j :: 0 <= i < j <= |bp| && Follow(bp, x, i) == Follow(bp, x, j)
  {
    var path := seq(|bp| + 1, i requires 0 <= i <= |bp| => Follow(bp, x, i));
    if Distinct(path) {
      DistinctCard(path);
      var s := set i | 0 <= i < |path| :: path[i];
      forall y | y in s ensures y in bp.Keys {
        var i :| 0 <= i < |path| && path[i] == y;
        UnendedWalkStaysInKeys(bp, x, |bp|, i);
      }
      assert s <= bp.Keys;
      SubsetCard(s, bp.Keys);
      assert false;
    }
    var i, j :| 0 <= i < j < |path| && path[i] == path[j];
    assert Follow(bp, x, i) == Follow(bp, x, j);
  }

  /** A subset is no larger than its superset. */
  lemma SubsetCard(a: set<int>, b: set<int>)
    requires a <= b
    ensures |a| <= |b|
  {
    assert b == a + (b - a);
  }

  /** A walk that has not ended after `|bp_map|` steps never ends: it has
      passed the same key twice and goes round that cycle forever. */
  lemma WalkRunsForever(bp: map<int, int>, x: int, m: nat)
    requires Walk(bp, x, |bp|).None?
    ensures Follow(bp, x, m) in bp
  {
    WalkRepeats(bp, x);
    var i, j :| 0 <= i < j <= |bp| && Follow(bp, x, i) == Follow(bp, x, j);
    CycleStaysInKeys(bp, x, i, j, m);
  }

  /** The walk comes back to where it was at step `i` at step `j`: it passes
      only keys from then on. */
  lemma {:induction false} CycleStaysInKeys(bp: map<int, int>, x: int, i: nat, j: nat, m: nat)
    requires Walk(bp, x, |bp|).None? && i < j <= |bp| && Follow(bp, x, i) == Follow(bp, x, j)
    ensures Follow(bp, x, m) in bp
    decreases m
  {
    if m <= |bp| {
      UnendedWalkStaysInKeys(bp, x, |bp|, m);
    } else {
      var back := m - (j - i);
      FollowAdds(bp, x, j, m - j);
      FollowAdds(bp, x, i, m - j);
      assert i + (m - j) == back;
      CycleStaysInKeys(bp, x, i, j, back);
    }
  }

  /** With `bp_map` pointing only at nodes, every walk from a node that ends
      ends at a node. */
  lemma {:induction false} WalkEndInRange(bp: map<int, int>, x: int, fuel: nat, n: int)
    requires 0 <= x < n && forall y :: y in bp ==> 0 <= bp[y] < n
    ensures Walk(bp, x, fuel).Some? ==> 0 <= Walk(bp, x, fuel).value.0 < n
    decreases fuel
  {
    if x in bp && fuel > 0 {
      WalkEndInRange(bp, bp[x], fuel - 1, n);
    }
  }

  // ---------------------------------------------------------------------------
  // find_pivots: the layers (bmssp.cpp:14-36)

  /** The `j`-th edge out of `u` offers its head nothing cheaper than `u`'s
      cost `start[u]` at the start of the layer plus the edge's weight. */
  ghost predicate RelaxedAgainst(adj: Adj, start: seq<ExtReal>, costs: seq<ExtReal>, u: int, j: int) {
    0 <= u < |adj| && 0 <= j < |adj[u]| && u < |start| && 0 <= adj[u][j].to < |costs| &&
    costs[adj[u][j].to].Le(start[u].Plus(adj[u][j].weight))
  }

  /** A relaxed edge stays relaxed while costs are only lowered. */
  lemma KeepRelaxed(adj: Adj, start: seq<ExtReal>, costs: seq<ExtReal>, after: seq<ExtReal>, u: int, j: int)
    requires RelaxedAgainst(adj, start, costs, u, j) && NoneRaised(costs, after)
    ensures RelaxedAgainst(adj, start, after, u, j)
  {
    var v := adj[u][j].to;
    LtIsStrictTotalOrder(after[v], costs[v], start[u].Plus(adj[u][j].weight));
  }

  /** The state of one layer's expansion, started from the costs `start`
      and the map `bp0`, with the nodes `parents` of the last layer: costs
      were only lowered and every finite one is attained by a walk; the new
      layer holds nodes whose cost is below `bound`; exactly its nodes were
      (re)mapped in `bp_map`, each to a node of the last layer. */
  ghost predicate Expanding(adj: Adj, src: int, bound: ExtReal, start: seq<ExtReal>, costs: seq<ExtReal>,
                            parents: seq<int>, bp0: map<int, int>, layer: seq<int>, bp: map<int, int>)
  {
    && WellFormed(adj) && |costs| == |adj| && Nodes(parents, |adj|)
    && NoneRaised(start, costs) && Sound(adj, src, costs)
    && Nodes(layer, |adj|)
    && (forall i :: 0 <= i < |layer| ==> costs[layer[i]].Lt(bound))
    && (forall x :: x in bp <==> x in bp0 || x in layer)
    && (forall x :: x in layer ==> bp[x] in parents)
    && (forall x :: x in bp0 && x !in layer ==> bp[x] == bp0[x])
  }

  /** Relaxing the `j`-th edge out of `u` (bmssp.cpp:22-28) keeps the
      expansion's state, lowers at most one cost, and relaxes that edge. */
  lemma RelaxEdge(adj: Adj, src: int, bound: ExtReal, start: seq<ExtReal>, costs: seq<ExtReal>,
                  parents: seq<int>, bp0: map<int, int>, layer: seq<int>, bp: map<int, int>, u: int, j: int)
    requires Expanding(adj, src, bound, start, costs, parents, bp0, layer, bp)
    requires u in parents && 0 <= j < |adj[u]|
    ensures var e := adj[u][j];
            var d := costs[u].Plus(e.weight);
            var lowered := d.Le(costs[e.to]);
            var grows := lowered && d.Lt(bound);
            var after := if lowered then costs[e.to := d] else costs;
            Expanding(adj, src, bound, start, after, parents, bp0,
                      if grows then layer + [e.to] else layer,
                      if grows then bp[e.to := u] else bp) &&
            NoneRaised(costs, after) && RelaxedAgainst(adj, start, after, u, j)
  {
    var e := adj[u][j];
    var d := costs[u].Plus(e.weight);
    assert costs[u].Le(start[u]);
    assert d.Le(start[u].Plus(e.weight));
    if d.Le(costs[e.to]) {
      var after := costs[e.to := d];
      RelaxLowers(adj, src, bound, start, costs, parents, bp0, layer, bp, u, j);
      if d.Lt(bound) {
        GrowLayer(adj, src, bound, start, after, parents, bp0, layer, bp, e.to, u);
      }
    } else {
      LtIsStrictTotalOrder(costs[e.to], d, start[u].Plus(e.weight));
    }
  }

  /** Lowering the head of an edge out of a parent to the path through it
      keeps the expansion's state with the same layer, raising no cost. */
  lemma RelaxLowers(adj: Adj, src: int, bound: ExtReal, start: seq<ExtReal>, costs: seq<ExtReal>,
                    parents: seq<int>, bp0: map<int, int>, layer: seq<int>, bp: map<int, int>, u: int, j: int)
    requires Expanding(adj, src, bound, start, costs, parents, bp0, layer, bp)
    requires u in parents && 0 <= j < |adj[u]|
    requires costs[u].Plus(adj[u][j].weight).Le(costs[adj[u][j].to])
    ensures var e := adj[u][j];
            var after := costs[e.to := costs[u].Plus(e.weight)];
            Expanding(adj, src, bound, start, after, parents, bp0, layer, bp) && NoneRaised(costs, after)
  {
    var e := adj[u][j];
    var d := costs[u].Plus(e.weight);
    var after := costs[e.to := d];
    assert Witnessed(adj, src, u, costs[u]);
    WitnessStep(adj, src, u, j, costs[u]);
    SoundUpdate(adj, src, costs, e.to, d);
    LowerOne(costs, e.to, d);
    NoneRaisedTrans(start, costs, after);
    forall i | 0 <= i < |layer| ensures after[layer[i]].Lt(bound) {
      StillBelow(after[layer[i]], costs[layer[i]], bound);
    }
  }

  /** A node below the bound joins the layer with parent `u`. */
  lemma GrowLayer(adj: Adj, src: int, bound: ExtReal, start: seq<ExtReal>, costs: seq<ExtReal>,
                  parents: seq<int>, bp0: map<int, int>, layer: seq<int>, bp: map<int, int>, v: int, u: int)
    requires Expanding(adj, src, bound, start, costs, parents, bp0, layer, bp)
    requires 0 <= v < |adj| && costs[v].Lt(bound) && u in parents
    ensures Expanding(adj, src, bound, start, costs, parents, bp0, layer + [v], bp[v := u])
  {
    var layer' := layer + [v];
    forall i | 0 <= i < |layer'| ensures 0 <= layer'[i] < |adj| && costs[layer'[i]].Lt(bound) {
      if i < |layer| {
        assert layer'[i] == layer[i];
      }
    }
  }

  /** Some edge leads from `u` to `x`. */
  ghost predicate EdgeTo(adj: Adj, u: int, x: int) {
    0 <= u < |adj| && exists j :: 0 <= j < |adj[u]| && adj[u][j].to == x
  }

  /** The new layer misses no node the expansion lowered below `bound`, and
      each of its nodes is mapped in `bp_map` to the tail of an edge into it. */
  ghost predicate LayerComplete(adj: Adj, bound: ExtReal, start: seq<ExtReal>, costs: seq<ExtReal>,
                                layer: seq<int>, bp: map<int, int>)
  {
    && |start| == |costs|
    && (forall y :: 0 <= y < |costs| && costs[y] != start[y] && costs[y].Lt(bound) ==> y in layer)
    && (forall x :: x in layer ==> x in bp && EdgeTo(adj, bp[x], x))
  }

  /** Relaxing the `j`-th edge out of `u` keeps the layer complete. */
  lemma RelaxEdgeComplete(adj: Adj, bound: ExtReal, start: seq<ExtReal>, costs: seq<ExtReal>,
                          layer: seq<int>, bp: map<int, int>, u: int, j: int)
    requires LayerComplete(adj, bound, start, costs, layer, bp)
    requires 0 <= u < |adj| && u < |costs| && 0 <= j < |adj[u]| && 0 <= adj[u][j].to < |costs|
    ensures var e := adj[u][j];
            var d := costs[u].Plus(e.weight);
            var lowered := d.Le(costs[e.to]);
            var grows := lowered && d.Lt(bound);
            LayerComplete(adj, bound, start, if lowered then costs[e.to := d] else costs,
                          if grows then layer + [e.to] else layer,
                          if grows then bp[e.to := u] else bp)
  {
    var e := adj[u][j];
    var d := costs[u].Plus(e.weight);
    if d.Le(costs[e.to]) && d.Lt(bound) {
      assert EdgeTo(adj, u, e.to);
    }
  }

  /** The edges out of one last-layer node `u` (bmssp.cpp:21-30). */
  method RelaxEdges(bound: ExtReal, u: int, adj: Adj, minCosts: array<ExtReal>, layer: seq<int>, bp: map<int, int>,
                    ghost src: int, ghost start: seq<ExtReal>, ghost parents: seq<int>, ghost bp0: map<int, int>)
    returns (layer': seq<int>, bp': map<int, int>)
    requires Expanding(adj, src, bound, start, minCosts[..], parents, bp0, layer, bp) && u in parents
    requires LayerComplete(adj, bound, start, minCosts[..], layer, bp)
    modifies minCosts
    ensures Expanding(adj, src, bound, start, minCosts[..], parents, bp0, layer', bp')
    ensures LayerComplete(adj, bound, start, minCosts[..], layer', bp')
    ensures NoneRaised(old(minCosts[..]), minCosts[..])
    ensures forall j :: 0 <= j < |adj[u]| ==> RelaxedAgainst(adj, start, minCosts[..], u, j)
  {
    layer', bp' := layer, bp;
    for j := 0 to |adj[u]|
      invariant Expanding(adj, src, bound, start, minCosts[..], parents, bp0, layer', bp')
      invariant LayerComplete(adj, bound, start, minCosts[..], layer', bp')
      invariant NoneRaised(old(minCosts[..]), minCosts[..])
      invariant forall i :: 0 <= i < j ==> RelaxedAgainst(adj, start, minCosts[..], u, i)
    {
      ghost var before := minCosts[..];
      RelaxEdge(adj, src, bound, start, before, parents, bp0, layer', bp', u, j);
      RelaxEdgeComplete(adj, bound, start, before, layer', bp', u, j);
      var e := adj[u][j];
      var d := minCosts[u].Plus(e.weight);
      if d.Le(minCosts[e.to]) {
        minCosts[e.to] := d;
        if d.Lt(bound) {
          layer' := layer' + [e.to];
          bp' := bp'[e.to := u];
        }
      }
      assert minCosts[..] == if d.Le(before[e.to]) then before[e.to := d] else before;
      NoneRaisedTrans(old(minCosts[..]), before, minCosts[..]);
      forall i | 0 <= i < j ensures RelaxedAgainst(adj, start, minCosts[..], u, i) {
        KeepRelaxed(adj, start, before, minCosts[..], u, i);
      }
    }
  }

  /** Every edge out of the first `a` nodes of `parents` is relaxed against
      the costs at the start of the layer. */
  ghost predicate LayerRelaxed(adj: Adj, start: seq<ExtReal>, costs: seq<ExtReal>, parents: seq<int>, a: int) {
    Nodes(parents, |adj|) && 0 <= a <= |parents| &&
    forall i, j :: 0 <= i < a && 0 <= j < |adj[parents[i]]| ==> RelaxedAgainst(adj, start, costs, parents[i], j)
  }

  /** Lowering costs keeps the relaxed edges relaxed. */
  lemma KeepLayerRelaxed(adj: Adj, start: seq<ExtReal>, costs: seq<ExtReal>, after: seq<ExtReal>, parents: seq<int>, a: int)
    requires LayerRelaxed(adj, start, costs, parents, a) && NoneRaised(costs, after)
    ensures LayerRelaxed(adj, start, after, parents, a)
  {
    forall i, j | 0 <= i < a && 0 <= j < |adj[parents[i]]|
      ensures RelaxedAgainst(adj, start, after, parents[i], j)
    {
      KeepRelaxed(adj, start, costs, after, parents[i], j);
    }
  }

  /** One layer of `find_pivots` (bmssp.cpp:19-31): relax every edge out of
      the last layer; a head whose cost is lowered or matched gets the new
      cost, and joins the new layer, mapped in `bp_map` to the edge's tail,
      when that cost is below `bound`. Afterwards every such edge is relaxed
      against the costs the layer started from, every node whose cost was
      lowered below `bound` is in the new layer, and each node of the new
      layer is mapped to a last-layer node with an edge into it. */
  method ExpandLayer(bound: ExtReal, lastLayer: seq<int>, adj: Adj, minCosts: array<ExtReal>, bp: map<int, int>,
                     ghost src: int)
    returns (newLayer: seq<int>, bp': map<int, int>)
    requires WellFormed(adj) && minCosts.Length == |adj| && Nodes(lastLayer, |adj|)
    requires Sound(adj, src, minCosts[..])
    modifies minCosts
    ensures Expanding(adj, src, bound, old(minCosts[..]), minCosts[..], lastLayer, bp, newLayer, bp')
    ensures LayerRelaxed(adj, old(minCosts[..]), minCosts[..], lastLayer, |lastLayer|)
    ensures LayerComplete(adj, bound, old(minCosts[..]), minCosts[..], newLayer, bp')
  {
    ghost var start := minCosts[..];
    newLayer, bp' := [], bp;
    for a := 0 to |lastLayer|
      invariant Expanding(adj, src, bound, start, minCosts[..], lastLayer, bp, newLayer, bp')
      invariant LayerRelaxed(adj, start, minCosts[..], lastLayer, a)
      invariant LayerComplete(adj, bound, start, minCosts[..], newLayer, bp')
    {
      ghost var before := minCosts[..];
      newLayer, bp' := RelaxEdges(bound, lastLayer[a], adj, minCosts, newLayer, bp', src, start, lastLayer, bp);
      KeepLayerRelaxed(adj, start, before, minCosts[..], lastLayer, a);
    }
  }

  /** The state of `find_pivots` between layers: `allLayers` starts with the
      frontier and holds nodes only, every node added after the frontier has
      a cost below `bound`, the last layer is its tail, and `bp_map` maps
      nodes of the layers to nodes of the layers. */
  ghost predicate Layers(adj: Adj, bound: ExtReal, frontier: seq<int>, costs: seq<ExtReal>,
                         allLayers: seq<int>, lastLayer: seq<int>, bp: map<int, int>)
  {
    && |costs| == |adj| && Nodes(allLayers, |adj|)
    && |frontier| <= |allLayers| && allLayers[..|frontier|] == frontier
    && (forall i :: |frontier| <= i < |allLayers| ==> costs[allLayers[i]].Lt(bound))
    && |lastLayer| <= |allLayers| && allLayers[|allLayers| - |lastLayer|..] == lastLayer
    && (forall x :: x in bp ==> x in allLayers && bp[x] in allLayers)
  }

  /** Appending a layer keeps the state between layers. */
  lemma LayersStep(adj: Adj, src: int, bound: ExtReal, frontier: seq<int>, costs: seq<ExtReal>, after: seq<ExtReal>,
                   allLayers: seq<int>, lastLayer: seq<int>, bp: map<int, int>, newLayer: seq<int>, bp': map<int, int>)
    requires Layers(adj, bound, frontier, costs, allLayers, lastLayer, bp)
    requires Expanding(adj, src, bound, costs, after, lastLayer, bp, newLayer, bp')
    ensures Layers(adj, bound, frontier, after, allLayers + newLayer, newLayer, bp')
  {
    var all := allLayers + newLayer;
    assert all[..|frontier|] == frontier;
    assert all[|all| - |newLayer|..] == newLayer;
    forall i | |frontier| <= i < |all| ensures after[all[i]].Lt(bound) {
      if i < |allLayers| {
        StillBelow(after[all[i]], costs[all[i]], bound);
      } else {
        assert all[i] == newLayer[i - |allLayers|];
      }
    }
    forall x | x in lastLayer ensures x in allLayers {
      var i :| 0 <= i < |lastLayer| && lastLayer[i] == x;
      assert allLayers[|allLayers| - |lastLayer| + i] == x;
    }
  }

  /** The layers one after another. */
  function Flatten(layers: seq<seq<int>>): seq<int>
    decreases |layers|
  {
    if layers == [] then [] else Flatten(layers[..|layers| - 1]) + layers[|layers| - 1]
  }

  /** What one layer's expansion guarantees, from the costs `start` and the
      map `bp0` to the costs `costs` and the map `bp`. */
  ghost predicate Expanded(adj: Adj, src: int, bound: ExtReal, start: seq<ExtReal>, costs: seq<ExtReal>,
                           parents: seq<int>, bp0: map<int, int>, layer: seq<int>, bp: map<int, int>)
  {
    Expanding(adj, src, bound, start, costs, parents, bp0, layer, bp) &&
    LayerRelaxed(adj, start, costs, parents, |parents|) &&
    LayerComplete(adj, bound, start, costs, layer, bp)
  }

  /** The layers `find_pivots` built, starting with the frontier and an empty
      `bp_map`, with the cost table and the map before each layer: each layer
      is the expansion of the one before it. */
  ghost predicate LayerChain(adj: Adj, src: int, bound: ExtReal, frontier: seq<int>,
                             tables: seq<seq<ExtReal>>, layers: seq<seq<int>>, bps: seq<map<int, int>>)
  {
    && |layers| >= 1 && |tables| == |layers| && |bps| == |layers|
    && layers[0] == frontier && bps[0] == map[]
    && forall i :: 0 <= i < |layers| - 1 ==>
         Expanded(adj, src, bound, tables[i], tables[i + 1], layers[i], bps[i], layers[i + 1], bps[i + 1])
  }

  /** One more expansion extends the chain. */
  lemma LayerChainExtend(adj: Adj, src: int, bound: ExtReal, frontier: seq<int>,
                         tables: seq<seq<ExtReal>>, layers: seq<seq<int>>, bps: seq<map<int, int>>,
                         costs: seq<ExtReal>, layer: seq<int>, bp: map<int, int>)
    requires LayerChain(adj, src, bound, frontier, tables, layers, bps)
    requires Expanded(adj, src, bound, tables[|tables| - 1], costs, layers[|layers| - 1], bps[|bps| - 1], layer, bp)
    ensures LayerChain(adj, src, bound, frontier, tables + [costs], layers + [layer], bps + [bp])
  {
    var t, l, b := tables + [costs], layers + [layer], bps + [bp];
    forall i | 0 <= i < |l| - 1
      ensures Expanded(adj, src, bound, t[i], t[i + 1], l[i], b[i], l[i + 1], b[i + 1])
    {
      assert t[i] == tables[i] && l[i] == layers[i] && b[i] == bps[i];
      if i < |layers| - 1 {
        assert t[i + 1] == tables[i + 1] && l[i + 1] == layers[i + 1] && b[i + 1] == bps[i + 1];
      }
    }
  }

  /** No earlier prefix of the layers passed the size limit. */
  ghost predicate PrefixesWithin(layers: seq<seq<int>>, limit: int) {
    forall i :: 1 <= i < |layers| ==> |Flatten(layers[..i])| <= limit
  }

  /** A layer appended to layers within the limit keeps the earlier prefixes
      within it. */
  lemma PrefixesWithinExtend(layers: seq<seq<int>>, layer: seq<int>, limit: int)
    requires PrefixesWithin(layers, limit) && |layers| >= 1 && |Flatten(layers)| <= limit
    ensures PrefixesWithin(layers + [layer], limit)
  {
    var l := layers + [layer];
    forall i | 1 <= i < |l| ensures |Flatten(l[..i])| <= limit {
      if i < |layers| {
        assert l[..i] == layers[..i];
      } else {
        assert l[..i] == layers;
      }
    }
  }

  /** Roots reached from nodes along a `bp_map` into the nodes are nodes. */
  lemma PivotsInRange(bp: map<int, int>, leaves: seq<int>, k: int, pivots: seq<int>, n: int)
    requires Nodes(leaves, n) && forall y :: y in bp ==> 0 <= bp[y] < n
    requires forall r :: r in pivots ==> PivotBy(bp, leaves, |leaves|, k, r)
    ensures Nodes(pivots, n)
  {
    forall p | 0 <= p < |pivots| ensures 0 <= pivots[p] < n {
      assert PivotBy(bp, leaves, |leaves|, k, pivots[p]);
      var i :| 0 <= i < |leaves| && EndsAt(bp, leaves[i], pivots[p]);
      WalkEndInRange(bp, leaves[i], |bp|, n);
    }
  }

  /** The state of `find_pivots` after some layers, started from the table
      `start`: costs only lowered and sound, the layers so far chained from
      the frontier, with `allLayers`, the last layer and `bp_map` theirs, and
      no earlier prefix past `k * |frontier|`. */
  ghost predicate Building(adj: Adj, src: int, bound: ExtReal, frontier: seq<int>, k: int,
                           start: seq<ExtReal>, costs: seq<ExtReal>, allLayers: seq<int>, last: seq<int>,
                           bpMap: map<int, int>, layers: seq<seq<int>>, tables: seq<seq<ExtReal>>, bps: seq<map<int, int>>)
  {
    && NoneRaised(start, costs) && Sound(adj, src, costs)
    && Layers(adj, bound, frontier, costs, allLayers, last, bpMap)
    && LayerChain(adj, src, bound, frontier, tables, layers, bps)
    && tables[0] == start && tables[|tables| - 1] == costs
    && allLayers == Flatten(layers) && last == layers[|layers| - 1] && bpMap == bps[|bps| - 1]
    && PrefixesWithin(layers, k * |frontier|)
  }

  /** The frontier alone, with an empty `bp_map`, starts the layers. */
  lemma BuildingStarts(adj: Adj, src: int, bound: ExtReal, frontier: seq<int>, k: int, costs: seq<ExtReal>)
    requires |costs| == |adj| && Nodes(frontier, |adj|) && Sound(adj, src, costs)
    ensures Building(adj, src, bound, frontier, k, costs, costs, frontier, frontier, map[], [frontier], [costs], [map[]])
  {
    assert Flatten([frontier]) == Flatten([]) + frontier;
    assert frontier[..|frontier|] == frontier;
    assert frontier[|frontier| - |frontier|..] == frontier;
  }

  /** Between layers, the last layer holds nodes and `bp_map` maps to nodes. */
  lemma LayersInRange(adj: Adj, bound: ExtReal, frontier: seq<int>, costs: seq<ExtReal>,
                      allLayers: seq<int>, last: seq<int>, bp: map<int, int>)
    requires Layers(adj, bound, frontier, costs, allLayers, last, bp)
    ensures Nodes(last, |adj|) && forall y :: y in bp ==> 0 <= bp[y] < |adj|
  {
    forall y | y in bp ensures 0 <= bp[y] < |adj| {
      var i :| 0 <= i < |allLayers| && allLayers[i] == bp[y];
    }
    forall i | 0 <= i < |last| ensures 0 <= last[i] < |adj| {
      assert last[i] == allLayers[|allLayers| - |last| + i];
    }
  }

  /** One layer of `find_pivots` (bmssp.cpp:19-33): the last layer is
      expanded and appended, and the state is kept. */
  method NextLayer(bound: ExtReal, frontier: seq<int>, k: int, adj: Adj, minCosts: array<ExtReal>,
                   allLayers: seq<int>, last: seq<int>, bpMap: map<int, int>, ghost src: int, ghost start: seq<ExtReal>,
                   ghost layers: seq<seq<int>>, ghost tables: seq<seq<ExtReal>>, ghost bps: seq<map<int, int>>)
    returns (allLayers': seq<int>, last': seq<int>, bpMap': map<int, int>,
             ghost layers': seq<seq<int>>, ghost tables': seq<seq<ExtReal>>, ghost bps': seq<map<int, int>>)
    requires WellFormed(adj) && minCosts.Length == |adj| && Nodes(frontier, |adj|)
    requires Building(adj, src, bound, frontier, k, start, minCosts[..], allLayers, last, bpMap, layers, tables, bps)
    requires |allLayers| <= k * |frontier|
    modifies minCosts
    ensures Building(adj, src, bound, frontier, k, start, minCosts[..], allLayers', last', bpMap', layers', tables', bps')
    ensures |layers'| == |layers| + 1
  {
    ghost var before := minCosts[..];
    LayersInRange(adj, bound, frontier, minCosts[..], allLayers, last, bpMap);
    var newLayer, bp' := ExpandLayer(bound, last, adj, minCosts, bpMap, src);
    LayersStep(adj, src, bound, frontier, before, minCosts[..], allLayers, last, bpMap, newLayer, bp');
    NoneRaisedTrans(start, before, minCosts[..]);
    LayerChainExtend(adj, src, bound, frontier, tables, layers, bps, minCosts[..], newLayer, bp');
    PrefixesWithinExtend(layers, newLayer, k * |frontier|);
    assert (layers + [newLayer])[..|layers|] == layers;
    allLayers', last', bpMap' := allLayers + newLayer, newLayer, bp';
    layers', tables', bps' := layers + [newLayer], tables + [minCosts[..]], bps + [bp'];
  }

  /** `find_pivots` (bmssp.cpp:11-52). Costs are only lowered and stay
      attained by walks. The layers start with the frontier, and each is the
      expansion of the one before (`LayerChain`); the second result is all
      layers one after another, and `lastLayer` and `bp` are the last layer
      and map. There are `k + 1` layers unless the layers built so far held
      more than `k * |frontier|` ids, which happens at most once, at the
      last layer. Then the pivots are the frontier itself; otherwise they
      are the distinct roots of `bp_map` at which walks from the last layer
      end, once their tally has reached `k`. `ok` is false when such a walk
      goes round a cycle, where the source loops forever. */
  method FindPivots(bound: ExtReal, frontier: seq<int>, k: int, adj: Adj, minCosts: array<ExtReal>, ghost src: int)
    returns (pivots: seq<int>, allLayers: seq<int>, ok: bool, ghost bp: map<int, int>, ghost lastLayer: seq<int>,
             ghost layers: seq<seq<int>>, ghost tables: seq<seq<ExtReal>>, ghost bps: seq<map<int, int>>)
    requires k >= 1 && WellFormed(adj) && minCosts.Length == |adj| && Nodes(frontier, |adj|)
    requires Sound(adj, src, minCosts[..])
    modifies minCosts
    ensures NoneRaised(old(minCosts[..]), minCosts[..]) && Sound(adj, src, minCosts[..])
    ensures Layers(adj, bound, frontier, minCosts[..], allLayers, lastLayer, bp)
    ensures LayerChain(adj, src, bound, frontier, tables, layers, bps)
    ensures tables[0] == old(minCosts[..]) && tables[|tables| - 1] == minCosts[..]
    ensures allLayers == Flatten(layers) && lastLayer == layers[|layers| - 1] && bp == bps[|bps| - 1]
    ensures |layers| <= k + 1 && (|layers| == k + 1 || |allLayers| > k * |frontier|)
    ensures PrefixesWithin(layers, k * |frontier|)
    ensures |allLayers| > k * |frontier| ==> ok && pivots == frontier
    ensures |allLayers| <= k * |frontier| ==>
              (ok <==> AllEnd(bp, lastLayer)) &&
              (ok ==> Distinct(pivots) && forall r :: r in pivots <==> PivotBy(bp, lastLayer, |lastLayer|, k, r))
    ensures ok ==> Nodes(pivots, |adj|)
  {
    var bpMap: map<int, int>, last: seq<int>;
    allLayers, last, bpMap := frontier, frontier, map[];
    layers, tables, bps := [frontier], [minCosts[..]], [map[]];
    BuildingStarts(adj, src, bound, frontier, k, minCosts[..]);
    for i := 0 to k
      invariant Building(adj, src, bound, frontier, k, old(minCosts[..]), minCosts[..], allLayers, last, bpMap,
                         layers, tables, bps)
      invariant |allLayers| <= k * |frontier| && |layers| == i + 1
    {
      allLayers, last, bpMap, layers, tables, bps :=
        NextLayer(bound, frontier, k, adj, minCosts, allLayers, last, bpMap, src, old(minCosts[..]), layers, tables, bps);
      if |allLayers| > k * |frontier| {
        return frontier, allLayers, true, bpMap, last, layers, tables, bps;
      }
    }
    bp, lastLayer := bpMap, last;
    pivots, ok := CollectPivots(bpMap, last, k);
    if ok {
      LayersInRange(adj, bound, frontier, minCosts[..], allLayers, last, bpMap);
      PivotsInRange(bpMap, last, k, pivots, |adj|);
    }
  }

  // ---------------------------------------------------------------------------
  // base_bmssp (bmssp.cpp:54-87)

  /** Every changed entry of the table is strictly below `b`. */
  predicate LoweredBelow(start: seq<ExtReal>, costs: seq<ExtReal>, b: ExtReal) {
    |start| == |costs| && forall v :: 0 <= v < |costs| && costs[v] != start[v] ==> costs[v].Lt(b)
  }

  /** Every heap entry names a node, a walk attains its cost, and the node's
      entry in the table is not above it. */
  ghost predicate Pending(adj: Adj, src: int, costs: seq<ExtReal>, pq: Heap) {
    forall s :: s in pq ==> 0 <= s.nodeId < |costs| && Witnessed(adj, src, s.nodeId, s.cost) && costs[s.nodeId].Le(s.cost)
  }

  /** The `j`-th edge out of `u`, relaxed from the cost `c` at which `u` was
      settled (bmssp.cpp:73-77): unless that offer reaches `B`, the head's
      entry is no higher than it. */
  predicate RelaxedFrom(adj: Adj, B: ExtReal, costs: seq<ExtReal>, u: int, c: ExtReal, j: int) {
    0 <= u < |adj| && 0 <= j < |adj[u]| && 0 <= adj[u][j].to < |costs| &&
    (c.Plus(adj[u][j].weight).Lt(B) ==> costs[adj[u][j].to].Le(c.Plus(adj[u][j].weight)))
  }

  /** Every edge out of the first `r` settled nodes is relaxed from the cost
      its node was popped at. */
  ghost predicate SettledRelaxed(adj: Adj, B: ExtReal, costs: seq<ExtReal>, settled: seq<int>, settledCosts: seq<ExtReal>, r: int) {
    0 <= r <= |settled| == |settledCosts| && Nodes(settled, |adj|) &&
    forall i, j :: 0 <= i < r && 0 <= j < |adj[settled[i]]| ==> RelaxedFrom(adj, B, costs, settled[i], settledCosts[i], j)
  }

  /** The popped costs do not decrease, the last of them is `maxCost`, and
      no entry still waiting costs less. */
  ghost predicate PoppedInOrder(settledCosts: seq<ExtReal>, pq: Heap, maxCost: ExtReal) {
    && (forall i, j :: 0 <= i < j < |settledCosts| ==> settledCosts[i].Le(settledCosts[j]))
    && (|settledCosts| > 0 ==>
          settledCosts[|settledCosts| - 1] == maxCost && forall s :: s in pq ==> maxCost.Le(s.cost))
  }

  /** The state of the `base_bmssp` loop, started from the table `start`:
      - the table was only lowered, below `B`, and stays attained by walks;
      - `settled` (`u_init`) holds distinct nodes, at most `k + 1`, the first
        being `nodeId`, each with the cost it was popped at; that cost
        bounds the node's entry from above and is bounded by `maxCost`, itself one of those costs (or the start cost when nothing
        is settled);
      - `visited` is the set of settled nodes. */
  ghost predicate Settling(adj: Adj, src: int, B: ExtReal, nodeId: int, k: int, start: seq<ExtReal>, costs: seq<ExtReal>,
                           pq: Heap, settled: seq<int>, settledCosts: seq<ExtReal>, visited: set<int>, maxCost: ExtReal)
  {
    && WellFormed(adj) && |costs| == |adj| && 0 <= nodeId < |adj|
    && NoneRaised(start, costs) && LoweredBelow(start, costs, B) && Sound(adj, src, costs)
    && Pending(adj, src, costs, pq)
    && |settled| == |settledCosts| <= k + 1 && Distinct(settled) && Nodes(settled, |adj|)
    && (forall x :: x in visited <==> x in settled)
    && (|settled| == 0 ==> pq == multiset{State(nodeId, start[nodeId])} && maxCost == start[nodeId])
    && (|settled| > 0 ==> settled[0] == nodeId && settledCosts[0] == start[nodeId])
    && (forall i :: 0 <= i < |settled| ==> costs[settled[i]].Le(settledCosts[i]) && settledCosts[i].Le(maxCost))
    && (|settled| > 0 ==> exists i :: 0 <= i < |settled| && settledCosts[i] == maxCost)
  }

  /** Every changed entry belongs to a settled node or still waits in the
      heap at its current cost. */
  ghost predicate Tracked(start: seq<ExtReal>, costs: seq<ExtReal>, pq: Heap, visited: set<int>) {
    |start| == |costs| &&
    forall y :: 0 <= y < |costs| && costs[y] != start[y] ==> y in visited || State(y, costs[y]) in pq
  }

  /** What the search adds to that state: a walk attains every popped cost;
      every popped cost after the first, and every entry waiting once a node
      is settled, is below `B`; changed entries are tracked; with
      non-negative weights the costs are popped in order. */
  ghost predicate SearchFacts(adj: Adj, src: int, B: ExtReal, start: seq<ExtReal>, costs: seq<ExtReal>, pq: Heap,
                              settled: seq<int>, settledCosts: seq<ExtReal>, visited: set<int>, maxCost: ExtReal)
  {
    && |settled| == |settledCosts|
    && (forall i :: 0 <= i < |settled| ==> Witnessed(adj, src, settled[i], settledCosts[i]))
    && (forall i :: 1 <= i < |settled| ==> settledCosts[i].Lt(B))
    && (|settled| > 0 ==> forall s :: s in pq ==> s.cost.Lt(B))
    && Tracked(start, costs, pq, visited)
    && (NonNegativeWeights(adj) ==> PoppedInOrder(settledCosts, pq, maxCost))
  }

  /** The loop starts with the start node's entry on the heap. */
  lemma SettlingStarts(adj: Adj, src: int, B: ExtReal, nodeId: int, k: int, costs: seq<ExtReal>)
    requires WellFormed(adj) && |costs| == |adj| && 0 <= nodeId < |adj| && k >= 0 && Sound(adj, src, costs)
    ensures Settling(adj, src, B, nodeId, k, costs, costs, multiset{State(nodeId, costs[nodeId])}, [], [], {}, costs[nodeId])
    ensures SearchFacts(adj, src, B, costs, costs, multiset{State(nodeId, costs[nodeId])}, [], [], {}, costs[nodeId])
  {
    assert Witnessed(adj, src, nodeId, costs[nodeId]);
  }

  /** Popping leaves every other entry in the heap. */
  lemma PopKeepsOthers(pq: Heap, x: State)
    requires |pq| > 0 && x in pq && x != Top(pq)
    ensures x in Pop(pq)
  {
    assert Pop(pq) + multiset{Top(pq)} == pq;
  }

  /** A popped entry of an already visited node is dropped (bmssp.cpp:66-67). */
  lemma SkipVisited(adj: Adj, src: int, B: ExtReal, nodeId: int, k: int, start: seq<ExtReal>, costs: seq<ExtReal>,
                    pq: Heap, settled: seq<int>, settledCosts: seq<ExtReal>, visited: set<int>, maxCost: ExtReal)
    requires Settling(adj, src, B, nodeId, k, start, costs, pq, settled, settledCosts, visited, maxCost)
    requires |pq| > 0 && Top(pq).nodeId in visited
    ensures Settling(adj, src, B, nodeId, k, start, costs, Pop(pq), settled, settledCosts, visited, maxCost)
  {
  }

  /** Dropping that entry keeps the search's facts. */
  lemma SkipVisitedFacts(adj: Adj, src: int, B: ExtReal, start: seq<ExtReal>, costs: seq<ExtReal>, pq: Heap,
                         settled: seq<int>, settledCosts: seq<ExtReal>, visited: set<int>, maxCost: ExtReal)
    requires SearchFacts(adj, src, B, start, costs, pq, settled, settledCosts, visited, maxCost)
    requires |pq| > 0 && Top(pq).nodeId in visited
    ensures SearchFacts(adj, src, B, start, costs, Pop(pq), settled, settledCosts, visited, maxCost)
  {
    forall y | 0 <= y < |costs| && costs[y] != start[y] && y !in visited ensures State(y, costs[y]) in Pop(pq) {
      PopKeepsOthers(pq, State(y, costs[y]));
    }
    PopKeepsOrder(pq);
  }

  /** A popped entry of a new node settles it at the popped cost (bmssp.cpp:68-70). */
  lemma SettleNew(adj: Adj, src: int, B: ExtReal, nodeId: int, k: int, start: seq<ExtReal>, costs: seq<ExtReal>,
                  pq: Heap, settled: seq<int>, settledCosts: seq<ExtReal>, visited: set<int>, maxCost: ExtReal)
    requires Settling(adj, src, B, nodeId, k, start, costs, pq, settled, settledCosts, visited, maxCost)
    requires |pq| > 0 && |settled| < k + 1 && Top(pq).nodeId !in visited
    ensures var top := Top(pq);
            Settling(adj, src, B, nodeId, k, start, costs, Pop(pq), settled + [top.nodeId], settledCosts + [top.cost],
                     visited + {top.nodeId}, maxCost.Max(top.cost))
    ensures Witnessed(adj, src, Top(pq).nodeId, Top(pq).cost) && 0 <= Top(pq).nodeId < |adj|
    ensures |settled| == 0 ==> pq == multiset{State(nodeId, start[nodeId])} && maxCost == start[nodeId]
  {
    var top := Top(pq);
    var m := maxCost.Max(top.cost);
    var settled', costs' := settled + [top.nodeId], settledCosts + [top.cost];
    assert top in pq;
    forall i | 0 <= i < |settled'| ensures costs[settled'[i]].Le(costs'[i]) && costs'[i].Le(m) {
      if i < |settled| {
        LtIsStrictTotalOrder(costs'[i], maxCost, m);
      }
    }
    if |settled| == 0 {
      assert top == State(nodeId, start[nodeId]);
      assert costs'[0] == m;
    } else {
      var i :| 0 <= i < |settled| && settledCosts[i] == maxCost;
      assert costs'[i] == maxCost && costs'[|settled|] == top.cost;
    }
  }

  /** Settling that node keeps the search's facts. */
  lemma SettleNewFacts(adj: Adj, src: int, B: ExtReal, nodeId: int, start: seq<ExtReal>, costs: seq<ExtReal>, pq: Heap,
                       settled: seq<int>, settledCosts: seq<ExtReal>, visited: set<int>, maxCost: ExtReal)
    requires SearchFacts(adj, src, B, start, costs, pq, settled, settledCosts, visited, maxCost)
    requires |pq| > 0 && Witnessed(adj, src, Top(pq).nodeId, Top(pq).cost) && 0 <= nodeId < |start|
    requires |settled| == 0 ==> pq == multiset{State(nodeId, start[nodeId])} && maxCost == start[nodeId]
    ensures var top := Top(pq);
            SearchFacts(adj, src, B, start, costs, Pop(pq), settled + [top.nodeId], settledCosts + [top.cost],
                        visited + {top.nodeId}, maxCost.Max(top.cost))
  {
    var top := Top(pq);
    var settled', costs' := settled + [top.nodeId], settledCosts + [top.cost];
    assert top in pq;
    forall i | 0 <= i < |settled'| ensures Witnessed(adj, src, settled'[i], costs'[i]) {
      if i < |settled| {
        assert settled'[i] == settled[i] && costs'[i] == settledCosts[i];
      }
    }
    forall i | 1 <= i < |settled'| ensures costs'[i].Lt(B) {
      if i < |settled| {
        assert costs'[i] == settledCosts[i];
      }
    }
    forall y | 0 <= y < |costs| && costs[y] != start[y] && y !in visited + {top.nodeId}
      ensures State(y, costs[y]) in Pop(pq)
    {
      PopKeepsOthers(pq, State(y, costs[y]));
    }
    PopKeepsOrder(pq);
    if NonNegativeWeights(adj) {
      PoppedInOrderSettles(pq, settledCosts, maxCost, |settled| == 0);
    }
  }

  /** Under non-negative weights, popping the top keeps the costs popped in order. */
  lemma PoppedInOrderSettles(pq: Heap, settledCosts: seq<ExtReal>, maxCost: ExtReal, first: bool)
    requires |pq| > 0 && PoppedInOrder(settledCosts, pq, maxCost)
    requires |settledCosts| == 0 ==> first
    requires first ==> maxCost == Top(pq).cost
    ensures PoppedInOrder(settledCosts + [Top(pq).cost], Pop(pq), maxCost.Max(Top(pq).cost))
  {
    var top := Top(pq);
    var c' := settledCosts + [top.cost];
    assert maxCost.Le(top.cost) by {
      if !first {
        assert top in pq;
      }
    }
    var m := maxCost.Max(top.cost);
    assert m == top.cost;
    forall i, j | 0 <= i < j < |c'| ensures c'[i].Le(c'[j]) {
      if j == |settledCosts| {
        if i < |settledCosts| - 1 {
          LtIsStrictTotalOrder(c'[i], settledCosts[|settledCosts| - 1], top.cost);
        }
      } else {
        assert c'[i] == settledCosts[i] && c'[j] == settledCosts[j];
      }
    }
    PopKeepsOrder(pq);
    forall s | s in Pop(pq) ensures m.Le(s.cost) {
      NotAfterCost(top, s);
    }
  }

  /** A cost plus a non-negative weight is no lower. */
  lemma PlusNonNegative(c: ExtReal, w: real)
    requires w >= 0.0
    ensures c.Le(c.Plus(w))
  {
  }

  /** Relaxing the `j`-th edge out of a node settled at cost `c`
      (bmssp.cpp:73-77) keeps the loop's state and relaxes that edge. */
  lemma BaseRelaxEdge(adj: Adj, src: int, B: ExtReal, nodeId: int, k: int, start: seq<ExtReal>, costs: seq<ExtReal>,
                      pq: Heap, settled: seq<int>, settledCosts: seq<ExtReal>, visited: set<int>, maxCost: ExtReal,
                      u: int, c: ExtReal, j: int)
    requires Settling(adj, src, B, nodeId, k, start, costs, pq, settled, settledCosts, visited, maxCost)
    requires 0 <= u < |adj| && 0 <= j < |adj[u]| && Witnessed(adj, src, u, c) && |settled| > 0
    ensures var e := adj[u][j];
            var d := c.Plus(e.weight);
            var taken := d.Le(costs[e.to]) && d.Lt(B);
            var after := if taken then costs[e.to := d] else costs;
            Settling(adj, src, B, nodeId, k, start, after,
                     if taken then pq + multiset{State(e.to, d)} else pq, settled, settledCosts, visited, maxCost) &&
            NoneRaised(costs, after) && RelaxedFrom(adj, B, after, u, c, j)
  {
    var e := adj[u][j];
    var d := c.Plus(e.weight);
    if d.Le(costs[e.to]) && d.Lt(B) {
      var after := costs[e.to := d];
      WitnessStep(adj, src, u, j, c);
      SoundUpdate(adj, src, costs, e.to, d);
      LowerOne(costs, e.to, d);
      NoneRaisedTrans(start, costs, after);
      forall s | s in pq + multiset{State(e.to, d)}
        ensures 0 <= s.nodeId < |after| && Witnessed(adj, src, s.nodeId, s.cost) && after[s.nodeId].Le(s.cost)
      {
        if s != State(e.to, d) {
          assert s in pq;
          LtIsStrictTotalOrder(after[s.nodeId], costs[s.nodeId], s.cost);
        }
      }
      forall i | 0 <= i < |settled| ensures after[settled[i]].Le(settledCosts[i]) {
        LtIsStrictTotalOrder(after[settled[i]], costs[settled[i]], settledCosts[i]);
      }
    } else if d.Lt(B) {
      LtIsStrictTotalOrder(costs[e.to], d, d);
    }
  }

  /** That relaxation keeps the search's facts, when `u` is the node last
      settled, at cost `c`. */
  lemma BaseRelaxEdgeFacts(adj: Adj, src: int, B: ExtReal, start: seq<ExtReal>, costs: seq<ExtReal>, pq: Heap,
                           settled: seq<int>, settledCosts: seq<ExtReal>, visited: set<int>, maxCost: ExtReal,
                           u: int, c: ExtReal, j: int)
    requires SearchFacts(adj, src, B, start, costs, pq, settled, settledCosts, visited, maxCost)
    requires |settled| > 0 && c == settledCosts[|settled| - 1]
    requires 0 <= u < |adj| && 0 <= j < |adj[u]| && 0 <= adj[u][j].to < |costs|
    ensures var e := adj[u][j];
            var d := c.Plus(e.weight);
            d.Le(costs[e.to]) && d.Lt(B) ==>
              SearchFacts(adj, src, B, start, costs[e.to := d], pq + multiset{State(e.to, d)},
                          settled, settledCosts, visited, maxCost)
  {
    var e := adj[u][j];
    var d := c.Plus(e.weight);
    if d.Le(costs[e.to]) && d.Lt(B) {
      var after := costs[e.to := d];
      var pq' := pq + multiset{State(e.to, d)};
      forall y | 0 <= y < |after| && after[y] != start[y] && y !in visited ensures State(y, after[y]) in pq' {
        if y != e.to {
          assert State(y, costs[y]) in pq;
        }
      }
      if NonNegativeWeights(adj) {
        PlusNonNegative(c, e.weight);
      }
    }
  }

  /** An edge relaxed from a popped cost stays relaxed while entries are only lowered. */
  lemma KeepRelaxedFrom(adj: Adj, B: ExtReal, costs: seq<ExtReal>, after: seq<ExtReal>, u: int, c: ExtReal, j: int)
    requires RelaxedFrom(adj, B, costs, u, c, j) && NoneRaised(costs, after)
    ensures RelaxedFrom(adj, B, after, u, c, j)
  {
    var v := adj[u][j].to;
    LtIsStrictTotalOrder(after[v], costs[v], c.Plus(adj[u][j].weight));
  }

  /** The settled nodes' edges stay relaxed while entries are only lowered. */
  lemma KeepSettledRelaxed(adj: Adj, B: ExtReal, costs: seq<ExtReal>, after: seq<ExtReal>,
                           settled: seq<int>, settledCosts: seq<ExtReal>, r: int)
    requires SettledRelaxed(adj, B, costs, settled, settledCosts, r) && NoneRaised(costs, after)
    ensures SettledRelaxed(adj, B, after, settled, settledCosts, r)
  {
    forall i, j | 0 <= i < r && 0 <= j < |adj[settled[i]]|
      ensures RelaxedFrom(adj, B, after, settled[i], settledCosts[i], j)
    {
      KeepRelaxedFrom(adj, B, costs, after, settled[i], settledCosts[i], j);
    }
  }

  /** Settling one more node keeps the relaxed edges of those before it. */
  lemma SettledRelaxedExtend(adj: Adj, B: ExtReal, costs: seq<ExtReal>, settled: seq<int>, settledCosts: seq<ExtReal>,
                             u: int, c: ExtReal)
    requires SettledRelaxed(adj, B, costs, settled, settledCosts, |settled|) && 0 <= u < |adj|
    ensures SettledRelaxed(adj, B, costs, settled + [u], settledCosts + [c], |settled|)
  {
    var s', c' := settled + [u], settledCosts + [c];
    forall i, j | 0 <= i < |settled| && 0 <= j < |adj[s'[i]]| ensures RelaxedFrom(adj, B, costs, s'[i], c'[i], j) {
      assert s'[i] == settled[i] && c'[i] == settledCosts[i];
    }
  }

  /** Lowering entries keeps the earlier settled nodes' edges and the first
      `j` edges of `u` relaxed; with edge `j` relaxed afterwards, the first
      `j + 1` are. */
  lemma KeepEdgesRelaxed(adj: Adj, B: ExtReal, costs: seq<ExtReal>, after: seq<ExtReal>,
                         settled: seq<int>, settledCosts: seq<ExtReal>, u: int, c: ExtReal, j: int)
    requires |settled| > 0 && SettledRelaxed(adj, B, costs, settled, settledCosts, |settled| - 1)
    requires forall i :: 0 <= i < j ==> RelaxedFrom(adj, B, costs, u, c, i)
    requires NoneRaised(costs, after) && RelaxedFrom(adj, B, after, u, c, j)
    ensures SettledRelaxed(adj, B, after, settled, settledCosts, |settled| - 1)
    ensures forall i :: 0 <= i <= j ==> RelaxedFrom(adj, B, after, u, c, i)
  {
    KeepSettledRelaxed(adj, B, costs, after, settled, settledCosts, |settled| - 1);
    forall i | 0 <= i < j ensures RelaxedFrom(adj, B, after, u, c, i) {
      KeepRelaxedFrom(adj, B, costs, after, u, c, i);
    }
  }

  /** One edge out of the node `u` just settled at cost `c` (bmssp.cpp:73-77):
      its offer is taken when it is at most the head's entry and below `B`,
      and afterwards that edge is relaxed too. */
  method RelaxOne(B: ExtReal, u: int, c: ExtReal, j: int, adj: Adj, minCosts: array<ExtReal>, pq: Heap,
                  ghost src: int, ghost nodeId: int, ghost k: int, ghost start: seq<ExtReal>,
                  ghost settled: seq<int>, ghost settledCosts: seq<ExtReal>, ghost visited: set<int>, ghost maxCost: ExtReal)
    returns (pq': Heap)
    requires Settling(adj, src, B, nodeId, k, start, minCosts[..], pq, settled, settledCosts, visited, maxCost)
    requires SearchFacts(adj, src, B, start, minCosts[..], pq, settled, settledCosts, visited, maxCost)
    requires |settled| > 0 && u == settled[|settled| - 1] && c == settledCosts[|settled| - 1]
    requires Witnessed(adj, src, u, c) && 0 <= j < |adj[u]|
    requires SettledRelaxed(adj, B, minCosts[..], settled, settledCosts, |settled| - 1)
    requires forall i :: 0 <= i < j ==> RelaxedFrom(adj, B, minCosts[..], u, c, i)
    modifies minCosts
    ensures Settling(adj, src, B, nodeId, k, start, minCosts[..], pq', settled, settledCosts, visited, maxCost)
    ensures SearchFacts(adj, src, B, start, minCosts[..], pq', settled, settledCosts, visited, maxCost)
    ensures SettledRelaxed(adj, B, minCosts[..], settled, settledCosts, |settled| - 1)
    ensures forall i :: 0 <= i <= j ==> RelaxedFrom(adj, B, minCosts[..], u, c, i)
  {
    ghost var before := minCosts[..];
    BaseRelaxEdge(adj, src, B, nodeId, k, start, before, pq, settled, settledCosts, visited, maxCost, u, c, j);
    BaseRelaxEdgeFacts(adj, src, B, start, before, pq, settled, settledCosts, visited, maxCost, u, c, j);
    var e := adj[u][j];
    var d := c.Plus(e.weight);
    ghost var taken := d.Le(before[e.to]) && d.Lt(B);
    ghost var after := if taken then before[e.to := d] else before;
    KeepEdgesRelaxed(adj, B, before, after, settled, settledCosts, u, c, j);
    pq' := pq;
    if d.Le(minCosts[e.to]) && d.Lt(B) {
      minCosts[e.to] := d;
      pq' := pq' + multiset{State(e.to, d)};
    }
    assert minCosts[..] == after;
  }

  /** The edges out of the node `u` just settled at cost `c` (bmssp.cpp:72-78):
      afterwards every settled node's edges are relaxed from its popped cost. */
  method RelaxSettled(B: ExtReal, u: int, c: ExtReal, adj: Adj, minCosts: array<ExtReal>, pq: Heap,
                      ghost src: int, ghost nodeId: int, ghost k: int, ghost start: seq<ExtReal>,
                      ghost settled: seq<int>, ghost settledCosts: seq<ExtReal>, ghost visited: set<int>, ghost maxCost: ExtReal)
    returns (pq': Heap)
    requires Settling(adj, src, B, nodeId, k, start, minCosts[..], pq, settled, settledCosts, visited, maxCost)
    requires SearchFacts(adj, src, B, start, minCosts[..], pq, settled, settledCosts, visited, maxCost)
    requires |settled| > 0 && u == settled[|settled| - 1] && c == settledCosts[|settled| - 1]
    requires SettledRelaxed(adj, B, minCosts[..], settled, settledCosts, |settled| - 1)
    modifies minCosts
    ensures Settling(adj, src, B, nodeId, k, start, minCosts[..], pq', settled, settledCosts, visited, maxCost)
    ensures SearchFacts(adj, src, B, start, minCosts[..], pq', settled, settledCosts, visited, maxCost)
    ensures SettledRelaxed(adj, B, minCosts[..], settled, settledCosts, |settled|)
  {
    assert Witnessed(adj, src, u, c);
    pq' := pq;
    for j := 0 to |adj[u]|
      invariant Settling(adj, src, B, nodeId, k, start, minCosts[..], pq', settled, settledCosts, visited, maxCost)
      invariant SearchFacts(adj, src, B, start, minCosts[..], pq', settled, settledCosts, visited, maxCost)
      invariant SettledRelaxed(adj, B, minCosts[..], settled, settledCosts, |settled| - 1)
      invariant forall i :: 0 <= i < j ==> RelaxedFrom(adj, B, minCosts[..], u, c, i)
    {
      pq' := RelaxOne(B, u, c, j, adj, minCosts, pq', src, nodeId, k, start, settled, settledCosts, visited, maxCost);
    }
  }

  /** The ids of `ids` whose entry is strictly below `b`, in order
      (bmssp.cpp:82-85 and 131-133). */
  method FilterBelow(ids: seq<int>, minCosts: array<ExtReal>, b: ExtReal) returns (r: seq<int>)
    requires Nodes(ids, minCosts.Length)
    ensures r == Below(ids, minCosts[..], b)
  {
    r := [];
    for i := 0 to |ids|
      invariant r == Below(ids[..i], minCosts[..], b)
    {
      assert ids[..i + 1][..i] == ids[..i];
      if minCosts[ids[i]].Lt(b) {
        r := r + [ids[i]];
      }
    }
    assert ids[..|ids|] == ids;
  }

  /** What `base_bmssp` from `nodeId` does to the table `start`, leaving it
      `costs`, and what it returns:
      - at most `k + 1` distinct nodes were settled, `nodeId` first at its
        start entry; a walk attains each popped cost, which bounds the node's
        final entry from above; every popped cost after the first is below
        `B`; with non-negative weights they come in non-decreasing order;
      - every edge out of a settled node was relaxed from its popped cost,
        unless that offer reached `B`;
      - with at most `k` settled the heap ran dry: the result is `B` and all
        settled nodes, and every entry the search changed belongs to a
        settled node;
      - otherwise the result is the largest popped cost and the settled
        nodes whose entry is strictly below it;
      - either way the bound is at most `B` or is the start entry. */
  ghost predicate BaseOutcome(adj: Adj, src: int, B: ExtReal, nodeId: int, k: int, start: seq<ExtReal>, costs: seq<ExtReal>,
                              bound: ExtReal, ids: seq<int>, settled: seq<int>, settledCosts: seq<ExtReal>)
  {
    BaseSettled(adj, src, B, nodeId, k, start, costs, settled, settledCosts) &&
    BaseResult(B, nodeId, k, start, costs, bound, ids, settled, settledCosts)
  }

  /** The settled part of `BaseOutcome`. */
  ghost predicate BaseSettled(adj: Adj, src: int, B: ExtReal, nodeId: int, k: int, start: seq<ExtReal>, costs: seq<ExtReal>,
                              settled: seq<int>, settledCosts: seq<ExtReal>)
  {
    && 1 <= |settled| <= k + 1 && |settledCosts| == |settled| && |start| == |costs| && 0 <= nodeId < |costs|
    && settled[0] == nodeId && settledCosts[0] == start[nodeId]
    && Distinct(settled) && Nodes(settled, |costs|)
    && (forall i :: 0 <= i < |settled| ==>
          Witnessed(adj, src, settled[i], settledCosts[i]) && costs[settled[i]].Le(settledCosts[i]))
    && (forall i :: 1 <= i < |settled| ==> settledCosts[i].Lt(B))
    && (NonNegativeWeights(adj) ==> forall i, j :: 0 <= i < j < |settled| ==> settledCosts[i].Le(settledCosts[j]))
    && SettledRelaxed(adj, B, costs, settled, settledCosts, |settled|)
  }

  /** The returned part of `BaseOutcome`. */
  ghost predicate BaseResult(B: ExtReal, nodeId: int, k: int, start: seq<ExtReal>, costs: seq<ExtReal>,
                             bound: ExtReal, ids: seq<int>, settled: seq<int>, settledCosts: seq<ExtReal>)
    requires |settledCosts| == |settled| && |start| == |costs| && 0 <= nodeId < |costs| && Nodes(settled, |costs|)
  {
    && (|settled| <= k ==>
          bound == B && ids == settled &&
          forall y :: 0 <= y < |costs| && costs[y] != start[y] ==> y in settled)
    && (|settled| == k + 1 ==>
          (forall i :: 0 <= i < |settled| ==> settledCosts[i].Le(bound)) &&
          (exists i :: 0 <= i < |settled| && settledCosts[i] == bound) &&
          ids == Below(settled, costs, bound))
    && (bound.Le(B) || bound == start[nodeId])
  }

  /** Once the search stops (the heap is empty or `k + 1` nodes are settled)
      its state gives `BaseOutcome`, with the bound and ids the source
      returns in each case (bmssp.cpp:80-86). */
  lemma SearchEnds(adj: Adj, src: int, B: ExtReal, nodeId: int, k: int, start: seq<ExtReal>, costs: seq<ExtReal>,
                   pq: Heap, settled: seq<int>, settledCosts: seq<ExtReal>, visited: set<int>, maxCost: ExtReal,
                   bound: ExtReal, ids: seq<int>)
    requires Settling(adj, src, B, nodeId, k, start, costs, pq, settled, settledCosts, visited, maxCost)
    requires SearchFacts(adj, src, B, start, costs, pq, settled, settledCosts, visited, maxCost)
    requires SettledRelaxed(adj, B, costs, settled, settledCosts, |settled|)
    requires |settled| > 0 && (|pq| == 0 || |settled| == k + 1)
    requires |settled| <= k ==> bound == B && ids == settled
    requires |settled| == k + 1 ==> bound == maxCost && ids == Below(settled, costs, maxCost)
    ensures BaseOutcome(adj, src, B, nodeId, k, start, costs, bound, ids, settled, settledCosts)
  {
    SearchEndsSettled(adj, src, B, nodeId, k, start, costs, pq, settled, settledCosts, visited, maxCost);
    SearchEndsResult(adj, src, B, nodeId, k, start, costs, pq, settled, settledCosts, visited, maxCost, bound, ids);
  }

  /** The settled part, from the state the search leaves. */
  lemma SearchEndsSettled(adj: Adj, src: int, B: ExtReal, nodeId: int, k: int, start: seq<ExtReal>, costs: seq<ExtReal>,
                          pq: Heap, settled: seq<int>, settledCosts: seq<ExtReal>, visited: set<int>, maxCost: ExtReal)
    requires Settling(adj, src, B, nodeId, k, start, costs, pq, settled, settledCosts, visited, maxCost)
    requires SearchFacts(adj, src, B, start, costs, pq, settled, settledCosts, visited, maxCost)
    requires SettledRelaxed(adj, B, costs, settled, settledCosts, |settled|)
    requires |settled| > 0
    ensures BaseSettled(adj, src, B, nodeId, k, start, costs, settled, settledCosts)
  {
    if NonNegativeWeights(adj) {
      assert PoppedInOrder(settledCosts, pq, maxCost);
    }
  }

  /** The returned part, from the state the search leaves. */
  lemma SearchEndsResult(adj: Adj, src: int, B: ExtReal, nodeId: int, k: int, start: seq<ExtReal>, costs: seq<ExtReal>,
                         pq: Heap, settled: seq<int>, settledCosts: seq<ExtReal>, visited: set<int>, maxCost: ExtReal,
                         bound: ExtReal, ids: seq<int>)
    requires Settling(adj, src, B, nodeId, k, start, costs, pq, settled, settledCosts, visited, maxCost)
    requires SearchFacts(adj, src, B, start, costs, pq, settled, settledCosts, visited, maxCost)
    requires |settled| > 0 && (|pq| == 0 || |settled| == k + 1)
    requires |settled| <= k ==> bound == B && ids == settled
    requires |settled| == k + 1 ==> bound == maxCost && ids == Below(settled, costs, maxCost)
    ensures BaseResult(B, nodeId, k, start, costs, bound, ids, settled, settledCosts)
  {
    if |settled| <= k {
      assert pq == multiset{};
      forall y | 0 <= y < |costs| && costs[y] != start[y] ensures y in settled {
        assert y in visited;
      }
    } else {
      var i :| 0 <= i < |settled| && settledCosts[i] == maxCost;
      if i > 0 {
        assert settledCosts[i].Lt(B);
      }
    }
  }

  /** One round of the search loop (bmssp.cpp:64-78): the least entry is
      popped; a visited node's entry is dropped, otherwise the node is settled
      at that cost and its edges are relaxed. */
  method SearchStep(B: ExtReal, k: int, adj: Adj, minCosts: array<ExtReal>, pq: Heap, uInit: seq<int>,
                    visited: set<int>, maxCost: ExtReal,
                    ghost src: int, ghost nodeId: int, ghost start: seq<ExtReal>, ghost popped: seq<ExtReal>)
    returns (pq': Heap, uInit': seq<int>, visited': set<int>, maxCost': ExtReal, ghost popped': seq<ExtReal>)
    requires |pq| > 0 && |uInit| < k + 1
    requires Settling(adj, src, B, nodeId, k, start, minCosts[..], pq, uInit, popped, visited, maxCost)
    requires SearchFacts(adj, src, B, start, minCosts[..], pq, uInit, popped, visited, maxCost)
    requires SettledRelaxed(adj, B, minCosts[..], uInit, popped, |uInit|)
    modifies minCosts
    ensures Settling(adj, src, B, nodeId, k, start, minCosts[..], pq', uInit', popped', visited', maxCost')
    ensures SearchFacts(adj, src, B, start, minCosts[..], pq', uInit', popped', visited', maxCost')
    ensures SettledRelaxed(adj, B, minCosts[..], uInit', popped', |uInit'|)
    ensures |pq'| == 0 ==> |uInit'| > 0
    ensures |uInit| < |uInit'| || (uInit' == uInit && |pq'| < |pq|)
  {
    var top := Top(pq);
    if top.nodeId in visited {
      SkipVisited(adj, src, B, nodeId, k, start, minCosts[..], pq, uInit, popped, visited, maxCost);
      SkipVisitedFacts(adj, src, B, start, minCosts[..], pq, uInit, popped, visited, maxCost);
      assert |uInit| > 0;
      return Pop(pq), uInit, visited, maxCost, popped;
    }
    SettleNew(adj, src, B, nodeId, k, start, minCosts[..], pq, uInit, popped, visited, maxCost);
    SettleNewFacts(adj, src, B, nodeId, start, minCosts[..], pq, uInit, popped, visited, maxCost);
    SettledRelaxedExtend(adj, B, minCosts[..], uInit, popped, top.nodeId, top.cost);
    uInit' := uInit + [top.nodeId];
    popped' := popped + [top.cost];
    visited' := visited + {top.nodeId};
    maxCost' := maxCost.Max(top.cost);
    pq' := RelaxSettled(B, top.nodeId, top.cost, adj, minCosts, Pop(pq), src, nodeId, k, start, uInit', popped', visited', maxCost');
  }

  /** `base_bmssp` (bmssp.cpp:54-87): a Dijkstra search from `nodeId` that
      settles at most `k + 1` distinct nodes and lowers entries only below
      `B`, with the outcome `BaseOutcome`. */
  method BaseBmssp(B: ExtReal, nodeId: int, k: int, adj: Adj, minCosts: array<ExtReal>, ghost src: int)
    returns (bound: ExtReal, ids: seq<int>, ghost settled: seq<int>, ghost settledCosts: seq<ExtReal>)
    requires k >= 1 && WellFormed(adj) && minCosts.Length == |adj| && 0 <= nodeId < |adj|
    requires Sound(adj, src, minCosts[..])
    modifies minCosts
    ensures NoneRaised(old(minCosts[..]), minCosts[..]) && Sound(adj, src, minCosts[..])
    ensures LoweredBelow(old(minCosts[..]), minCosts[..], B)
    ensures BaseOutcome(adj, src, B, nodeId, k, old(minCosts[..]), minCosts[..], bound, ids, settled, settledCosts)
    ensures Nodes(ids, |adj|)
  {
    ghost var start := minCosts[..];
    var pq: Heap := multiset{State(nodeId, minCosts[nodeId])};
    var uInit: seq<int> := [];
    var visited: set<int> := {};
    var maxCost := minCosts[nodeId];
    ghost var popped: seq<ExtReal> := [];
    SettlingStarts(adj, src, B, nodeId, k, start);
    while |pq| > 0 && |uInit| < k + 1
      invariant Settling(adj, src, B, nodeId, k, start, minCosts[..], pq, uInit, popped, visited, maxCost)
      invariant SearchFacts(adj, src, B, start, minCosts[..], pq, uInit, popped, visited, maxCost)
      invariant SettledRelaxed(adj, B, minCosts[..], uInit, popped, |uInit|)
      invariant |pq| == 0 ==> |uInit| > 0
      decreases k + 1 - |uInit|, |pq|
    {
      pq, uInit, visited, maxCost, popped :=
        SearchStep(B, k, adj, minCosts, pq, uInit, visited, maxCost, src, nodeId, start, popped);
    }
    settled, settledCosts := uInit, popped;
    if |uInit| <= k {
      bound, ids := B, uInit;
    } else {
      bound := maxCost;
      ids := FilterBelow(uInit, minCosts, maxCost);
    }
    SearchEnds(adj, src, B, nodeId, k, start, minCosts[..], pq, uInit, popped, visited, maxCost, bound, ids);
  }

  // ---------------------------------------------------------------------------
  // bmssp_bounded (bmssp.cpp:89-135)

  /** `2^e`, exactly (the source's `pow(2, e)`). */
  function Pow2(e: nat): (r: nat)
    ensures r >= 1
  {
    if e == 0 then 1 else 2 * Pow2(e - 1)
  }

  /** Powers of two grow with the exponent. */
  lemma {:induction false} Pow2Grows(a: nat, b: nat)
    requires a <= b
    ensures Pow2(a) <= Pow2(b)
    decreases b
  {
    if a < b {
      Pow2Grows(a, b - 1);
    }
  }

  /** Every heap entry of a block list names a node whose entry in the table
      is at most the entry's cost: the pairs were inserted at the table's
      value, and the table is only lowered since. */
  ghost predicate Backed(pq: Heap, costs: seq<ExtReal>) {
    forall s :: s in pq ==> 0 <= s.nodeId < |costs| && costs[s.nodeId].Le(s.cost)
  }

  /** Queued pairs, each at or above its node's entry. */
  ghost predicate PairsBacked(elements: seq<(int, ExtReal)>, costs: seq<ExtReal>) {
    forall i :: 0 <= i < |elements| ==> 0 <= elements[i].0 < |costs| && costs[elements[i].0].Le(elements[i].1)
  }

  /** Lowering the table keeps the heap backed. */
  lemma BackedLowered(pq: Heap, costs: seq<ExtReal>, after: seq<ExtReal>)
    requires Backed(pq, costs) && NoneRaised(costs, after)
    ensures Backed(pq, after)
  {
    forall s | s in pq ensures after[s.nodeId].Le(s.cost) {
      LtIsStrictTotalOrder(after[s.nodeId], costs[s.nodeId], s.cost);
    }
  }

  /** Lowering the table keeps queued pairs backed. */
  lemma PairsBackedLowered(elements: seq<(int, ExtReal)>, costs: seq<ExtReal>, after: seq<ExtReal>)
    requires PairsBacked(elements, costs) && NoneRaised(costs, after)
    ensures PairsBacked(elements, after)
  {
    forall i | 0 <= i < |elements| ensures after[elements[i].0].Le(elements[i].1) {
      LtIsStrictTotalOrder(after[elements[i].0], costs[elements[i].0], elements[i].1);
    }
  }

  /** Inserting a node at a cost not below its entry keeps the heap backed. */
  lemma InsertedBacked(c: Contents, ub: ExtReal, u: int, d: ExtReal, costs: seq<ExtReal>)
    requires Backed(c.pq, costs) && 0 <= u < |costs| && costs[u].Le(d)
    ensures Backed(Inserted(c, ub, u, d).pq, costs)
  {
  }

  /** Inserting backed pairs keeps the heap backed. */
  lemma {:induction false} BatchBacked(c: Contents, ub: ExtReal, elements: seq<(int, ExtReal)>, costs: seq<ExtReal>)
    requires Backed(c.pq, costs) && PairsBacked(elements, costs)
    ensures Backed(BatchInserted(c, ub, elements).pq, costs)
    decreases |elements|
  {
    if elements != [] {
      var init := elements[..|elements| - 1];
      var last := elements[|elements| - 1];
      assert PairsBacked(init, costs);
      BatchBacked(c, ub, init, costs);
      InsertedBacked(BatchInserted(c, ub, init), ub, last.0, last.1, costs);
    }
  }

  /** A pull from a backed heap below `ub` leaves a backed heap and returns
      nodes, each with an entry at most the returned bound, which is at most
      `ub`. */
  lemma PulledBacked(dists: map<int, ExtReal>, pq: Heap, cap: nat, ub: ExtReal, costs: seq<ExtReal>)
    requires Backed(pq, costs) && BelowBound(pq, ub)
    ensures var r := PullLoop(dists, pq, [], cap);
            var b := NextBound(r.pq, ub);
            Backed(r.pq, costs) && Nodes(r.frontier, |costs|) && b.Le(ub) &&
            forall i :: 0 <= i < |r.frontier| ==> costs[r.frontier[i]].Le(b)
  {
    PullTakesSmallest(dists, pq, [], cap);
    PullBound(dists, pq, cap, ub);
    var r := PullLoop(dists, pq, [], cap);
    var b := NextBound(r.pq, ub);
    forall i | 0 <= i < |r.frontier| ensures 0 <= r.frontier[i] < |costs| && costs[r.frontier[i]].Le(b) {
      PullReturnsLiveEntries(dists, pq, [], cap, i);
      var s :| s in pq - r.pq && s.nodeId == r.frontier[i] && PassedCheck(dists, s);
      LtIsStrictTotalOrder(costs[s.nodeId], s.cost, b);
    }
  }

  /** After `is_empty` said no, a pull with room for an id returns at least one. */
  lemma PullAfterNotEmpty(dists: map<int, ExtReal>, pq0: Heap, cap: nat)
    requires |DropStale(dists, pq0)| > 0 && cap >= 1
    ensures |PullLoop(dists, DropStale(dists, pq0), [], cap).frontier| > 0
  {
    DropStaleKeepsLive(dists, pq0);
    PullReturnsLiveTop(dists, DropStale(dists, pq0), cap);
  }

  /** A finite lowering from an edge out of `u` keeps the table sound and raises nothing. */
  lemma LowerAlongEdge(adj: Adj, src: int, start: seq<ExtReal>, costs: seq<ExtReal>, u: int, j: int)
    requires WellFormed(adj) && |costs| == |adj| && 0 <= u < |adj| && 0 <= j < |adj[u]|
    requires NoneRaised(start, costs) && Sound(adj, src, costs)
    ensures var e := adj[u][j];
            var d := costs[u].Plus(e.weight);
            d.Le(costs[e.to]) ==> NoneRaised(start, costs[e.to := d]) && Sound(adj, src, costs[e.to := d])
  {
    var e := adj[u][j];
    var d := costs[u].Plus(e.weight);
    if d.Le(costs[e.to]) {
      assert Witnessed(adj, src, u, costs[u]);
      WitnessStep(adj, src, u, j, costs[u]);
      SoundUpdate(adj, src, costs, e.to, d);
      LowerOne(costs, e.to, d);
      NoneRaisedTrans(start, costs, costs[e.to := d]);
    }
  }

  /** The state of the block list inside `bmssp_bounded`: entries below `B`
      (`upper_bound`), all of them backed by the table `costs`, pull size `M`. */
  ghost predicate Waiting(bl: BlockList, B: ExtReal, M: int, costs: seq<ExtReal>)
    reads bl
  {
    bl.Valid() && bl.upperBound == B && bl.M == M && Backed(bl.pq, costs)
  }

  /** The pairs queued for `batch_prepend` have costs in `[lo, hi)`. */
  predicate Queued(elements: seq<(int, ExtReal)>, lo: ExtReal, hi: ExtReal) {
    forall i :: 0 <= i < |elements| ==> lo.Le(elements[i].1) && elements[i].1.Lt(hi)
  }

  /** One edge out of a node `u` returned by the recursive call
      (bmssp.cpp:118-125): an edge that lowers or matches its head's entry
      writes it; the pair is then inserted when its cost is in
      `[pulledBound, B)` and queued for `batch_prepend` when it is in
      `[resBound, pulledBound)`. */
  method RelaxReturnedEdge(B: ExtReal, pulledBound: ExtReal, resBound: ExtReal, u: int, j: int, adj: Adj,
                           minCosts: array<ExtReal>, bl: BlockList, toPrepend: seq<(int, ExtReal)>,
                           ghost M: int, ghost src: int, ghost start: seq<ExtReal>)
    returns (toPrepend': seq<(int, ExtReal)>)
    requires Waiting(bl, B, M, minCosts[..]) && PairsBacked(toPrepend, minCosts[..])
    requires WellFormed(adj) && minCosts.Length == |adj| && 0 <= u < |adj| && 0 <= j < |adj[u]|
    requires NoneRaised(start, minCosts[..]) && Sound(adj, src, minCosts[..])
    modifies minCosts, bl
    ensures Waiting(bl, B, M, minCosts[..]) && PairsBacked(toPrepend', minCosts[..])
    ensures NoneRaised(start, minCosts[..]) && Sound(adj, src, minCosts[..])
    ensures NoneRaised(old(minCosts[..]), minCosts[..])
    ensures Queued(toPrepend, resBound, pulledBound) ==> Queued(toPrepend', resBound, pulledBound)
    ensures toPrepend' == toPrepend || (|toPrepend'| == |toPrepend| + 1 && toPrepend'[..|toPrepend|] == toPrepend)
  {
    toPrepend' := toPrepend;
    var e := adj[u][j];
    var d := minCosts[u].Plus(e.weight);
    if d.Le(minCosts[e.to]) {
      ghost var before := minCosts[..];
      LowerAlongEdge(adj, src, start, before, u, j);
      LowerOne(before, e.to, d);
      minCosts[e.to] := d;
      assert minCosts[..] == before[e.to := d];
      BackedLowered(bl.pq, before, minCosts[..]);
      PairsBackedLowered(toPrepend, before, minCosts[..]);
      if pulledBound.Le(d) && d.Lt(B) {
        ghost var model := bl.Model();
        bl.Insert(e.to, d);
        InsertedBacked(model, B, e.to, d, minCosts[..]);
      } else if resBound.Le(d) && d.Lt(pulledBound) {
        toPrepend' := toPrepend' + [(e.to, d)];
      }
    }
  }

  /** The edges out of a node `u` returned by the recursive call
      (bmssp.cpp:117-126), relaxed one after another; the pairs queued for
      `batch_prepend` have costs in `[resBound, pulledBound)`. */
  method RelaxReturned(B: ExtReal, pulledBound: ExtReal, resBound: ExtReal, u: int, adj: Adj, minCosts: array<ExtReal>,
                       bl: BlockList, toPrepend: seq<(int, ExtReal)>, ghost M: int, ghost src: int, ghost start: seq<ExtReal>)
    returns (toPrepend': seq<(int, ExtReal)>)
    requires Waiting(bl, B, M, minCosts[..]) && PairsBacked(toPrepend, minCosts[..])
    requires WellFormed(adj) && minCosts.Length == |adj| && 0 <= u < |adj|
    requires NoneRaised(start, minCosts[..]) && Sound(adj, src, minCosts[..])
    modifies minCosts, bl
    ensures Waiting(bl, B, M, minCosts[..]) && PairsBacked(toPrepend', minCosts[..])
    ensures NoneRaised(start, minCosts[..]) && Sound(adj, src, minCosts[..])
    ensures |toPrepend| <= |toPrepend'| && toPrepend'[..|toPrepend|] == toPrepend
    ensures Queued(toPrepend, resBound, pulledBound) ==> Queued(toPrepend', resBound, pulledBound)
  {
    toPrepend' := toPrepend;
    for j := 0 to |adj[u]|
      invariant Waiting(bl, B, M, minCosts[..]) && PairsBacked(toPrepend', minCosts[..])
      invariant NoneRaised(start, minCosts[..]) && Sound(adj, src, minCosts[..])
      invariant |toPrepend| <= |toPrepend'| && toPrepend'[..|toPrepend|] == toPrepend
      invariant Queued(toPrepend, resBound, pulledBound) ==> Queued(toPrepend', resBound, pulledBound)
    {
      ghost var prev := toPrepend';
      toPrepend' := RelaxReturnedEdge(B, pulledBound, resBound, u, j, adj, minCosts, bl, toPrepend', M, src, start);
      assert toPrepend'[..|toPrepend|] == prev[..|toPrepend|];
    }
  }

  /** The loop over the ids returned by the recursive call (bmssp.cpp:115-127):
      each joins `u_set` and has its edges relaxed. */
  method RelaxAllReturned(B: ExtReal, pulledBound: ExtReal, resBound: ExtReal, ids: seq<int>, adj: Adj,
                          minCosts: array<ExtReal>, bl: BlockList, uSet: seq<int>,
                          ghost M: int, ghost src: int, ghost start: seq<ExtReal>)
    returns (uSet': seq<int>, toPrepend: seq<(int, ExtReal)>)
    requires Waiting(bl, B, M, minCosts[..])
    requires WellFormed(adj) && minCosts.Length == |adj| && Nodes(ids, |adj|)
    requires NoneRaised(start, minCosts[..]) && Sound(adj, src, minCosts[..])
    modifies minCosts, bl
    ensures Waiting(bl, B, M, minCosts[..]) && PairsBacked(toPrepend, minCosts[..])
    ensures NoneRaised(start, minCosts[..]) && Sound(adj, src, minCosts[..])
    ensures uSet' == uSet + ids
    ensures Queued(toPrepend, resBound, pulledBound)
  {
    uSet', toPrepend := uSet, [];
    for i := 0 to |ids|
      invariant Waiting(bl, B, M, minCosts[..]) && PairsBacked(toPrepend, minCosts[..])
      invariant NoneRaised(start, minCosts[..]) && Sound(adj, src, minCosts[..])
      invariant uSet' == uSet + ids[..i]
      invariant Queued(toPrepend, resBound, pulledBound)
    {
      uSet' := uSet' + [ids[i]];
      assert ids[..i + 1] == ids[..i] + [ids[i]];
      toPrepend := RelaxReturned(B, pulledBound, resBound, ids[i], adj, minCosts, bl, toPrepend, M, src, start);
    }
    assert ids[..|ids|] == ids;
  }

  /** One recursive call of the loop: the pulled bound and ids it was given,
      and the bound and ids it returned. */
  datatype Call = Call(bound: ExtReal, frontier: seq<int>, resBound: ExtReal, resIds: seq<int>)

  /** A call on a non-empty pull whose bound is at most `B`, which returned
      a bound at most its own. */
  predicate CallOk(c: Call, B: ExtReal) {
    |c.frontier| > 0 && c.bound.Le(B) && c.resBound.Le(c.bound)
  }

  /** The ids the calls returned, one call after another. */
  function AllIds(calls: seq<Call>): seq<int>
    decreases |calls|
  {
    if calls == [] then [] else AllIds(calls[..|calls| - 1]) + calls[|calls| - 1].resIds
  }

  /** `m` is the least of `B` and the entries of the pivots. */
  predicate SeedMin(m: ExtReal, B: ExtReal, pivots: seq<int>, costs: seq<ExtReal>) {
    && Nodes(pivots, |costs|)
    && m.Le(B) && (m == B || exists i :: 0 <= i < |pivots| && m == costs[pivots[i]])
    && forall i :: 0 <= i < |pivots| ==> m.Le(costs[pivots[i]])
  }

  /** How a call of `bmssp_bounded` went: at level 0, the base case's settled
      nodes and their popped costs; above it, the pivots and the layers of
      `find_pivots` (all of them one after another, each layer, and the cost
      table and `bp_map` before each), the recursive calls of the loop, the
      ids `u_set` held when the loop stopped, and whether it stopped because
      the block list had no live entry left. */
  datatype Run =
    | BaseRun(settled: seq<int>, settledCosts: seq<ExtReal>)
    | LoopRun(pivots: seq<int>, layers: seq<int>, chain: seq<seq<int>>, tables: seq<seq<ExtReal>>,
              bps: seq<map<int, int>>, calls: seq<Call>, loopIds: seq<int>, drained: bool)

  /** The pivots seed the block list with their entries (bmssp.cpp:100-103);
      `min_ub` becomes the least of `B` and those entries. */
  method SeedPivots(pivots: seq<int>, minCosts: array<ExtReal>, bl: BlockList, B: ExtReal, ghost M: int)
    returns (minUb: ExtReal)
    requires Waiting(bl, B, M, minCosts[..]) && Nodes(pivots, minCosts.Length)
    modifies bl
    ensures Waiting(bl, B, M, minCosts[..])
    ensures SeedMin(minUb, B, pivots, minCosts[..])
  {
    minUb := B;
    for i := 0 to |pivots|
      invariant Waiting(bl, B, M, minCosts[..])
      invariant minUb.Le(B) && (minUb == B || exists j :: 0 <= j < i && minUb == minCosts[pivots[j]])
      invariant forall j :: 0 <= j < i ==> minUb.Le(minCosts[pivots[j]])
    {
      ghost var before := bl.Model();
      bl.Insert(pivots[i], minCosts[pivots[i]]);
      InsertedBacked(before, B, pivots[i], minCosts[pivots[i]], minCosts[..]);
      ghost var prev := minUb;
      minUb := minUb.Min(minCosts[pivots[i]]);
      forall j | 0 <= j < i ensures minUb.Le(minCosts[pivots[j]]) {
        LtIsStrictTotalOrder(minUb, prev, minCosts[pivots[j]]);
      }
      LtIsStrictTotalOrder(minUb, prev, B);
    }
  }

  /** `block_list.pull()` once `is_empty` has said no: at least one id, all
      of them nodes whose entry is at most the pulled bound, itself at most
      `B`. */
  method PullLive(bl: BlockList, B: ExtReal, ghost M: int, ghost costs: seq<ExtReal>) returns (pulled: PullResult)
    requires Waiting(bl, B, M, costs) && 1 <= M < 0x8000_0000 && |bl.pq| > 0 && Live(bl.dists, Top(bl.pq))
    modifies bl
    ensures Waiting(bl, B, M, costs)
    ensures |pulled.frontier| > 0 && Nodes(pulled.frontier, |costs|) && pulled.bound.Le(B)
    ensures forall i :: 0 <= i < |pulled.frontier| ==> costs[pulled.frontier[i]].Le(pulled.bound)
  {
    PullReturnsLiveTop(bl.dists, bl.pq, SizeCap(M));
    PulledBacked(bl.dists, bl.pq, SizeCap(M), B, costs);
    pulled := bl.Pull();
  }

  /** The recursive bound is at most the pulled bound: below level 1 it is
      at most the bound given or the first pulled id's entry, which the pull
      bounds too. */
  lemma ResultWithinPull(resBound: ExtReal, pulledBound: ExtReal, B: ExtReal, entry: ExtReal, atFirst: bool)
    requires resBound.Le(pulledBound) || (atFirst && resBound == entry)
    requires entry.Le(pulledBound) && pulledBound.Le(B)
    ensures resBound.Le(pulledBound) && resBound.Le(B)
  {
    LtIsStrictTotalOrder(resBound, pulledBound, B);
  }

  /** One iteration of the loop of `bmssp_bounded` once `is_empty` has said
      no (bmssp.cpp:109-128): pull, recurse one level down on the pulled ids
      with the pulled bound, relax the edges of the ids it returns (they join
      `u_set`), and `batch_prepend` the pairs queued on the way. The call is
      recorded; its bound is at most `B`. */
  method LoopStep(l: int, B: ExtReal, k: int, t: int, adj: Adj, minCosts: array<ExtReal>, bl: BlockList,
                  ghost M: int, uSet: seq<int>, fuel: nat, ghost src: int)
    returns (minUb: ExtReal, uSet': seq<int>, done: bool, ghost call: Call)
    requires l >= 1 && k >= 1 && t >= 1 && t * (l - 1) >= 0 && M == Pow2(t * (l - 1)) < 0x8000_0000
    requires Waiting(bl, B, M, minCosts[..]) && |bl.pq| > 0 && Live(bl.dists, Top(bl.pq))
    requires WellFormed(adj) && minCosts.Length == |adj| && Sound(adj, src, minCosts[..]) && Nodes(uSet, |adj|)
    modifies minCosts, bl
    ensures Waiting(bl, B, M, minCosts[..])
    ensures NoneRaised(old(minCosts[..]), minCosts[..]) && Sound(adj, src, minCosts[..])
    ensures Nodes(uSet', |adj|) && |uSet| <= |uSet'|
    ensures done ==> CallOk(call, B) && minUb == call.resBound && minUb.Le(B) && uSet' == uSet + call.resIds
    decreases l, 0
  {
    var pulled := PullLive(bl, B, M, minCosts[..]);
    if l - 1 > 0 {
      assert t * (l - 2) == t * (l - 1) - t;
      Pow2Grows(t * (l - 2), t * (l - 1));
    }
    ghost var atCall := minCosts[..];
    var resBound, resIds, resDone, _ := BmsspBounded(l - 1, pulled.bound, pulled.frontier, k, t, adj, minCosts, fuel, src);
    BackedLowered(bl.pq, atCall, minCosts[..]);
    call := Call(pulled.bound, pulled.frontier, resBound, resIds);
    if !resDone {
      return resBound, uSet, false, call;
    }
    ResultWithinPull(resBound, pulled.bound, B, atCall[pulled.frontier[0]], l - 1 == 0);
    minUb := resBound;
    var toPrepend;
    uSet', toPrepend := RelaxAllReturned(B, pulled.bound, resBound, resIds, adj, minCosts, bl, uSet, M, src, old(minCosts[..]));
    ghost var before := bl.Model();
    bl.BatchPrepend(toPrepend);
    BatchBacked(before, B, toPrepend, minCosts[..]);
    done := true;
  }

  /** The loop's record so far: `u_set` holds the ids of the calls one after
      another, each call is within `B`, and `min_ub` is the last call's bound
      or the seed `seed` when no call ran, at most `B`. */
  ghost predicate CallsSoFar(calls: seq<Call>, B: ExtReal, uSet: seq<int>, seed: ExtReal, minUb: ExtReal) {
    && uSet == AllIds(calls) && (forall i :: 0 <= i < |calls| ==> CallOk(calls[i], B))
    && minUb == (if calls == [] then seed else calls[|calls| - 1].resBound) && minUb.Le(B)
  }

  /** One more call within `B` extends the record. */
  lemma CallsSoFarExtend(calls: seq<Call>, B: ExtReal, uSet: seq<int>, seed: ExtReal, minUb: ExtReal, c: Call)
    requires CallsSoFar(calls, B, uSet, seed, minUb) && CallOk(c, B) && c.resBound.Le(B)
    ensures CallsSoFar(calls + [c], B, uSet + c.resIds, seed, c.resBound)
  {
    assert (calls + [c])[..|calls|] == calls;
  }

  /** The loop of `bmssp_bounded` at level `l` (bmssp.cpp:105-129), given at
      most `fuel` iterations. It stops once `u_set` holds at least
      `k * 2^(t*l)` ids, or when `is_empty` finds no live entry (`drained`,
      and then the heap is empty). `u_set` is the ids the recursive calls
      returned, one call after another; each call had a non-empty pull and a
      bound at most `B`, and returned a bound at most that. `min_ub` is the
      last call's bound, or the seed `minUb` when no call ran, so at most
      `B`. */
  method RunLoop(l: int, B: ExtReal, k: int, t: int, adj: Adj, minCosts: array<ExtReal>, bl: BlockList,
                 ghost M: int, minUb: ExtReal, fuel: nat, ghost src: int)
    returns (minUb': ExtReal, uSet: seq<int>, done: bool, ghost drained: bool, ghost calls: seq<Call>)
    requires l >= 1 && k >= 1 && t >= 1 && t * (l - 1) >= 0 && M == Pow2(t * (l - 1)) < 0x8000_0000
    requires Waiting(bl, B, M, minCosts[..]) && minUb.Le(B)
    requires WellFormed(adj) && minCosts.Length == |adj| && Sound(adj, src, minCosts[..])
    modifies minCosts, bl
    ensures NoneRaised(old(minCosts[..]), minCosts[..]) && Sound(adj, src, minCosts[..])
    ensures Nodes(uSet, |adj|)
    ensures done ==> |uSet| >= k * Pow2(t * l) || drained
    ensures done && drained ==> bl.pq == multiset{}
    ensures done ==> CallsSoFar(calls, B, uSet, minUb, minUb')
    decreases l, 1
  {
    assert t * l >= 0;
    var maxU := k * Pow2(t * l);
    minUb', uSet, drained, calls := minUb, [], false, [];
    var iter := fuel;
    while true
      invariant Waiting(bl, B, M, minCosts[..])
      invariant NoneRaised(old(minCosts[..]), minCosts[..]) && Sound(adj, src, minCosts[..])
      invariant Nodes(uSet, |adj|) && !drained
      invariant CallsSoFar(calls, B, uSet, minUb, minUb')
      decreases iter
    {
      if |uSet| >= maxU {
        break;
      }
      ghost var waiting := bl.pq;
      var empty := bl.IsEmpty();
      DropStaleKeepsLive(bl.dists, waiting);
      if empty {
        drained := true;
        break;
      }
      if iter == 0 {
        return minUb', uSet, false, false, calls;
      }
      iter := iter - 1;
      ghost var before := minCosts[..];
      ghost var prevU, prevUb := uSet, minUb';
      var stepDone;
      ghost var call;
      minUb', uSet, stepDone, call := LoopStep(l, B, k, t, adj, minCosts, bl, M, uSet, fuel, src);
      NoneRaisedTrans(old(minCosts[..]), before, minCosts[..]);
      if !stepDone {
        return minUb', uSet, false, false, calls;
      }
      CallsSoFarExtend(calls, B, prevU, minUb, prevUb, call);
      calls := calls + [call];
    }
    done := true;
  }

  /** What `find_pivots` left a call above level 0 with: the layers chain
      from the frontier and the table `start`; there are `k + 1` layers
      unless they grew past `k * |frontier|` ids, and then the pivots are
      the frontier; otherwise the pivots are the distinct roots whose tally
      reached `k`. */
  ghost predicate PivotsOutcome(adj: Adj, src: int, B: ExtReal, frontier: seq<int>, k: int, start: seq<ExtReal>, run: Run)
    requires run.LoopRun?
  {
    && LayerChain(adj, src, B, frontier, run.tables, run.chain, run.bps)
    && run.tables[0] == start && run.layers == Flatten(run.chain)
    && |run.chain| <= k + 1 && (|run.chain| == k + 1 || |run.layers| > k * |frontier|)
    && PrefixesWithin(run.chain, k * |frontier|)
    && (|run.layers| > k * |frontier| ==> run.pivots == frontier)
    && (|run.layers| <= k * |frontier| ==>
          Distinct(run.pivots) &&
          forall r :: r in run.pivots <==>
            PivotBy(run.bps[|run.bps| - 1], run.chain[|run.chain| - 1], |run.chain[|run.chain| - 1]|, k, r))
  }

  /** What the loop and the final filter left a call above level 0 with:
      `u_set` holds the ids of the recursive calls, each on a non-empty pull
      within `B`; the loop stopped drained or with `k * 2^(t*l)` ids; the
      bound is the last call's or, when none ran, the least of `B` and the
      pivots' entries; the result is `u_set` and then the ids of the layers
      whose entry is strictly below the bound. */
  ghost predicate LoopOutcome(B: ExtReal, frontier: seq<int>, k: int, t: int, l: int, costs: seq<ExtReal>,
                              bound: ExtReal, ids: seq<int>, run: Run)
    requires run.LoopRun? && t >= 1 && l >= 1 && |run.tables| > 0
  {
    && Nodes(run.layers, |costs|) && |frontier| <= |run.layers| && run.layers[..|frontier|] == frontier
    && (|run.loopIds| >= k * Pow2(t * l) || run.drained)
    && (exists seed :: CallsSoFar(run.calls, B, run.loopIds, seed, bound) &&
                       SeedMin(seed, B, run.pivots, run.tables[|run.tables| - 1]))
    && ids == run.loopIds + Below(run.layers, costs, bound)
  }

  /** `bmssp_bounded` (bmssp.cpp:89-135). Costs are only lowered and stay
      attained by walks, and the bound returned is at most `B` (at level 0,
      or the first frontier node's entry). Level 0 is `base_bmssp` on the
      first frontier node. Above it, the pivots of `find_pivots` seed a
      block list with pull size `2^(t*(l-1))` and upper bound `B`, the loop
      (`RunLoop`) runs, and the result adds the ids of `find_pivots`' second
      result whose entry is below the last bound (`PivotsOutcome`,
      `LoopOutcome`). `done` is false when `fuel` loop iterations did not
      suffice on some level, or a `bp_map` walk went round a cycle. */
  method BmsspBounded(l: int, B: ExtReal, frontier: seq<int>, k: int, t: int, adj: Adj, minCosts: array<ExtReal>,
                      fuel: nat, ghost src: int)
    returns (bound: ExtReal, ids: seq<int>, done: bool, ghost run: Run)
    requires l >= 0 && k >= 1 && t >= 1 && (l == 0 || (t * (l - 1) >= 0 && Pow2(t * (l - 1)) < 0x8000_0000))
    requires WellFormed(adj) && minCosts.Length == |adj| && Nodes(frontier, |adj|)
    requires l == 0 ==> |frontier| > 0
    requires Sound(adj, src, minCosts[..])
    modifies minCosts
    ensures NoneRaised(old(minCosts[..]), minCosts[..]) && Sound(adj, src, minCosts[..])
    ensures done ==> Nodes(ids, |adj|)
    ensures done ==> bound.Le(B) || (l == 0 && bound == old(minCosts[..])[frontier[0]])
    ensures l == 0 ==>
              done && run.BaseRun? && LoweredBelow(old(minCosts[..]), minCosts[..], B) &&
              BaseOutcome(adj, src, B, frontier[0], k, old(minCosts[..]), minCosts[..], bound, ids, run.settled, run.settledCosts)
    ensures l > 0 && done ==>
              run.LoopRun? && PivotsOutcome(adj, src, B, frontier, k, old(minCosts[..]), run) &&
              LoopOutcome(B, frontier, k, t, l, minCosts[..], bound, ids, run)
    decreases l, 2
  {
    if l == 0 {
      var b, r, settled, settledCosts := BaseBmssp(B, frontier[0], k, adj, minCosts, src);
      return b, r, true, BaseRun(settled, settledCosts);
    }
    var pivots, layers, ok, bp, lastLayer, chain, tables, bps := FindPivots(B, frontier, k, adj, minCosts, src);
    if !ok {
      return B, [], false, LoopRun(pivots, layers, chain, tables, bps, [], [], false);
    }
    ghost var afterPivots := minCosts[..];
    assert 0 <= t * (l - 1);
    var M := Pow2(t * (l - 1));
    var bl := new BlockList(M, B);
    var minUb := SeedPivots(pivots, minCosts, bl, B, M);
    var uSet, loopDone;
    ghost var drained, calls;
    minUb, uSet, loopDone, drained, calls := RunLoop(l, B, k, t, adj, minCosts, bl, M, minUb, fuel, src);
    NoneRaisedTrans(old(minCosts[..]), afterPivots, minCosts[..]);
    run := LoopRun(pivots, layers, chain, tables, bps, calls, uSet, drained);
    if !loopDone {
      return minUb, uSet, false, run;
    }
    var tail := FilterBelow(layers, minCosts, minUb);
    return minUb, uSet + tail, true, run;
  }

  // ---------------------------------------------------------------------------
  // solve_sssp (bmssp.cpp:137-148)

  /** The initial table: 0 at the start node, infinity elsewhere, is sound. */
  lemma InitialSound(adj: Adj, start: int, costs: seq<ExtReal>)
    requires 0 <= start < |costs| && costs[start] == Fin(0.0)
    requires forall v :: 0 <= v < |costs| && v != start ==> costs[v] == Inf
    ensures Sound(adj, start, costs)
  {
    EmptyWalk(adj, start);
    assert Witnessed(adj, start, start, costs[start]);
  }

  /** `solve_sssp` with `k`, `t` and `l` supplied (bmssp.cpp:143-148): a table
      of infinities with 0 at `start`, handed to `bmssp_bounded` with an
      infinite bound and the frontier `{start}`. The table it returns is
      sound, has at most 0 at `start`, and so never undercuts a shortest
      distance (`SoundIsUpperBound`). `done` is false when the fuel ran out
      or a `bp_map` walk went round a cycle. */
  method SolveSssp(n: nat, adj: Adj, start: int, k: int, t: int, l: int, fuel: nat)
    returns (dist: seq<ExtReal>, done: bool)
    requires |adj| == n && WellFormed(adj) && 0 <= start < n
    requires l >= 0 && k >= 1 && t >= 1 && (l == 0 || (t * (l - 1) >= 0 && Pow2(t * (l - 1)) < 0x8000_0000))
    ensures |dist| == n && Sound(adj, start, dist) && dist[start].Le(Fin(0.0))
  {
    var minCosts := new ExtReal[n](_ => Inf);
    minCosts[start] := Fin(0.0);
    InitialSound(adj, start, minCosts[..]);
    ghost var initial := minCosts[..];
    var _, _, ok, _ := BmsspBounded(l, Inf, [start], k, t, adj, minCosts, fuel, start);
    assert minCosts[start].Le(initial[start]);
    dist, done := minCosts[..], ok;
  }
}
