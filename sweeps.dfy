/** The experiment sweeps `run_node_scaling` and `run_edge_density`
    (experiments/run_experiments.py:109-189): for every configuration point,
    every trial and every solver, in that order, generate the trial's graph
    from its seed, hand the same graph file to each solver and keep one CSV
    row per successful run. The environment `Env` holds running a solver
    (`run`), seeding Python's generator (`streams`), the tuple hash (`hash`)
    and the `:.4f` rendering of weights (`weightText`); the rendering of
    timings in the CSV is the parameter `timeText` of `RunNodeScaling` and
    `RunEdgeDensity`. A ValueError from the
    generator ends the sweep; the rows written before it stay in the file. */
module Sweeps {
  import opened Text
  import opened Randomness
  import opened Generator
  import opened GraphFile
  import opened Timing

  /** A solver entry: the name written to the CSV and the tag its timing
      line carries. The executable path is part of `run`. */
  datatype Solver = Solver(name: string, tag: string)

  /** One solver run: the configuration, the solver and the graph file it reads. */
  datatype Invocation = Invocation(n: int, m: int, trial: int, solver: Solver, graph: string)

  /** What the sweeps take from the outside world. */
  datatype Env = Env(
    run: Invocation -> ProcessOutcome,
    streams: int -> Stream,
    hash: ((int, int, int)) -> int,
    weightText: real -> string)

  /** A configuration point: node count, requested edge count and, for the
      edge-density sweep, the multiplier. */
  datatype Point = Point(n: int, m: int, multiplier: Option<int>)

  /** A result row. */
  datatype Row = Row(n: int, m: int, multiplier: Option<int>, trial: int, seed: int, solver: string, time: real)

  /** The rows written so far and the generator error that ended the sweep, if any. */
  datatype Progress = Progress(rows: seq<Row>, error: Option<GenError>)

  /** The solver list: BMSSP, then Dijkstra when a baseline path is given. */
  function Solvers(withDijkstra: bool): (r: seq<Solver>)
    ensures |r| == if withDijkstra then 2 else 1
    ensures r[0] == Solver("bmssp", "BMSSP")
    ensures withDijkstra ==> r[1] == Solver("dijkstra", "Dijkstra")
  {
    [Solver("bmssp", "BMSSP")] + (if withDijkstra then [Solver("dijkstra", "Dijkstra")] else [])
  }

  /** `make_seed(n, m, trial)` of a point. */
  function Seed(env: Env, p: Point, trial: int): int {
    MakeSeed(env.hash, p.n, p.m, trial)
  }

  /** The graph file of a trial, or the generator's error. */
  function TrialGraph(env: Env, p: Point, trial: int): Result<string> {
    match Generated(p.n, p.m, env.streams(Seed(env, p, trial)))
    case Err(e) => Err(e)
    case Ok(edges) => Ok(GraphText(p.n, edges, 0, env.weightText))
  }

  /** The row of one run, when `run_solver` reports success. */
  function RunRow(env: Env, p: Point, trial: int, graph: string, s: Solver): Option<Row> {
    var (time, ok) := RunSolver(env.run(Invocation(p.n, p.m, trial, s, graph)), s.tag);
    if ok then Some(Row(p.n, p.m, p.multiplier, trial, Seed(env, p, trial), s.name, time)) else None
  }

  /** The row of a run as a list: one row on success, none otherwise. */
  function RunRows(env: Env, p: Point, trial: int, graph: string, s: Solver): seq<Row> {
    match RunRow(env, p, trial, graph, s)
    case None => []
    case Some(r) => [r]
  }

  /** `acc` followed by the rows of solvers `j..` of a trial, in list order. */
  function SolversFrom(env: Env, p: Point, trial: int, graph: string, solvers: seq<Solver>, j: nat, acc: seq<Row>): seq<Row> {
    Collect((s: Solver) => RunRows(env, p, trial, graph, s), solvers, j, acc)
  }

  /** The graph files of each point's trials, by trial number. */
  function Graphs(env: Env): Point -> int -> Result<string> {
    (p: Point) => (t: int) => TrialGraph(env, p, t)
  }

  /** `acc` followed by the rows of trials `t..` of a point whose trial
      graphs are `graphs`; a generator error stops the sweep with the rows
      written so far. */
  function TrialsFrom(env: Env, p: Point, graphs: int -> Result<string>, solvers: seq<Solver>, trials: int, t: int, acc: seq<Row>): Progress
    decreases trials - t
  {
    if t >= trials then Progress(acc, None)
    else
      match graphs(t)
      case Err(e) => Progress(acc, Some(e))
      case Ok(graph) => TrialsFrom(env, p, graphs, solvers, trials, t + 1, SolversFrom(env, p, t, graph, solvers, 0, acc))
  }

  /** `acc` followed by the rows of points `i..`. */
  function PointsFrom(env: Env, graphs: Point -> int -> Result<string>, points: seq<Point>, trials: int, solvers: seq<Solver>, i: nat, acc: seq<Row>): Progress
    decreases |points| - i
  {
    if i >= |points| then Progress(acc, None)
    else
      var cur := TrialsFrom(env, points[i], graphs(points[i]), solvers, trials, 0, acc);
      if cur.error.Some? then cur
      else PointsFrom(env, graphs, points, trials, solvers, i + 1, cur.rows)
  }

  /** The whole sweep. */
  function Sweep(env: Env, points: seq<Point>, trials: int, solvers: seq<Solver>): Progress {
    PointsFrom(env, Graphs(env), points, trials, solvers, 0, [])
  }

  /** The nested sweep loops shared by both experiments: points, then
      trials, then solvers. */
  method RunSweep(env: Env, points: seq<Point>, trials: int, solvers: seq<Solver>)
    returns (rows: seq<Row>, error: Option<GenError>)
    ensures Progress(rows, error) == Sweep(env, points, trials, solvers)
  {
    rows, error := [], None;
    for i := 0 to |points|
      invariant PointsFrom(env, Graphs(env), points, trials, solvers, i, rows) == Sweep(env, points, trials, solvers)
    {
      var cur, e := RunPoint(env, points[i], trials, solvers, rows);
      if e.Some? {
        return cur, e;
      }
      rows := cur;
    }
  }

  /** The trial loop of one point, appending to `written`. */
  method RunPoint(env: Env, p: Point, trials: int, solvers: seq<Solver>, written: seq<Row>)
    returns (rows: seq<Row>, error: Option<GenError>)
    ensures Progress(rows, error) == TrialsFrom(env, p, Graphs(env)(p), solvers, trials, 0, written)
  {
    rows, error := written, None;
    var t := 0;
    while t < trials
      invariant TrialsFrom(env, p, Graphs(env)(p), solvers, trials, t, rows) == TrialsFrom(env, p, Graphs(env)(p), solvers, trials, 0, written)
      decreases trials - t
    {
      var seed := MakeSeed(env.hash, p.n, p.m, t);
      var edges := GenerateConnectedGraph(p.n, p.m, env.streams(seed));
      if edges.Err? {
        assert TrialsFrom(env, p, Graphs(env)(p), solvers, trials, t, rows) == Progress(rows, Some(edges.error));
        return rows, Some(edges.error);
      }
      var graph := WriteGraph(p.n, edges.value, 0, env.weightText);
      ghost var start := rows;
      for j := 0 to |solvers|
        invariant SolversFrom(env, p, t, graph, solvers, j, rows) == SolversFrom(env, p, t, graph, solvers, 0, start)
      {
        var s := solvers[j];
        var (time, ok) := RunSolver(env.run(Invocation(p.n, p.m, t, s, graph)), s.tag);
        ghost var prev := rows;
        if ok {
          rows := rows + [Row(p.n, p.m, p.multiplier, t, seed, s.name, time)];
        }
        assert rows == prev + RunRows(env, p, t, graph, s);
        SolversStep(env, p, t, graph, solvers, j, prev);
      }
      t := t + 1;
    }
  }

  /** A run of solver `s` on trial `t` of point `p`, whose trial graphs are
      `graphs`, read a generated graph and reported success, giving row `r`. */
  ghost predicate Ran(env: Env, p: Point, graphs: int -> Result<string>, t: int, s: Solver, r: Row) {
    graphs(t).Ok? && RunRow(env, p, t, graphs(t).value, s) == Some(r)
  }

  /** A row records its own configuration, seed, solver name and the time of
      a run that `run_solver` classified as a success, and nothing else does. */
  lemma RunRowMeans(env: Env, p: Point, t: int, graph: string, s: Solver, r: Row)
    ensures RunRow(env, p, t, graph, s) == Some(r) <==>
            RunSolver(env.run(Invocation(p.n, p.m, t, s, graph)), s.tag) == (r.time, true) &&
            r == Row(p.n, p.m, p.multiplier, t, MakeSeed(env.hash, p.n, p.m, t), s.name, r.time)
    ensures RunRow(env, p, t, graph, s).Some? ==> 0 <= RunRow(env, p, t, graph, s).value.seed < SeedModulus
  {
  }

  /** `acc` followed by `f(xs[j])`, `f(xs[j + 1])`, ... in order. */
  function Collect<T, U>(f: T -> seq<U>, xs: seq<T>, j: nat, acc: seq<U>): seq<U>
    decreases |xs| - j
  {
    if j >= |xs| then acc else Collect(f, xs, j + 1, acc + f(xs[j]))
  }

  /** Collecting adds at most one element per item when each item gives at
      most one. */
  lemma {:induction false} CollectGrows<T, U>(f: T -> seq<U>, xs: seq<T>, j: nat, acc: seq<U>)
    requires j <= |xs| && forall x :: |f(x)| <= 1
    ensures |Collect(f, xs, j, acc)| <= |acc| + |xs| - j
    decreases |xs| - j
  {
    if j < |xs| {
      CollectGrows(f, xs, j + 1, acc + f(xs[j]));
    }
  }

  /** Every collected element is from `acc` or from an item at `j` or later. */
  lemma {:induction false} CollectSound<T, U>(f: T -> seq<U>, xs: seq<T>, j: nat, acc: seq<U>)
    requires j <= |xs|
    ensures forall u :: u in Collect(f, xs, j, acc) ==> u in acc || exists k :: j <= k < |xs| && u in f(xs[k])
    decreases |xs| - j
  {
    if j < |xs| {
      CollectSound(f, xs, j + 1, acc + f(xs[j]));
    }
  }

  /** Collecting keeps `acc` as a prefix. */
  lemma {:induction false} CollectKeeps<T, U>(f: T -> seq<U>, xs: seq<T>, j: nat, acc: seq<U>)
    requires j <= |xs|
    ensures acc <= Collect(f, xs, j, acc)
    decreases |xs| - j
  {
    if j < |xs| {
      CollectKeeps(f, xs, j + 1, acc + f(xs[j]));
    }
  }

  /** Every element of every item at `j` or later is collected. */
  lemma {:induction false} CollectComplete<T, U>(f: T -> seq<U>, xs: seq<T>, j: nat, acc: seq<U>)
    requires j <= |xs|
    ensures forall k, u :: j <= k < |xs| && u in f(xs[k]) ==> u in Collect(f, xs, j, acc)
    decreases |xs| - j
  {
    if j < |xs| {
      var next := acc + f(xs[j]);
      CollectComplete(f, xs, j + 1, next);
      CollectKeeps(f, xs, j + 1, next);
      forall u | u in f(xs[j]) ensures u in Collect(f, xs, j + 1, next) {
        var w :| 0 <= w < |f(xs[j])| && f(xs[j])[w] == u;
        assert next[|acc| + w] == u;
        PrefixKeeps(next, Collect(f, xs, j + 1, next), |acc| + w);
      }
    }
  }

  /** One step of the solver loop. */
  lemma SolversStep(env: Env, p: Point, t: int, graph: string, solvers: seq<Solver>, j: nat, acc: seq<Row>)
    requires j < |solvers|
    ensures SolversFrom(env, p, t, graph, solvers, j, acc) ==
            SolversFrom(env, p, t, graph, solvers, j + 1, acc + RunRows(env, p, t, graph, solvers[j]))
  {
  }

  /** The solver loop of a trial adds no more rows than there are solvers. */
  lemma SolversFromGrows(env: Env, p: Point, t: int, graph: string, solvers: seq<Solver>, acc: seq<Row>)
    ensures |SolversFrom(env, p, t, graph, solvers, 0, acc)| <= |acc| + |solvers|
  {
    var f := (s: Solver) => RunRows(env, p, t, graph, s);
    forall x ensures |f(x)| <= 1 { }
    CollectGrows(f, solvers, 0, acc);
  }

  /** One more multiple. */
  lemma MoreTimes(total: int, done: int, c: nat)
    requires done < total
    ensures (total - (done + 1)) * c + c == (total - done) * c && c <= (total - done) * c
  {
    var a := total - (done + 1);
    assert a + 1 == total - done;
    assert a * c + c == (a + 1) * c;
  }

  /** An element of a prefix is an element of the whole. */
  lemma PrefixKeeps<T>(a: seq<T>, b: seq<T>, k: nat)
    requires a <= b && k < |a|
    ensures a[k] in b
  {
    assert b[k] == a[k];
  }

  /** Every element of a prefix is an element of the whole. */
  lemma PrefixMembers<T>(a: seq<T>, b: seq<T>)
    requires a <= b
    ensures forall x :: x in a ==> x in b
  {
    forall x | x in a ensures x in b {
      var k :| 0 <= k < |a| && a[k] == x;
      PrefixKeeps(a, b, k);
    }
  }

  /** The solver loop of a trial adds the rows of exactly its successful runs. */
  lemma SolversFromRuns(env: Env, p: Point, graphs: int -> Result<string>, t: int, solvers: seq<Solver>, acc: seq<Row>)
    requires graphs(t).Ok?
    ensures var rows := SolversFrom(env, p, t, graphs(t).value, solvers, 0, acc);
            acc <= rows && |rows| <= |acc| + |solvers| &&
            (forall r :: r in rows ==> r in acc || exists k :: 0 <= k < |solvers| && Ran(env, p, graphs, t, solvers[k], r)) &&
            (forall k, r :: 0 <= k < |solvers| && Ran(env, p, graphs, t, solvers[k], r) ==> r in rows)
  {
    var graph := graphs(t).value;
    var f := (s: Solver) => RunRows(env, p, t, graph, s);
    forall x ensures |f(x)| <= 1 { }
    CollectGrows(f, solvers, 0, acc);
    CollectKeeps(f, solvers, 0, acc);
    CollectSound(f, solvers, 0, acc);
    CollectComplete(f, solvers, 0, acc);
    var rows := SolversFrom(env, p, t, graph, solvers, 0, acc);
    forall r | r in rows && r !in acc ensures exists k :: 0 <= k < |solvers| && Ran(env, p, graphs, t, solvers[k], r) {
      var k :| 0 <= k < |solvers| && r in f(solvers[k]);
      assert Ran(env, p, graphs, t, solvers[k], r);
    }
    forall k, r | 0 <= k < |solvers| && Ran(env, p, graphs, t, solvers[k], r) ensures r in rows {
      assert r in f(solvers[k]);
    }
  }

  /** The trial loop ends without an error exactly when every remaining
      trial's generator succeeds. */
  lemma {:induction false} TrialsFromNoError(env: Env, p: Point, graphs: int -> Result<string>, solvers: seq<Solver>, trials: int, t: int, acc: seq<Row>)
    ensures TrialsFrom(env, p, graphs, solvers, trials, t, acc).error.None? <==>
            forall u :: t <= u < trials ==> graphs(u).Ok?
    decreases trials - t
  {
    if t < trials && graphs(t).Ok? {
      var next := SolversFrom(env, p, t, graphs(t).value, solvers, 0, acc);
      TrialsFromNoError(env, p, graphs, solvers, trials, t + 1, next);
      assert TrialsFrom(env, p, graphs, solvers, trials, t, acc) == TrialsFrom(env, p, graphs, solvers, trials, t + 1, next);
    }
  }

  /** An error the trial loop stops with is some remaining trial's error. */
  lemma {:induction false} TrialsFromErrorOrigin(env: Env, p: Point, graphs: int -> Result<string>, solvers: seq<Solver>, trials: int, t: int, acc: seq<Row>)
    ensures TrialsFrom(env, p, graphs, solvers, trials, t, acc).error.Some? ==>
            exists u :: t <= u < trials && graphs(u) == Err(TrialsFrom(env, p, graphs, solvers, trials, t, acc).error.value)
    decreases trials - t
  {
    if t < trials {
      var r := TrialsFrom(env, p, graphs, solvers, trials, t, acc);
      if graphs(t).Err? {
        assert graphs(t) == Err(r.error.value);
      } else {
        var next := SolversFrom(env, p, t, graphs(t).value, solvers, 0, acc);
        TrialsFromErrorOrigin(env, p, graphs, solvers, trials, t + 1, next);
        assert r == TrialsFrom(env, p, graphs, solvers, trials, t + 1, next);
      }
    }
  }

  /** The trial loop stops with an error exactly when some remaining trial's
      generator fails, and then with that trial's error. */
  lemma TrialsFromErrors(env: Env, p: Point, graphs: int -> Result<string>, solvers: seq<Solver>, trials: int, t: int, acc: seq<Row>)
    ensures TrialsFrom(env, p, graphs, solvers, trials, t, acc).error.None? <==>
            forall u :: t <= u < trials ==> graphs(u).Ok?
    ensures TrialsFrom(env, p, graphs, solvers, trials, t, acc).error.Some? ==>
            exists u :: t <= u < trials && graphs(u) == Err(TrialsFrom(env, p, graphs, solvers, trials, t, acc).error.value)
  {
    TrialsFromNoError(env, p, graphs, solvers, trials, t, acc);
    TrialsFromErrorOrigin(env, p, graphs, solvers, trials, t, acc);
  }

  /** The trial loop keeps what was written. */
  lemma {:induction false} TrialsFromKeeps(env: Env, p: Point, graphs: int -> Result<string>, solvers: seq<Solver>, trials: int, t: int, acc: seq<Row>)
    ensures acc <= TrialsFrom(env, p, graphs, solvers, trials, t, acc).rows
    decreases trials - t
  {
    if t < trials && graphs(t).Ok? {
      var next := SolversFrom(env, p, t, graphs(t).value, solvers, 0, acc);
      CollectKeeps((s: Solver) => RunRows(env, p, t, graphs(t).value, s), solvers, 0, acc);
      TrialsFromKeeps(env, p, graphs, solvers, trials, t + 1, next);
    }
  }

  /** The trial loop adds no more rows than remaining trials times solvers. */
  lemma {:induction false} TrialsFromGrows(env: Env, p: Point, graphs: int -> Result<string>, solvers: seq<Solver>, trials: int, t: int, acc: seq<Row>)
    ensures |TrialsFrom(env, p, graphs, solvers, trials, t, acc).rows| <= |acc| + (if t < trials then trials - t else 0) * |solvers|
    decreases trials - t
  {
    if t < trials && graphs(t).Ok? {
      var next := SolversFrom(env, p, t, graphs(t).value, solvers, 0, acc);
      SolversFromGrows(env, p, t, graphs(t).value, solvers, acc);
      TrialsFromGrows(env, p, graphs, solvers, trials, t + 1, next);
      assert TrialsFrom(env, p, graphs, solvers, trials, t, acc) == TrialsFrom(env, p, graphs, solvers, trials, t + 1, next);
      assert (if t + 1 < trials then trials - (t + 1) else 0) == trials - (t + 1);
      assert (if t < trials then trials - t else 0) == trials - t;
      MoreTimes(trials, t, |solvers|);
    }
  }

  /** Every row the trial loop adds is the row of a successful run of a
      remaining trial. */
  lemma {:induction false} TrialsFromSound(env: Env, p: Point, graphs: int -> Result<string>, solvers: seq<Solver>, trials: int, t: int, acc: seq<Row>)
    ensures forall r :: r in TrialsFrom(env, p, graphs, solvers, trials, t, acc).rows ==>
              r in acc || exists u, k :: t <= u < trials && 0 <= k < |solvers| && Ran(env, p, graphs, u, solvers[k], r)
    decreases trials - t
  {
    if t < trials && graphs(t).Ok? {
      var next := SolversFrom(env, p, t, graphs(t).value, solvers, 0, acc);
      SolversFromRuns(env, p, graphs, t, solvers, acc);
      TrialsFromSound(env, p, graphs, solvers, trials, t + 1, next);
    }
  }

  /** When no generator fails, the row of every successful run of a
      remaining trial is written. */
  lemma {:induction false} TrialsFromComplete(env: Env, p: Point, graphs: int -> Result<string>, solvers: seq<Solver>, trials: int, t: int, acc: seq<Row>)
    requires TrialsFrom(env, p, graphs, solvers, trials, t, acc).error.None?
    ensures forall u, k, r :: t <= u < trials && 0 <= k < |solvers| && Ran(env, p, graphs, u, solvers[k], r) ==>
              r in TrialsFrom(env, p, graphs, solvers, trials, t, acc).rows
    decreases trials - t
  {
    if t < trials {
      var next := SolversFrom(env, p, t, graphs(t).value, solvers, 0, acc);
      var rows := TrialsFrom(env, p, graphs, solvers, trials, t + 1, next);
      assert TrialsFrom(env, p, graphs, solvers, trials, t, acc) == rows;
      SolversFromRuns(env, p, graphs, t, solvers, acc);
      TrialsFromComplete(env, p, graphs, solvers, trials, t + 1, next);
      TrialsFromKeeps(env, p, graphs, solvers, trials, t + 1, next);
      PrefixMembers(next, rows.rows);
      forall u, k, r | t <= u < trials && 0 <= k < |solvers| && Ran(env, p, graphs, u, solvers[k], r)
        ensures r in rows.rows
      {
        if u == t {
          assert r in next;
        }
      }
    }
  }

  /** The number of trials `range(trials)` runs. */
  function TrialCount(trials: int): nat {
    if trials > 0 then trials else 0
  }

  /** The point loop stops with an error exactly when the generator fails on
      some trial of a remaining point. */
  lemma {:induction false} PointsFromErrors(env: Env, graphs: Point -> int -> Result<string>, points: seq<Point>, trials: int, solvers: seq<Solver>, i: nat, acc: seq<Row>)
    requires i <= |points|
    ensures PointsFrom(env, graphs, points, trials, solvers, i, acc).error.None? <==>
            forall q, u :: i <= q < |points| && 0 <= u < trials ==> graphs(points[q])(u).Ok?
    decreases |points| - i
  {
    if i < |points| {
      var cur := TrialsFrom(env, points[i], graphs(points[i]), solvers, trials, 0, acc);
      TrialsFromErrors(env, points[i], graphs(points[i]), solvers, trials, 0, acc);
      if cur.error.None? {
        PointsFromErrors(env, graphs, points, trials, solvers, i + 1, cur.rows);
      }
    }
  }

  /** The point loop keeps what was written. */
  lemma {:induction false} PointsFromKeeps(env: Env, graphs: Point -> int -> Result<string>, points: seq<Point>, trials: int, solvers: seq<Solver>, i: nat, acc: seq<Row>)
    requires i <= |points|
    ensures acc <= PointsFrom(env, graphs, points, trials, solvers, i, acc).rows
    decreases |points| - i
  {
    if i < |points| {
      var cur := TrialsFrom(env, points[i], graphs(points[i]), solvers, trials, 0, acc);
      TrialsFromKeeps(env, points[i], graphs(points[i]), solvers, trials, 0, acc);
      if cur.error.None? {
        PointsFromKeeps(env, graphs, points, trials, solvers, i + 1, cur.rows);
      }
    }
  }

  /** The point loop adds no more rows than remaining points times trials
      times solvers. */
  lemma {:induction false} PointsFromGrows(env: Env, graphs: Point -> int -> Result<string>, points: seq<Point>, trials: int, solvers: seq<Solver>, i: nat, acc: seq<Row>)
    requires i <= |points|
    ensures |PointsFrom(env, graphs, points, trials, solvers, i, acc).rows| <= |acc| + (|points| - i) * (TrialCount(trials) * |solvers|)
    decreases |points| - i
  {
    if i < |points| {
      var cur := TrialsFrom(env, points[i], graphs(points[i]), solvers, trials, 0, acc);
      TrialsFromGrows(env, points[i], graphs(points[i]), solvers, trials, 0, acc);
      var per := TrialCount(trials) * |solvers|;
      assert |cur.rows| <= |acc| + per;
      MoreTimes(|points|, i, per);
      if cur.error.None? {
        PointsFromGrows(env, graphs, points, trials, solvers, i + 1, cur.rows);
      }
    }
  }

  /** Every row the point loop adds is the row of a successful run of a
      trial of a remaining point. */
  lemma {:induction false} PointsFromSound(env: Env, graphs: Point -> int -> Result<string>, points: seq<Point>, trials: int, solvers: seq<Solver>, i: nat, acc: seq<Row>)
    requires i <= |points|
    ensures forall r :: r in PointsFrom(env, graphs, points, trials, solvers, i, acc).rows ==>
              r in acc || exists q, u, k :: i <= q < |points| && 0 <= u < trials && 0 <= k < |solvers| &&
                                            Ran(env, points[q], graphs(points[q]), u, solvers[k], r)
    decreases |points| - i
  {
    if i < |points| {
      var cur := TrialsFrom(env, points[i], graphs(points[i]), solvers, trials, 0, acc);
      TrialsFromSound(env, points[i], graphs(points[i]), solvers, trials, 0, acc);
      if cur.error.None? {
        PointsFromSound(env, graphs, points, trials, solvers, i + 1, cur.rows);
      }
    }
  }

  /** When no generator fails, the row of every successful run of every
      trial of a remaining point is written. */
  lemma {:induction false} PointsFromComplete(env: Env, graphs: Point -> int -> Result<string>, points: seq<Point>, trials: int, solvers: seq<Solver>, i: nat, acc: seq<Row>)
    requires i <= |points| && PointsFrom(env, graphs, points, trials, solvers, i, acc).error.None?
    ensures forall q, u, k, r ::
              (i <= q < |points| && 0 <= u < trials && 0 <= k < |solvers| &&
               Ran(env, points[q], graphs(points[q]), u, solvers[k], r)) ==>
              r in PointsFrom(env, graphs, points, trials, solvers, i, acc).rows
    decreases |points| - i
  {
    if i < |points| {
      var cur := TrialsFrom(env, points[i], graphs(points[i]), solvers, trials, 0, acc);
      var rows := PointsFrom(env, graphs, points, trials, solvers, i + 1, cur.rows);
      assert PointsFrom(env, graphs, points, trials, solvers, i, acc) == rows;
      TrialsFromComplete(env, points[i], graphs(points[i]), solvers, trials, 0, acc);
      PointsFromComplete(env, graphs, points, trials, solvers, i + 1, cur.rows);
      PointsFromKeeps(env, graphs, points, trials, solvers, i + 1, cur.rows);
      PrefixMembers(cur.rows, rows.rows);
      forall q, u, k, r | i <= q < |points| && 0 <= u < trials && 0 <= k < |solvers| &&
                          Ran(env, points[q], graphs(points[q]), u, solvers[k], r)
        ensures r in rows.rows
      {
        if q == i {
          assert r in cur.rows;
        }
      }
    }
  }

  /** A point the generator accepts: enough edges for a spanning tree, and
      no extra edges on an empty node range. */
  predicate Feasible(p: Point) {
    p.m >= p.n - 1 && !(p.n <= 0 && p.m > 0)
  }

  /** A trial's graph is generated exactly when its point is feasible,
      whatever the seed. */
  lemma TrialGraphOk(env: Env, p: Point, t: int)
    ensures TrialGraph(env, p, t).Ok? <==> Feasible(p)
  {
    GeneratedErrors(p.n, p.m, env.streams(Seed(env, p, t)));
  }

  /** A sweep stops with an error exactly when it has trials to run and some
      point is not feasible. */
  lemma SweepErrors(env: Env, points: seq<Point>, trials: int, solvers: seq<Solver>)
    ensures Sweep(env, points, trials, solvers).error.Some? <==>
            trials > 0 && exists q :: 0 <= q < |points| && !Feasible(points[q])
  {
    PointsFromErrors(env, Graphs(env), points, trials, solvers, 0, []);
    forall q, u | 0 <= q < |points| && 0 <= u < trials
      ensures Graphs(env)(points[q])(u).Ok? <==> Feasible(points[q])
    {
      TrialGraphOk(env, points[q], u);
    }
    if trials > 0 && exists q :: 0 <= q < |points| && !Feasible(points[q]) {
      var q :| 0 <= q < |points| && !Feasible(points[q]);
      assert !Graphs(env)(points[q])(0).Ok?;
    }
  }

  /** What a run's row means: the trial's graph was generated, the solver
      was handed that graph, which depends only on the point and the trial,
      and `run_solver` reported success with the row's time. */
  lemma RanMeans(env: Env, p: Point, u: int, s: Solver, r: Row)
    ensures Ran(env, p, Graphs(env)(p), u, s, r) <==>
            TrialGraph(env, p, u).Ok? &&
            RunSolver(env.run(Invocation(p.n, p.m, u, s, TrialGraph(env, p, u).value)), s.tag) == (r.time, true) &&
            r == Row(p.n, p.m, p.multiplier, u, Seed(env, p, u), s.name, r.time)
  {
    if TrialGraph(env, p, u).Ok? {
      RunRowMeans(env, p, u, TrialGraph(env, p, u).value, s, r);
    }
  }

  /** Every row of a sweep is the row of a successful run of some point,
      trial and solver; when no generator fails, every successful run has
      its row; and there are no more rows than points times trials times
      solvers (`SweepIsRuns` gives one list of at most one row per run). */
  lemma SweepRows(env: Env, points: seq<Point>, trials: int, solvers: seq<Solver>)
    ensures var sweep := Sweep(env, points, trials, solvers);
            (forall r :: r in sweep.rows ==>
               exists q, u, k :: 0 <= q < |points| && 0 <= u < trials && 0 <= k < |solvers| &&
                                 Ran(env, points[q], Graphs(env)(points[q]), u, solvers[k], r)) &&
            (sweep.error.None? ==>
               forall q, u, k, r ::
                 (0 <= q < |points| && 0 <= u < trials && 0 <= k < |solvers| &&
                  Ran(env, points[q], Graphs(env)(points[q]), u, solvers[k], r)) ==> r in sweep.rows) &&
            |sweep.rows| <= |points| * (TrialCount(trials) * |solvers|)
  {
    PointsFromSound(env, Graphs(env), points, trials, solvers, 0, []);
    PointsFromGrows(env, Graphs(env), points, trials, solvers, 0, []);
    if Sweep(env, points, trials, solvers).error.None? {
      PointsFromComplete(env, Graphs(env), points, trials, solvers, 0, []);
    }
  }

  /** Each run's row list: one row when the run succeeds, none otherwise. */
  lemma RunRowsAtMostOne(env: Env, p: Point, t: int, graph: string, s: Solver)
    ensures |RunRows(env, p, t, graph, s)| <= 1
    ensures forall r :: RunRows(env, p, t, graph, s) == [r] <==> RunRow(env, p, t, graph, s) == Some(r)
  {
  }

  /** `f(xs[j])`, `f(xs[j + 1])`, ... joined in order. */
  function Joined<T, U>(f: T -> seq<U>, xs: seq<T>, j: nat): seq<U>
    decreases |xs| - j
  {
    if j >= |xs| then [] else f(xs[j]) + Joined(f, xs, j + 1)
  }

  /** Collecting appends the joined items to the accumulator. */
  lemma {:induction false} CollectJoins<T, U>(f: T -> seq<U>, xs: seq<T>, j: nat, acc: seq<U>)
    ensures Collect(f, xs, j, acc) == acc + Joined(f, xs, j)
    decreases |xs| - j
  {
    if j < |xs| {
      CollectJoins(f, xs, j + 1, acc + f(xs[j]));
      assert acc + f(xs[j]) + Joined(f, xs, j + 1) == acc + (f(xs[j]) + Joined(f, xs, j + 1));
    } else {
      assert acc + [] == acc;
    }
  }

  /** The row lists of the runs of solvers `j..` of a trial, in solver order. */
  function SolverRuns(env: Env, p: Point, t: int, graph: string, solvers: seq<Solver>, j: nat): seq<Row> {
    Joined((s: Solver) => RunRows(env, p, t, graph, s), solvers, j)
  }

  /** The row lists of the runs of trials `t..` of a point, trial by trial;
      a trial without a graph runs no solver. */
  function TrialRuns(env: Env, p: Point, graphs: int -> Result<string>, solvers: seq<Solver>, trials: int, t: int): seq<Row>
    decreases trials - t
  {
    if t >= trials then []
    else (if graphs(t).Ok? then SolverRuns(env, p, t, graphs(t).value, solvers, 0) else []) +
         TrialRuns(env, p, graphs, solvers, trials, t + 1)
  }

  /** The row lists of the runs of points `i..`, point by point. */
  function PointRuns(env: Env, graphs: Point -> int -> Result<string>, points: seq<Point>, trials: int, solvers: seq<Solver>, i: nat): seq<Row>
    decreases |points| - i
  {
    if i >= |points| then []
    else TrialRuns(env, points[i], graphs(points[i]), solvers, trials, 0) + PointRuns(env, graphs, points, trials, solvers, i + 1)
  }

  /** The solver loop appends each solver's row list in turn. */
  lemma SolversFromIsRuns(env: Env, p: Point, t: int, graph: string, solvers: seq<Solver>, acc: seq<Row>)
    ensures SolversFrom(env, p, t, graph, solvers, 0, acc) == acc + SolverRuns(env, p, t, graph, solvers, 0)
  {
    CollectJoins((s: Solver) => RunRows(env, p, t, graph, s), solvers, 0, acc);
  }

  /** The trial loop appends the row lists of the runs of its trials in
      turn, and all of them when no generator fails. */
  lemma {:induction false} TrialsFromIsRuns(env: Env, p: Point, graphs: int -> Result<string>, solvers: seq<Solver>, trials: int, t: int, acc: seq<Row>)
    ensures var r := TrialsFrom(env, p, graphs, solvers, trials, t, acc);
            r.rows <= acc + TrialRuns(env, p, graphs, solvers, trials, t) &&
            (r.error.None? ==> r.rows == acc + TrialRuns(env, p, graphs, solvers, trials, t))
    decreases trials - t
  {
    if t < trials {
      var rest := TrialRuns(env, p, graphs, solvers, trials, t + 1);
      if graphs(t).Ok? {
        var graph := graphs(t).value;
        var here := SolverRuns(env, p, t, graph, solvers, 0);
        var next := SolversFrom(env, p, t, graph, solvers, 0, acc);
        SolversFromIsRuns(env, p, t, graph, solvers, acc);
        TrialsFromIsRuns(env, p, graphs, solvers, trials, t + 1, next);
        assert next + rest == acc + (here + rest);
      } else {
        assert acc + TrialRuns(env, p, graphs, solvers, trials, t) == acc + rest;
      }
    }
  }

  /** The point loop appends the row lists of the runs of its points in
      turn, and all of them when no generator fails. */
  lemma {:induction false} PointsFromIsRuns(env: Env, graphs: Point -> int -> Result<string>, points: seq<Point>, trials: int, solvers: seq<Solver>, i: nat, acc: seq<Row>)
    ensures var r := PointsFrom(env, graphs, points, trials, solvers, i, acc);
            r.rows <= acc + PointRuns(env, graphs, points, trials, solvers, i) &&
            (r.error.None? ==> r.rows == acc + PointRuns(env, graphs, points, trials, solvers, i))
    decreases |points| - i
  {
    if i < |points| {
      var cur := TrialsFrom(env, points[i], graphs(points[i]), solvers, trials, 0, acc);
      var here := acc + TrialRuns(env, points[i], graphs(points[i]), solvers, trials, 0);
      var rest := PointRuns(env, graphs, points, trials, solvers, i + 1);
      TrialsFromIsRuns(env, points[i], graphs(points[i]), solvers, trials, 0, acc);
      assert here + rest == acc + PointRuns(env, graphs, points, trials, solvers, i);
      if cur.error.Some? {
        assert cur.rows == (here + rest)[..|cur.rows|];
      } else {
        PointsFromIsRuns(env, graphs, points, trials, solvers, i + 1, cur.rows);
      }
    }
  }

  /** The rows of a sweep are, in order, the row lists of its runs: point by
      point, trial by trial and solver by solver, one list of at most one
      row per run. A generator error cuts the list short; without one the
      rows are the whole list. */
  lemma SweepIsRuns(env: Env, points: seq<Point>, trials: int, solvers: seq<Solver>)
    ensures var sweep := Sweep(env, points, trials, solvers);
            sweep.rows <= PointRuns(env, Graphs(env), points, trials, solvers, 0) &&
            (sweep.error.None? ==> sweep.rows == PointRuns(env, Graphs(env), points, trials, solvers, 0))
  {
    PointsFromIsRuns(env, Graphs(env), points, trials, solvers, 0, []);
    assert [] + PointRuns(env, Graphs(env), points, trials, solvers, 0) == PointRuns(env, Graphs(env), points, trials, solvers, 0);
  }

  /** Collecting after a longer prefix gives the same additions. */
  lemma {:induction false} CollectShift<T, U>(f: T -> seq<U>, xs: seq<T>, j: nat, x: seq<U>, acc: seq<U>)
    ensures Collect(f, xs, j, x + acc) == x + Collect(f, xs, j, acc)
    decreases |xs| - j
  {
    if j < |xs| {
      assert x + acc + f(xs[j]) == x + (acc + f(xs[j]));
      CollectShift(f, xs, j + 1, x, acc + f(xs[j]));
    }
  }

  /** The trial loop after a longer prefix gives the same additions and the
      same error. */
  lemma {:induction false} TrialsShift(env: Env, p: Point, graphs: int -> Result<string>, solvers: seq<Solver>, trials: int, t: int, x: seq<Row>, acc: seq<Row>)
    ensures var r := TrialsFrom(env, p, graphs, solvers, trials, t, acc);
            TrialsFrom(env, p, graphs, solvers, trials, t, x + acc) == Progress(x + r.rows, r.error)
    decreases trials - t
  {
    if t < trials && graphs(t).Ok? {
      var f := (s: Solver) => RunRows(env, p, t, graphs(t).value, s);
      CollectShift(f, solvers, 0, x, acc);
      TrialsShift(env, p, graphs, solvers, trials, t + 1, x, SolversFrom(env, p, t, graphs(t).value, solvers, 0, acc));
    }
  }

  /** The point loop after a longer prefix gives the same additions and the
      same error. */
  lemma {:induction false} PointsShift(env: Env, graphs: Point -> int -> Result<string>, points: seq<Point>, trials: int, solvers: seq<Solver>, i: nat, x: seq<Row>, acc: seq<Row>)
    requires i <= |points|
    ensures var r := PointsFrom(env, graphs, points, trials, solvers, i, acc);
            PointsFrom(env, graphs, points, trials, solvers, i, x + acc) == Progress(x + r.rows, r.error)
    decreases |points| - i
  {
    if i < |points| {
      var cur := TrialsFrom(env, points[i], graphs(points[i]), solvers, trials, 0, acc);
      TrialsShift(env, points[i], graphs(points[i]), solvers, trials, 0, x, acc);
      if cur.error.None? {
        PointsShift(env, graphs, points, trials, solvers, i + 1, x, cur.rows);
      }
    }
  }

  /** The points of `a + b` from `i` within `a`: first the rest of `a`, then,
      unless that failed, all of `b`. */
  lemma {:induction false} PointsConcat(env: Env, graphs: Point -> int -> Result<string>, a: seq<Point>, b: seq<Point>, trials: int, solvers: seq<Solver>, i: nat, acc: seq<Row>)
    requires i <= |a|
    ensures var ra := PointsFrom(env, graphs, a, trials, solvers, i, acc);
            PointsFrom(env, graphs, a + b, trials, solvers, i, acc) ==
            if ra.error.Some? then ra else PointsFrom(env, graphs, b, trials, solvers, 0, ra.rows)
    decreases |a| - i
  {
    if i < |a| {
      assert (a + b)[i] == a[i];
      var cur := TrialsFrom(env, a[i], graphs(a[i]), solvers, trials, 0, acc);
      if cur.error.None? {
        PointsConcat(env, graphs, a, b, trials, solvers, i + 1, cur.rows);
      }
    } else {
      PointsSuffix(env, graphs, a, b, trials, solvers, 0, acc);
    }
  }

  /** The points of `a + b` from `|a| + i` are the points of `b` from `i`. */
  lemma {:induction false} PointsSuffix(env: Env, graphs: Point -> int -> Result<string>, a: seq<Point>, b: seq<Point>, trials: int, solvers: seq<Solver>, i: nat, acc: seq<Row>)
    requires i <= |b|
    ensures PointsFrom(env, graphs, a + b, trials, solvers, |a| + i, acc) == PointsFrom(env, graphs, b, trials, solvers, i, acc)
    decreases |b| - i
  {
    if i < |b| {
      assert (a + b)[|a| + i] == b[i];
      var cur := TrialsFrom(env, b[i], graphs(b[i]), solvers, trials, 0, acc);
      if cur.error.None? {
        PointsSuffix(env, graphs, a, b, trials, solvers, i + 1, cur.rows);
      }
    }
  }

  /** Rows come in point order: the sweep of `a + b` is the sweep of `a`
      followed, unless that failed, by the sweep of `b`. */
  lemma SweepAppend(env: Env, a: seq<Point>, b: seq<Point>, trials: int, solvers: seq<Solver>)
    ensures var ra := Sweep(env, a, trials, solvers);
            var rb := Sweep(env, b, trials, solvers);
            Sweep(env, a + b, trials, solvers) ==
            if ra.error.Some? then ra else Progress(ra.rows + rb.rows, rb.error)
  {
    var ra := Sweep(env, a, trials, solvers);
    PointsConcat(env, Graphs(env), a, b, trials, solvers, 0, []);
    PointsShift(env, Graphs(env), b, trials, solvers, 0, ra.rows, []);
    assert ra.rows + [] == ra.rows;
  }

  /** The node-scaling points: each node count with `multiplier * n` edges. */
  function NodeScalingPoints(nodeCounts: seq<int>, multiplier: int): (r: seq<Point>)
    ensures |r| == |nodeCounts|
    ensures forall i :: 0 <= i < |r| ==> r[i] == Point(nodeCounts[i], multiplier * nodeCounts[i], None)
  {
    seq(|nodeCounts|, i requires 0 <= i < |nodeCounts| => Point(nodeCounts[i], multiplier * nodeCounts[i], None))
  }

  /** The edge-density points: the fixed node count with `multiplier * n`
      edges for each multiplier. */
  function EdgeDensityPoints(fixedNodes: int, multipliers: seq<int>): (r: seq<Point>)
    ensures |r| == |multipliers|
    ensures forall i :: 0 <= i < |r| ==> r[i] == Point(fixedNodes, multipliers[i] * fixedNodes, Some(multipliers[i]))
  {
    seq(|multipliers|, i requires 0 <= i < |multipliers| => Point(fixedNodes, multipliers[i] * fixedNodes, Some(multipliers[i])))
  }

  const NodeScalingHeader: seq<string> := ["nodes", "edges", "trial", "seed", "solver", "time_ms"]
  const EdgeDensityHeader: seq<string> := ["nodes", "edges", "multiplier", "trial", "seed", "solver", "time_ms"]

  /** The CSV cells of a row; the multiplier column only in the edge-density sweep. */
  function Cells(r: Row, timeText: real -> string): seq<string> {
    [IntToString(r.n), IntToString(r.m)] +
    (match r.multiplier case None => [] case Some(k) => [IntToString(k)]) +
    [IntToString(r.trial), IntToString(r.seed), r.solver, timeText(r.time)]
  }

  /** The CSV file: the header, then one line per row in order. */
  function CsvTable(header: seq<string>, rows: seq<Row>, timeText: real -> string): seq<seq<string>> {
    [header] + seq(|rows|, k requires 0 <= k < |rows| => Cells(rows[k], timeText))
  }

  /** `run_node_scaling`: the CSV it writes and the generator error that
      ended it, if any. */
  method RunNodeScaling(env: Env, nodeCounts: seq<int>, multiplier: int, trials: int, withDijkstra: bool, timeText: real -> string)
    returns (table: seq<seq<string>>, error: Option<GenError>)
    ensures var sweep := Sweep(env, NodeScalingPoints(nodeCounts, multiplier), trials, Solvers(withDijkstra));
            table == CsvTable(NodeScalingHeader, sweep.rows, timeText) && error == sweep.error
  {
    var rows;
    rows, error := RunSweep(env, NodeScalingPoints(nodeCounts, multiplier), trials, Solvers(withDijkstra));
    table := CsvTable(NodeScalingHeader, rows, timeText);
  }

  /** `run_edge_density`: the CSV it writes and the generator error that
      ended it, if any. */
  method RunEdgeDensity(env: Env, fixedNodes: int, multipliers: seq<int>, trials: int, withDijkstra: bool, timeText: real -> string)
    returns (table: seq<seq<string>>, error: Option<GenError>)
    ensures var sweep := Sweep(env, EdgeDensityPoints(fixedNodes, multipliers), trials, Solvers(withDijkstra));
            table == CsvTable(EdgeDensityHeader, sweep.rows, timeText) && error == sweep.error
  {
    var rows;
    rows, error := RunSweep(env, EdgeDensityPoints(fixedNodes, multipliers), trials, Solvers(withDijkstra));
    table := CsvTable(EdgeDensityHeader, rows, timeText);
  }

  /** Node-scaling rows: a requested node count, the requested `multiplier * n`
      edges (not the number generated), no multiplier column, a trial in
      range, that configuration's seed and a listed solver. */
  lemma NodeScalingRows(env: Env, nodeCounts: seq<int>, multiplier: int, trials: int, withDijkstra: bool)
    ensures forall r :: r in Sweep(env, NodeScalingPoints(nodeCounts, multiplier), trials, Solvers(withDijkstra)).rows ==>
              r.n in nodeCounts && r.m == multiplier * r.n && r.multiplier.None? &&
              0 <= r.trial < trials && r.seed == MakeSeed(env.hash, r.n, r.m, r.trial) &&
              (r.solver == "bmssp" || (withDijkstra && r.solver == "dijkstra"))
  {
    var points := NodeScalingPoints(nodeCounts, multiplier);
    var solvers := Solvers(withDijkstra);
    SweepRows(env, points, trials, solvers);
    forall r | r in Sweep(env, points, trials, solvers).rows
      ensures r.n in nodeCounts && r.m == multiplier * r.n && r.multiplier.None? &&
              0 <= r.trial < trials && r.seed == MakeSeed(env.hash, r.n, r.m, r.trial) &&
              (r.solver == "bmssp" || (withDijkstra && r.solver == "dijkstra"))
    {
      var q, u, k :| 0 <= q < |points| && 0 <= u < trials && 0 <= k < |solvers| &&
                     Ran(env, points[q], Graphs(env)(points[q]), u, solvers[k], r);
      RanMeans(env, points[q], u, solvers[k], r);
      assert r.n == nodeCounts[q];
    }
  }

  /** Edge-density rows: the fixed node count, a listed multiplier and the
      requested `multiplier * n` edges. */
  lemma EdgeDensityRows(env: Env, fixedNodes: int, multipliers: seq<int>, trials: int, withDijkstra: bool)
    ensures forall r :: r in Sweep(env, EdgeDensityPoints(fixedNodes, multipliers), trials, Solvers(withDijkstra)).rows ==>
              r.n == fixedNodes && r.multiplier.Some? && r.multiplier.value in multipliers &&
              r.m == r.multiplier.value * fixedNodes &&
              0 <= r.trial < trials && r.seed == MakeSeed(env.hash, r.n, r.m, r.trial) &&
              (r.solver == "bmssp" || (withDijkstra && r.solver == "dijkstra"))
  {
    var points := EdgeDensityPoints(fixedNodes, multipliers);
    var solvers := Solvers(withDijkstra);
    SweepRows(env, points, trials, solvers);
    forall r | r in Sweep(env, points, trials, solvers).rows
      ensures r.n == fixedNodes && r.multiplier.Some? && r.multiplier.value in multipliers &&
              r.m == r.multiplier.value * fixedNodes &&
              0 <= r.trial < trials && r.seed == MakeSeed(env.hash, r.n, r.m, r.trial) &&
              (r.solver == "bmssp" || (withDijkstra && r.solver == "dijkstra"))
    {
      var q, u, k :| 0 <= q < |points| && 0 <= u < trials && 0 <= k < |solvers| &&
                     Ran(env, points[q], Graphs(env)(points[q]), u, solvers[k], r);
      RanMeans(env, points[q], u, solvers[k], r);
      assert r.multiplier == Some(multipliers[q]);
    }
  }

  /** The CSV starts with the header, then holds each row's cells in row
      order, every line as wide as the header when the rows' multiplier
      column matches it. */
  lemma CsvTableLines(header: seq<string>, rows: seq<Row>, timeText: real -> string)
    ensures var table := CsvTable(header, rows, timeText);
            |table| == |rows| + 1 && table[0] == header &&
            (forall k :: 0 <= k < |rows| ==> table[k + 1] == Cells(rows[k], timeText)) &&
            (forall k :: 0 <= k < |rows| ==> table[k + 1][1] == IntToString(rows[k].m)) &&
            (header == NodeScalingHeader && (forall k :: 0 <= k < |rows| ==> rows[k].multiplier.None?) ==>
               forall k :: 0 <= k < |table| ==> |table[k]| == |header|) &&
            (header == EdgeDensityHeader && (forall k :: 0 <= k < |rows| ==> rows[k].multiplier.Some?) ==>
               forall k :: 0 <= k < |table| ==> |table[k]| == |header|)
  {
    var table := CsvTable(header, rows, timeText);
    forall k | 0 <= k < |rows|
      ensures table[k + 1] == Cells(rows[k], timeText) && table[k + 1][1] == IntToString(rows[k].m)
      ensures |table[k + 1]| == if rows[k].multiplier.Some? then 7 else 6
    {
      CellsShape(rows[k], timeText);
    }
    assert |NodeScalingHeader| == 6 && |EdgeDensityHeader| == 7;
  }

  /** A row's line has the edge count second, and seven cells exactly when
      it has a multiplier. */
  lemma CellsShape(r: Row, timeText: real -> string)
    ensures |Cells(r, timeText)| == if r.multiplier.Some? then 7 else 6
    ensures Cells(r, timeText)[1] == IntToString(r.m)
  {
  }
}
