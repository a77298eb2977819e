/** `aggregate(rows, group_key)` (experiments/visualize.py:36-53): group
    the rows by the value of one column, then, in ascending key order, give
    each group's timings, mean, sample standard deviation, minimum and
    maximum. The rows are those `read_csv` returns for a results file; the
    grouping columns hold integers there. `statistics.stdev`'s square root
    is the parameter `sqrt`. */
module Aggregate {
  import opened Text

  /** A CSV row: its integer columns by name, and `time_ms`. */
  datatype Record = Record(columns: map<string, int>, timeMs: real)

  /** One entry of the result. */
  datatype Group = Group(key: int, timings: seq<real>, mean: real, std: real, min: real, max: real)

  /** The sum of the values. */
  function Sum(xs: seq<real>): real
    decreases |xs|
  {
    if xs == [] then 0.0 else Sum(xs[..|xs| - 1]) + xs[|xs| - 1]
  }

  /** `statistics.mean`. */
  function Mean(xs: seq<real>): real
    requires |xs| > 0
  {
    Sum(xs) / |xs| as real
  }

  /** The sum of the squared deviations from `c`. */
  function SquaredDeviations(xs: seq<real>, c: real): real
    decreases |xs|
  {
    if xs == [] then 0.0
    else SquaredDeviations(xs[..|xs| - 1], c) + Square(xs[|xs| - 1] - c)
  }

  /** `d` squared. */
  function Square(d: real): real {
    d * d
  }

  /** The sample variance, with the `n - 1` denominator `statistics.stdev` uses. */
  function Variance(xs: seq<real>): real
    requires |xs| > 1
  {
    SquaredDeviations(xs, Mean(xs)) / (|xs| - 1) as real
  }

  /** `min`. */
  function Min(xs: seq<real>): (r: real)
    requires |xs| > 0
    ensures r in xs && forall i :: 0 <= i < |xs| ==> r <= xs[i]
    decreases |xs|
  {
    if |xs| == 1 then xs[0]
    else
      var m := Min(xs[..|xs| - 1]);
      if xs[|xs| - 1] < m then xs[|xs| - 1] else m
  }

  /** `max`. */
  function Max(xs: seq<real>): (r: real)
    requires |xs| > 0
    ensures r in xs && forall i :: 0 <= i < |xs| ==> xs[i] <= r
    decreases |xs|
  {
    if |xs| == 1 then xs[0]
    else
      var m := Max(xs[..|xs| - 1]);
      if xs[|xs| - 1] > m then xs[|xs| - 1] else m
  }

  /** The entry of one group. */
  function Stats(key: int, timings: seq<real>, sqrt: real -> real): Group
    requires |timings| > 0
  {
    Group(key, timings, Mean(timings), if |timings| > 1 then sqrt(Variance(timings)) else 0.0, Min(timings), Max(timings))
  }

  /** Every row has the grouping column; otherwise `row[group_key]` raises KeyError. */
  predicate AllHaveKey(rows: seq<Record>, groupKey: string) {
    forall i :: 0 <= i < |rows| ==> groupKey in rows[i].columns
  }

  /** Whether a row belongs to the group of `k`. */
  predicate InGroup(row: Record, groupKey: string, k: int) {
    groupKey in row.columns && row.columns[groupKey] == k
  }

  /** The timings of the rows whose grouping column is `k`, in input order. */
  function Timings(rows: seq<Record>, groupKey: string, k: int): seq<real>
    decreases |rows|
  {
    if rows == [] then []
    else
      var last := rows[|rows| - 1];
      Timings(rows[..|rows| - 1], groupKey, k) + (if InGroup(last, groupKey, k) then [last.timeMs] else [])
  }

  /** The values of the grouping column. */
  function KeySet(rows: seq<Record>, groupKey: string): set<int> {
    set i | 0 <= i < |rows| && groupKey in rows[i].columns :: rows[i].columns[groupKey]
  }

  /** The least key. */
  function SmallestKey(s: set<int>): (m: int)
    requires s != {}
    ensures m in s && forall x :: x in s ==> m <= x
  {
    SmallestExists(s);
    var m :| m in s && forall x :: x in s ==> m <= x;
    m
  }

  /** A non-empty set of integers has a least element. */
  lemma {:induction false} SmallestExists(s: set<int>)
    requires s != {}
    ensures exists m :: m in s && forall x :: x in s ==> m <= x
    decreases |s|
  {
    if forall x :: x !in s {
      assert false;
    }
    var y :| y in s;
    if s != {y} {
      var rest := s - {y};
      SmallestExists(rest);
      var m :| m in rest && forall x :: x in rest ==> m <= x;
      var least := if y < m then y else m;
      forall x | x in s ensures least <= x {
        if x != y {
          assert x in rest;
        }
      }
      assert least in s;
    }
  }

  /** `sorted(groups)`: the keys, ascending. */
  function SortedKeys(s: set<int>): (r: seq<int>)
    ensures |r| == |s|
    ensures forall x :: x in s <==> x in r
    ensures forall i, j :: 0 <= i < j < |r| ==> r[i] < r[j]
    decreases |s|
  {
    if s == {} then []
    else
      var m := SmallestKey(s);
      var rest := SortedKeys(s - {m});
      PrependSmallest(m, rest, s);
      [m] + rest
  }

  /** The least key, put before the others in ascending order, gives all
      the keys in ascending order. */
  lemma PrependSmallest(m: int, rest: seq<int>, s: set<int>)
    requires m in s && forall x :: x in s ==> m <= x
    requires forall x :: x in s - {m} <==> x in rest
    requires forall i, j :: 0 <= i < j < |rest| ==> rest[i] < rest[j]
    ensures forall x :: x in s <==> x in [m] + rest
    ensures forall i, j :: 0 <= i < j < |[m] + rest| ==> ([m] + rest)[i] < ([m] + rest)[j]
  {
    var r := [m] + rest;
    forall i, j | 0 <= i < j < |r| ensures r[i] < r[j] {
      if i == 0 {
        assert r[j] == rest[j - 1] && rest[j - 1] in s - {m};
      } else {
        assert r[i] == rest[i - 1] && r[j] == rest[j - 1];
      }
    }
  }

  /** A key of a set of rows has a non-empty group. */
  lemma {:induction false} TimingsOfKey(rows: seq<Record>, groupKey: string, k: int)
    requires k in KeySet(rows, groupKey)
    ensures |Timings(rows, groupKey, k)| > 0
    decreases |rows|
  {
    var last := rows[|rows| - 1];
    if !InGroup(last, groupKey, k) {
      var i :| 0 <= i < |rows| && groupKey in rows[i].columns && rows[i].columns[groupKey] == k;
      assert rows[..|rows| - 1][i] == rows[i];
      TimingsOfKey(rows[..|rows| - 1], groupKey, k);
    }
  }

  /** Every key of a set of rows has a non-empty group. */
  lemma KeysHaveTimings(rows: seq<Record>, groupKey: string, keys: seq<int>)
    requires forall i :: 0 <= i < |keys| ==> keys[i] in KeySet(rows, groupKey)
    ensures forall i :: 0 <= i < |keys| ==> |Timings(rows, groupKey, keys[i])| > 0
  {
    forall i | 0 <= i < |keys| ensures |Timings(rows, groupKey, keys[i])| > 0 {
      TimingsOfKey(rows, groupKey, keys[i]);
    }
  }

  /** What `aggregate` returns: None when a row lacks the grouping column
      (the KeyError), otherwise the groups in ascending key order. */
  function Aggregated(rows: seq<Record>, groupKey: string, sqrt: real -> real): Option<seq<Group>> {
    if !AllHaveKey(rows, groupKey) then None
    else
      var keys := SortedKeys(KeySet(rows, groupKey));
      KeysHaveTimings(rows, groupKey, keys);
      Some(seq(|keys|, i requires 0 <= i < |keys| => Stats(keys[i], Timings(rows, groupKey, keys[i]), sqrt)))
  }

  /** `aggregate(rows, group_key)`: fill `groups` row by row, then build one
      entry per key in sorted order. */
  method Aggregate(rows: seq<Record>, groupKey: string, sqrt: real -> real) returns (r: Option<seq<Group>>)
    ensures r == Aggregated(rows, groupKey, sqrt)
  {
    var groups, ok := FillGroups(rows, groupKey);
    if !ok {
      return None;
    }
    var keys := SortedKeys(groups.Keys);
    KeysHaveGroups(rows, groupKey, groups, keys);
    var result := BuildGroups(keys, groups, sqrt);
    EntriesAreGroups(rows, groupKey, groups, keys, result, sqrt);
    return Some(result);
  }

  /** The first loop of `aggregate`: `groups.setdefault(key, []).append(...)`
      for each row in turn; `ok` is false when some row lacks the grouping
      column (the KeyError). */
  method FillGroups(rows: seq<Record>, groupKey: string) returns (groups: map<int, seq<real>>, ok: bool)
    ensures ok == AllHaveKey(rows, groupKey)
    ensures ok ==> groups.Keys == KeySet(rows, groupKey)
    ensures ok ==> forall k :: k in groups ==> groups[k] == Timings(rows, groupKey, k)
  {
    groups := map[];
    for i := 0 to |rows|
      invariant AllHaveKey(rows[..i], groupKey)
      invariant Grouped(rows[..i], groupKey, groups)
    {
      if groupKey !in rows[i].columns {
        return groups, false;
      }
      var key := rows[i].columns[groupKey];
      GroupedStep(rows, groupKey, i, groups);
      groups := groups[key := (if key in groups then groups[key] else []) + [rows[i].timeMs]];
    }
    assert rows[..|rows|] == rows;
    return groups, true;
  }

  /** `groups` holds, for each key of `rows`, exactly the timings of that key. */
  ghost predicate Grouped(rows: seq<Record>, groupKey: string, groups: map<int, seq<real>>) {
    && groups.Keys == KeySet(rows, groupKey)
    && (forall k :: k in groups ==> groups[k] == Timings(rows, groupKey, k))
    && (forall k :: k !in groups ==> Timings(rows, groupKey, k) == [])
  }

  /** Appending row `i`'s timing to its key's list keeps `groups` grouped. */
  lemma GroupedStep(rows: seq<Record>, groupKey: string, i: nat, groups: map<int, seq<real>>)
    requires i < |rows| && groupKey in rows[i].columns && Grouped(rows[..i], groupKey, groups)
    ensures var key := rows[i].columns[groupKey];
            Grouped(rows[..i + 1], groupKey, groups[key := (if key in groups then groups[key] else []) + [rows[i].timeMs]])
  {
    PrefixStep(rows, groupKey, i);
  }

  /** The second loop of `aggregate`: one entry per key, in the order of
      `keys`. */
  method BuildGroups(keys: seq<int>, groups: map<int, seq<real>>, sqrt: real -> real) returns (result: seq<Group>)
    requires forall i :: 0 <= i < |keys| ==> keys[i] in groups && |groups[keys[i]]| > 0
    ensures |result| == |keys|
    ensures forall i :: 0 <= i < |keys| ==> result[i] == Stats(keys[i], groups[keys[i]], sqrt)
  {
    result := [];
    for j := 0 to |keys|
      invariant |result| == j
      invariant forall i :: 0 <= i < j ==> result[i] == Stats(keys[i], groups[keys[i]], sqrt)
    {
      result := result + [Stats(keys[j], groups[keys[j]], sqrt)];
    }
  }

  /** Every sorted key has a non-empty list in `groups`. */
  lemma KeysHaveGroups(rows: seq<Record>, groupKey: string, groups: map<int, seq<real>>, keys: seq<int>)
    requires groups.Keys == KeySet(rows, groupKey)
    requires forall k :: k in groups ==> groups[k] == Timings(rows, groupKey, k)
    requires keys == SortedKeys(groups.Keys)
    ensures forall i :: 0 <= i < |keys| ==> keys[i] in groups && |groups[keys[i]]| > 0
  {
    KeysHaveTimings(rows, groupKey, keys);
  }

  /** The entries built from `groups` are the groups `Aggregated` lists. */
  lemma EntriesAreGroups(rows: seq<Record>, groupKey: string, groups: map<int, seq<real>>, keys: seq<int>,
                         result: seq<Group>, sqrt: real -> real)
    requires forall k :: k in groups ==> groups[k] == Timings(rows, groupKey, k)
    requires forall i :: 0 <= i < |keys| ==> keys[i] in groups && |groups[keys[i]]| > 0
    requires |result| == |keys| && forall i :: 0 <= i < |keys| ==> result[i] == Stats(keys[i], groups[keys[i]], sqrt)
    ensures result == seq(|keys|, i requires 0 <= i < |keys| => Stats(keys[i], Timings(rows, groupKey, keys[i]), sqrt))
  {
    var want := seq(|keys|, i requires 0 <= i < |keys| => Stats(keys[i], Timings(rows, groupKey, keys[i]), sqrt));
    forall i | 0 <= i < |keys| ensures result[i] == want[i] {
      assert groups[keys[i]] == Timings(rows, groupKey, keys[i]);
    }
    SameGroups(result, want);
  }

  /** Lists of groups of equal length that agree at every position are equal. */
  lemma SameGroups(a: seq<Group>, b: seq<Group>)
    requires |a| == |b| && forall i :: 0 <= i < |a| ==> a[i] == b[i]
    ensures a == b
  {
  }

  /** One more row: its key joins the key set and its timing ends its group. */
  lemma PrefixStep(rows: seq<Record>, groupKey: string, i: nat)
    requires i < |rows|
    ensures KeySet(rows[..i + 1], groupKey) ==
            KeySet(rows[..i], groupKey) + (if groupKey in rows[i].columns then {rows[i].columns[groupKey]} else {})
    ensures forall k ::
              Timings(rows[..i + 1], groupKey, k) ==
              Timings(rows[..i], groupKey, k) + (if InGroup(rows[i], groupKey, k) then [rows[i].timeMs] else [])
  {
    var a := rows[..i + 1];
    assert a[..i] == rows[..i];
    assert forall j :: 0 <= j < i ==> a[j] == rows[..i][j];
  }

  // ---- Statistics ----

  /** Values between `lo` and `hi` sum to between `n * lo` and `n * hi`. */
  lemma {:induction false} SumBounds(xs: seq<real>, lo: real, hi: real)
    requires forall i :: 0 <= i < |xs| ==> lo <= xs[i] <= hi
    ensures |xs| as real * lo <= Sum(xs) <= |xs| as real * hi
    decreases |xs|
  {
    if xs != [] {
      var init := xs[..|xs| - 1];
      assert forall i :: 0 <= i < |init| ==> init[i] == xs[i];
      SumBounds(init, lo, hi);
      assert |xs| as real * lo == |init| as real * lo + lo;
      assert |xs| as real * hi == |init| as real * hi + hi;
    }
  }

  /** A bound on `n * c` bounds the quotient by `n`. */
  lemma QuotientBounds(s: real, n: real, lo: real, hi: real)
    requires n > 0.0 && n * lo <= s <= n * hi
    ensures lo <= s / n <= hi
  {
    var q := s / n;
    assert q * n == s;
    assert n * (q - lo) >= 0.0;
    assert n * (hi - q) >= 0.0;
  }

  /** The mean lies between the least and the greatest value. */
  lemma MeanBetween(xs: seq<real>)
    requires |xs| > 0
    ensures Min(xs) <= Mean(xs) <= Max(xs)
  {
    var lo, hi := Min(xs), Max(xs);
    MeanBounds(xs, lo, hi);
  }

  /** Values between `lo` and `hi` have their mean between them too. */
  lemma MeanBounds(xs: seq<real>, lo: real, hi: real)
    requires |xs| > 0 && forall i :: 0 <= i < |xs| ==> lo <= xs[i] <= hi
    ensures lo <= Mean(xs) <= hi
  {
    SumBounds(xs, lo, hi);
    QuotientBounds(Sum(xs), |xs| as real, lo, hi);
  }

  /** Squared deviations are never negative. */
  lemma {:induction false} SquaredDeviationsNonNegative(xs: seq<real>, c: real)
    ensures SquaredDeviations(xs, c) >= 0.0
    decreases |xs|
  {
    if xs != [] {
      SquaredDeviationsNonNegative(xs[..|xs| - 1], c);
      SquareSign(xs[|xs| - 1] - c);
    }
  }

  /** The sample variance is never negative. */
  lemma VarianceNonNegative(xs: seq<real>)
    requires |xs| > 1
    ensures Variance(xs) >= 0.0
  {
    SquaredDeviationsNonNegative(xs, Mean(xs));
  }

  /** `n` copies of `c` sum to `n * c`. */
  lemma {:induction false} SumConstant(xs: seq<real>, c: real)
    requires forall i :: 0 <= i < |xs| ==> xs[i] == c
    ensures Sum(xs) == |xs| as real * c
    decreases |xs|
  {
    if xs != [] {
      var init := xs[..|xs| - 1];
      assert forall i :: 0 <= i < |init| ==> init[i] == xs[i];
      SumConstant(init, c);
      assert |xs| as real * c == |init| as real * c + c;
    }
  }

  /** The squared deviations from `c` vanish exactly when every value is `c`. */
  lemma {:induction false} SquaredDeviationsZero(xs: seq<real>, c: real)
    ensures SquaredDeviations(xs, c) == 0.0 <==> forall i :: 0 <= i < |xs| ==> xs[i] == c
    decreases |xs|
  {
    if xs != [] {
      var init := xs[..|xs| - 1];
      var d := xs[|xs| - 1] - c;
      assert forall i :: 0 <= i < |init| ==> init[i] == xs[i];
      SquaredDeviationsZero(init, c);
      SquaredDeviationsNonNegative(init, c);
      SquareSign(d);
      assert SquaredDeviations(xs, c) == SquaredDeviations(init, c) + Square(d);
      if SquaredDeviations(xs, c) == 0.0 {
        assert d == 0.0;
        forall i | 0 <= i < |xs| ensures xs[i] == c {
          if i < |init| {
            assert init[i] == c;
          }
        }
      }
    }
  }

  /** A square is zero for zero, and otherwise positive. */
  lemma SquareSign(d: real)
    ensures Square(d) >= 0.0
    ensures d != 0.0 ==> Square(d) > 0.0
    ensures d == 0.0 ==> Square(d) == 0.0
  {
    if d > 0.0 {
      PositiveSquare(d);
    } else if d < 0.0 {
      PositiveSquare(-d);
      assert Square(-d) == Square(d);
    }
  }

  /** The square of a positive number is positive. */
  lemma PositiveSquare(a: real)
    requires a > 0.0
    ensures Square(a) > 0.0
  {
    PositiveProduct(a, a);
  }

  /** A product, as a function of its own: a proof aid only. With the
      product of two separate factors in a lemma of its own the solver's
      nonlinear arithmetic proves it positive; `PositiveSquare` does not
      verify without it. */
  function Product(a: real, b: real): real {
    a * b
  }

  /** The product of two positive numbers is positive. */
  lemma PositiveProduct(a: real, b: real)
    requires a > 0.0 && b > 0.0
    ensures Product(a, b) > 0.0
  {
  }

  /** Equal values have that value as their mean. */
  lemma MeanConstant(xs: seq<real>, c: real)
    requires |xs| > 0 && forall i :: 0 <= i < |xs| ==> xs[i] == c
    ensures Mean(xs) == c
  {
    SumConstant(xs, c);
    var n := |xs| as real;
    assert Sum(xs) == n * c;
    assert (n * c) / n == c;
  }

  /** The sample variance is zero exactly when all values are equal. */
  lemma VarianceZero(xs: seq<real>)
    requires |xs| > 1
    ensures Variance(xs) == 0.0 <==> forall i :: 0 <= i < |xs| ==> xs[i] == xs[0]
  {
    var m := Mean(xs);
    var n1 := (|xs| - 1) as real;
    SquaredDeviationsNonNegative(xs, m);
    assert Variance(xs) == 0.0 <==> SquaredDeviations(xs, m) == 0.0 by {
      QuotientZero(SquaredDeviations(xs, m), n1);
    }
    SquaredDeviationsZero(xs, m);
    if forall i :: 0 <= i < |xs| ==> xs[i] == xs[0] {
      MeanConstant(xs, xs[0]);
    }
  }

  /** A quotient by a positive number is zero exactly when its dividend is. */
  lemma QuotientZero(s: real, n: real)
    requires n > 0.0
    ensures s / n == 0.0 <==> s == 0.0
  {
    assert (s / n) * n == s;
  }

  /** An entry's figures: the minimum and maximum are timings and bound all of
      them, the mean lies between them, and the spread is zero for a single
      timing and otherwise the root of a non-negative sample variance that is
      zero exactly when all timings agree. */
  lemma StatsMeans(key: int, timings: seq<real>, sqrt: real -> real)
    requires |timings| > 0
    ensures var g := Stats(key, timings, sqrt);
            && g.key == key && g.timings == timings
            && g.min in timings && g.max in timings
            && (forall i :: 0 <= i < |timings| ==> g.min <= timings[i] <= g.max)
            && g.min <= g.mean <= g.max
            && (|timings| == 1 ==> g.std == 0.0 && g.mean == timings[0])
            && (|timings| > 1 ==>
                  && Variance(timings) >= 0.0
                  && g.std == sqrt(Variance(timings))
                  && (Variance(timings) == 0.0 <==> forall i :: 0 <= i < |timings| ==> timings[i] == timings[0]))
  {
    MeanBetween(timings);
    if |timings| == 1 {
      MeanConstant(timings, timings[0]);
    } else {
      VarianceNonNegative(timings);
      VarianceZero(timings);
    }
  }

  // ---- Grouping ----

  /** Grouping a concatenation concatenates the groups: timings keep the
      input order. */
  lemma {:induction false} TimingsAppend(a: seq<Record>, b: seq<Record>, groupKey: string, k: int)
    ensures Timings(a + b, groupKey, k) == Timings(a, groupKey, k) + Timings(b, groupKey, k)
    decreases |b|
  {
    if b == [] {
      assert a + b == a;
    } else {
      var init := b[..|b| - 1];
      assert (a + b)[..|a + b| - 1] == a + init;
      assert (a + b)[|a + b| - 1] == b[|b| - 1];
      TimingsAppend(a, init, groupKey, k);
    }
  }

  /** Every timing in a group comes from a row of that key, and every row of
      that key gives its timing to the group. */
  lemma {:induction false} TimingsMembers(rows: seq<Record>, groupKey: string, k: int)
    ensures forall x :: x in Timings(rows, groupKey, k) <==>
                        exists i :: 0 <= i < |rows| && InGroup(rows[i], groupKey, k) && rows[i].timeMs == x
    decreases |rows|
  {
    if rows != [] {
      var init := rows[..|rows| - 1];
      TimingsMembers(init, groupKey, k);
      assert forall i :: 0 <= i < |init| ==> init[i] == rows[i];
      forall x | exists i :: 0 <= i < |rows| && InGroup(rows[i], groupKey, k) && rows[i].timeMs == x
        ensures x in Timings(rows, groupKey, k)
      {
        var i :| 0 <= i < |rows| && InGroup(rows[i], groupKey, k) && rows[i].timeMs == x;
        if i < |init| {
          assert InGroup(init[i], groupKey, k) && init[i].timeMs == x;
        }
      }
    }
  }

  /** The groups together hold no more timings than there are rows, and
      exactly as many when every row has the key. */
  lemma {:induction false} TimingsCount(rows: seq<Record>, groupKey: string, k: int)
    ensures |Timings(rows, groupKey, k)| <= |rows|
    ensures (forall i :: 0 <= i < |rows| ==> InGroup(rows[i], groupKey, k)) ==> |Timings(rows, groupKey, k)| == |rows|
    decreases |rows|
  {
    if rows != [] {
      var init := rows[..|rows| - 1];
      assert forall i :: 0 <= i < |init| ==> init[i] == rows[i];
      TimingsCount(init, groupKey, k);
    }
  }

  /** Rows that agree on the grouping column and on `time_ms` group alike:
      nothing else about a row (its solver, its trial) matters, so rows of
      different solvers with the same key share a group. */
  lemma {:induction false} TimingsOnlyKeyAndTime(a: seq<Record>, b: seq<Record>, groupKey: string, k: int)
    requires |a| == |b|
    requires forall i :: 0 <= i < |a| ==> (groupKey in a[i].columns <==> groupKey in b[i].columns)
    requires forall i :: 0 <= i < |a| && groupKey in a[i].columns ==> a[i].columns[groupKey] == b[i].columns[groupKey]
    requires forall i :: 0 <= i < |a| ==> a[i].timeMs == b[i].timeMs
    ensures Timings(a, groupKey, k) == Timings(b, groupKey, k)
    decreases |a|
  {
    if a != [] {
      var ia, ib := a[..|a| - 1], b[..|b| - 1];
      assert forall i :: 0 <= i < |ia| ==> ia[i] == a[i] && ib[i] == b[i];
      TimingsOnlyKeyAndTime(ia, ib, groupKey, k);
    }
  }

  /** The same for the whole result. */
  lemma AggregatedOnlyKeyAndTime(a: seq<Record>, b: seq<Record>, groupKey: string, sqrt: real -> real)
    requires |a| == |b|
    requires forall i :: 0 <= i < |a| ==> (groupKey in a[i].columns <==> groupKey in b[i].columns)
    requires forall i :: 0 <= i < |a| && groupKey in a[i].columns ==> a[i].columns[groupKey] == b[i].columns[groupKey]
    requires forall i :: 0 <= i < |a| ==> a[i].timeMs == b[i].timeMs
    ensures Aggregated(a, groupKey, sqrt) == Aggregated(b, groupKey, sqrt)
  {
    assert AllHaveKey(a, groupKey) == AllHaveKey(b, groupKey);
    if AllHaveKey(a, groupKey) {
      assert KeySet(a, groupKey) == KeySet(b, groupKey);
      var keys := SortedKeys(KeySet(a, groupKey));
      var ga, gb := Aggregated(a, groupKey, sqrt).value, Aggregated(b, groupKey, sqrt).value;
      forall i | 0 <= i < |keys| ensures ga[i] == gb[i] {
        TimingsOnlyKeyAndTime(a, b, groupKey, keys[i]);
      }
      SameGroups(ga, gb);
    }
  }

  // ---- The result ----

  /** `aggregate` raises KeyError exactly when some row lacks the grouping
      column; with no rows it returns the empty list. */
  lemma AggregatedFails(rows: seq<Record>, groupKey: string, sqrt: real -> real)
    ensures Aggregated(rows, groupKey, sqrt).None? <==> exists i :: 0 <= i < |rows| && groupKey !in rows[i].columns
    ensures rows == [] ==> Aggregated(rows, groupKey, sqrt) == Some([])
  {
    if rows == [] {
      assert KeySet(rows, groupKey) == {};
      assert |Aggregated(rows, groupKey, sqrt).value| == 0;
    }
  }

  /** The keys of the entries ascend strictly, and each is the key of the
      entry's timings. */
  lemma AggregatedSorted(rows: seq<Record>, groupKey: string, sqrt: real -> real)
    requires AllHaveKey(rows, groupKey)
    ensures var gs := Aggregated(rows, groupKey, sqrt).value;
            && (forall i, j :: 0 <= i < j < |gs| ==> gs[i].key < gs[j].key)
            && (forall i :: 0 <= i < |gs| ==>
                  |gs[i].timings| > 0 && gs[i].timings == Timings(rows, groupKey, gs[i].key) &&
                  gs[i] == Stats(gs[i].key, gs[i].timings, sqrt))
  {
    var keys := SortedKeys(KeySet(rows, groupKey));
    var gs := Aggregated(rows, groupKey, sqrt).value;
    assert forall i :: 0 <= i < |gs| ==> gs[i].key == keys[i];
  }

  /** There is one entry for each value of the grouping column and no other. */
  lemma AggregatedKeys(rows: seq<Record>, groupKey: string, sqrt: real -> real)
    requires AllHaveKey(rows, groupKey)
    ensures var gs := Aggregated(rows, groupKey, sqrt).value;
            forall k :: k in KeySet(rows, groupKey) <==> exists i :: 0 <= i < |gs| && gs[i].key == k
  {
    var keys := SortedKeys(KeySet(rows, groupKey));
    var gs := Aggregated(rows, groupKey, sqrt).value;
    assert forall i :: 0 <= i < |gs| ==> gs[i].key == keys[i];
    forall k | k in KeySet(rows, groupKey) ensures exists i :: 0 <= i < |gs| && gs[i].key == k {
      var j :| 0 <= j < |keys| && keys[j] == k;
      assert gs[j].key == k;
    }
  }
}
