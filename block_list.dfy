/** The solver's `BlockList` as block_list.cpp implements it: a lazy-deletion
    min-heap `pq` of (node, cost) entries, a map `dists` holding the current
    best cost of every node still waiting, a pull size `M` and a fixed
    `upper_bound`. (The block-based D0/D1 design declared in block_list.h is
    not what the .cpp implements; only `PullResult` is taken from it.)

    Each operation is specified by a function on the abstract contents
    (`Inserted`, `BatchInserted`, `PullLoop`, `DropStale`); the lemmas after
    them state what the source promises about those functions. */
module BlockLists {
  import opened Types
  import opened Heaps

  /** The `(size_t)M` conversion in `frontier.size() < (size_t)M`: a negative
      32-bit `M` wraps to a huge bound. */
  function SizeCap(m: int): nat {
    m % 0x1_0000_0000_0000_0000
  }

  /** The abstract contents of a block list. */
  datatype Contents = Contents(dists: map<int, ExtReal>, pq: Heap)

  /** What `pull` hands back (block_list.h:51-54). */
  datatype PullResult = PullResult(frontier: seq<int>, bound: ExtReal)

  /** The test of `insert`: below the bound, and new or better than the current value. */
  predicate Admits(dists: map<int, ExtReal>, ub: ExtReal, u: int, d: ExtReal) {
    d.Lt(ub) && (u !in dists || d.Lt(dists[u]))
  }

  /** `insert(u, d)` on the contents. */
  function Inserted(c: Contents, ub: ExtReal, u: int, d: ExtReal): Contents {
    if Admits(c.dists, ub, u, d) then Contents(c.dists[u := d], c.pq + multiset{State(u, d)})
    else c
  }

  /** `batch_prepend(elements)`: `insert` applied to each pair in order. */
  function BatchInserted(c: Contents, ub: ExtReal, elements: seq<(int, ExtReal)>): Contents
    decreases |elements|
  {
    if elements == [] then c
    else
      var last := elements[|elements| - 1];
      Inserted(BatchInserted(c, ub, elements[..|elements| - 1]), ub, last.0, last.1)
  }

  /** `dists[k]` with C++ `operator[]`: a missing key reads as (and becomes) 0.0. */
  function Lookup(dists: map<int, ExtReal>, k: int): ExtReal {
    if k in dists then dists[k] else Fin(0.0)
  }

  /** An entry that `is_empty` keeps: its key is waiting and its cost is current. */
  predicate Live(dists: map<int, ExtReal>, s: State) {
    s.nodeId in dists && !dists[s.nodeId].Lt(s.cost)
  }

  /** The state of `pull`'s loop: the map, the heap and the ids collected so far. */
  datatype Pulling = Pulling(dists: map<int, ExtReal>, pq: Heap, frontier: seq<int>)

  /** One iteration of `pull`'s loop (block_list.cpp:20-25): pop the top; read
      its key's value with `operator[]`; skip a stale entry, otherwise collect
      the id and erase the key. */
  function PullStep(dists: map<int, ExtReal>, pq: Heap, frontier: seq<int>): (p: Pulling)
    requires |pq| > 0
    ensures p.pq == Pop(pq)
    ensures p.frontier == frontier || p.frontier == frontier + [Top(pq).nodeId]
  {
    var top := Top(pq);
    var cur := Lookup(dists, top.nodeId);
    var touched := dists[top.nodeId := cur];
    if cur.Lt(top.cost) then Pulling(touched, Pop(pq), frontier)
    else Pulling(touched - {top.nodeId}, Pop(pq), frontier + [top.nodeId])
  }

  /** The rest of `pull`'s loop (block_list.cpp:19-26) from the given state,
      collecting at most `cap` ids. */
  function PullLoop(dists: map<int, ExtReal>, pq: Heap, frontier: seq<int>, cap: nat): Pulling
    decreases |pq|
  {
    if |pq| == 0 || |frontier| >= cap then Pulling(dists, pq, frontier)
    else
      var p := PullStep(dists, pq, frontier);
      PullLoop(p.dists, p.pq, p.frontier, cap)
  }

  /** The bound `pull` returns (block_list.cpp:27). */
  function NextBound(pq: Heap, ub: ExtReal): ExtReal {
    if |pq| == 0 then ub else Top(pq).cost
  }

  /** `is_empty`'s loop (block_list.cpp:32-35): pop stale entries off the top. */
  function DropStale(dists: map<int, ExtReal>, pq: Heap): Heap
    decreases |pq|
  {
    if |pq| == 0 || Live(dists, Top(pq)) then pq else DropStale(dists, Pop(pq))
  }

  /** Every entry in the heap is below the upper bound. */
  ghost predicate BelowBound(pq: Heap, ub: ExtReal) {
    forall s :: s in pq ==> s.cost.Lt(ub)
  }

  // ---------------------------------------------------------------------------
  // insert and batch_prepend

  /** `insert` changes the contents exactly when the pair is admitted, and then
      records `d` as `u`'s value and pushes `(u, d)`; no other key changes. */
  lemma InsertChangesOnlyWhenAdmitted(c: Contents, ub: ExtReal, u: int, d: ExtReal)
    ensures Inserted(c, ub, u, d) != c <==> Admits(c.dists, ub, u, d)
    ensures Admits(c.dists, ub, u, d) ==>
              Inserted(c, ub, u, d).dists[u] == d &&
              Inserted(c, ub, u, d).pq == c.pq + multiset{State(u, d)}
    ensures forall k :: k != u ==>
              (k in Inserted(c, ub, u, d).dists <==> k in c.dists) &&
              (k in c.dists ==> Inserted(c, ub, u, d).dists[k] == c.dists[k])
  {
    if Admits(c.dists, ub, u, d) {
      assert State(u, d) in Inserted(c, ub, u, d).pq;
      assert Inserted(c, ub, u, d).pq[State(u, d)] == c.pq[State(u, d)] + 1;
    }
  }

  /** `insert` keeps every heap entry below the upper bound. */
  lemma InsertKeepsBound(c: Contents, ub: ExtReal, u: int, d: ExtReal)
    requires BelowBound(c.pq, ub)
    ensures BelowBound(Inserted(c, ub, u, d).pq, ub)
  {
  }

  /** `batch_prepend` keeps every heap entry below the upper bound. */
  lemma {:induction false} BatchKeepsBound(c: Contents, ub: ExtReal, elements: seq<(int, ExtReal)>)
    requires BelowBound(c.pq, ub)
    ensures BelowBound(BatchInserted(c, ub, elements).pq, ub)
    decreases |elements|
  {
    if elements != [] {
      var last := elements[|elements| - 1];
      BatchKeepsBound(c, ub, elements[..|elements| - 1]);
      InsertKeepsBound(BatchInserted(c, ub, elements[..|elements| - 1]), ub, last.0, last.1);
    }
  }

  /** A pair of the batch that `insert` would look at: key `u`, in-bound value. */
  ghost predicate Offered(elements: seq<(int, ExtReal)>, ub: ExtReal, u: int, i: int) {
    0 <= i < |elements| && elements[i].0 == u && elements[i].1.Lt(ub)
  }

  /** After `batch_prepend`, per key only the smallest in-bound value survives:
      a key is present iff it was present before or offered with an in-bound
      value; its value is no larger than its old value and every value offered
      for it; and it is its old value or one of the offered values. */
  lemma BatchKeepsSmallest(c: Contents, ub: ExtReal, elements: seq<(int, ExtReal)>, u: int)
    ensures var r := BatchInserted(c, ub, elements);
            u in r.dists <==> u in c.dists || exists i :: Offered(elements, ub, u, i)
    ensures var r := BatchInserted(c, ub, elements);
            forall i :: Offered(elements, ub, u, i) ==> u in r.dists && r.dists[u].Le(elements[i].1)
    ensures var r := BatchInserted(c, ub, elements);
            u in c.dists ==> u in r.dists && r.dists[u].Le(c.dists[u])
    ensures var r := BatchInserted(c, ub, elements);
            u in r.dists ==> (u in c.dists && r.dists[u] == c.dists[u]) ||
                             exists i :: Offered(elements, ub, u, i) && r.dists[u] == elements[i].1
    ensures c.pq <= BatchInserted(c, ub, elements).pq
  {
    BatchKeyPresence(c, ub, elements, u);
    BatchValueBounds(c, ub, elements, u);
    BatchValueOrigin(c, ub, elements, u);
  }

  /** A key is present after `batch_prepend` iff it was present before or
      offered with an in-bound value; the heap only grows. */
  lemma {:induction false} BatchKeyPresence(c: Contents, ub: ExtReal, elements: seq<(int, ExtReal)>, u: int)
    ensures var r := BatchInserted(c, ub, elements);
            u in r.dists <==> u in c.dists || exists i :: Offered(elements, ub, u, i)
    ensures c.pq <= BatchInserted(c, ub, elements).pq
    decreases |elements|
  {
    if elements != [] {
      var init := elements[..|elements| - 1];
      var last := elements[|elements| - 1];
      BatchKeyPresence(c, ub, init, u);
      var p := BatchInserted(c, ub, init);
      var r := BatchInserted(c, ub, elements);
      assert r == Inserted(p, ub, last.0, last.1);
      forall i | Offered(init, ub, u, i) ensures Offered(elements, ub, u, i) { }
      if Offered(elements, ub, u, |elements| - 1) {
        if !Admits(p.dists, ub, u, last.1) {
          assert u in p.dists;
        }
      } else {
        forall i | Offered(elements, ub, u, i) ensures Offered(init, ub, u, i) { }
      }
    }
  }

  /** After `batch_prepend` a key's value is at most its old value and every
      in-bound value offered for it. */
  lemma {:induction false} BatchValueBounds(c: Contents, ub: ExtReal, elements: seq<(int, ExtReal)>, u: int)
    ensures var r := BatchInserted(c, ub, elements);
            forall i :: Offered(elements, ub, u, i) ==> u in r.dists && r.dists[u].Le(elements[i].1)
    ensures var r := BatchInserted(c, ub, elements);
            u in c.dists ==> u in r.dists && r.dists[u].Le(c.dists[u])
    decreases |elements|
  {
    if elements != [] {
      var init := elements[..|elements| - 1];
      var last := elements[|elements| - 1];
      BatchValueBounds(c, ub, init, u);
      var p := BatchInserted(c, ub, init);
      var r := BatchInserted(c, ub, elements);
      assert r == Inserted(p, ub, last.0, last.1);
      if last.0 == u && Admits(p.dists, ub, u, last.1) {
        forall i | Offered(elements, ub, u, i) ensures r.dists[u].Le(elements[i].1) {
          if i < |init| {
            assert Offered(init, ub, u, i);
            LtIsStrictTotalOrder(last.1, p.dists[u], elements[i].1);
          }
        }
        if u in c.dists {
          LtIsStrictTotalOrder(last.1, p.dists[u], c.dists[u]);
        }
      } else {
        forall i | Offered(elements, ub, u, i) ensures u in r.dists && r.dists[u].Le(elements[i].1) {
          if i < |init| {
            assert Offered(init, ub, u, i);
          } else {
            LtIsStrictTotalOrder(last.1, p.dists[u], last.1);
          }
        }
      }
    }
  }

  /** After `batch_prepend` a key's value is its old value or one of the
      in-bound values offered for it. */
  lemma {:induction false} BatchValueOrigin(c: Contents, ub: ExtReal, elements: seq<(int, ExtReal)>, u: int)
    ensures var r := BatchInserted(c, ub, elements);
            u in r.dists ==> (u in c.dists && r.dists[u] == c.dists[u]) ||
                             exists i :: Offered(elements, ub, u, i) && r.dists[u] == elements[i].1
    decreases |elements|
  {
    if elements != [] {
      var init := elements[..|elements| - 1];
      var last := elements[|elements| - 1];
      BatchValueOrigin(c, ub, init, u);
      var p := BatchInserted(c, ub, init);
      var r := BatchInserted(c, ub, elements);
      assert r == Inserted(p, ub, last.0, last.1);
      if last.0 == u && Admits(p.dists, ub, u, last.1) {
        assert Offered(elements, ub, u, |elements| - 1);
      } else if u in r.dists && !(u in c.dists && r.dists[u] == c.dists[u]) {
        var i :| Offered(init, ub, u, i) && p.dists[u] == init[i].1;
        assert Offered(elements, ub, u, i);
      }
    }
  }

  // ---------------------------------------------------------------------------
  // pull

  /** `pull` returns at most `cap` ids and only adds to the ids collected so
      far; if it stops with entries left, it has collected `cap` ids. */
  lemma PullCollectsAtMostCap(dists: map<int, ExtReal>, pq: Heap, frontier: seq<int>, cap: nat)
    requires |frontier| <= cap
    ensures var r := PullLoop(dists, pq, frontier, cap);
            |frontier| <= |r.frontier| <= cap && r.frontier[..|frontier|] == frontier
    ensures var r := PullLoop(dists, pq, frontier, cap);
            |r.pq| > 0 ==> |r.frontier| == cap
  {
    PullExtendsFrontier(dists, pq, frontier, cap);
    PullStopsFull(dists, pq, frontier, cap);
  }

  /** `pull` returns at most `cap` ids and only adds to the ids collected so far. */
  lemma {:induction false} PullExtendsFrontier(dists: map<int, ExtReal>, pq: Heap, frontier: seq<int>, cap: nat)
    requires |frontier| <= cap
    ensures var r := PullLoop(dists, pq, frontier, cap);
            |frontier| <= |r.frontier| <= cap && r.frontier[..|frontier|] == frontier
    decreases |pq|
  {
    if !(|pq| == 0 || |frontier| >= cap) {
      var p := PullStep(dists, pq, frontier);
      PullExtendsFrontier(p.dists, p.pq, p.frontier, cap);
      var r := PullLoop(dists, pq, frontier, cap);
      assert r == PullLoop(p.dists, p.pq, p.frontier, cap);
      assert r.frontier[..|p.frontier|] == p.frontier;
      assert r.frontier[..|frontier|] == p.frontier[..|frontier|];
    }
  }

  /** If `pull` stops with entries left, it has collected `cap` ids. */
  lemma {:induction false} PullStopsFull(dists: map<int, ExtReal>, pq: Heap, frontier: seq<int>, cap: nat)
    requires |frontier| <= cap
    ensures var r := PullLoop(dists, pq, frontier, cap);
            |r.pq| > 0 ==> |r.frontier| == cap
    decreases |pq|
  {
    if !(|pq| == 0 || |frontier| >= cap) {
      var p := PullStep(dists, pq, frontier);
      PullStopsFull(p.dists, p.pq, p.frontier, cap);
      assert PullLoop(dists, pq, frontier, cap) == PullLoop(p.dists, p.pq, p.frontier, cap);
    }
  }

  /** `pull` only removes entries from the heap, and each removed entry precedes
      every entry left behind. */
  lemma {:induction false} PullTakesSmallest(dists: map<int, ExtReal>, pq: Heap, frontier: seq<int>, cap: nat)
    ensures PullLoop(dists, pq, frontier, cap).pq <= pq
    ensures var r := PullLoop(dists, pq, frontier, cap);
            forall s, t :: s in pq - r.pq && t in r.pq ==> NotAfter(s, t)
    decreases |pq|
  {
    if !(|pq| == 0 || |frontier| >= cap) {
      var p := PullStep(dists, pq, frontier);
      PullTakesSmallest(p.dists, p.pq, p.frontier, cap);
      var r := PullLoop(dists, pq, frontier, cap);
      var top := Top(pq);
      PopKeepsOrder(pq);
      forall s, t | s in pq - r.pq && t in r.pq ensures NotAfter(s, t) {
        assert t in Pop(pq);
        if s != top {
          assert pq[s] == Pop(pq)[s];
          assert s in Pop(pq) - r.pq;
        }
      }
    }
  }

  /** Every entry `pull` removes has cost at most the returned bound, which is
      at most every cost left in the heap and at most the upper bound; the
      bound equals the upper bound iff the heap was emptied. */
  lemma PullBound(dists: map<int, ExtReal>, pq: Heap, cap: nat, ub: ExtReal)
    requires BelowBound(pq, ub)
    ensures var r := PullLoop(dists, pq, [], cap);
            var b := NextBound(r.pq, ub);
            (forall s :: s in pq - r.pq ==> s.cost.Le(b)) &&
            (forall t :: t in r.pq ==> b.Le(t.cost)) &&
            b.Le(ub) &&
            (b == ub <==> |r.pq| == 0)
  {
    PullTakesSmallest(dists, pq, [], cap);
    var r := PullLoop(dists, pq, [], cap);
    var b := NextBound(r.pq, ub);
    assert forall s :: s in r.pq ==> s in pq;
    if |r.pq| > 0 {
      var top := Top(r.pq);
      forall s | s in pq - r.pq ensures s.cost.Le(b) {
        NotAfterCost(s, top);
      }
      forall t | t in r.pq ensures b.Le(t.cost) {
        NotAfterCost(top, t);
      }
      LtIsStrictTotalOrder(b, ub, b);
    }
  }

  /** The heap `pull` leaves behind keeps every entry below the upper bound. */
  lemma PullKeepsBound(dists: map<int, ExtReal>, pq: Heap, cap: nat, ub: ExtReal)
    requires BelowBound(pq, ub)
    ensures BelowBound(PullLoop(dists, pq, [], cap).pq, ub)
  {
    PullTakesSmallest(dists, pq, [], cap);
  }

  /** On an empty heap `pull` returns no ids and the upper bound, changing nothing. */
  lemma PullOnEmpty(dists: map<int, ExtReal>, cap: nat, ub: ExtReal)
    ensures PullLoop(dists, multiset{}, [], cap) == Pulling(dists, multiset{}, [])
    ensures NextBound(multiset{}, ub) == ub
  {
  }

  /** What a removed entry's cost was checked against: the node's value in
      `dists`, or 0.0 for an absent key. */
  ghost predicate PassedCheck(dists: map<int, ExtReal>, s: State) {
    s.cost.Le(Fin(0.0)) || (s.nodeId in dists && s.cost.Le(dists[s.nodeId]))
  }

  /** Each id `pull` returns comes from a removed entry of that node whose cost
      was at most the node's value in `dists`; the value of an absent key, and
      of a key erased earlier in the same pull, reads as 0.0. */
  lemma {:induction false} PullReturnsLiveEntries(dists: map<int, ExtReal>, pq: Heap, frontier: seq<int>, cap: nat, i: int)
    requires |frontier| <= i < |PullLoop(dists, pq, frontier, cap).frontier|
    ensures var r := PullLoop(dists, pq, frontier, cap);
            exists s :: s in pq - r.pq && s.nodeId == r.frontier[i] && PassedCheck(dists, s)
    decreases |pq|
  {
    var r := PullLoop(dists, pq, frontier, cap);
    assert !(|pq| == 0 || |frontier| >= cap);
    var p := PullStep(dists, pq, frontier);
    var top := Top(pq);
    assert r == PullLoop(p.dists, p.pq, p.frontier, cap);
    PullTakesSmallest(p.dists, p.pq, p.frontier, cap);
    assert r.pq <= Pop(pq);
    if i < |p.frontier| {
      StepCollectsPassedTop(dists, pq, frontier);
      assert |p.frontier| <= cap;
      PullCollectsAtMostCap(p.dists, p.pq, p.frontier, cap);
      assert r.frontier[i] == r.frontier[..|p.frontier|][i] == p.frontier[i] == top.nodeId;
      RemovedFromPop(pq, r.pq, top);
    } else {
      PullReturnsLiveEntries(p.dists, p.pq, p.frontier, cap, i);
      var s :| s in Pop(pq) - r.pq && s.nodeId == r.frontier[i] && PassedCheck(p.dists, s);
      StepKeepsPassed(dists, pq, frontier, s);
      RemovedFromPop(pq, r.pq, s);
    }
  }

  /** An entry removed after the first pop, like the top, was removed from the heap. */
  lemma RemovedFromPop(pq: Heap, rest: Heap, s: State)
    requires |pq| > 0 && rest <= Pop(pq)
    requires s == Top(pq) || s in Pop(pq) - rest
    ensures s in pq - rest
  {
    assert pq[Top(pq)] == Pop(pq)[Top(pq)] + 1;
    assert pq[s] >= Pop(pq)[s];
  }

  /** A step that collects an id collects the top, which passed the check. */
  lemma StepCollectsPassedTop(dists: map<int, ExtReal>, pq: Heap, frontier: seq<int>)
    requires |pq| > 0
    ensures var p := PullStep(dists, pq, frontier);
            |p.frontier| > |frontier| ==> p.frontier == frontier + [Top(pq).nodeId] && PassedCheck(dists, Top(pq))
  {
    var top := Top(pq);
    LtIsStrictTotalOrder(top.cost, Lookup(dists, top.nodeId), top.cost);
  }

  /** An entry that passes the check against the map after a step passed it before. */
  lemma StepKeepsPassed(dists: map<int, ExtReal>, pq: Heap, frontier: seq<int>, s: State)
    requires |pq| > 0
    requires PassedCheck(PullStep(dists, pq, frontier).dists, s)
    ensures PassedCheck(dists, s)
  {
  }

  /** When the top entry is live, a `pull` with room for an id returns it first. */
  lemma {:induction false} PullReturnsLiveTop(dists: map<int, ExtReal>, pq: Heap, cap: nat)
    requires |pq| > 0 && Live(dists, Top(pq)) && cap >= 1
    ensures var r := PullLoop(dists, pq, [], cap);
            |r.frontier| > 0 && r.frontier[0] == Top(pq).nodeId
  {
    var p := PullStep(dists, pq, []);
    assert p.frontier == [Top(pq).nodeId];
    PullCollectsAtMostCap(p.dists, p.pq, p.frontier, cap);
    var r := PullLoop(dists, pq, [], cap);
    assert r == PullLoop(p.dists, p.pq, p.frontier, cap);
    assert |r.frontier| >= 1;
    assert r.frontier[0] == r.frontier[..1][0] == p.frontier[0];
  }

  /** With nothing inserted in between, the bound of a later `pull` (or of a
      heap `is_empty` has cleaned) is never below that of an earlier one. */
  lemma BoundsNondecreasing(earlier: Heap, later: Heap, ub: ExtReal)
    requires later <= earlier && BelowBound(earlier, ub)
    ensures NextBound(earlier, ub).Le(NextBound(later, ub))
  {
    if |later| > 0 {
      TopOfSubHeap(later, earlier);
      NotAfterCost(Top(earlier), Top(later));
    } else if |earlier| > 0 {
      assert Top(earlier) in earlier;
    }
  }

  // ---------------------------------------------------------------------------
  // is_empty

  /** `is_empty` removes only stale entries from the top and leaves every live
      entry; it reports empty exactly when no live entry was in the heap, and
      otherwise leaves a live entry on top. */
  lemma DropStaleKeepsLive(dists: map<int, ExtReal>, pq: Heap)
    ensures DropStale(dists, pq) <= pq
    ensures forall s :: s in pq && Live(dists, s) ==> DropStale(dists, pq)[s] == pq[s]
    ensures forall s :: s in pq - DropStale(dists, pq) ==> !Live(dists, s)
    ensures |DropStale(dists, pq)| == 0 <==> forall s :: s in pq ==> !Live(dists, s)
    ensures |DropStale(dists, pq)| > 0 ==> Live(dists, Top(DropStale(dists, pq)))
  {
    DropStaleRemovesStale(dists, pq);
    DropStaleKeepsLiveEntries(dists, pq);
    DropStaleLeavesLiveTop(dists, pq);
  }

  /** The entries `is_empty` removes are stale. */
  lemma {:induction false} DropStaleRemovesStale(dists: map<int, ExtReal>, pq: Heap)
    ensures DropStale(dists, pq) <= pq
    ensures forall s :: s in pq - DropStale(dists, pq) ==> !Live(dists, s)
    decreases |pq|
  {
    if !(|pq| == 0 || Live(dists, Top(pq))) {
      var top := Top(pq);
      DropStaleRemovesStale(dists, Pop(pq));
      var rest := Pop(pq);
      var r := DropStale(dists, pq);
      assert r == DropStale(dists, rest);
      assert pq == rest + multiset{top};
      forall s | s in pq - r ensures !Live(dists, s) {
        if s != top {
          assert (pq - r)[s] == (rest - r)[s];
        }
      }
    }
  }

  /** `is_empty` keeps every copy of every live entry. */
  lemma {:induction false} DropStaleKeepsLiveEntries(dists: map<int, ExtReal>, pq: Heap)
    ensures forall s :: s in pq && Live(dists, s) ==> DropStale(dists, pq)[s] == pq[s]
    decreases |pq|
  {
    if !(|pq| == 0 || Live(dists, Top(pq))) {
      var top := Top(pq);
      DropStaleKeepsLiveEntries(dists, Pop(pq));
      var r := DropStale(dists, pq);
      assert r == DropStale(dists, Pop(pq));
      forall s | s in pq && Live(dists, s) ensures r[s] == pq[s] {
        assert s != top;
        assert pq[s] == Pop(pq)[s];
      }
    }
  }

  /** `is_empty` empties the heap exactly when no entry is live, and
      otherwise stops at a live top. */
  lemma {:induction false} DropStaleLeavesLiveTop(dists: map<int, ExtReal>, pq: Heap)
    ensures |DropStale(dists, pq)| == 0 <==> forall s :: s in pq ==> !Live(dists, s)
    ensures |DropStale(dists, pq)| > 0 ==> Live(dists, Top(DropStale(dists, pq)))
    decreases |pq|
  {
    if |pq| > 0 {
      var top := Top(pq);
      if Live(dists, top) {
        assert DropStale(dists, pq) == pq;
      } else {
        DropStaleLeavesLiveTop(dists, Pop(pq));
        assert DropStale(dists, pq) == DropStale(dists, Pop(pq));
        assert pq == Pop(pq) + multiset{top};
      }
    }
  }

  /** The loop of `pull` (block_list.cpp:19-26) on the map and the heap:
      pop the top, read its key with `operator[]`, skip it when stale,
      otherwise collect the id and erase the key, until the heap is empty or
      `cap` ids are collected. */
  method PullEntries(dists: map<int, ExtReal>, pq: Heap, cap: nat)
    returns (d: map<int, ExtReal>, h: Heap, frontier: seq<int>)
    ensures Pulling(d, h, frontier) == PullLoop(dists, pq, [], cap)
  {
    frontier := [];
    d, h := dists, pq;
    while |h| > 0 && |frontier| < cap
      invariant PullLoop(d, h, frontier, cap) == PullLoop(dists, pq, [], cap)
      decreases |h|
    {
      ghost var step := PullStep(d, h, frontier);
      var top := Top(h);
      h := Pop(h);
      var cur := Lookup(d, top.nodeId);
      d := d[top.nodeId := cur];
      if cur.Lt(top.cost) {
        assert step == Pulling(d, h, frontier);
        continue;
      }
      frontier := frontier + [top.nodeId];
      d := d - {top.nodeId};
      assert step == Pulling(d, h, frontier);
    }
  }

  /** The loop of `is_empty` (block_list.cpp:32-35) on the heap: pop the top
      while its key is no longer waiting or has a smaller value. */
  method DropStaleEntries(dists: map<int, ExtReal>, pq: Heap) returns (h: Heap)
    ensures h == DropStale(dists, pq)
  {
    h := pq;
    while |h| > 0 && (Top(h).nodeId !in dists || dists[Top(h).nodeId].Lt(Top(h).cost))
      invariant DropStale(dists, h) == DropStale(dists, pq)
      decreases |h|
    {
      h := Pop(h);
    }
  }

  /** `is_empty` keeps every heap entry below the upper bound. */
  lemma DropStaleKeepsBound(dists: map<int, ExtReal>, pq: Heap, ub: ExtReal)
    requires BelowBound(pq, ub)
    ensures BelowBound(DropStale(dists, pq), ub)
  {
    DropStaleRemovesStale(dists, pq);
    forall s | s in DropStale(dists, pq) ensures s.cost.Lt(ub) {
      assert s in pq;
    }
  }

  // ---------------------------------------------------------------------------
  // pulling until empty (test_block_list.cpp:379-409)

  /** Every key waits in the heap exactly once, at its current value, and the
      heap holds nothing else: what inserting distinct keys leaves. */
  ghost predicate Exact(dists: map<int, ExtReal>, pq: Heap) {
    && (forall s :: s in pq ==> s.nodeId in dists && dists[s.nodeId] == s.cost)
    && (forall u :: u in dists ==> pq[State(u, dists[u])] == 1)
  }

  /** Inserting a key that is not waiting keeps the contents exact. */
  lemma InsertNewExact(c: Contents, ub: ExtReal, u: int, d: ExtReal)
    requires Exact(c.dists, c.pq) && u !in c.dists
    ensures var r := Inserted(c, ub, u, d);
            Exact(r.dists, r.pq) && r.dists.Keys <= c.dists.Keys + {u}
  {
    if Admits(c.dists, ub, u, d) {
      var r := Inserted(c, ub, u, d);
      assert State(u, d) !in c.pq;
      forall v | v in r.dists ensures r.pq[State(v, r.dists[v])] == 1 {
        if v != u {
          assert State(v, r.dists[v]) != State(u, d);
        }
      }
    }
  }

  /** The keys of `elements` are distinct. */
  predicate DistinctKeys(elements: seq<(int, ExtReal)>) {
    forall i, j :: 0 <= i < j < |elements| ==> elements[i].0 != elements[j].0
  }

  /** Inserting pairs with distinct keys, none of them waiting, keeps the
      contents exact; the keys afterwards are the old ones and some of the
      inserted ones. */
  lemma {:induction false} BatchNewExact(c: Contents, ub: ExtReal, elements: seq<(int, ExtReal)>)
    requires Exact(c.dists, c.pq) && DistinctKeys(elements)
    requires forall i :: 0 <= i < |elements| ==> elements[i].0 !in c.dists
    ensures var r := BatchInserted(c, ub, elements);
            Exact(r.dists, r.pq) &&
            forall x :: x in r.dists ==> x in c.dists || exists i :: 0 <= i < |elements| && elements[i].0 == x
    decreases |elements|
  {
    if elements != [] {
      var init := elements[..|elements| - 1];
      var last := elements[|elements| - 1];
      BatchNewExact(c, ub, init);
      var p := BatchInserted(c, ub, init);
      forall x | x in p.dists ensures x != last.0 {
        if x !in c.dists {
          var i :| 0 <= i < |init| && init[i].0 == x;
          assert elements[i].0 == x;
        }
      }
      InsertNewExact(p, ub, last.0, last.1);
      var r := BatchInserted(c, ub, elements);
      forall x | x in r.dists ensures x in c.dists || exists i :: 0 <= i < |elements| && elements[i].0 == x {
        if x != last.0 && x !in c.dists {
          var i :| 0 <= i < |init| && init[i].0 == x;
          assert elements[i].0 == x;
        }
      }
    }
  }

  /** On exact contents `is_empty` drops nothing: every entry is live. */
  lemma ExactLive(dists: map<int, ExtReal>, pq: Heap)
    requires Exact(dists, pq)
    ensures DropStale(dists, pq) == pq
    ensures |pq| > 0 ==> Live(dists, Top(pq))
  {
    if |pq| > 0 {
      LtIsStrictTotalOrder(Top(pq).cost, Top(pq).cost, Top(pq).cost);
    }
  }

  /** Removing a member from a set takes exactly that one out of its multiset. */
  lemma RemoveKey(keys: set<int>, u: int)
    requires u in keys
    ensures multiset(keys - {u}) + multiset{u} == multiset(keys)
  {
    assert keys == (keys - {u}) + {u};
  }

  /** One step of `pull` on exact contents collects the top's key and erases
      it, leaving the rest exact. */
  lemma PullStepExact(dists: map<int, ExtReal>, pq: Heap, frontier: seq<int>)
    requires Exact(dists, pq) && |pq| > 0
    ensures var u := Top(pq).nodeId;
            var p := PullStep(dists, pq, frontier);
            u in dists && p.frontier == frontier + [u] && p.dists == dists - {u} && Exact(p.dists, p.pq)
  {
    var top := Top(pq);
    var u := top.nodeId;
    ExactLive(dists, pq);
    assert dists[u := dists[u]] == dists;
    var rest := Pop(pq);
    assert rest + multiset{top} == pq;
    forall v | v in dists - {u} ensures rest[State(v, dists[v])] == 1 {
      assert State(v, dists[v]) != top;
    }
  }

  /** `pull` on exact contents leaves them exact, and the ids it adds,
      together with the keys still waiting, are the keys it started with,
      each once. */
  lemma {:induction false} PullLoopExact(dists: map<int, ExtReal>, pq: Heap, frontier: seq<int>, cap: nat)
    requires Exact(dists, pq)
    ensures var r := PullLoop(dists, pq, frontier, cap);
            Exact(r.dists, r.pq) &&
            multiset(r.frontier) + multiset(r.dists.Keys) == multiset(frontier) + multiset(dists.Keys)
    decreases |pq|
  {
    if !(|pq| == 0 || |frontier| >= cap) {
      var u := Top(pq).nodeId;
      var p := PullStep(dists, pq, frontier);
      PullStepExact(dists, pq, frontier);
      PullLoopExact(p.dists, p.pq, p.frontier, cap);
      assert p.dists.Keys == dists.Keys - {u};
      RemoveKey(dists.Keys, u);
    }
  }

  /** Each step of `pull` pops one entry and collects at most one id. */
  lemma {:induction false} PullPops(dists: map<int, ExtReal>, pq: Heap, frontier: seq<int>, cap: nat)
    ensures var r := PullLoop(dists, pq, frontier, cap);
            |r.pq| + |r.frontier| <= |pq| + |frontier|
    decreases |pq|
  {
    if !(|pq| == 0 || |frontier| >= cap) {
      var p := PullStep(dists, pq, frontier);
      PullPops(p.dists, p.pq, p.frontier, cap);
    }
  }

  /** `is_empty` only drops entries. */
  lemma {:induction false} DropStaleShrinks(dists: map<int, ExtReal>, pq: Heap)
    ensures |DropStale(dists, pq)| <= |pq|
    decreases |pq|
  {
    if !(|pq| == 0 || Live(dists, Top(pq))) {
      DropStaleShrinks(dists, Pop(pq));
    }
  }

  /** A pull after `is_empty` that returns some id leaves fewer entries. */
  lemma DrainShrinks(dists: map<int, ExtReal>, pq: Heap, cap: nat)
    ensures var r := PullLoop(dists, DropStale(dists, pq), [], cap);
            r.frontier != [] ==> |r.pq| < |pq|
  {
    DropStaleShrinks(dists, pq);
    PullPops(dists, DropStale(dists, pq), [], cap);
  }

  /** The ids `pull` returns, one pull after another, while `is_empty` says
      no and a pull returns some id (test_block_list.cpp:395-407). */
  function Drain(dists: map<int, ExtReal>, pq: Heap, cap: nat): seq<int>
    decreases |pq|
  {
    var h := DropStale(dists, pq);
    if |h| == 0 then []
    else
      var r := PullLoop(dists, h, [], cap);
      if r.frontier == [] then []
      else
        DrainShrinks(dists, pq, cap);
        r.frontier + Drain(r.dists, r.pq, cap)
  }

  /** Pulling exact contents until `is_empty` says yes returns every key
      exactly once and nothing else (test_block_list.cpp:409). */
  lemma {:induction false} DrainReturnsEachKeyOnce(dists: map<int, ExtReal>, pq: Heap, cap: nat)
    requires Exact(dists, pq) && cap >= 1
    ensures multiset(Drain(dists, pq, cap)) == multiset(dists.Keys)
    ensures forall u :: multiset(Drain(dists, pq, cap))[u] == if u in dists then 1 else 0
    decreases |pq|
  {
    ExactLive(dists, pq);
    if |pq| == 0 {
      assert forall u :: u in dists ==> State(u, dists[u]) in pq;
      assert dists.Keys == {};
    } else {
      var r := PullLoop(dists, pq, [], cap);
      PullReturnsLiveTop(dists, pq, cap);
      PullLoopExact(dists, pq, [], cap);
      DrainShrinks(dists, pq, cap);
      DrainReturnsEachKeyOnce(r.dists, r.pq, cap);
      assert Drain(dists, pq, cap) == r.frontier + Drain(r.dists, r.pq, cap);
    }
  }

  // ---------------------------------------------------------------------------
  // the class

  class BlockList {
    var M: int
    var upperBound: ExtReal
    var dists: map<int, ExtReal>
    var pq: Heap

    /** Every waiting entry lies below the upper bound. */
    ghost predicate Valid()
      reads this
    {
      BelowBound(pq, upperBound)
    }

    /** The abstract contents. */
    function Model(): Contents
      reads this
    {
      Contents(dists, pq)
    }

    /** `BlockList(m_val, b_val)` (block_list.cpp:3). */
    constructor (mVal: int, bVal: ExtReal)
      ensures Valid()
      ensures M == mVal && upperBound == bVal
      ensures dists == map[] && pq == multiset{}
    {
      M := mVal;
      upperBound := bVal;
      dists := map[];
      pq := multiset{};
    }

    /** `insert(u, d)` (block_list.cpp:5-10). */
    method Insert(u: int, d: ExtReal)
      requires Valid()
      modifies this
      ensures Valid() && M == old(M) && upperBound == old(upperBound)
      ensures Model() == Inserted(old(Model()), upperBound, u, d)
    {
      if d.Lt(upperBound) && (u !in dists || d.Lt(dists[u])) {
        dists := dists[u := d];
        pq := pq + multiset{State(u, d)};
      }
    }

    /** `batch_prepend(elements)` (block_list.cpp:12-15). */
    method BatchPrepend(elements: seq<(int, ExtReal)>)
      requires Valid()
      modifies this
      ensures Valid() && M == old(M) && upperBound == old(upperBound)
      ensures Model() == BatchInserted(old(Model()), upperBound, elements)
    {
      for i := 0 to |elements|
        invariant Valid() && M == old(M) && upperBound == old(upperBound)
        invariant Model() == BatchInserted(old(Model()), upperBound, elements[..i])
      {
        assert elements[..i + 1][..i] == elements[..i];
        Insert(elements[i].0, elements[i].1);
      }
      assert elements[..|elements|] == elements;
    }

    /** `pull()` (block_list.cpp:17-29). */
    method Pull() returns (result: PullResult)
      requires Valid()
      modifies this
      ensures Valid() && M == old(M) && upperBound == old(upperBound)
      ensures var r := PullLoop(old(dists), old(pq), [], SizeCap(M));
              dists == r.dists && pq == r.pq && result.frontier == r.frontier
      ensures result.bound == NextBound(pq, upperBound)
    {
      var d, h, frontier := PullEntries(dists, pq, SizeCap(M));
      PullKeepsBound(dists, pq, SizeCap(M), upperBound);
      dists, pq := d, h;
      var nextB := if |pq| == 0 then upperBound else Top(pq).cost;
      result := PullResult(frontier, nextB);
    }

    /** `is_empty()` (block_list.cpp:31-37). */
    method IsEmpty() returns (empty: bool)
      requires Valid()
      modifies this
      ensures Valid() && M == old(M) && upperBound == old(upperBound)
      ensures dists == old(dists) && pq == DropStale(old(dists), old(pq))
      ensures empty <==> |pq| == 0
    {
      var h := DropStaleEntries(dists, pq);
      DropStaleKeepsBound(dists, pq, upperBound);
      pq := h;
      empty := |pq| == 0;
    }
  }
}
