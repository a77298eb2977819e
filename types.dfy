/** The solver's shared records (types.h): a heap entry `State`, an adjacency
    entry `Edge`, and the extended reals used for every cost (a C++ `double`
    that may be `+infinity`, never NaN). Float rounding is not modelled. */
module Types {

  /** A cost: a finite real or +infinity. */
  datatype ExtReal = Fin(r: real) | Inf {

    /** `this < that` on doubles. */
    predicate Lt(that: ExtReal) {
      match (this, that)
      case (Fin(a), Fin(b)) => a < b
      case (Fin(_), Inf) => true
      case (Inf, _) => false
    }

    /** `this <= that` on doubles. */
    predicate Le(that: ExtReal) {
      this == that || Lt(that)
    }

    /** `this + w` on doubles; infinity absorbs a finite weight. */
    function Plus(w: real): (s: ExtReal)
      ensures s.Inf? <==> Inf?
    {
      match this
      case Fin(a) => Fin(a + w)
      case Inf => Inf
    }

    /** `std::max`. */
    function Max(that: ExtReal): (m: ExtReal)
      ensures Le(m) && that.Le(m)
      ensures m == this || m == that
    {
      if Lt(that) then that else this
    }

    /** `std::min`. */
    function Min(that: ExtReal): (m: ExtReal)
      ensures m.Le(this) && m.Le(that)
      ensures m == this || m == that
    {
      if that.Lt(this) then that else this
    }
  }

  /** `<` on doubles is a strict total order. */
  lemma LtIsStrictTotalOrder(a: ExtReal, b: ExtReal, c: ExtReal)
    ensures !a.Lt(a)
    ensures a != b ==> (a.Lt(b) <==> !b.Lt(a))
    ensures a.Lt(b) && b.Lt(c) ==> a.Lt(c)
  {
  }

  /** A heap entry of the solver (types.h:4-13). */
  datatype State = State(nodeId: int, cost: ExtReal)

  /** An adjacency-list entry: the edge's head and its weight (types.h:15-18). */
  datatype Edge = Edge(to: int, weight: real)

  /** `State::operator>`: compare costs first, then node ids (types.h:8-12). */
  predicate Greater(a: State, b: State) {
    if a.cost != b.cost then b.cost.Lt(a.cost) else a.nodeId > b.nodeId
  }

  /** "not greater", the order in which `greater<State>` heaps pop entries. */
  predicate NotAfter(a: State, b: State) {
    !Greater(a, b)
  }

  /** The comparison spelled out: lexicographic on (cost, nodeId). */
  lemma GreaterIsLexicographic(a: State, b: State)
    ensures Greater(a, b) <==>
            b.cost.Lt(a.cost) || (a.cost == b.cost && a.nodeId > b.nodeId)
  {
  }

  /** `>` is irreflexive. */
  lemma GreaterIrreflexive(a: State)
    ensures !Greater(a, a)
  {
  }

  /** For distinct states exactly one of `a > b` and `b > a` holds. */
  lemma GreaterTrichotomous(a: State, b: State)
    ensures a != b ==> (Greater(a, b) <==> !Greater(b, a))
    ensures a == b ==> !Greater(a, b) && !Greater(b, a)
  {
    LtIsStrictTotalOrder(a.cost, b.cost, a.cost);
  }

  /** `>` is transitive, so it is a strict total order on states. */
  lemma GreaterTransitive(a: State, b: State, c: State)
    ensures Greater(a, b) && Greater(b, c) ==> Greater(a, c)
  {
    LtIsStrictTotalOrder(c.cost, b.cost, a.cost);
  }

  /** An entry that is not after another has a cost no larger than the other's. */
  lemma NotAfterCost(a: State, b: State)
    ensures NotAfter(a, b) ==> a.cost.Le(b.cost)
  {
    LtIsStrictTotalOrder(a.cost, b.cost, a.cost);
  }

  /** The heap order "not greater" is total and transitive. */
  lemma NotAfterIsTotalPreorder(a: State, b: State, c: State)
    ensures NotAfter(a, b) || NotAfter(b, a)
    ensures NotAfter(a, b) && NotAfter(b, c) ==> NotAfter(a, c)
    ensures NotAfter(a, b) && NotAfter(b, a) ==> a == b
  {
    GreaterTrichotomous(a, b);
    GreaterTrichotomous(b, c);
    GreaterTrichotomous(a, c);
    GreaterTransitive(c, b, a);
  }
}
