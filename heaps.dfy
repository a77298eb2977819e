/** `std::priority_queue<State, vector<State>, greater<State>>` as a multiset:
    `top()` is the least entry under the `State` order, `pop()` removes one
    copy of it and `push` adds one. The heap layout itself is not modelled. */
module Heaps {
  import opened Types

  type Heap = multiset<State>

  /** `s` may be returned by `top()`: it is in the heap and no entry precedes it. */
  ghost predicate IsTop(s: State, h: Heap) {
    s in h && forall t :: t in h ==> NotAfter(s, t)
  }

  /** Every non-empty heap has a top. */
  lemma {:induction false} TopExists(h: Heap)
    requires |h| > 0
    ensures exists s :: IsTop(s, h)
    decreases |h|
  {
    var x :| x in h;
    var rest := h - multiset{x};
    assert h == rest + multiset{x};
    if |rest| == 0 {
      assert h == multiset{x};
      GreaterIrreflexive(x);
      assert IsTop(x, h);
    } else {
      TopExists(rest);
      var y :| IsTop(y, rest);
      TopAfterPush(x, y, rest);
      if NotAfter(x, y) {
        assert IsTop(x, h);
      } else {
        assert IsTop(y, h);
      }
    }
  }

  /** Pushing `x` onto a heap whose top is `y`: the new top is `x` if it
      does not come after `y`, and `y` otherwise. */
  lemma TopAfterPush(x: State, y: State, rest: Heap)
    requires IsTop(y, rest)
    ensures NotAfter(x, y) ==> IsTop(x, rest + multiset{x})
    ensures !NotAfter(x, y) ==> IsTop(y, rest + multiset{x})
  {
    var h := rest + multiset{x};
    NotAfterIsTotalPreorder(x, y, y);
    if NotAfter(x, y) {
      forall t | t in h ensures NotAfter(x, t) {
        if t != x {
          assert t in rest;
          NotAfterIsTotalPreorder(x, y, t);
        } else {
          GreaterIrreflexive(x);
        }
      }
    } else {
      forall t | t in h ensures NotAfter(y, t) {
        if t != x {
          assert t in rest;
        }
      }
    }
  }

  /** The top is unique: the order is total and antisymmetric. */
  lemma TopUnique(h: Heap)
    ensures forall s, s' :: IsTop(s, h) && IsTop(s', h) ==> s == s'
  {
    forall s, s' | IsTop(s, h) && IsTop(s', h) ensures s == s' {
      NotAfterIsTotalPreorder(s, s', s);
    }
  }

  /** `pq.top()`. */
  function Top(h: Heap): (s: State)
    requires |h| > 0
    ensures s in h
    ensures forall t :: t in h ==> NotAfter(s, t)
  {
    TopExists(h);
    TopUnique(h);
    var s :| s in h && forall t :: t in h ==> NotAfter(s, t);
    s
  }

  /** `pq.pop()`. */
  function Pop(h: Heap): (r: Heap)
    requires |h| > 0
    ensures r + multiset{Top(h)} == h
    ensures |r| == |h| - 1
  {
    h - multiset{Top(h)}
  }

  /** Every entry removed from a heap precedes every entry that remains:
      popping the top never leaves a smaller entry behind. */
  lemma PopKeepsOrder(h: Heap)
    requires |h| > 0
    ensures forall t :: t in Pop(h) ==> t in h && NotAfter(Top(h), t)
  {
  }

  /** The top of a sub-heap never precedes the top of the heap it was taken from. */
  lemma TopOfSubHeap(small: Heap, big: Heap)
    requires |small| > 0 && small <= big
    ensures NotAfter(Top(big), Top(small))
  {
    assert Top(small) in big;
  }
}
