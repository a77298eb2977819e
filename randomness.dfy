/** The draws of Python's `random` module that `generate_connected_graph`
    (experiments/run_experiments.py) makes after `random.seed(seed)`. The
    generator itself is not modelled: a `Stream` is the sequence of raw
    outputs the seeded generator hands out, one per call, and each call of
    `randint`, `uniform` or of `shuffle`'s internal `_randbelow` consumes the
    next one. `random()` is a 53-bit fraction, as CPython computes it. */
module Randomness {

  /** The raw outputs of the seeded generator, by position. */
  type Stream = nat -> nat

  /** 2^53: `random()` returns a multiple of 2^-53 in [0, 1). */
  const RandomScale: nat := 0x20_0000_0000_0000

  /** `_randbelow(bound)`: a draw in [0, bound). */
  function RandBelow(draws: Stream, k: nat, bound: nat): (r: nat)
    requires bound > 0
    ensures r < bound
  {
    draws(k) % bound
  }

  /** `randint(a, b)`: a draw in [a, b]; the source calls it only with `a <= b`
      where it is not checked, and a caller with `a > b` gets a ValueError. */
  function RandInt(draws: Stream, k: nat, a: int, b: int): (r: int)
    requires a <= b
    ensures a <= r <= b
  {
    a + RandBelow(draws, k, b - a + 1)
  }

  /** `random()`: a draw in [0, 1). */
  function Random01(draws: Stream, k: nat): (x: real)
    ensures 0.0 <= x < 1.0
  {
    (draws(k) % RandomScale) as real / RandomScale as real
  }

  /** `uniform(a, b)`: `a + (b - a) * random()`, in [a, b) when a < b. */
  function Uniform(draws: Stream, k: nat, a: real, b: real): (x: real)
    requires a <= b
    ensures a <= x && (a < b ==> x < b)
  {
    var f := Random01(draws, k);
    var span := b - a;
    ScaleBelow(span, f);
    a + span * f
  }

  /** A non-negative span times a fraction below 1 stays within the span. */
  lemma ScaleBelow(span: real, f: real)
    requires span >= 0.0 && 0.0 <= f < 1.0
    ensures 0.0 <= span * f <= span
    ensures span > 0.0 ==> span * f < span
  {
    assert span - span * f == span * (1.0 - f);
  }

  /** `s` with the elements at `i` and `j` exchanged. */
  function Swap<T>(s: seq<T>, i: nat, j: nat): (r: seq<T>)
    requires i < |s| && j < |s|
    ensures |r| == |s|
  {
    s[i := s[j]][j := s[i]]
  }

  /** CPython's `shuffle` from position `i` down to 1: swap `x[i]` with
      `x[_randbelow(i + 1)]`, one draw per step, starting at draw `pos`. */
  function FisherYates<T>(s: seq<T>, i: int, draws: Stream, pos: nat): seq<T>
    requires i < |s|
    decreases i
  {
    if i < 1 then s
    else FisherYates(Swap(s, i, RandBelow(draws, pos, i + 1)), i - 1, draws, pos + 1)
  }

  /** `random.shuffle(s)` with its first draw at `pos`. */
  function Shuffled<T>(s: seq<T>, draws: Stream, pos: nat): seq<T> {
    FisherYates(s, |s| - 1, draws, pos)
  }

  /** How many draws `shuffle` consumes on a list of length `len`. */
  function ShuffleDraws(len: int): nat {
    if len > 1 then len - 1 else 0
  }

  /** Elements with distinct keys at distinct positions. */
  predicate DistinctBy<T, K(==)>(s: seq<T>, key: T -> K) {
    forall i, j :: 0 <= i < |s| && 0 <= j < |s| && i != j ==> key(s[i]) != key(s[j])
  }

  /** A swap moves elements without adding or losing any, and keeps keys distinct. */
  lemma SwapIsPermutation<T, K>(s: seq<T>, i: nat, j: nat, key: T -> K)
    requires i < |s| && j < |s|
    ensures multiset(Swap(s, i, j)) == multiset(s)
    ensures DistinctBy(s, key) ==> DistinctBy(Swap(s, i, j), key)
  {
    SwapMultiset(s, i, j);
    if DistinctBy(s, key) {
      var r := Swap(s, i, j);
      forall a, b | 0 <= a < |r| && 0 <= b < |r| && a != b ensures key(r[a]) != key(r[b]) {
        var a' := if a == i then j else if a == j then i else a;
        var b' := if b == i then j else if b == j then i else b;
        assert r[a] == s[a'] && r[b] == s[b'];
      }
    }
  }

  /** A swap keeps the multiset of elements. */
  lemma SwapMultiset<T>(s: seq<T>, i: nat, j: nat)
    requires i < |s| && j < |s|
    ensures multiset(Swap(s, i, j)) == multiset(s)
  {
    if i != j {
      var t := s[i := s[j]];
      assert multiset(t) == multiset(s) - multiset{s[i]} + multiset{s[j]};
      assert Swap(s, i, j) == t[j := s[i]];
      assert multiset(t[j := s[i]]) == multiset(t) - multiset{t[j]} + multiset{s[i]};
    }
  }

  /** `shuffle` returns a permutation of its input, and keeps keys distinct. */
  lemma {:induction false} FisherYatesIsPermutation<T, K>(s: seq<T>, i: int, draws: Stream, pos: nat, key: T -> K)
    requires i < |s|
    ensures |FisherYates(s, i, draws, pos)| == |s|
    ensures multiset(FisherYates(s, i, draws, pos)) == multiset(s)
    ensures DistinctBy(s, key) ==> DistinctBy(FisherYates(s, i, draws, pos), key)
    decreases i
  {
    if i >= 1 {
      var j := RandBelow(draws, pos, i + 1);
      SwapIsPermutation(s, i, j, key);
      FisherYatesIsPermutation(Swap(s, i, j), i - 1, draws, pos + 1, key);
    }
  }

  /** `random.shuffle(s)` (CPython's algorithm): the list is rebuilt by
      swapping from the end, one draw per position. */
  method Shuffle<T>(s: seq<T>, draws: Stream, pos: nat) returns (r: seq<T>)
    ensures r == Shuffled(s, draws, pos)
  {
    r := s;
    var i := |s| - 1;
    var k := pos;
    while i >= 1
      invariant i < |r| && |r| == |s|
      invariant FisherYates(r, i, draws, k) == Shuffled(s, draws, pos)
      decreases i
    {
      var j := RandBelow(draws, k, i + 1);
      r := r[i := r[j]][j := r[i]];
      i, k := i - 1, k + 1;
    }
  }
}
