/** `extract_timing` (experiments/run_experiments.py:73-78), the outcome
    classification of `run_solver` (:81-101) and `make_seed` (:104-106).
    `re.search(name + " Time:\s*([\d.]+)\s*ms", output)` is written out as
    a scan for the leftmost position where the pattern matches; the label
    is taken literally (the labels used, "BMSSP" and "Dijkstra", hold no
    regex metacharacters). `\s` is ASCII whitespace and `\d` an ASCII digit. */
module Timing {
  import opened Text

  /** `\s`: space, tab, newline, carriage return, vertical tab, form feed. */
  predicate IsSpace(c: char) {
    c == ' ' || c == '\t' || c == '\n' || c == '\r' || c as int == 11 || c as int == 12
  }

  /** `[\d.]`. */
  predicate IsRunChar(c: char) {
    IsDigit(c) || c == '.'
  }

  /** The text that must follow the label. */
  const TimeTag: string := " Time:"

  /** The end of the whitespace run starting at `j`. */
  function SkipSpaces(s: string, j: nat): (r: nat)
    requires j <= |s|
    ensures j <= r <= |s| && (forall k :: j <= k < r ==> IsSpace(s[k])) && (r < |s| ==> !IsSpace(s[r]))
    decreases |s| - j
  {
    if j < |s| && IsSpace(s[j]) then SkipSpaces(s, j + 1) else j
  }

  /** The end of the run of digits and dots starting at `j`. */
  function SkipRun(s: string, j: nat): (r: nat)
    requires j <= |s|
    ensures j <= r <= |s| && (forall k :: j <= k < r ==> IsRunChar(s[k])) && (r < |s| ==> !IsRunChar(s[r]))
    decreases |s| - j
  {
    if j < |s| && IsRunChar(s[j]) then SkipRun(s, j + 1) else j
  }

  /** The group the pattern captures when it matches at `i`. Greedy `\s*`
      and `[\d.]+` leave nothing to backtrack into: whitespace, the run's
      characters and `m` are pairwise distinct classes. */
  function MatchAt(s: string, name: string, i: nat): Option<string> {
    var p := name + TimeTag;
    if !StartsAt(s, i, p) then None
    else
      var j := SkipSpaces(s, i + |p|);
      var k := SkipRun(s, j);
      if k == j then None
      else
        var l := SkipSpaces(s, k);
        if StartsAt(s, l, "ms") then Some(s[j..k]) else None
  }

  /** `s` holds `p` from position `i` on. */
  predicate StartsAt(s: string, i: nat, p: string) {
    i + |p| <= |s| && forall k :: 0 <= k < |p| ==> s[i + k] == p[k]
  }

  /** The pattern matches at `i`. */
  predicate Matches(s: string, name: string, i: nat) {
    MatchAt(s, name, i).Some?
  }

  /** Where the pattern matches, position by position, for 0..|s|. */
  function MatchMask(s: string, name: string): (mask: seq<bool>)
    ensures |mask| == |s| + 1 && forall t :: 0 <= t <= |s| ==> mask[t] == Matches(s, name, t)
  {
    seq(|s| + 1, t requires 0 <= t <= |s| => Matches(s, name, t))
  }

  /** The first position from `i` on where `mask` holds. */
  function FirstTrue(mask: seq<bool>, i: nat): Option<nat>
    decreases |mask| - i
  {
    if i >= |mask| then None
    else if mask[i] then Some(i)
    else FirstTrue(mask, i + 1)
  }

  /** `re.search`: the leftmost position where the pattern matches. */
  function Search(s: string, name: string): Option<nat> {
    FirstTrue(MatchMask(s, name), 0)
  }

  /** Texts made of `\s` characters only. */
  predicate Spaces(w: string) {
    forall k :: 0 <= k < |w| ==> IsSpace(w[k])
  }

  /** Texts that `[\d.]+` matches. */
  predicate RunText(r: string) {
    |r| > 0 && forall k :: 0 <= k < |r| ==> IsRunChar(r[k])
  }

  /** The pattern matches at `i` with leading blanks `w1`, group `run` and
      trailing blanks `w2`: the label and " Time:", `w1`, `run`, `w2` and
      "ms" follow each other in `s` from `i` on. */
  predicate MatchesWith(s: string, i: nat, name: string, w1: string, run: string, w2: string) {
    var a := i + |name + TimeTag|;
    var b := a + |w1|;
    var c := b + |run|;
    var d := c + |w2|;
    Spaces(w1) && RunText(run) && Spaces(w2) &&
    StartsAt(s, i, name + TimeTag) && StartsAt(s, a, w1) && StartsAt(s, b, run) &&
    StartsAt(s, c, w2) && StartsAt(s, d, "ms")
  }

  /** A concatenation holds its second part after the first. */
  lemma StartsAtEnd(x: string, y: string)
    ensures StartsAt(x + y, |x|, y)
  {
    assert forall k :: 0 <= k < |y| ==> (x + y)[|x| + k] == y[k];
  }

  /** What a text holds, its extensions hold at the same place. */
  lemma StartsAtExtend(x: string, i: nat, p: string, y: string)
    requires StartsAt(x, i, p)
    ensures StartsAt(x + y, i, p)
  {
    forall k | 0 <= k < |p| ensures (x + y)[i + k] == p[k] {
      assert (x + y)[i + k] == x[i + k];
    }
  }

  /** A maximal whitespace run ends where the first non-blank is. */
  lemma SkipSpacesExact(s: string, j: nat, e: nat)
    requires j <= e <= |s| && (forall k :: j <= k < e ==> IsSpace(s[k])) && (e < |s| ==> !IsSpace(s[e]))
    ensures SkipSpaces(s, j) == e
  {
  }

  /** A maximal run of digits and dots ends where the first other character is. */
  lemma SkipRunExact(s: string, j: nat, e: nat)
    requires j <= e <= |s| && (forall k :: j <= k < e ==> IsRunChar(s[k])) && (e < |s| ==> !IsRunChar(s[e]))
    ensures SkipRun(s, j) == e
  {
  }

  /** A slice of `s` sits in `s` where it was cut. */
  lemma SliceStartsAt(s: string, a: nat, j: nat)
    requires a <= j <= |s|
    ensures StartsAt(s, a, s[a..j])
  {
    forall x | 0 <= x < j - a ensures s[a..j][x] == s[a + x] {
    }
  }

  /** A slice over blanks is blank. */
  lemma SpacesSlice(s: string, a: nat, j: nat)
    requires a <= j <= |s| && forall x :: a <= x < j ==> IsSpace(s[x])
    ensures Spaces(s[a..j])
  {
    forall x | 0 <= x < j - a ensures IsSpace(s[a..j][x]) {
      assert s[a..j][x] == s[a + x];
    }
  }

  /** A non-empty slice over digits and dots is a run. */
  lemma RunSlice(s: string, a: nat, j: nat)
    requires a < j <= |s| && forall x :: a <= x < j ==> IsRunChar(s[x])
    ensures RunText(s[a..j])
  {
    forall x | 0 <= x < j - a ensures IsRunChar(s[a..j][x]) {
      assert s[a..j][x] == s[a + x];
    }
  }

  /** Blanks over `[a, j)`, a run over `[j, k)` and blanks over `[k, l)`
      between the label at `i` and "ms" at `l` make a match with those pieces. */
  lemma AssembleMatch(s: string, i: nat, name: string, a: nat, j: nat, k: nat, l: nat)
    requires a == i + |name + TimeTag| && a <= j < k <= l <= |s|
    requires StartsAt(s, i, name + TimeTag) && StartsAt(s, l, "ms")
    requires forall x :: a <= x < j ==> IsSpace(s[x])
    requires forall x :: j <= x < k ==> IsRunChar(s[x])
    requires forall x :: k <= x < l ==> IsSpace(s[x])
    ensures MatchesWith(s, i, name, s[a..j], s[j..k], s[k..l])
  {
    SliceStartsAt(s, a, j);
    SliceStartsAt(s, j, k);
    SliceStartsAt(s, k, l);
    SpacesSlice(s, a, j);
    RunSlice(s, j, k);
    SpacesSlice(s, k, l);
  }

  /** What the scan captures is a group of a match at that position. */
  lemma MatchAtSound(s: string, name: string, i: nat)
    requires MatchAt(s, name, i).Some?
    ensures exists w1, w2 :: MatchesWith(s, i, name, w1, MatchAt(s, name, i).value, w2)
  {
    var p := name + TimeTag;
    var a := i + |p|;
    var j := SkipSpaces(s, a);
    var k := SkipRun(s, j);
    var l := SkipSpaces(s, k);
    AssembleMatch(s, i, name, a, j, k, l);
  }

  /** Whenever the pattern matches at `i`, the scan finds that match, and its
      group: the pieces of a match are unique. */
  lemma MatchAtComplete(s: string, name: string, i: nat, w1: string, run: string, w2: string)
    requires MatchesWith(s, i, name, w1, run, w2)
    ensures MatchAt(s, name, i) == Some(run)
  {
    var a := i + |name + TimeTag|;
    var b := a + |w1|;
    var c := b + |run|;
    var d := c + |w2|;
    forall x | a <= x < b ensures IsSpace(s[x]) {
      assert s[a + (x - a)] == w1[x - a];
    }
    assert s[b + 0] == run[0];
    SkipSpacesExact(s, a, b);
    forall x | b <= x < c ensures IsRunChar(s[x]) {
      assert s[b + (x - b)] == run[x - b];
    }
    assert !IsRunChar(s[c]) by {
      if |w2| > 0 {
        assert s[c + 0] == w2[0];
      } else {
        assert s[d + 0] == "ms"[0] == 'm';
      }
    }
    SkipRunExact(s, b, c);
    forall x | c <= x < d ensures IsSpace(s[x]) {
      assert s[c + (x - c)] == w2[x - c];
    }
    assert s[d + 0] == "ms"[0] == 'm';
    SkipSpacesExact(s, c, d);
    assert s[b..c] == run by {
      forall x | 0 <= x < |run| ensures s[b..c][x] == run[x] {
        assert s[b + x] == run[x];
      }
    }
  }

  /** `FirstTrue` finds the least position where the mask holds, and
      nothing when it holds nowhere. */
  lemma {:induction false} FirstTrueIsLeast(mask: seq<bool>, i: nat)
    ensures FirstTrue(mask, i).Some? ==>
              var r := FirstTrue(mask, i).value;
              i <= r < |mask| && mask[r] && forall t :: i <= t < r ==> !mask[t]
    ensures FirstTrue(mask, i).None? ==> forall t :: i <= t < |mask| ==> !mask[t]
    decreases |mask| - i
  {
    if i < |mask| && !mask[i] {
      FirstTrueIsLeast(mask, i + 1);
    }
  }

  /** `re.search` finds the leftmost position where the pattern matches, and
      nothing when it matches nowhere. */
  lemma SearchIsLeftmost(s: string, name: string)
    ensures Search(s, name).Some? ==>
              var r := Search(s, name).value;
              r <= |s| && Matches(s, name, r) && forall t :: 0 <= t < r ==> !Matches(s, name, t)
    ensures Search(s, name).None? ==> forall t :: 0 <= t <= |s| ==> !Matches(s, name, t)
  {
    var mask := MatchMask(s, name);
    FirstTrueIsLeast(mask, 0);
    if Search(s, name).Some? {
      var r := Search(s, name).value;
      forall t | 0 <= t < r ensures !Matches(s, name, t) {
        assert !mask[t];
      }
    } else {
      forall t | 0 <= t <= |s| ensures !Matches(s, name, t) {
        assert !mask[t];
      }
    }
  }

  /** 10^e. */
  function Pow10(e: nat): (r: nat)
    ensures r >= 1
  {
    if e == 0 then 1 else 10 * Pow10(e - 1)
  }

  /** The position of the first `c` in `s`, or |s| when there is none. */
  function IndexOf(s: string, c: char): (k: nat)
    ensures k <= |s| && c !in s[..k] && (k < |s| ==> s[k] == c)
    decreases |s|
  {
    if s == [] then 0
    else if s[0] == c then 0
    else
      var k := IndexOf(s[1..], c);
      assert s[1..][..k] == s[1..k + 1];
      1 + k
  }

  /** `float(run)` for a run of digits and dots: digits with at most one
      dot and at least one digit; anything else raises ValueError. */
  function ParseFloat(run: string): Option<real>
    requires forall k :: 0 <= k < |run| ==> IsRunChar(run[k])
  {
    var k := IndexOf(run, '.');
    var whole, frac := run[..k], if k < |run| then run[k + 1..] else "";
    if '.' in frac || |whole| + |frac| == 0 then None
    else
      RunPartsAreDigits(run, k);
      assert forall j :: 0 <= j < |whole| ==> whole[j] == run[j];
      assert forall j :: 0 <= j < |frac| ==> frac[j] == run[k + 1 + j];
      Some(DecimalValue(whole, frac))
  }

  /** Around the first dot of a run, with no dot after it, there are only
      digits. */
  lemma RunPartsAreDigits(run: string, k: nat)
    requires forall j :: 0 <= j < |run| ==> IsRunChar(run[j])
    requires k <= |run| && '.' !in run[..k] && (k < |run| ==> '.' !in run[k + 1..])
    ensures forall j :: 0 <= j < |run| && j != k ==> IsDigit(run[j])
  {
    forall j | 0 <= j < |run| && j != k ensures IsDigit(run[j]) {
      if j < k {
        assert run[..k][j] == run[j];
        assert run[j] in run[..k];
      } else {
        assert run[k + 1..][j - k - 1] == run[j];
        assert run[j] in run[k + 1..];
      }
    }
  }

  /** Whole digits, then a point and the fraction when there is one. */
  function DecimalText(whole: string, frac: string): string {
    whole + (if |frac| > 0 then "." + frac else "")
  }

  /** The value of the digits `whole`, a point and the digits `frac`. */
  function DecimalValue(whole: string, frac: string): real
    requires forall j :: 0 <= j < |whole| ==> IsDigit(whole[j])
    requires forall j :: 0 <= j < |frac| ==> IsDigit(frac[j])
  {
    DigitsValue(whole) as real + FracValue(frac)
  }

  /** The value of the digits `frac` written after a decimal point. */
  function FracValue(frac: string): (v: real)
    requires forall j :: 0 <= j < |frac| ==> IsDigit(frac[j])
    ensures v * Pow10(|frac|) as real == DigitsValue(frac) as real
  {
    DigitsValue(frac) as real / Pow10(|frac|) as real
  }

  /** `extract_timing(output, name)`: the value of the group of the
      leftmost match, or the ValueError (`None`) when there is no match or
      the group is not a float. */
  function ExtractTiming(output: string, name: string): Option<real> {
    match Search(output, name)
    case None => None
    case Some(i) =>
      SearchIsLeftmost(output, name);
      var run := MatchAt(output, name, i).value;
      StartRun(output, name, i);
      ParseFloat(run)
  }

  /** A captured group consists of digits and dots. */
  lemma StartRun(s: string, name: string, i: nat)
    requires MatchAt(s, name, i).Some?
    ensures RunText(MatchAt(s, name, i).value)
  {
    var p := name + TimeTag;
    var j := SkipSpaces(s, i + |p|);
    var k := SkipRun(s, j);
    assert forall t :: 0 <= t < k - j ==> s[j..k][t] == s[j + t];
  }

  /** `float` accepts exactly the runs with at most one dot and a digit. */
  lemma ParseFloatAccepts(run: string)
    requires RunText(run)
    ensures ParseFloat(run).Some? <==> Count(run, '.') <= 1 && exists j :: 0 <= j < |run| && IsDigit(run[j])
  {
    var k := IndexOf(run, '.');
    if k == |run| {
      assert run[..k] == run;
      CountAbsent(run, '.');
      assert IsDigit(run[0]);
    } else {
      var frac := run[k + 1..];
      CountAt(run, k, '.');
      CountZeroIff(frac, '.');
      if '.' !in frac && |run| > 1 {
        var j := if k > 0 then 0 else 1;
        assert run[j] != '.' by {
          if k == 0 {
            assert run[1] == frac[0];
          }
        }
      } else if |run| == 1 {
        assert run == ".";
      }
    }
  }

  /** Counting from the first `c`. */
  lemma CountAt(s: string, k: nat, c: char)
    requires k < |s| && s[k] == c && c !in s[..k]
    ensures Count(s, c) == 1 + Count(s[k + 1..], c)
  {
    assert s == s[..k] + s[k..];
    CountConcat(s[..k], s[k..], c);
    CountAbsent(s[..k], c);
    assert s[k..][1..] == s[k + 1..];
  }

  /** `c` is counted zero times exactly when it does not occur. */
  lemma CountZeroIff(s: string, c: char)
    ensures Count(s, c) == 0 <==> c !in s
  {
    if c in s {
      var t :| 0 <= t < |s| && s[t] == c;
      CountPositive(s, t, c);
    } else {
      CountAbsent(s, c);
    }
  }

  /** A text holding `c` at position `t` counts it at least once. */
  lemma {:induction false} CountPositive(s: string, t: nat, c: char)
    requires t < |s| && s[t] == c
    ensures Count(s, c) >= 1
    decreases t
  {
    if t > 0 {
      CountPositive(s[1..], t - 1, c);
    }
  }

  /** Digits, then optionally a point and more digits, read back as their
      value. */
  lemma ParseFloatReadsDecimal(w: string, frac: string)
    requires |w| > 0 && forall j :: 0 <= j < |w| ==> IsDigit(w[j])
    requires forall j :: 0 <= j < |frac| ==> IsDigit(frac[j])
    ensures RunText(DecimalText(w, frac))
    ensures ParseFloat(DecimalText(w, frac)) == Some(DecimalValue(w, frac))
  {
    var num := DecimalText(w, frac);
    forall j | 0 <= j < |num| ensures IsRunChar(num[j]) {
      if j > |w| {
        assert num[j] == frac[j - |w| - 1];
      }
    }
    assert '.' !in w by {
      assert forall j :: 0 <= j < |w| ==> w[j] != '.';
    }
    var k := IndexOf(num, '.');
    if |frac| > 0 {
      assert num[|w|] == '.';
      assert num[..|w|] == w;
      assert forall j :: 0 <= j < |w| ==> num[j] != '.';
      assert k == |w|;
      assert num[k + 1..] == frac;
      assert '.' !in frac by {
        assert forall j :: 0 <= j < |frac| ==> frac[j] != '.';
      }
    } else {
      assert num == w;
      assert k == |num|;
      assert num[..k] == w;
    }
  }

  /** A number as `ostream` writes it: the whole part, then a point and the
      fraction's digits when there is a fraction. */
  function NumberText(whole: nat, frac: string): string {
    DecimalText(NatToString(whole), frac)
  }

  /** The timing line a solver prints for `name`, followed by the rest of
      its output. */
  function TimingLine(name: string, num: string, rest: string): string {
    name + TimeTag + " " + num + " ms" + rest
  }

  /** A timing line at the start of the output yields its number's text. */
  lemma LineAtStart(name: string, num: string, rest: string)
    requires RunText(num)
    ensures ExtractTiming(TimingLine(name, num, rest), name) == ParseFloat(num)
  {
    var s := TimingLine(name, num, rest);
    var p := name + TimeTag;
    var s2 := p + " ";
    var s3 := s2 + num;
    var s4 := s3 + " ms";
    assert s == s4 + rest;
    assert StartsAt(s, 0, p) by {
      assert StartsAt(p, 0, p);
      StartsAtExtend(p, 0, p, " ");
      StartsAtExtend(s2, 0, p, num);
      StartsAtExtend(s3, 0, p, " ms");
      StartsAtExtend(s4, 0, p, rest);
    }
    assert StartsAt(s, |p|, " ") by {
      StartsAtEnd(p, " ");
      StartsAtExtend(s2, |p|, " ", num);
      StartsAtExtend(s3, |p|, " ", " ms");
      StartsAtExtend(s4, |p|, " ", rest);
    }
    assert StartsAt(s, |s2|, num) by {
      StartsAtEnd(s2, num);
      StartsAtExtend(s3, |s2|, num, " ms");
      StartsAtExtend(s4, |s2|, num, rest);
    }
    assert StartsAt(s, |s3|, " ") && StartsAt(s, |s3| + 1, "ms") by {
      StartsAtEnd(s3, " ms");
      StartsAtExtend(s4, |s3|, " ms", rest);
    }
    assert Spaces(" ");
    assert MatchesWith(s, 0, name, " ", num, " ");
    MatchAtComplete(s, name, 0, " ", num, " ");
    assert MatchMask(s, name)[0];
    assert Search(s, name) == Some(0);
  }

  /** A number written by `ostream` parses back to its value. */
  lemma ParseNumberText(whole: nat, frac: string)
    requires forall j :: 0 <= j < |frac| ==> IsDigit(frac[j])
    ensures RunText(NumberText(whole, frac))
    ensures ParseFloat(NumberText(whole, frac)) == Some(whole as real + FracValue(frac))
  {
    var w := NatToString(whole);
    NatDigitsRoundTrip(whole);
    assert DecimalValue(w, frac) == whole as real + FracValue(frac);
    assert NumberText(whole, frac) == DecimalText(w, frac);
    ParseFloatReadsDecimal(w, frac);
  }

  /** The line `<label> Time: <whole>.<frac> ms` that the solvers print first
      (with the fraction `ostream` writes, digits only) gives back its value. */
  lemma TimingLineReadsBack(name: string, whole: nat, frac: string, rest: string)
    requires forall j :: 0 <= j < |frac| ==> IsDigit(frac[j])
    ensures ExtractTiming(TimingLine(name, NumberText(whole, frac), rest), name) ==
            Some(whole as real + FracValue(frac))
  {
    ParseNumberText(whole, frac);
    LineAtStart(name, NumberText(whole, frac), rest);
  }


  /** How the solver process ended: it exited with a code and its standard
      output, it ran past the timeout, or starting it raised an exception. */
  datatype ProcessOutcome = Exited(code: int, stdout: string) | TimedOut | Raised

  /** `run_solver`'s classification: `(time, True)` for a zero exit whose
      output holds a readable timing, `(0.0, False)` otherwise. */
  function RunSolver(outcome: ProcessOutcome, name: string): (r: (real, bool)) {
    match outcome
    case Exited(code, out) =>
      if code != 0 then (0.0, false)
      else
        (match ExtractTiming(out, name)
         case None => (0.0, false)
         case Some(t) => (t, true))
    case TimedOut => (0.0, false)
    case Raised => (0.0, false)
  }

  /** A run succeeds exactly when the process exited with 0 and its output
      yields a timing, which is then the reported time; every failure
      reports 0.0. */
  lemma RunSolverClassifies(outcome: ProcessOutcome, name: string)
    ensures RunSolver(outcome, name).1 <==>
              outcome.Exited? && outcome.code == 0 && ExtractTiming(outcome.stdout, name).Some?
    ensures RunSolver(outcome, name).1 ==> RunSolver(outcome, name).0 == ExtractTiming(outcome.stdout, name).value
    ensures !RunSolver(outcome, name).1 ==> RunSolver(outcome, name).0 == 0.0
  {
  }

  /** 2^31: `& 0x7FFFFFFF` keeps the low 31 bits. */
  const SeedModulus: int := 0x8000_0000

  /** `make_seed(n, m, trial)` with Python's tuple `hash` as a parameter. On
      Python's unbounded integers `x & 0x7FFFFFFF` is the remainder of `x`
      modulo 2^31, negative `x` included. */
  function MakeSeed(hash: ((int, int, int)) -> int, n: int, m: int, trial: int): (r: int)
    ensures 0 <= r < SeedModulus
    ensures (hash((n, m, trial)) - r) % SeedModulus == 0
  {
    hash((n, m, trial)) % SeedModulus
  }

  /** A hash that already lies in [0, 2^31) is the seed itself, and equal
      configurations get equal seeds. */
  lemma MakeSeedKeepsLowHashes(hash: ((int, int, int)) -> int, n: int, m: int, trial: int)
    ensures 0 <= hash((n, m, trial)) < SeedModulus ==> MakeSeed(hash, n, m, trial) == hash((n, m, trial))
  {
  }
}
