/**
 * The pure arithmetic of the typing-test engine: character accuracy, gross
 * words-per-minute, the population standard deviation of the per-second
 * samples ("consistency") and the one-decimal rounding applied to each figure
 * of a finished test's result.
 */
module Metrics {
  import opened Wrappers

  // ---------------------------------------------------------------------------
  // Accuracy counts
  // ---------------------------------------------------------------------------

  /** Whether position `i` of the input matches the passage; a position past the
      end of the passage never does. */
  predicate MatchesAt(passage: string, input: string, i: nat)
    requires i < |input|
  {
    i < |passage| && passage[i] == input[i]
  }

  /** Number of positions of `input` that hold the passage's character. */
  function CorrectCount(passage: string, input: string): (n: nat)
    ensures n <= |input|
  {
    if |input| == 0 then 0
    else
      var k := |input| - 1;
      CorrectCount(passage, input[..k]) + (if MatchesAt(passage, input, k) then 1 else 0)
  }

  /** `input` is a prefix of `passage`. */
  predicate IsPrefix(input: string, passage: string) {
    |input| <= |passage| && input == passage[..|input|]
  }

  /** The counting loop of the engine: `total` is the input length and `correct`
      the number of positions where input and passage agree. */
  method GetAccuracyCounts(passage: string, input: string) returns (correct: nat, total: nat)
    ensures total == |input|
    ensures correct == CorrectCount(passage, input)
    ensures correct <= total
  {
    correct := 0;
    total := |input|;
    var i := 0;
    while i < total
      invariant 0 <= i <= total
      invariant correct == CorrectCount(passage, input[..i])
    {
      assert input[..i + 1][..i] == input[..i];
      if i < |passage| && passage[i] == input[i] {
        correct := correct + 1;
      }
      i := i + 1;
    }
    assert input[..total] == input;
  }

  /** The count only ever looks at the passage inside its bounds. */
  lemma {:induction false} CorrectCountWithinPassage(passage: string, input: string)
    ensures CorrectCount(passage, input) <= |passage|
    ensures |input| > |passage| ==>
      CorrectCount(passage, input) == CorrectCount(passage, input[..|passage|])
  {
    if |input| > 0 {
      var k := |input| - 1;
      CorrectCountWithinPassage(passage, input[..k]);
      if |input| > |passage| {
        assert !MatchesAt(passage, input, k);
        if k > |passage| {
          assert input[..k][..|passage|] == input[..|passage|];
        }
      }
    }
  }

  /** Every character counts as correct exactly when the input is a prefix of
      the passage. */
  lemma {:induction false} AllCorrectIffPrefix(passage: string, input: string)
    ensures CorrectCount(passage, input) == |input| <==> IsPrefix(input, passage)
  {
    if |input| > 0 {
      var k := |input| - 1;
      AllCorrectIffPrefix(passage, input[..k]);
      if IsPrefix(input, passage) {
        assert IsPrefix(input[..k], passage) by {
          assert passage[..k] == passage[..|input|][..k];
        }
        assert MatchesAt(passage, input, k);
      }
      if CorrectCount(passage, input) == |input| {
        assert CorrectCount(passage, input[..k]) == k;
        assert MatchesAt(passage, input, k);
        assert input == input[..k] + [input[k]];
        assert passage[..|input|] == passage[..k] + [passage[k]];
      }
    }
  }

  /** No position counts as correct exactly when no position matches. */
  lemma {:induction false} NoneCorrectIffNoMatch(passage: string, input: string)
    ensures CorrectCount(passage, input) == 0 <==>
      forall i :: 0 <= i < |input| ==> !MatchesAt(passage, input, i)
  {
    if |input| > 0 {
      var k := |input| - 1;
      NoneCorrectIffNoMatch(passage, input[..k]);
      forall i | 0 <= i < k
        ensures MatchesAt(passage, input[..k], i) == MatchesAt(passage, input, i)
      {
      }
    }
  }

  // ---------------------------------------------------------------------------
  // Speed and accuracy figures
  // ---------------------------------------------------------------------------

  /** Gross words per minute: characters / 5 words over duration / 60 minutes,
      or 0 when there is no positive duration. Correctness plays no part. */
  function Wpm(charactersTyped: nat, durationSeconds: int): (w: real)
    ensures w >= 0.0
    ensures durationSeconds > 0 ==> w * durationSeconds as real == (12 * charactersTyped) as real
    ensures durationSeconds <= 0 ==> w == 0.0
  {
    if durationSeconds > 0 then
      (charactersTyped as real / 5.0) / (durationSeconds as real / 60.0)
    else 0.0
  }

  /** Accuracy as a percentage of the typed characters, 0 when nothing was typed. */
  function Accuracy(correct: nat, total: nat): (a: real)
    ensures correct <= total ==> 0.0 <= a <= 100.0
    ensures correct <= total ==> (a == 100.0 <==> 0 < total && correct == total)
    ensures a == 0.0 <==> total == 0 || correct == 0
  {
    if total > 0 then (correct as real / total as real) * 100.0 else 0.0
  }

  /** `Math.round(x * 10) / 10`: JavaScript rounds halves upwards. */
  function RoundTenth(x: real): (r: real)
    ensures x - 0.05 < r <= x + 0.05
    ensures (r * 10.0).Floor as real == r * 10.0
  {
    (x * 10.0 + 0.5).Floor as real / 10.0
  }

  /** Rounding keeps a percentage a percentage. */
  lemma RoundTenthInRange(x: real)
    requires 0.0 <= x <= 100.0
    ensures 0.0 <= RoundTenth(x) <= 100.0
  {
    var n := (x * 10.0 + 0.5).Floor;
    assert 0 <= n <= 1000;
  }

  /** Rounding leaves a value that already has at most one decimal alone. */
  lemma RoundTenthOfTenth(n: int)
    ensures RoundTenth(n as real / 10.0) == n as real / 10.0
  {
    var x := n as real / 10.0;
    assert x * 10.0 == n as real;
    FloorIs(x * 10.0 + 0.5, n);
  }

  lemma FloorIs(y: real, n: int)
    requires n as real <= y < n as real + 1.0
    ensures y.Floor == n
  {
  }

  // ---------------------------------------------------------------------------
  // Consistency: population standard deviation of the per-second samples
  // ---------------------------------------------------------------------------

  function Sum(xs: seq<int>): int {
    if xs == [] then 0 else Sum(xs[..|xs| - 1]) + xs[|xs| - 1]
  }

  function Mean(xs: seq<int>): real
    requires xs != []
  {
    Sum(xs) as real / |xs| as real
  }

  /** Sum of the squared deviations of the samples from `m`. */
  function SquaredDeviations(xs: seq<int>, m: real): (s: real)
    ensures s >= 0.0
  {
    if xs == [] then 0.0
    else
      var d := xs[|xs| - 1] as real - m;
      SquaredDeviations(xs[..|xs| - 1], m) + d * d
  }

  /** Mean squared deviation from the mean (dividing by n, not n - 1); 0 for no samples. */
  function Variance(xs: seq<int>): (v: real)
    ensures v >= 0.0
  {
    if xs == [] then 0.0 else SquaredDeviations(xs, Mean(xs)) / |xs| as real
  }

  /** All samples are equal. */
  predicate Constant(xs: seq<int>) {
    forall i, j :: 0 <= i < |xs| && 0 <= j < |xs| ==> xs[i] == xs[j]
  }

  lemma {:induction false} SumOfConstant(xs: seq<int>, c: int)
    requires forall i :: 0 <= i < |xs| ==> xs[i] == c
    ensures Sum(xs) == |xs| * c
  {
    if xs != [] {
      SumOfConstant(xs[..|xs| - 1], c);
    }
  }

  /** The squared deviations scaled by n^2, in integers: the sum of
      (n * x - total)^2, where total / n is the mean. */
  function ScaledDeviations(xs: seq<int>, n: int, total: int): (s: nat)
  {
    if xs == [] then 0
    else ScaledDeviations(xs[..|xs| - 1], n, total) + DeviationTerm(xs[|xs| - 1], n, total)
  }

  /** One sample's term of `ScaledDeviations`: (n * x - total)^2. */
  function DeviationTerm(x: int, n: int, total: int): nat {
    SquareInt(n * x - total)
  }

  function SquareInt(e: int): nat {
    e * e
  }

  function Square(r: real): real {
    r * r
  }

  lemma SquareIntAsReal(e: int)
    ensures SquareInt(e) as real == Square(e as real)
  {
  }

  lemma SquareOfProduct(a: real, b: real)
    ensures Square(a * b) == Square(a) * Square(b)
  {
  }

  /** With `m` the mean `total / n`, one real term scaled by n^2 is the integer term. */
  lemma ScaleTerm(n: int, x: int, total: int, m: real)
    requires n > 0 && n as real * m == total as real
    ensures ScaledTerm(x, m, (n * n) as real) == DeviationTerm(x, n, total) as real
  {
    assert (n * x - total) as real == n as real * (x as real - m) by {
      assert (n * x) as real == n as real * x as real;
    }
    SquareIntAsReal(n * x - total);
    SquareOfProduct(n as real, x as real - m);
    SquareIntAsReal(n);
  }

  lemma SquaredDeviationsStep(xs: seq<int>, m: real)
    requires xs != []
    ensures var d := xs[|xs| - 1] as real - m;
      SquaredDeviations(xs, m) == SquaredDeviations(xs[..|xs| - 1], m) + d * d
  {
  }

  /** The squared deviations, each multiplied by `c`. */
  function ScaledSquares(xs: seq<int>, m: real, c: real): real {
    if xs == [] then 0.0
    else ScaledSquares(xs[..|xs| - 1], m, c) + ScaledTerm(xs[|xs| - 1], m, c)
  }

  /** One sample's term of `ScaledSquares`: c * (x - m)^2. */
  function ScaledTerm(x: int, m: real, c: real): real {
    c * Square(x as real - m)
  }

  /** Adding matching terms to matching sums keeps them matching. */
  lemma AddEqual(sum: real, prefix: real, term: real, intSum: int, intPrefix: int, intTerm: int)
    requires sum == prefix + term && intSum == intPrefix + intTerm
    requires prefix == intPrefix as real && term == intTerm as real
    ensures sum == intSum as real
  {
  }

  lemma Distribute(c: real, a: real, b: real)
    ensures c * (a + b) == c * a + c * b
  {
  }

  /** Multiplying the sum by `c` multiplies each of its terms. */
  lemma {:induction false} FactorOut(xs: seq<int>, m: real, c: real)
    ensures c * SquaredDeviations(xs, m) == ScaledSquares(xs, m, c)
  {
    if xs != [] {
      FactorOut(xs[..|xs| - 1], m, c);
      SquaredDeviationsStep(xs, m);
      Distribute(c, SquaredDeviations(xs[..|xs| - 1], m),
                 (xs[|xs| - 1] as real - m) * (xs[|xs| - 1] as real - m));
    }
  }

  /** The scaled real terms and the integer terms have the same sums. */
  lemma {:induction false} ScaledSquaresAgree(xs: seq<int>, n: int, total: int, m: real)
    requires n > 0 && n as real * m == total as real
    ensures ScaledSquares(xs, m, (n * n) as real) == ScaledDeviations(xs, n, total) as real
  {
    if xs != [] {
      ScaledSquaresAgree(xs[..|xs| - 1], n, total, m);
      ScaleTerm(n, xs[|xs| - 1], total, m);
      AddEqual(ScaledSquares(xs, m, (n * n) as real), ScaledSquares(xs[..|xs| - 1], m, (n * n) as real),
               ScaledTerm(xs[|xs| - 1], m, (n * n) as real),
               ScaledDeviations(xs, n, total), ScaledDeviations(xs[..|xs| - 1], n, total),
               DeviationTerm(xs[|xs| - 1], n, total));
    }
  }

  /** Scaling the real squared deviations from the mean by n^2 gives the integer sum. */
  lemma ScaledDeviationsAgree(xs: seq<int>, n: int, total: int, m: real)
    requires n > 0 && n as real * m == total as real
    ensures (n * n) as real * SquaredDeviations(xs, m) == ScaledDeviations(xs, n, total) as real
  {
    FactorOut(xs, m, (n * n) as real);
    ScaledSquaresAgree(xs, n, total, m);
  }

  lemma {:induction false} ScaledDeviationsZeroIff(xs: seq<int>, n: int, total: int)
    ensures ScaledDeviations(xs, n, total) == 0 <==>
      forall i :: 0 <= i < |xs| ==> n * xs[i] == total
  {
    if xs != [] {
      var k := |xs| - 1;
      var e := n * xs[k] - total;
      ScaledDeviationsZeroIff(xs[..k], n, total);
      assert e != 0 ==> e * e > 0;
      forall i | 0 <= i < k
        ensures xs[..k][i] == xs[i]
      {
      }
    }
  }

  lemma ProductZero(c: real, a: real)
    requires c > 0.0 && c * a == 0.0
    ensures a == 0.0
  {
  }

  lemma MulCancel(n: int, a: int, b: int)
    requires n > 0 && n * a == n * b
    ensures a == b
  {
  }

  /** The variance vanishes exactly when every sample is the same. */
  lemma VarianceZeroIffConstant(xs: seq<int>)
    ensures Variance(xs) == 0.0 <==> Constant(xs)
  {
    if xs != [] {
      var n, total := |xs|, Sum(xs);
      var sd := SquaredDeviations(xs, Mean(xs));
      ScaledDeviationsAgree(xs, n, total, Mean(xs));
      ScaledDeviationsZeroIff(xs, n, total);
      assert Variance(xs) == 0.0 <==> sd == 0.0;
      if sd == 0.0 {
        assert ScaledDeviations(xs, n, total) == 0;
        forall i, j | 0 <= i < n && 0 <= j < n
          ensures xs[i] == xs[j]
        {
          MulCancel(n, xs[i], xs[j]);
        }
      }
      if Constant(xs) {
        SumOfConstant(xs, xs[0]);
        assert ScaledDeviations(xs, n, total) == 0;
        ProductZero((n * n) as real, sd);
      }
    }
  }

  /** Starting from a candidate `n` already known not to exceed the answer,
      the number of tenths of `sqrt(v)` after rounding halves upwards: the `k`
      with `k - 1/2 <= 10 sqrt(v) < k + 1/2`, stated on squares. */
  function RootTenthsFrom(v: real, n: nat): (k: nat)
    requires v >= 0.0
    requires n == 0 || ((2 * n - 1) * (2 * n - 1)) as real <= 400.0 * v
    ensures n <= k
    ensures k == 0 || ((2 * k - 1) * (2 * k - 1)) as real <= 400.0 * v
    ensures 400.0 * v < ((2 * k + 1) * (2 * k + 1)) as real
    decreases (400.0 * v).Floor - n
  {
    if ((2 * n + 1) * (2 * n + 1)) as real <= 400.0 * v then
      assert n + 1 <= (2 * n + 1) * (2 * n + 1);
      RootTenthsFrom(v, n + 1)
    else n
  }

  /** The consistency figure: the standard deviation of the samples rounded to
      one decimal, computed without a square root. */
  function Consistency(xs: seq<int>): (c: real)
    ensures c >= 0.0
  {
    RootTenthsFrom(Variance(xs), 0) as real / 10.0
  }

  lemma ProductPositive(a: real, b: real)
    requires 0.0 < a && 0.0 < b
    ensures a * b > 0.0
  {
  }

  lemma SquaresOrdered(a: real, b: real)
    requires 0.0 <= a && 0.0 <= b
    ensures a * a <= b * b <==> a <= b
  {
    if a <= b {
      assert a * a <= a * b <= b * b;
    } else {
      assert a * a - b * b == (a - b) * (a + b);
      ProductPositive(a - b, a + b);
    }
  }

  lemma SquareAsReal(j: int)
    ensures (j * j) as real == j as real * j as real
  {
  }

  lemma SquareOfTwenty(s: real)
    ensures (20.0 * s) * (20.0 * s) == 400.0 * (s * s)
  {
  }

  /** Bounds on the squares of odd numbers around `20 s` place `10 s` within
      half a unit of `k`. */
  lemma TenthsBounds(s: real, k: nat)
    requires s >= 0.0
    requires k == 0 || ((2 * k - 1) * (2 * k - 1)) as real <= 400.0 * (s * s)
    requires 400.0 * (s * s) < ((2 * k + 1) * (2 * k + 1)) as real
    ensures k as real <= s * 10.0 + 0.5 < k as real + 1.0
  {
    SquareOfTwenty(s);
    SquareAsReal(2 * k + 1);
    SquaresOrdered((2 * k + 1) as real, 20.0 * s);
    if k > 0 {
      SquareAsReal(2 * k - 1);
      SquaresOrdered((2 * k - 1) as real, 20.0 * s);
    }
  }

  /** For the square root `s` of the variance, consistency is `Math.round(s * 10) / 10`. */
  lemma ConsistencyIsRoundedDeviation(xs: seq<int>, s: real)
    requires s >= 0.0 && s * s == Variance(xs)
    ensures Consistency(xs) == RoundTenth(s)
  {
    TenthsBounds(s, RootTenthsFrom(Variance(xs), 0));
    FloorIs(s * 10.0 + 0.5, RootTenthsFrom(Variance(xs), 0));
  }

  /** Identical samples give a consistency of 0. */
  lemma ConstantIsPerfectlyConsistent(xs: seq<int>)
    requires Constant(xs)
    ensures Consistency(xs) == 0.0
  {
    VarianceZeroIffConstant(xs);
  }

  // ---------------------------------------------------------------------------
  // The finished test
  // ---------------------------------------------------------------------------

  /** What the engine hands to its completion callback. `date` is the finishing
      time in milliseconds since the epoch. */
  datatype TestResult = TestResult(
    testId: Option<int>,
    date: int,
    duration: int,
    wpm: real,
    accuracy: real,
    consistency: real,
    charactersTyped: nat,
    timeSelected: int,
    wpmData: seq<int>)

  /** The result computed from a session whose countdown has run out. */
  function FinalResult(startTime: Option<int>, nowMs: int, duration: int,
                       passage: string, input: string, wpmData: seq<int>): (r: TestResult)
    ensures 0.0 <= r.accuracy <= 100.0 && r.wpm >= 0.0 && r.consistency >= 0.0
    ensures r.charactersTyped == |input| && r.wpmData == wpmData
    ensures r.duration == duration && r.timeSelected == duration
  {
    RoundTenthInRange(Accuracy(CorrectCount(passage, input), |input|));
    assert RoundTenth(Wpm(|input|, duration)) >= 0.0 by {
      assert (Wpm(|input|, duration) * 10.0 + 0.5).Floor >= 0;
    }
    TestResult(
      testId := startTime,
      date := nowMs,
      duration := duration,
      wpm := RoundTenth(Wpm(|input|, duration)),
      accuracy := RoundTenth(Accuracy(CorrectCount(passage, input), |input|)),
      consistency := Consistency(wpmData),
      charactersTyped := |input|,
      timeSelected := duration,
      wpmData := wpmData)
  }

  /** What every result promises: an accuracy percentage in range that is 100
      exactly for a non-empty prefix of the passage, a non-negative speed and
      consistency, and the characters typed. */
  lemma FinalResultFigures(startTime: Option<int>, nowMs: int, duration: int,
                           passage: string, input: string, wpmData: seq<int>)
    ensures var r := FinalResult(startTime, nowMs, duration, passage, input, wpmData);
      && 0.0 <= r.accuracy <= 100.0
      && (input != [] && IsPrefix(input, passage) ==> r.accuracy == 100.0)
      && ((forall i :: 0 <= i < |input| ==> !MatchesAt(passage, input, i)) ==> r.accuracy == 0.0)
      && r.wpm >= 0.0 && r.consistency >= 0.0
      && r.charactersTyped == |input| && r.wpmData == wpmData
  {
    var c := CorrectCount(passage, input);
    RoundTenthInRange(Accuracy(c, |input|));
    AllCorrectIffPrefix(passage, input);
    NoneCorrectIffNoMatch(passage, input);
    RoundTenthOfTenth(1000);
    RoundTenthOfTenth(0);
    var w := Wpm(|input|, duration);
    assert RoundTenth(w) >= 0.0 by {
      assert (w * 10.0 + 0.5).Floor >= 0;
    }
  }

  /** 300 characters in one minute is 60 words per minute. */
  lemma SixtyWordsPerMinute()
    ensures Wpm(300, 60) == 60.0 && RoundTenth(Wpm(300, 60)) == 60.0
  {
    RoundTenthOfTenth(600);
  }
}
