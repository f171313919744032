/** `StandardDeviation.cpp` and `PerformanceModel.cpp` over the reals: a mean
    and a sum of squares updated batch by batch, and how many clients the
    thresholds made of them can catch. */
module Statistics {
  import opened Basics

  function Sum(xs: seq<real>): real {
    if xs == [] then 0.0 else Sum(xs[..|xs| - 1]) + xs[|xs| - 1]
  }

  function Times(a: real, b: real): (r: real)
    ensures a > 0.0 && b > 0.0 ==> r > 0.0
    ensures a < 0.0 && b < 0.0 ==> r > 0.0
    ensures a == 0.0 || b == 0.0 ==> r == 0.0
  {
    a * b
  }

  function Square(d: real): (r: real)
    ensures r >= 0.0 && (r == 0.0 <==> d == 0.0)
  {
    Times(d, d)
  }

  /** The sum of the distances from `m`. */
  function Deviations(xs: seq<real>, m: real): real {
    if xs == [] then 0.0 else Deviations(xs[..|xs| - 1], m) + (xs[|xs| - 1] - m)
  }

  /** The sum of squared distances from `m`. */
  function Squares(xs: seq<real>, m: real): (r: real)
    ensures r >= 0.0
  {
    if xs == [] then 0.0 else Squares(xs[..|xs| - 1], m) + Square(xs[|xs| - 1] - m)
  }

  /** The sum of the products of the distances from `a` and from `b`. */
  function Products(xs: seq<real>, a: real, b: real): real {
    if xs == [] then 0.0
    else Products(xs[..|xs| - 1], a, b) + Times(xs[|xs| - 1] - a, xs[|xs| - 1] - b)
  }

  /** How many of the samples are beyond a threshold. */
  function CountAbove(xs: seq<real>, t: real): nat {
    if xs == [] then 0 else CountAbove(xs[..|xs| - 1], t) + (if xs[|xs| - 1] > t then 1 else 0)
  }

  function CountAtMost(xs: seq<real>, t: real): nat {
    if xs == [] then 0 else CountAtMost(xs[..|xs| - 1], t) + (if xs[|xs| - 1] <= t then 1 else 0)
  }

  // ------------------------------------------------------------- products

  lemma Distribute(a: real, b: real, c: real)
    ensures Times(a, b + c) == Times(a, b) + Times(a, c) && Times(b + c, a) == Times(b, a) + Times(c, a)
    ensures Times(a, b - c) == Times(a, b) - Times(a, c) && Times(b - c, a) == Times(b, a) - Times(c, a)
  {
  }

  lemma Commute(a: real, b: real)
    ensures Times(a, b) == Times(b, a)
  {
  }

  lemma Associate(a: real, b: real, c: real)
    ensures Times(Times(a, b), c) == Times(a, Times(b, c))
  {
  }

  lemma One(a: real)
    ensures Times(a, 1.0) == Times(1.0, a) == a
  {
  }

  lemma DivideBack(a: real, n: real)
    requires n > 0.0
    ensures Times(a / n, n) == a
    ensures a >= 0.0 ==> a / n >= 0.0
  {
  }

  lemma SquareNegated(a: real, b: real)
    requires b == -a
    ensures Square(a) == Square(b)
  {
  }

  lemma TimesMonotone(a: real, b: real, c: real, d: real)
    requires 0.0 <= a <= b && 0.0 <= c <= d
    ensures Times(a, c) <= Times(b, d)
  {
    hide Times;
    Distribute(d, b, a);
    Distribute(a, d, c);
    assert Times(b - a, d) >= 0.0 && Times(a, d - c) >= 0.0;
  }

  lemma SquareMonotone(a: real, b: real)
    requires 0.0 <= a <= b
    ensures Square(a) <= Square(b)
  {
    hide Times;
    TimesMonotone(a, b, a, b);
  }

  lemma SquareOfProduct(a: real, b: real)
    ensures Square(Times(a, b)) == Times(Square(a), Square(b))
  {
    hide Times;
    Associate(a, b, Times(a, b));
    Associate(b, a, b);
    Commute(a, b);
    Associate(a, b, b);
    Associate(a, a, Square(b));
  }

  lemma CancelFactor(a: real, b: real, w: real)
    requires w > 0.0 && Times(a, w) <= Times(b, w)
    ensures a <= b
  {
    hide Times;
    Distribute(w, a, b);
    if a > b {
      assert false;
    }
  }

  // ------------------------------------------------------------- sums

  lemma {:induction false} SumConcat(xs: seq<real>, ys: seq<real>)
    ensures Sum(xs + ys) == Sum(xs) + Sum(ys)
    decreases |ys|
  {
    if ys == [] {
      assert xs + ys == xs;
    } else {
      assert (xs + ys)[..|xs + ys| - 1] == xs + ys[..|ys| - 1];
      SumConcat(xs, ys[..|ys| - 1]);
    }
  }

  lemma {:induction false} SquaresConcat(xs: seq<real>, ys: seq<real>, m: real)
    ensures Squares(xs + ys, m) == Squares(xs, m) + Squares(ys, m)
    decreases |ys|
  {
    hide Square;
    if ys == [] {
      assert xs + ys == xs;
    } else {
      assert (xs + ys)[..|xs + ys| - 1] == xs + ys[..|ys| - 1];
      SquaresConcat(xs, ys[..|ys| - 1], m);
    }
  }

  lemma {:induction false} DeviationsFromSum(xs: seq<real>, m: real)
    ensures Deviations(xs, m) == Sum(xs) - Times(m, |xs| as real)
    decreases |xs|
  {
    hide Times;
    if xs != [] {
      var k := |xs| - 1;
      DeviationsFromSum(xs[..k], m);
      Distribute(m, k as real, 1.0);
      One(m);
      assert |xs| as real == k as real + 1.0;
    }
  }

  lemma {:induction false} ProductsSame(xs: seq<real>, m: real)
    ensures Products(xs, m, m) == Squares(xs, m)
    decreases |xs|
  {
    hide Times;
    if xs != [] {
      ProductsSame(xs[..|xs| - 1], m);
    }
  }

  lemma {:induction false} ProductsSymmetric(xs: seq<real>, a: real, b: real)
    ensures Products(xs, a, b) == Products(xs, b, a)
    decreases |xs|
  {
    hide Times;
    if xs != [] {
      ProductsSymmetric(xs[..|xs| - 1], a, b);
      Commute(xs[|xs| - 1] - a, xs[|xs| - 1] - b);
    }
  }

  /** Moving one of the two reference points by `d`. */
  lemma {:induction false} ProductsShift(xs: seq<real>, a: real, c: real, b: real, d: real)
    requires c == a - d
    ensures Products(xs, c, b) == Products(xs, a, b) + Times(d, Deviations(xs, b))
    decreases |xs|
  {
    hide Times;
    if xs != [] {
      var k := |xs| - 1;
      ProductsShift(xs[..k], a, c, b, d);
      Distribute(xs[k] - b, xs[k] - a, d);
      assert (xs[k] - a) + d == xs[k] - c;
      Distribute(d, Deviations(xs[..k], b), xs[k] - b);
    }
  }

  /** Moving the reference point of a sum of squares by `d`. */
  lemma SquaresShift(xs: seq<real>, a: real, c: real, d: real)
    requires c == a - d
    ensures Squares(xs, c) == Squares(xs, a) + Times(d, Deviations(xs, a)) + Times(d, Deviations(xs, c))
  {
    hide Times;
    ProductsSame(xs, a);
    ProductsSame(xs, c);
    ProductsShift(xs, a, c, c, d);
    ProductsShift(xs, a, c, a, d);
    ProductsSymmetric(xs, a, c);
  }

  ghost predicate IsMean(xs: seq<real>, m: real) {
    Times(m, |xs| as real) == Sum(xs)
  }

  /** The batch update: exact mean and exact sum of squares of everything so far. */
  lemma {:induction false} BatchUpdate(seen: seq<real>, batch: seq<real>, mean: real, newMean: real)
    requires batch != [] && IsMean(seen, mean)
    requires newMean == mean + Deviations(batch, mean) / (|seen| + |batch|) as real
    ensures IsMean(seen + batch, newMean)
    ensures Squares(seen, mean) + Products(batch, newMean, mean) == Squares(seen + batch, newMean)
  {
    hide Times;
    var d := mean - newMean;
    BatchMean(seen, batch, mean, newMean);
    Balance(seen, batch, newMean);
    SeenShift(seen, mean, newMean, d);
    BatchShift(batch, mean, newMean, d);
    SquaresConcat(seen, batch, newMean);
    Distribute(d, Deviations(seen, newMean), Deviations(batch, newMean));
  }

  lemma {:induction false} BatchMean(seen: seq<real>, batch: seq<real>, mean: real, newMean: real)
    requires batch != [] && IsMean(seen, mean)
    requires newMean == mean + Deviations(batch, mean) / (|seen| + |batch|) as real
    ensures IsMean(seen + batch, newMean)
  {
    hide Times;
    var n, k := |seen| as real, |batch| as real;
    assert |seen + batch| as real == n + k;
    SumConcat(seen, batch);
    DeviationsFromSum(batch, mean);
    DivideBack(Deviations(batch, mean), n + k);
    Distribute(n + k, mean, Deviations(batch, mean) / (n + k));
    Distribute(mean, n, k);
  }

  /** Around the common mean the old and the new samples cancel out. */
  lemma {:induction false} Balance(seen: seq<real>, batch: seq<real>, m: real)
    requires IsMean(seen + batch, m)
    ensures Deviations(seen, m) + Deviations(batch, m) == 0.0
  {
    hide Times;
    assert |seen + batch| as real == |seen| as real + |batch| as real;
    SumConcat(seen, batch);
    DeviationsFromSum(seen, m);
    DeviationsFromSum(batch, m);
    Distribute(m, |seen| as real, |batch| as real);
  }

  lemma {:induction false} SeenShift(seen: seq<real>, mean: real, newMean: real, d: real)
    requires IsMean(seen, mean) && newMean == mean - d
    ensures Squares(seen, newMean) == Squares(seen, mean) + Times(d, Deviations(seen, newMean))
  {
    hide Times;
    DeviationsFromSum(seen, mean);
    SquaresShift(seen, mean, newMean, d);
  }

  lemma {:induction false} BatchShift(batch: seq<real>, mean: real, newMean: real, d: real)
    requires newMean == mean - d
    ensures Squares(batch, newMean) == Products(batch, newMean, mean) + Times(d, Deviations(batch, newMean))
  {
    hide Times;
    ProductsSame(batch, newMean);
    ProductsShift(batch, mean, newMean, newMean, d);
    ProductsSymmetric(batch, mean, newMean);
  }

  // ------------------------------------------------------------- thresholds

  lemma OneMore(c: nat, w: real, s: real, q: real)
    requires Times(c as real, w) <= s && w <= q
    ensures Times((c + 1) as real, w) <= s + q
  {
    hide Times;
    Distribute(w, c as real, 1.0);
    One(w);
  }

  /** Every sample above `t` adds at least `w * w`. */
  lemma {:induction false} TailAbove(xs: seq<real>, c: real, t: real, w: real)
    requires w == t - c >= 0.0
    ensures Times(CountAbove(xs, t) as real, Square(w)) <= Squares(xs, c)
    decreases |xs|
  {
    hide Times, Square;
    if xs != [] {
      var k := |xs| - 1;
      TailAbove(xs[..k], c, t, w);
      if xs[k] > t {
        SquareMonotone(w, xs[k] - c);
        OneMore(CountAbove(xs[..k], t), Square(w), Squares(xs[..k], c), Square(xs[k] - c));
      }
    }
  }

  lemma {:induction false} TailAtMost(xs: seq<real>, c: real, t: real, w: real)
    requires w == c - t >= 0.0
    ensures Times(CountAtMost(xs, t) as real, Square(w)) <= Squares(xs, c)
    decreases |xs|
  {
    hide Times, Square;
    if xs != [] {
      var k := |xs| - 1;
      TailAtMost(xs[..k], c, t, w);
      if xs[k] <= t {
        SquareMonotone(w, c - xs[k]);
        SquareNegated(c - xs[k], xs[k] - c);
        OneMore(CountAtMost(xs[..k], t), Square(w), Squares(xs[..k], c), Square(xs[k] - c));
      }
    }
  }

  /** `mean` and `sd` describe the samples exactly. */
  ghost predicate Describes(xs: seq<real>, mean: real, sd: real) {
    && xs != [] && IsMean(xs, mean)
    && sd >= 0.0 && Times(|xs| as real, Square(sd)) == Squares(xs, mean)
  }

  /** The sum of squares from a point beside the mean. */
  lemma SquaresAtShifted(xs: seq<real>, mean: real, sd: real, c: real, u: real)
    requires Describes(xs, mean, sd) && c == mean - u
    ensures Squares(xs, c) == Times(|xs| as real, Square(sd) + Square(u))
  {
    hide Times;
    var n := |xs| as real;
    SeenShift(xs, mean, c, u);
    DeviationsFromSum(xs, c);
    Distribute(n, mean, u);
    Commute(u, n);
    Associate(u, u, n);
    Commute(n, Square(u));
    Distribute(n, Square(sd), Square(u));
  }

  /** The thresholds of the performance model. */
  function High(mean: real, sd: real, k: nat): real {
    mean + Times(sd, k as real)
  }

  function Low(mean: real, sd: real, k: nat): real {
    mean - Times(sd, k as real)
  }

  /** At most one sample in `k*k + 1` is above `mean + k * sd`. */
  lemma {:induction false} FewAbove(xs: seq<real>, mean: real, sd: real, k: nat)
    requires Describes(xs, mean, sd)
    ensures (k * k + 1) * CountAbove(xs, High(mean, sd, k)) <= |xs|
  {
    hide Times;
    CountBounds(xs, High(mean, sd, k));
    if sd == 0.0 {
      NoneAbove(xs, mean);
    } else if k > 0 {
      var u := sd / k as real;
      DivideBack(sd, k as real);
      AboveCount(xs, mean, sd, k, u);
    }
  }

  /** Unless all samples are equal, at most one in `k*k + 1` is at or below
      `mean - k * sd`. */
  lemma {:induction false} FewAtMost(xs: seq<real>, mean: real, sd: real, k: nat)
    requires Describes(xs, mean, sd) && sd > 0.0
    ensures (k * k + 1) * CountAtMost(xs, Low(mean, sd, k)) <= |xs|
  {
    hide Times;
    CountBounds(xs, Low(mean, sd, k));
    if k > 0 {
      var u := sd / k as real;
      DivideBack(sd, k as real);
      AtMostCount(xs, mean, sd, k, u);
    }
  }

  /** Measured from a point `sd / k` on the other side of the mean. */
  lemma AboveCount(xs: seq<real>, mean: real, sd: real, k: nat, u: real)
    requires Describes(xs, mean, sd) && u >= 0.0 && sd > 0.0 && k > 0 && Times(u, k as real) == sd
    ensures (k * k + 1) * CountAbove(xs, High(mean, sd, k)) <= |xs|
  {
    hide Times;
    var w := Times(sd, k as real) + u;
    SquaresAtShifted(xs, mean, sd, mean - u, u);
    TailAbove(xs, mean - u, High(mean, sd, k), w);
    TailArithmetic(CountAbove(xs, High(mean, sd, k)), |xs|, sd, k, u, w);
  }

  lemma AtMostCount(xs: seq<real>, mean: real, sd: real, k: nat, u: real)
    requires Describes(xs, mean, sd) && u >= 0.0 && sd > 0.0 && k > 0 && Times(u, k as real) == sd
    ensures (k * k + 1) * CountAtMost(xs, Low(mean, sd, k)) <= |xs|
  {
    hide Times;
    var w := Times(sd, k as real) + u;
    SquareNegated(u, -u);
    SquaresAtShifted(xs, mean, sd, mean + u, -u);
    TailAtMost(xs, mean + u, Low(mean, sd, k), w);
    TailArithmetic(CountAtMost(xs, Low(mean, sd, k)), |xs|, sd, k, u, w);
  }

  lemma {:induction false} CountAll(xs: seq<real>, m: real)
    requires forall i :: 0 <= i < |xs| ==> xs[i] == m
    ensures CountAtMost(xs, m) == |xs| && CountAbove(xs, m) == 0
    decreases |xs|
  {
    if xs != [] {
      CountAll(xs[..|xs| - 1], m);
    }
  }

  lemma {:induction false} CountBounds(xs: seq<real>, t: real)
    ensures CountAbove(xs, t) <= |xs| && CountAtMost(xs, t) <= |xs|
    decreases |xs|
  {
    if xs != [] {
      CountBounds(xs[..|xs| - 1], t);
    }
  }

  lemma {:induction false} NoSpread(xs: seq<real>, mean: real)
    requires Squares(xs, mean) == 0.0
    ensures forall i :: 0 <= i < |xs| ==> xs[i] == mean
    decreases |xs|
  {
    hide Square;
    if xs != [] {
      NoSpread(xs[..|xs| - 1], mean);
    }
  }

  /** With all samples equal, none is above the mean and every one is at the
      lower threshold. */
  lemma NoneAbove(xs: seq<real>, mean: real)
    requires Describes(xs, mean, 0.0)
    ensures CountAbove(xs, mean) == 0 && CountAtMost(xs, mean) == |xs|
  {
    hide Times;
    NoSpread(xs, mean);
    CountAll(xs, mean);
  }

  /** `c * (k*sd + sd/k)^2 <= n * (sd^2 + (sd/k)^2)` comes down to `c * (k^2 + 1) <= n`. */
  lemma TailArithmetic(c: nat, n: nat, sd: real, k: nat, u: real, w: real)
    requires u >= 0.0 && sd > 0.0 && Times(u, k as real) == sd && w == Times(sd, k as real) + u
    requires Times(c as real, Square(w)) <= Times(n as real, Square(sd) + Square(u))
    ensures (k * k + 1) * c <= n
  {
    hide Times;
    var r, m := k as real, (k * k + 1) as real;
    SquareOfInt(k);
    InTermsOfU(sd, r, u, w, m);
    var v := Times(Square(u), m);
    assert v > 0.0;
    Associate(c as real, m, v);
    CancelFactor(Times(c as real, m), n as real, v);
    ProductOfInts(c, k * k + 1);
  }

  lemma SquareOfInt(k: nat)
    ensures (k * k + 1) as real == Square(k as real) + 1.0
  {
  }

  lemma ProductOfInts(a: nat, b: nat)
    ensures Times(a as real, b as real) == (b * a) as real
  {
  }

  lemma InTermsOfU(sd: real, r: real, u: real, w: real, m: real)
    requires Times(u, r) == sd && w == Times(sd, r) + u && m == Square(r) + 1.0
    ensures Square(w) == Times(m, Times(Square(u), m))
    ensures Square(sd) + Square(u) == Times(Square(u), m)
  {
    hide Times;
    Associate(u, r, r);
    Distribute(u, Square(r), 1.0);
    One(u);
    assert w == Times(u, m);
    SquareOfProduct(u, m);
    Associate(Square(u), m, m);
    Commute(Times(Square(u), m), m);
    SquareOfProduct(u, r);
    Distribute(Square(u), Square(r), 1.0);
    One(Square(u));
  }

  // ------------------------------------------------------------- the objects

  datatype CalcData = CalcData(mean: real, sd: real)

  /** A square root: `sqrt` over the reals. */
  ghost predicate IsSqrt(sqrt: real -> real) {
    forall x: real :: x >= 0.0 ==> sqrt(x) >= 0.0 && Square(sqrt(x)) == x
  }

  lemma RootOfMean(sqrt: real -> real, sq: real, n: real)
    requires IsSqrt(sqrt) && sq >= 0.0 && n > 0.0
    ensures sqrt(sq / n) >= 0.0 && Times(n, Square(sqrt(sq / n))) == sq
  {
    hide Times, Square;
    DivideBack(sq, n);
    Commute(sq / n, n);
  }

  class StandardDeviation {
    const maxResults: nat
    const sqrt: real -> real
    var mean: real
    var sqDiff: real
    var sd: real
    var resultCount: nat
    var oldDiffs: array<real>
    var times: seq<real>
    /** Every sample of the full batches so far. */
    ghost var seen: seq<real>

    /** Mean and sum of squares are exactly those of the samples seen. */
    ghost predicate Exact() reads this {
      && IsSqrt(sqrt)
      && resultCount == |seen|
      && IsMean(seen, mean)
      && sqDiff == Squares(seen, mean)
    }

    ghost predicate Valid() reads this {
      && Exact()
      && oldDiffs.Length == maxResults
      && (maxResults >= 1 ==> |times| < maxResults)
      && (if seen == [] then mean == 0.0 && sd == 0.0 else Describes(seen, mean, sd))
    }

    constructor (maxResults: nat, sqrt: real -> real)
      requires IsSqrt(sqrt)
      ensures Valid() && seen == [] && times == [] && this.maxResults == maxResults && fresh(oldDiffs)
    {
      this.maxResults, this.sqrt := maxResults, sqrt;
      mean, sqDiff, sd, resultCount := 0.0, 0.0, 0.0, 0;
      oldDiffs := new real[maxResults](_ => 0.0);
      times, seen := [], [];
    }

    /** Takes in one sample. The figures change only when it completes a batch;
        then they are exactly those of all samples of all full batches. */
    method Calculate(result: real) returns (cd: CalcData)
      requires Valid()
      modifies this, oldDiffs
      ensures Valid() && oldDiffs == old(oldDiffs)
      ensures cd == CalcData(mean, sd)
      ensures if |old(times)| + 1 == maxResults then
                seen == old(seen) + old(times) + [result] && times == []
              else
                && seen == old(seen) && times == old(times) + [result]
                && mean == old(mean) && sd == old(sd)
    {
      times := times + [result];
      if |times| == maxResults {
        FullBatch();
      }
      cd := CalcData(mean, sd);
    }

    /** What is done with a full batch. */
    method FullBatch()
      requires Exact() && oldDiffs.Length == maxResults == |times| && maxResults >= 1
      modifies this, oldDiffs
      ensures Valid() && oldDiffs == old(oldDiffs)
      ensures seen == old(seen) + old(times) && times == []
    {
      hide Times, Square;
      ghost var oldMean := mean;
      resultCount := resultCount + |times|;
      var sum := FirstLoop();
      mean := mean + sum / resultCount as real;
      sum := SecondLoop(oldMean);
      BatchUpdate(seen, times, oldMean, mean);
      sqDiff := sqDiff + sum;
      seen := seen + times;
      RootOfMean(sqrt, sqDiff, resultCount as real);
      sd := sqrt(sqDiff / resultCount as real);
      times := [];
    }

    /** The loop before the mean changes. */
    method FirstLoop() returns (sum: real)
      requires oldDiffs.Length == |times|
      modifies oldDiffs
      ensures sum == Deviations(times, mean)
      ensures forall j :: 0 <= j < |times| ==> oldDiffs[j] == times[j] - mean
    {
      sum := 0.0;
      var i := 0;
      while i < |times|
        invariant 0 <= i <= |times|
        invariant sum == Deviations(times[..i], mean)
        invariant forall j :: 0 <= j < i ==> oldDiffs[j] == times[j] - mean
      {
        oldDiffs[i] := times[i] - mean;
        sum := sum + oldDiffs[i];
        assert times[..i + 1][..i] == times[..i];
        i := i + 1;
      }
      assert times[..i] == times;
    }

    /** The loop after the mean has changed. */
    method SecondLoop(ghost oldMean: real) returns (sum: real)
      requires oldDiffs.Length == |times|
      requires forall j :: 0 <= j < |times| ==> oldDiffs[j] == times[j] - oldMean
      ensures sum == Products(times, mean, oldMean)
    {
      sum := 0.0;
      var i := 0;
      while i < |times|
        invariant 0 <= i <= |times|
        invariant sum == Products(times[..i], mean, oldMean)
      {
        assert times[..i + 1][..i] == times[..i];
        sum := sum + (times[i] - mean) * oldDiffs[i];
        i := i + 1;
      }
      assert times[..i] == times;
    }
  }

  /** What the thresholds say of one sample: `high` deviations below the mean is
      fast, more than `low` above it too slow. */
  function Verdict(time: real, mean: real, sd: real, high: nat, low: nat): Status {
    if mean == 0.0 then NORMAL
    else if time <= Low(mean, sd, high) then FAST
    else if time > High(mean, sd, low) then TOOSLOW
    else NORMAL
  }

  lemma Thresholds(mean: real, sd: real, k: nat)
    ensures Low(mean, sd, k) == mean - sd * k as real && High(mean, sd, k) == mean + sd * k as real
  {
  }

  function CountVerdicts(xs: seq<real>, v: Status, mean: real, sd: real, high: nat, low: nat): nat {
    if xs == [] then 0
    else CountVerdicts(xs[..|xs| - 1], v, mean, sd, high, low)
         + (if Verdict(xs[|xs| - 1], mean, sd, high, low) == v then 1 else 0)
  }

  /** The samples found too slow are exactly those above the upper threshold,
      unless the mean is zero: with a deviation of zero or more no sample is at
      or below the lower one as well. */
  lemma {:induction false} SlowVerdicts(xs: seq<real>, mean: real, sd: real, high: nat, low: nat)
    requires sd >= 0.0
    ensures CountVerdicts(xs, TOOSLOW, mean, sd, high, low)
         == if mean == 0.0 then 0 else CountAbove(xs, High(mean, sd, low))
    decreases |xs|
  {
    hide Times;
    if xs != [] {
      SlowVerdicts(xs[..|xs| - 1], mean, sd, high, low);
    }
  }

  /** The samples found fast are exactly those at or below the lower threshold,
      unless the mean is zero. */
  lemma {:induction false} FastVerdicts(xs: seq<real>, mean: real, sd: real, high: nat, low: nat)
    ensures CountVerdicts(xs, FAST, mean, sd, high, low)
         == if mean == 0.0 then 0 else CountAtMost(xs, Low(mean, sd, high))
    decreases |xs|
  {
    hide Times;
    if xs != [] {
      FastVerdicts(xs[..|xs| - 1], mean, sd, high, low);
    }
  }

  lemma ScaleCount(m: nat, a: nat, b: nat)
    requires a <= b
    ensures m * a <= m * b
  {
  }

  /** At every batch boundary: few of the samples taken in so far would be
      found too slow; and few would be found fast if and only if they differ, or
      the mean is zero, or the lower threshold is the mean itself. */
  lemma {:induction false} VerdictsAreRare(xs: seq<real>, mean: real, sd: real, high: nat, low: nat)
    requires Describes(xs, mean, sd)
    ensures (low * low + 1) * CountVerdicts(xs, TOOSLOW, mean, sd, high, low) <= |xs|
    ensures (high * high + 1) * CountVerdicts(xs, FAST, mean, sd, high, low) <= |xs|
       <==> high == 0 || mean == 0.0 || sd > 0.0
  {
    hide Times, Verdict, High, Low, CountVerdicts, CountAbove, CountAtMost;
    SlowVerdicts(xs, mean, sd, high, low);
    FewAbove(xs, mean, sd, low);
    ScaleCount(low * low + 1, CountVerdicts(xs, TOOSLOW, mean, sd, high, low), CountAbove(xs, High(mean, sd, low)));
    FastVerdicts(xs, mean, sd, high, low);
    if sd > 0.0 {
      FewAtMost(xs, mean, sd, high);
      ScaleCount(high * high + 1, CountVerdicts(xs, FAST, mean, sd, high, low), CountAtMost(xs, Low(mean, sd, high)));
    } else {
      AllFast(xs, mean, high, low);
      CountBounds(xs, Low(mean, sd, high));
      TooMany(high, |xs|);
    }
  }

  lemma TooMany(high: nat, n: nat)
    requires n > 0
    ensures (high * high + 1) * n <= n <==> high == 0
  {
    if high > 0 {
      ScaleCount(n, 1, high * high);
    }
  }

  /** All samples being the same, every one is found fast, unless the mean is zero. */
  lemma {:induction false} AllFast(xs: seq<real>, mean: real, high: nat, low: nat)
    requires Describes(xs, mean, 0.0)
    ensures CountVerdicts(xs, FAST, mean, 0.0, high, low) == if mean == 0.0 then 0 else |xs|
  {
    hide Times;
    NoSpread(xs, mean);
    SameVerdict(xs, mean, high, low);
  }

  lemma {:induction false} SameVerdict(xs: seq<real>, mean: real, high: nat, low: nat)
    requires forall i :: 0 <= i < |xs| ==> xs[i] == mean
    ensures CountVerdicts(xs, FAST, mean, 0.0, high, low) == if mean == 0.0 then 0 else |xs|
    decreases |xs|
  {
    hide Times;
    if xs != [] {
      SameVerdict(xs[..|xs| - 1], mean, high, low);
    }
  }

  /** With the default parameters, 4 up and 2 down. */
  lemma DefaultVerdictsAreRare(xs: seq<real>, mean: real, sd: real)
    requires Describes(xs, mean, sd)
    ensures 17 * CountVerdicts(xs, TOOSLOW, mean, sd, 2, 4) <= |xs|
    ensures sd > 0.0 ==> 5 * CountVerdicts(xs, FAST, mean, sd, 2, 4) <= |xs|
  {
    VerdictsAreRare(xs, mean, sd, 2, 4);
  }

  class PerformanceModel {
    const sd: StandardDeviation
    const nSDHigh: nat
    const nSDLow: nat

    ghost predicate Valid() reads this, sd {
      sd.Valid()
    }

    constructor (sd: StandardDeviation, nSDHigh: nat, nSDLow: nat)
      requires sd.Valid()
      ensures Valid() && this.sd == sd && this.nSDHigh == nSDHigh && this.nSDLow == nSDLow
    {
      this.sd, this.nSDHigh, this.nSDLow := sd, nSDHigh, nSDLow;
    }

    /** Between two calls, whatever the samples were: the thresholds in force find
        few of them too slow, and few of them fast unless they are all the same. */
    lemma FewOutliers()
      requires Valid() && sd.seen != []
      ensures (nSDLow * nSDLow + 1) * CountVerdicts(sd.seen, TOOSLOW, sd.mean, sd.sd, nSDHigh, nSDLow) <= |sd.seen|
      ensures (nSDHigh * nSDHigh + 1) * CountVerdicts(sd.seen, FAST, sd.mean, sd.sd, nSDHigh, nSDLow) <= |sd.seen|
         <==> nSDHigh == 0 || sd.mean == 0.0 || sd.sd > 0.0
    {
      VerdictsAreRare(sd.seen, sd.mean, sd.sd, nSDHigh, nSDLow);
    }

    /** The verdict on one sample by the figures after it was taken in. While
        the mean is zero (before the first full batch, for one) it is NORMAL. */
    method EvaluateTime(time: real) returns (status: Status)
      requires Valid()
      modifies sd, sd.oldDiffs
      ensures Valid() && sd.oldDiffs == old(sd.oldDiffs)
      ensures if |old(sd.times)| + 1 == sd.maxResults then
                sd.seen == old(sd.seen) + old(sd.times) + [time] && sd.times == []
              else
                && sd.seen == old(sd.seen) && sd.times == old(sd.times) + [time]
                && sd.mean == old(sd.mean) && sd.sd == old(sd.sd)
      ensures status == Verdict(time, sd.mean, sd.sd, nSDHigh, nSDLow)
      ensures status == FAST <==> sd.mean != 0.0 && time <= sd.mean - sd.sd * nSDHigh as real
      ensures status == TOOSLOW <==>
                && sd.mean != 0.0 && time > sd.mean + sd.sd * nSDLow as real
                && !(time <= sd.mean - sd.sd * nSDHigh as real)
    {
      hide Times;
      var data := sd.Calculate(time);
      Thresholds(data.mean, data.sd, nSDHigh);
      Thresholds(data.mean, data.sd, nSDLow);
      if data.mean == 0.0 {
        return NORMAL;
      }
      if time <= data.mean - data.sd * nSDHigh as real {
        return FAST;
      } else if time > data.mean + data.sd * nSDLow as real {
        return TOOSLOW;
      }
      return NORMAL;
    }
  }
}
