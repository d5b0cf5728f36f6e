/** The statistics the analysis takes over real values: sums, the
    arithmetic mean, the NaN-skipping sample variance and the volatility
    (sample standard deviation, pandas `Series.std` with `ddof=1`). */
module Stats {
  import opened Wrappers
  import opened ReturnSeries

  function Sum(xs: seq<real>): real
  {
    if |xs| == 0 then 0.0 else xs[0] + Sum(xs[1..])
  }

  lemma {:induction false} SumAppend(xs: seq<real>, ys: seq<real>)
    ensures Sum(xs + ys) == Sum(xs) + Sum(ys)
  {
    if |xs| == 0 {
      assert xs + ys == ys;
    } else {
      assert (xs + ys)[1..] == xs[1..] + ys;
      SumAppend(xs[1..], ys);
    }
  }

  /** A lower (upper) bound on every value bounds the sum by `n` times it. */
  lemma {:induction false} SumBounds(xs: seq<real>, lo: real, hi: real)
    requires forall i :: 0 <= i < |xs| ==> lo <= xs[i] <= hi
    ensures lo * (|xs| as real) <= Sum(xs) <= hi * (|xs| as real)
  {
    if |xs| > 0 {
      SumBounds(xs[1..], lo, hi);
      assert lo * (|xs| as real) == lo + lo * ((|xs| - 1) as real);
      assert hi * (|xs| as real) == hi + hi * ((|xs| - 1) as real);
    }
  }

  /** The arithmetic mean; undefined for no values. */
  function Mean(xs: seq<real>): (m: Option<real>)
    ensures m.Some? <==> |xs| > 0
    ensures m.Some? ==> m.value * (|xs| as real) == Sum(xs)
  {
    if |xs| == 0 then None else Some(Sum(xs) / (|xs| as real))
  }

  /** The mean lies within any bounds that hold of every value. */
  lemma MeanWithinBounds(xs: seq<real>, lo: real, hi: real)
    requires |xs| > 0
    requires forall i :: 0 <= i < |xs| ==> lo <= xs[i] <= hi
    ensures lo <= Mean(xs).value <= hi
  {
    SumBounds(xs, lo, hi);
    var n := |xs| as real;
    var m := Mean(xs).value;
    assert m * n == Sum(xs);
  }

  /** A return as a sample value: its value when finite, nothing otherwise. */
  function FiniteValue(x: DailyReturn): Option<real> {
    if x.Finite? then Some(x.value) else None
  }

  function FiniteValues(window: seq<DailyReturn>): (os: seq<Option<real>>)
    ensures |os| == |window| && forall i :: 0 <= i < |window| ==> os[i] == FiniteValue(window[i])
  {
    seq(|window|, i requires 0 <= i < |window| => FiniteValue(window[i]))
  }

  /** The finite values of a window, in order, each as often as it occurs
      (pandas skips NaN). */
  function Defined(window: seq<DailyReturn>): (xs: seq<real>)
    ensures |xs| <= |window|
    ensures forall k :: 0 <= k < |xs| ==> Finite(xs[k]) in window
    ensures forall i :: 0 <= i < |window| && window[i].Finite? ==> window[i].value in xs
  {
    var os := FiniteValues(window);
    var xs := Somes(os);
    assert forall k :: 0 <= k < |xs| ==> Finite(xs[k]) in window by {
      forall k | 0 <= k < |xs| ensures Finite(xs[k]) in window {
        var i :| 0 <= i < |os| && os[i] == Some(xs[k]);
        assert window[i] == Finite(xs[k]);
      }
    }
    assert forall i :: 0 <= i < |window| && window[i].Finite? ==> os[i] == Some(window[i].value);
    xs
  }

  /** Dropping non-finite returns commutes with concatenation. */
  lemma DefinedAppend(a: seq<DailyReturn>, b: seq<DailyReturn>)
    ensures Defined(a + b) == Defined(a) + Defined(b)
  {
    assert FiniteValues(a + b) == FiniteValues(a) + FiniteValues(b);
    SomesAppend(FiniteValues(a), FiniteValues(b));
  }

  /** A single return contributes its value when finite, nothing otherwise;
      with `DefinedAppend` this fixes `Defined` on every window. */
  lemma DefinedSingle(x: DailyReturn)
    ensures Defined([x]) == if x.Finite? then [x.value] else []
  {
    assert FiniteValues([x]) == [] + [FiniteValue(x)];
    SomesSnoc([], FiniteValue(x));
  }

  /** The sum of squared deviations from `m`. */
  function SquaredDeviations(xs: seq<real>, m: real): (s: real)
    ensures s >= 0.0
  {
    if |xs| == 0 then 0.0
    else
      var d := xs[0] - m;
      assert d * d >= 0.0 by { SquareNonNegative(d); }
      d * d + SquaredDeviations(xs[1..], m)
  }

  lemma SquareNonNegative(d: real)
    ensures d * d >= 0.0
  {
    if d < 0.0 {
      assert d * d == (-d) * (-d);
    }
  }

  /** The sample variance (divisor n - 1) of at least two values. */
  function SampleVariance(xs: seq<real>): (v: real)
    requires |xs| >= 2
    ensures v >= 0.0
  {
    var m := Sum(xs) / (|xs| as real);
    SquaredDeviations(xs, m) / ((|xs| - 1) as real)
  }

  /** The squared deviations vanish exactly when every value equals `m`. */
  lemma {:induction false} SquaredDeviationsZero(xs: seq<real>, m: real)
    ensures SquaredDeviations(xs, m) == 0.0 <==> forall i :: 0 <= i < |xs| ==> xs[i] == m
  {
    if |xs| > 0 {
      var rest := xs[1..];
      SquaredDeviationsZero(rest, m);
      var d := xs[0] - m;
      assert SquaredDeviations(xs, m) == d * d + SquaredDeviations(rest, m);
      if d != 0.0 {
        SquarePositive(d);
        calc {
          SquaredDeviations(xs, m);
          == d * d + SquaredDeviations(rest, m);
          >= d * d;
          > 0.0;
        }
      } else {
        assert SquaredDeviations(xs, m) == SquaredDeviations(rest, m);
        assert (forall i :: 0 <= i < |xs| ==> xs[i] == m) <==> (forall i :: 0 <= i < |rest| ==> rest[i] == m) by {
          assert forall i :: 1 <= i < |xs| ==> xs[i] == rest[i - 1];
        }
      }
    }
  }

  lemma SquarePositive(d: real)
    requires d != 0.0
    ensures d * d > 0.0
  {
    if d < 0.0 {
      assert d * d == (-d) * (-d);
    }
  }

  /** A window's variance is zero exactly when all its values are equal:
      the degenerate window the analysis refuses. */
  lemma SampleVarianceZeroIffConstant(xs: seq<real>)
    requires |xs| >= 2
    ensures SampleVariance(xs) == 0.0 <==> forall i :: 0 <= i < |xs| ==> xs[i] == xs[0]
  {
    var n := |xs| as real;
    var m := Sum(xs) / n;
    var s := SquaredDeviations(xs, m);
    assert SampleVariance(xs) == s / ((|xs| - 1) as real);
    QuotientZero(s, (|xs| - 1) as real);
    SquaredDeviationsZero(xs, m);
    if forall i :: 0 <= i < |xs| ==> xs[i] == xs[0] {
      SumBounds(xs, xs[0], xs[0]);
      QuotientOfMultiple(xs[0], n);
    }
  }

  lemma QuotientZero(s: real, k: real)
    requires k > 0.0
    ensures s / k == 0.0 <==> s == 0.0
  {
    assert s / k * k == s;
  }

  lemma QuotientOfMultiple(x: real, n: real)
    requires n > 0.0
    ensures x * n / n == x
  {
  }

  /** `root` is a square root on the non-negative reals (the `sqrt` inside
      pandas' standard deviation, which this model takes as a parameter). */
  ghost predicate IsSquareRoot(root: real -> real) {
    forall x :: x >= 0.0 ==> root(x) >= 0.0 && root(x) * root(x) == x
  }

  lemma RootPositive(r: real, v: real)
    requires r >= 0.0 && r * r == v
    ensures r > 0.0 <==> v > 0.0
  {
    if r > 0.0 {
      calc {
        v;
        == r * r;
        > 0.0 * r;
        == 0.0;
      }
    }
  }

  /** The window holds an infinite return, which makes pandas' standard
      deviation NaN. */
  predicate HasInfinite(window: seq<DailyReturn>) {
    exists i :: 0 <= i < |window| && window[i].Infinite?
  }

  /** The volatility of a window of returns: the sample standard deviation of
      its finite values, undefined when fewer than two remain after skipping
      NaN or when an infinite return is present. */
  function Volatility(root: real -> real, window: seq<DailyReturn>): (v: Option<real>)
    ensures v.Some? <==> !HasInfinite(window) && |Defined(window)| >= 2
  {
    var xs := Defined(window);
    if HasInfinite(window) || |xs| < 2 then None else Some(root(SampleVariance(xs)))
  }

  /** With a true square root, a defined volatility is never negative and is
      positive exactly when the sample variance is. */
  lemma VolatilityPositiveIffVariance(root: real -> real, window: seq<DailyReturn>)
    requires IsSquareRoot(root)
    requires !HasInfinite(window) && |Defined(window)| >= 2
    ensures Volatility(root, window).value >= 0.0
    ensures Volatility(root, window).value > 0.0 <==> SampleVariance(Defined(window)) > 0.0
  {
    var v := SampleVariance(Defined(window));
    assert Volatility(root, window) == Some(root(v));
    RootSign(root, v);
  }

  /** A true square root of a non-negative value is non-negative, and
      positive exactly when the value is. */
  lemma RootSign(root: real -> real, v: real)
    requires IsSquareRoot(root)
    requires v >= 0.0
    ensures root(v) >= 0.0 && (root(v) > 0.0 <==> v > 0.0)
  {
    var r := root(v);
    assert r >= 0.0 && r * r == v;
    RootPositive(r, v);
  }
}
