/** The Anderson-Darling test against an arbitrary null distribution
    (src/scripts/paper_example_ad_dist.py): the statistic, the control points
    of the null CDF, the support guard of the sampler's target density, the
    per-row statistics of the sampled chain, and the two-sided fold of the
    calibration distribution around its mean.

    The CDF and the natural logarithm enter as function parameters: the
    interpolation of the CDF and the values of ln are not modelled. */
module AndersonDarling {
  import opened Results
  import opened Floats
  import opened Sorting

  // ---------------------------------------------------------------------
  // Sums and sequence helpers

  function Sum(s: seq<real>): real
  {
    if s == [] then 0.0 else Sum(s[..|s| - 1]) + s[|s| - 1]
  }

  lemma {:induction false} SumCons(x: real, s: seq<real>)
    ensures Sum([x] + s) == x + Sum(s)
  {
    if s != [] {
      var t := [x] + s;
      assert t[..|t| - 1] == [x] + s[..|s| - 1];
      SumCons(x, s[..|s| - 1]);
    }
  }

  /** `s[::-1]`. */
  function Reverse(s: seq<real>): (r: seq<real>)
    ensures |r| == |s|
    ensures forall k {:trigger r[k]} :: 0 <= k < |s| ==> r[k] == s[|s| - 1 - k]
  {
    seq(|s|, k requires 0 <= k < |s| => s[|s| - 1 - k])
  }

  lemma {:induction false} SumReverse(s: seq<real>)
    ensures Sum(Reverse(s)) == Sum(s)
  {
    if s != [] {
      assert Reverse(s) == [s[|s| - 1]] + Reverse(s[..|s| - 1]);
      SumCons(s[|s| - 1], Reverse(s[..|s| - 1]));
      SumReverse(s[..|s| - 1]);
    }
  }

  function AddSeq(a: seq<real>, b: seq<real>): (r: seq<real>)
    requires |a| == |b|
    ensures |r| == |a| && forall k {:trigger r[k]} :: 0 <= k < |a| ==> r[k] == a[k] + b[k]
  {
    seq(|a|, k requires 0 <= k < |a| => a[k] + b[k])
  }

  lemma {:induction false} SumAdd(a: seq<real>, b: seq<real>)
    requires |a| == |b|
    ensures Sum(AddSeq(a, b)) == Sum(a) + Sum(b)
  {
    if a != [] {
      var n := |a|;
      assert AddSeq(a, b)[..n - 1] == AddSeq(a[..n - 1], b[..n - 1]);
      SumAdd(a[..n - 1], b[..n - 1]);
    }
  }

  // ---------------------------------------------------------------------
  // anderson_custom

  /** A real function applied to every element, as `dist(y)` and `np.log(z)` do. */
  function MapReal(f: real -> real, y: seq<real>): (z: seq<real>)
    ensures |z| == |y| && forall k {:trigger z[k]} :: 0 <= k < |y| ==> z[k] == f(y[k])
  {
    seq(|y|, k requires 0 <= k < |y| => f(y[k]))
  }

  lemma MapRealCons(f: real -> real, x: real, s: seq<real>)
    ensures MapReal(f, [x] + s) == [f(x)] + MapReal(f, s)
  {
    var l, r := MapReal(f, [x] + s), [f(x)] + MapReal(f, s);
    forall k | 0 <= k < |l| ensures l[k] == r[k] {
      if k > 0 {
        assert ([x] + s)[k] == s[k - 1];
      }
    }
  }

  /** `z[(z < 1.) & (z > 0.)]`: the values strictly inside (0, 1), in order. */
  function Interior(z: seq<real>): (r: seq<real>)
    ensures |r| <= |z|
    ensures forall k :: 0 <= k < |r| ==> 0.0 < r[k] < 1.0
    ensures forall v :: multiset(r)[v] == if 0.0 < v < 1.0 then multiset(z)[v] else 0
  {
    if z == [] then []
    else
      assert z == [z[0]] + z[1..];
      (if 0.0 < z[0] < 1.0 then [z[0]] else []) + Interior(z[1..])
  }

  /** The mask works piecewise and keeps the order of the survivors. */
  lemma {:induction false} InteriorAppend(a: seq<real>, b: seq<real>)
    ensures Interior(a + b) == Interior(a) + Interior(b)
  {
    if a != [] {
      assert (a + b)[0] == a[0];
      assert (a + b)[1..] == a[1..] + b;
      InteriorAppend(a[1..], b);
    } else {
      assert a + b == b;
    }
  }

  /** One value survives alone exactly when it lies strictly inside (0, 1). */
  lemma InteriorSingle(v: real)
    ensures Interior([v]) == if 0.0 < v < 1.0 then [v] else []
  {
    assert [v][1..] == [];
  }

  /** The weight (2i - 1) / N of the i-th term, i counted from 1. */
  function Weight(i: nat, n: nat): real
    requires 1 <= i <= n
  {
    (2 * i - 1) as real / n as real
  }

  /** The weights (2i - 1) / N for i = 1 .. N. */
  function Weights(n: nat): (w: seq<real>)
    ensures |w| == n && forall k {:trigger w[k]} :: 0 <= k < n ==> w[k] == Weight(k + 1, n)
  {
    seq(n, k requires 0 <= k < n => Weight(k + 1, n))
  }

  /** `1 - z`, elementwise. */
  function Complement(z: seq<real>): (c: seq<real>)
    ensures |c| == |z| && forall k {:trigger c[k]} :: 0 <= k < |z| ==> c[k] == 1.0 - z[k]
  {
    seq(|z|, k requires 0 <= k < |z| => 1.0 - z[k])
  }

  /** The elementwise product of two arrays of equal length. */
  function Scale(w: seq<real>, s: seq<real>): (r: seq<real>)
    requires |w| == |s|
    ensures |r| == |s| && forall k {:trigger r[k]} :: 0 <= k < |s| ==> r[k] == w[k] * s[k]
  {
    seq(|s|, k requires 0 <= k < |s| => w[k] * s[k])
  }

  /** The terms of S, `(2 * i - 1.0) / N * (np.log(z) + np.log(1 - z[::-1]))`. */
  function Terms(z: seq<real>, ln: real -> real): (t: seq<real>)
    ensures |t| == |z|
  {
    Scale(Weights(|z|), AddSeq(MapReal(ln, z), MapReal(ln, Complement(Reverse(z)))))
  }

  /** A2 = -N - S over the survivors `z`. */
  function Statistic(z: seq<real>, ln: real -> real): real
  {
    -(|z| as real) - Sum(Terms(z, ln))
  }

  /** `anderson_custom(x, dist)`: sort, apply the CDF, keep the values strictly
      inside (0, 1), and form -N - S. */
  function AndersonCustom(x: seq<real>, cdf: real -> real, ln: real -> real): real
  {
    Statistic(Interior(MapReal(cdf, Sort(x))), ln)
  }

  /** The i-th term pairs z_i with z_{N+1-i}, with weight (2i - 1) / N. */
  lemma TermPairing(z: seq<real>, ln: real -> real, i: nat)
    requires 1 <= i <= |z|
    ensures Terms(z, ln)[i - 1] == Weight(i, |z|) * (ln(z[i - 1]) + ln(1.0 - z[|z| - i]))
  {
    var n, k := |z|, i - 1;
    var c := Complement(Reverse(z));
    assert Reverse(z)[k] == z[n - i];
    assert c[k] == 1.0 - z[n - i];
    assert MapReal(ln, c)[k] == ln(1.0 - z[n - i]);
    assert AddSeq(MapReal(ln, z), MapReal(ln, c))[k] == ln(z[k]) + ln(1.0 - z[n - i]);
    assert Weights(n)[k] == Weight(i, n);
  }

  /** Multiplication distributes over the elementwise sum. */
  lemma {:induction false} ScaleAdd(w: seq<real>, a: seq<real>, b: seq<real>)
    requires |w| == |a| == |b|
    ensures Scale(w, AddSeq(a, b)) == AddSeq(Scale(w, a), Scale(w, b))
  {
    forall k | 0 <= k < |a|
      ensures Scale(w, AddSeq(a, b))[k] == AddSeq(Scale(w, a), Scale(w, b))[k]
    {
      Distribute(w[k], a[k], b[k]);
    }
  }

  lemma Distribute(w: real, a: real, b: real)
    ensures w * (a + b) == w * a + w * b
  {
  }

  /** Reversal commutes with the elementwise product. */
  lemma ReverseScale(w: seq<real>, s: seq<real>)
    requires |w| == |s|
    ensures Reverse(Scale(w, s)) == Scale(Reverse(w), Reverse(s))
  {
    forall k | 0 <= k < |s| ensures Reverse(Scale(w, s))[k] == Scale(Reverse(w), Reverse(s))[k] {
      var i := |s| - 1 - k;
      assert Reverse(Scale(w, s))[k] == w[i] * s[i];
      assert Reverse(w)[k] == w[i];
      assert Reverse(s)[k] == s[i];
    }
  }

  /** Reversal commutes with applying a function elementwise. */
  lemma ReverseMap(f: real -> real, s: seq<real>)
    ensures Reverse(MapReal(f, s)) == MapReal(f, Reverse(s))
  {
  }

  lemma ReverseComplement(s: seq<real>)
    ensures Reverse(Complement(s)) == Complement(Reverse(s))
  {
  }

  lemma {:induction false} ReverseReverse(s: seq<real>)
    ensures Reverse(Reverse(s)) == s
  {
    assert forall k :: 0 <= k < |s| ==> Reverse(Reverse(s))[k] == s[|s| - 1 - (|s| - 1 - k)];
  }

  /** (2k + 1)/N ln z_k for the survivor z_k (0-based k). */
  function LowerTerms(z: seq<real>, ln: real -> real): (t: seq<real>)
    ensures |t| == |z|
    ensures forall k {:trigger t[k]} :: 0 <= k < |z| ==> t[k] == Weight(k + 1, |z|) * ln(z[k])
  {
    Scale(Weights(|z|), MapReal(ln, z))
  }

  /** (2(N - k) - 1)/N ln(1 - z_k) for the survivor z_k (0-based k). */
  function UpperTerms(z: seq<real>, ln: real -> real): (t: seq<real>)
    ensures |t| == |z|
    ensures forall k {:trigger t[k]} :: 0 <= k < |z| ==> t[k] == Weight(|z| - k, |z|) * ln(1.0 - z[k])
  {
    Scale(Reverse(Weights(|z|)), MapReal(ln, Complement(z)))
  }

  /** The textbook per-point form of the statistic: each survivor z_k
      contributes (2k + 1)/N ln z_k + (2(N - k) - 1)/N ln(1 - z_k). */
  function PerPointTerms(z: seq<real>, ln: real -> real): (t: seq<real>)
    ensures |t| == |z|
  {
    AddSeq(LowerTerms(z, ln), UpperTerms(z, ln))
  }

  /** The reversed-pair sum and the per-point sum agree. */
  lemma StatisticPerPoint(z: seq<real>, ln: real -> real)
    ensures Statistic(z, ln) == -(|z| as real) - Sum(PerPointTerms(z, ln))
  {
    var w, a, b := Weights(|z|), MapReal(ln, z), MapReal(ln, Complement(Reverse(z)));
    ScaleAdd(w, a, b);
    SumAdd(Scale(w, a), Scale(w, b));
    SumReverse(Scale(w, b));
    ReverseScale(w, b);
    ReverseMap(ln, Complement(Reverse(z)));
    ReverseComplement(Reverse(z));
    ReverseReverse(z);
    assert Reverse(Scale(w, b)) == UpperTerms(z, ln);
    SumAdd(LowerTerms(z, ln), UpperTerms(z, ln));
  }

  /** The survivors reflected, z -> 1 - z in reverse order. */
  function Reflect(z: seq<real>): (w: seq<real>)
    ensures |w| == |z| && forall k {:trigger w[k]} :: 0 <= k < |z| ==> w[k] == 1.0 - z[|z| - 1 - k]
  {
    seq(|z|, k requires 0 <= k < |z| => 1.0 - z[|z| - 1 - k])
  }

  /** Reflecting the survivors leaves the statistic unchanged. */
  lemma ReflectionInvariant(z: seq<real>, ln: real -> real)
    ensures Statistic(Reflect(z), ln) == Statistic(z, ln)
  {
    var n := |z|;
    var w := Reflect(z);
    forall k | 0 <= k < n ensures Terms(w, ln)[k] == Terms(z, ln)[k] {
      ReflectTerm(z, ln, k);
    }
    assert Terms(w, ln) == Terms(z, ln);
  }

  /** The k-th term of the reflected survivors pairs the same two values. */
  lemma ReflectTerm(z: seq<real>, ln: real -> real, k: nat)
    requires k < |z|
    ensures Terms(Reflect(z), ln)[k] == Terms(z, ln)[k]
  {
    var n, w := |z|, Reflect(z);
    TermPairing(w, ln, k + 1);
    TermPairing(z, ln, k + 1);
    var a, b := ln(z[k]), ln(1.0 - z[n - 1 - k]);
    assert ln(w[k]) == b && ln(1.0 - w[n - 1 - k]) == a by {
      assert w[k] == 1.0 - z[n - 1 - k];
      assert w[n - 1 - k] == 1.0 - z[k];
    }
    assert b + a == a + b;
  }

  /** The statistic depends only on the multiset of sample values. */
  lemma AndersonCustomPermutationInvariant(x1: seq<real>, x2: seq<real>, cdf: real -> real, ln: real -> real)
    requires multiset(x1) == multiset(x2)
    ensures AndersonCustom(x1, cdf, ln) == AndersonCustom(x2, cdf, ln)
  {
    SortOfPermutation(x1, x2);
  }

  lemma {:induction false} InteriorOfBoundary(y: seq<real>, cdf: real -> real)
    requires forall k :: 0 <= k < |y| ==> !(0.0 < cdf(y[k]) < 1.0)
    ensures Interior(MapReal(cdf, y)) == []
  {
    if y != [] {
      assert y == [y[0]] + y[1..];
      MapRealCons(cdf, y[0], y[1..]);
      InteriorOfBoundary(y[1..], cdf);
    }
  }

  /** With no CDF value strictly inside (0, 1) the sum is empty and A2 is 0. */
  lemma AndersonCustomNoSurvivors(x: seq<real>, cdf: real -> real, ln: real -> real)
    requires forall k :: 0 <= k < |x| ==> !(0.0 < cdf(x[k]) < 1.0)
    ensures AndersonCustom(x, cdf, ln) == 0.0
  {
    var y := Sort(x);
    forall k | 0 <= k < |y| ensures !(0.0 < cdf(y[k]) < 1.0) {
      assert y[k] in multiset(x);
    }
    InteriorOfBoundary(y, cdf);
  }

  lemma {:induction false} InteriorInsertBoundary(b: real, t: seq<real>, cdf: real -> real)
    requires Sorted(t)
    requires !(0.0 < cdf(b) < 1.0)
    ensures Interior(MapReal(cdf, Insert(b, t))) == Interior(MapReal(cdf, t))
  {
    var r := Insert(b, t);
    if t != [] && b > t[0] {
      assert r == [t[0]] + Insert(b, t[1..]);
      assert t == [t[0]] + t[1..];
      MapRealCons(cdf, t[0], Insert(b, t[1..]));
      MapRealCons(cdf, t[0], t[1..]);
      InteriorInsertBoundary(b, t[1..], cdf);
    } else {
      assert r == [b] + t;
      MapRealCons(cdf, b, t);
    }
  }

  /** A sample point whose CDF value is 0 or 1 (or outside [0, 1]) is dropped:
      adding it to the sample does not change the statistic. */
  lemma AndersonCustomBoundaryPoint(x: seq<real>, b: real, cdf: real -> real, ln: real -> real)
    requires !(0.0 < cdf(b) < 1.0)
    ensures AndersonCustom(x + [b], cdf, ln) == AndersonCustom(x, cdf, ln)
  {
    assert multiset(x + [b]) == multiset([b] + x);
    SortOfPermutation(x + [b], [b] + x);
    assert ([b] + x)[1..] == x;
    InteriorInsertBoundary(b, Sort(x), cdf);
  }

  // ---------------------------------------------------------------------
  // get_null_hypothesis_distribution

  /** `np.insert(p, 0, 0)` then `np.append(..., 1.)`. */
  function ControlPoints(p: seq<real>): (c: seq<real>)
    ensures |c| == |p| + 2
    ensures c[0] == 0.0 && c[|c| - 1] == 1.0 && c[1..|c| - 1] == p
  {
    [0.0] + p + [1.0]
  }

  /** Phases sorted within [0, 1] give sorted control points. */
  lemma ControlPointsSorted(p: seq<real>)
    requires Sorted(p)
    requires forall k :: 0 <= k < |p| ==> 0.0 <= p[k] <= 1.0
    ensures Sorted(ControlPoints(p))
  {
    Framed(p);
  }

  datatype NullError = LengthMismatch

  /** The data the interpolant is built over. */
  datatype NullCdf = NullCdf(xs: seq<real>, ys: seq<real>)

  /** `interp1d(cphases, cum_n_exp)` refuses x and y of different lengths. */
  function NullHypothesis(p: seq<real>, cumNExp: seq<real>): (r: Result<NullCdf, NullError>)
    ensures r.Ok? <==> |cumNExp| == |p| + 2
    ensures r.Ok? ==> r.value.xs == ControlPoints(p) && r.value.ys == cumNExp
  {
    if |cumNExp| != |p| + 2 then Err(LengthMismatch)
    else Ok(NullCdf(ControlPoints(p), cumNExp))
  }

  // ---------------------------------------------------------------------
  // func: the sampler's target log-density

  /** `np.min([1e-4, (1 - x)/3, x/3])`. */
  function StepSize(x: real): (dx: real)
    ensures dx <= 0.0001 && dx <= (1.0 - x) / 3.0 && dx <= x / 3.0
    ensures dx == 0.0001 || dx == (1.0 - x) / 3.0 || dx == x / 3.0
    ensures 0.0 < x < 1.0 ==> 0.0 < dx && 0.0 < x - dx && x + dx < 1.0
  {
    var a := if 0.0001 <= (1.0 - x) / 3.0 then 0.0001 else (1.0 - x) / 3.0;
    if a <= x / 3.0 then a else x / 3.0
  }

  /** `derivative(f, x, dx)` with its defaults n = 1, order = 3: the central
      difference. */
  function CentralDifference(f: real -> real, x: real, dx: real): real
    requires dx != 0.0
  {
    (f(x + dx) - f(x - dx)) / (2.0 * dx)
  }

  /** `func(x)`: minus infinity off the open interval (0, 1) and wherever the
      numerical derivative is not positive (log of 0 is -inf, log of a
      negative number is NaN, and NaN is mapped to -inf). */
  function LogTarget(f: real -> real, ln: real -> real, x: real): (r: Float)
    ensures r == NegInf || r.Fin?
    ensures (x <= 0.0 || x >= 1.0) ==> r == NegInf
    ensures r.Fin? <==> 0.0 < x < 1.0 && CentralDifference(f, x, StepSize(x)) > 0.0
    ensures r.Fin? ==> r.v == ln(CentralDifference(f, x, StepSize(x)))
  {
    if x >= 1.0 || x <= 0.0 then NegInf
    else
      var d := CentralDifference(f, x, StepSize(x));
      if d > 0.0 then Fin(ln(d)) else NegInf
  }

  // ---------------------------------------------------------------------
  // sample_AD_for_custom_distribution (after the sampler has run)

  datatype ShapeError = CannotReshape

  lemma RowInRange(i: nat, rows: nat, cols: nat)
    requires i < rows
    ensures 0 <= i * cols
    ensures i * cols + cols <= rows * cols
  {
    assert i * cols + cols == (i + 1) * cols;
    assert (i + 1) * cols <= rows * cols by {
      if cols > 0 {
        assert i + 1 <= rows;
      }
    }
  }

  /** `samples.reshape((N, nobs))` of the flattened chain, row-major; numpy
      refuses a size other than rows * cols. */
  function Reshape(flat: seq<real>, rows: nat, cols: nat): (r: Result<seq<seq<real>>, ShapeError>)
    ensures r.Ok? <==> |flat| == rows * cols
    ensures r.Ok? ==> |r.value| == rows
    ensures r.Ok? ==> forall i :: 0 <= i < rows ==>
      i * cols + cols <= |flat| && r.value[i] == flat[i * cols..i * cols + cols]
  {
    if |flat| != rows * cols then Err(CannotReshape) else Ok(Rows(flat, rows, cols))
  }

  /** The rows of the `rows` x `cols` matrix held row by row in `flat`. */
  function Rows(flat: seq<real>, rows: nat, cols: nat): (m: seq<seq<real>>)
    requires |flat| == rows * cols
    ensures |m| == rows
    ensures forall i :: 0 <= i < rows ==>
      i * cols + cols <= |flat| && m[i] == flat[i * cols..i * cols + cols]
  {
    assert forall i | 0 <= i < rows :: i * cols + cols <= |flat| by {
      forall i | 0 <= i < rows ensures i * cols + cols <= |flat| { RowInRange(i, rows, cols); }
    }
    seq(rows, i requires 0 <= i < rows && i * cols + cols <= |flat| => flat[i * cols..i * cols + cols])
  }

  /** The N statistics, one per row of the N x nobs chain; a chain whose size
      is not N * nobs cannot be reshaped. */
  function SampleStatistics(chain: seq<real>, nobs: nat, n: nat, cdf: real -> real, ln: real -> real)
    : (r: Result<seq<real>, ShapeError>)
    ensures r.Ok? <==> |chain| == n * nobs
    ensures r.Ok? ==> |r.value| == n
    ensures r.Ok? ==> forall i :: 0 <= i < n ==>
      i * nobs + nobs <= |chain| && r.value[i] == AndersonCustom(chain[i * nobs..i * nobs + nobs], cdf, ln)
  {
    var c := Reshape(chain, n, nobs);
    if c.Err? then Err(c.error)
    else
      StatisticsOfRows(chain, n, nobs, cdf, ln);
      Ok(RowStatistics(c.value, cdf, ln))
  }

  lemma StatisticsOfRows(chain: seq<real>, n: nat, nobs: nat, cdf: real -> real, ln: real -> real)
    requires |chain| == n * nobs
    ensures forall i :: 0 <= i < n ==>
      0 <= i * nobs && i * nobs + nobs <= |chain| &&
      RowStatistics(Rows(chain, n, nobs), cdf, ln)[i] == AndersonCustom(chain[i * nobs..i * nobs + nobs], cdf, ln)
  {
    var rows := Rows(chain, n, nobs);
    forall i | 0 <= i < n
      ensures 0 <= i * nobs && i * nobs + nobs <= |chain| &&
        RowStatistics(rows, cdf, ln)[i] == AndersonCustom(chain[i * nobs..i * nobs + nobs], cdf, ln)
    {
      RowInRange(i, n, nobs);
      assert rows[i] == chain[i * nobs..i * nobs + nobs];
    }
  }

  /** `anderson_custom` of every row. */
  function RowStatistics(rows: seq<seq<real>>, cdf: real -> real, ln: real -> real): (s: seq<real>)
    ensures |s| == |rows|
    ensures forall i :: 0 <= i < |rows| ==> s[i] == AndersonCustom(rows[i], cdf, ln)
  {
    seq(|rows|, i requires 0 <= i < |rows| => AndersonCustom(rows[i], cdf, ln))
  }

  // ---------------------------------------------------------------------
  // The two-sided fold of the main block

  function Mean(s: seq<real>): real
    requires s != []
  {
    Sum(s) / |s| as real
  }

  /** `ad[ad < m] = m + (m - ad[ad < m])`: every entry ends at m plus its
      distance from m. */
  function Folded(s: seq<real>, m: real): (r: seq<real>)
    ensures |r| == |s|
    ensures forall k {:trigger r[k]} :: 0 <= k < |s| ==> r[k] == m + AbsReal(s[k] - m)
    ensures forall k :: 0 <= k < |s| ==> r[k] >= m
    ensures forall k :: 0 <= k < |s| && s[k] >= m ==> r[k] == s[k]
  {
    seq(|s|, k requires 0 <= k < |s| => if s[k] < m then m + (m - s[k]) else s[k])
  }

  /** Folding twice around the same centre changes nothing more. */
  lemma FoldedIdempotent(s: seq<real>, m: real)
    ensures Folded(Folded(s, m), m) == Folded(s, m)
  {
  }

  /** The main block's fold of the calibration array, in place.  The mean of
      an empty array is NaN, with which no comparison holds, so an empty array
      is left as it is. */
  method FoldAroundMean(ad: array<real>)
    modifies ad
    ensures ad.Length > 0 ==> ad[..] == Folded(old(ad[..]), Mean(old(ad[..])))
    ensures ad.Length == 0 ==> ad[..] == old(ad[..])
  {
    if ad.Length == 0 {
      return;
    }
    var total := 0.0;
    var i := 0;
    while i < ad.Length
      invariant 0 <= i <= ad.Length
      invariant total == Sum(ad[..i])
    {
      assert ad[..i + 1][..i] == ad[..i];
      total := total + ad[i];
      i := i + 1;
    }
    assert ad[..ad.Length] == ad[..];
    var med := total / ad.Length as real;
    ghost var before := ad[..];
    i := 0;
    while i < ad.Length
      invariant 0 <= i <= ad.Length
      invariant forall k :: 0 <= k < i ==> ad[k] == Folded(before, med)[k]
      invariant forall k :: i <= k < ad.Length ==> ad[k] == before[k]
    {
      if ad[i] < med {
        ad[i] := med + (med - ad[i]);
      }
      i := i + 1;
    }
  }
}
