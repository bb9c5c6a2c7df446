/** The flare selection, the empirical cumulative curve of flare orbital
    phases and the allocation of figure panels of the individual cumulative
    distribution figure for transiting systems
    (src/scripts/paper_cumdist_individual_transiting.py). */
module CumdistTransiting {
  import opened Results
  import opened Floats
  import opened Sorting

  // ---------------------------------------------------------------------
  // flares[flares.orbital_phase != -1]

  /** One flare: the TIC of its star and its orbital phase. */
  datatype Flare = Flare(tic: string, phase: Float)

  /** `phase != -1` as a numpy comparison: NaN is unequal to everything, so a
      flare with a NaN phase is kept. */
  predicate RealFlare(f: Flare)
  {
    !Equal(f.phase, Fin(-1.0))
  }

  /** The real flares, in table order. */
  function RealFlares(flares: seq<Flare>): (r: seq<Flare>)
    ensures |r| <= |flares|
    ensures forall f :: f in r <==> f in flares && f.phase != Fin(-1.0)
  {
    if flares == [] then []
    else
      var t := RealFlares(flares[1..]);
      assert forall f :: f in flares <==> f == flares[0] || f in flares[1..];
      if RealFlare(flares[0]) then [flares[0]] + t else t
  }

  /** Selecting from a concatenation selects from each part, in order. */
  lemma {:induction false} RealFlaresAppend(a: seq<Flare>, b: seq<Flare>)
    ensures RealFlares(a + b) == RealFlares(a) + RealFlares(b)
  {
    if a != [] {
      assert (a + b)[0] == a[0];
      assert (a + b)[1..] == a[1..] + b;
      RealFlaresAppend(a[1..], b);
    } else {
      assert a + b == b;
    }
  }

  /** Selecting twice selects nothing more. */
  lemma {:induction false} RealFlaresIdempotent(flares: seq<Flare>)
    ensures RealFlares(RealFlares(flares)) == RealFlares(flares)
  {
    if flares != [] {
      RealFlaresIdempotent(flares[1..]);
      if RealFlare(flares[0]) {
        var t := RealFlares(flares[1..]);
        assert ([flares[0]] + t)[1..] == t;
      }
    }
  }

  // ---------------------------------------------------------------------
  // The cumulative curve of one system

  ghost predicate NonDecreasing(s: seq<real>)
  {
    forall i, j :: 0 <= i < j < |s| ==> s[i] <= s[j]
  }

  /** The curve drawn for `n` sorted phases: the sorted phases between 0 and
      1, and the heights 0, 1/n, 2/n, ..., 1, 1.  The legend's count
      `len(phases) - 2` is therefore `n`. */
  method CumulativeCurve(phases: seq<real>) returns (xs: seq<real>, hist: seq<real>)
    requires |phases| > 0
    ensures |xs| == |hist| == |phases| + 2
    ensures xs[0] == 0.0 && xs[|xs| - 1] == 1.0
    ensures hist[0] == 0.0 && hist[|hist| - 1] == 1.0
    ensures xs[1..|xs| - 1] == Sort(phases)
    ensures forall k :: 1 <= k <= |phases| ==> hist[k] == k as real / |phases| as real
  {
    var sorted := Sort(phases);
    assert |sorted| == |multiset(sorted)| == |multiset(phases)|;
    hist := CumulativeHeights(|phases|);
    xs := [0.0] + (sorted + [1.0]);
    assert xs[1..|xs| - 1] == sorted;
  }

  /** The heights for `n` phases: `np.cumsum(np.ones_like(phases))`
      normalised by its last entry, with 1 appended and 0 put in front. */
  method CumulativeHeights(n: nat) returns (hist: seq<real>)
    requires n > 0
    ensures |hist| == n + 2
    ensures hist[0] == 0.0 && hist[n + 1] == 1.0
    ensures forall k :: 1 <= k <= n ==> hist[k] == k as real / n as real
  {
    var counts: seq<real> := [];
    var total := 0.0;
    while |counts| < n
      invariant |counts| <= n
      invariant total == |counts| as real
      invariant forall k :: 0 <= k < |counts| ==> counts[k] == (k + 1) as real
    {
      total := total + 1.0;
      counts := counts + [total];
    }
    var last := counts[n - 1];
    var fractions := seq(n, k requires 0 <= k < n => counts[k] / last);
    assert forall k :: 0 <= k < n ==> fractions[k] == (k + 1) as real / n as real;
    hist := fractions + [1.0];
    hist := [0.0] + hist;
    assert forall k :: 1 <= k <= n ==> hist[k] == fractions[k - 1];
  }

  /** The heights rise from 0 to 1 and never fall. */
  lemma HeightsMonotone(n: nat, hist: seq<real>)
    requires n > 0 && |hist| == n + 2
    requires hist[0] == 0.0 && hist[n + 1] == 1.0
    requires forall k :: 1 <= k <= n ==> hist[k] == k as real / n as real
    ensures NonDecreasing(hist)
    ensures forall k :: 0 <= k < |hist| ==> 0.0 <= hist[k] <= 1.0
  {
    forall k | 1 <= k <= n ensures 0.0 < hist[k] <= 1.0 {
      QuotientInUnit(k, n);
    }
    forall i, j | 0 <= i < j < |hist| ensures hist[i] <= hist[j] {
      if 1 <= i && j <= n {
        QuotientMonotone(i, j, n);
      }
    }
  }

  lemma QuotientInUnit(k: nat, n: nat)
    requires 1 <= k <= n
    ensures 0.0 < k as real / n as real <= 1.0
  {
    assert k as real <= n as real;
  }

  lemma QuotientMonotone(i: nat, j: nat, n: nat)
    requires i <= j && n > 0
    ensures i as real / n as real <= j as real / n as real
  {
    assert j as real / n as real - i as real / n as real == (j - i) as real / n as real;
  }

  /** Phases inside [0, 1] make the whole abscissa sequence sorted, from 0 to
      1. */
  lemma CurveSorted(phases: seq<real>, xs: seq<real>)
    requires forall k :: 0 <= k < |phases| ==> 0.0 <= phases[k] <= 1.0
    requires |xs| == |phases| + 2 && xs[0] == 0.0 && xs[|xs| - 1] == 1.0
    requires xs[1..|xs| - 1] == Sort(phases)
    ensures Sorted(xs)
  {
    var s := Sort(phases);
    forall k | 0 <= k < |s| ensures 0.0 <= s[k] <= 1.0 {
      assert s[k] in multiset(phases);
      var j :| 0 <= j < |phases| && phases[j] == s[k];
    }
    Framed(s);
    FramedShape(xs, s);
  }

  /** The abscissa is its inner part between a 0 and a 1. */
  lemma FramedShape(xs: seq<real>, s: seq<real>)
    requires |xs| == |s| + 2 && xs[0] == 0.0 && xs[|xs| - 1] == 1.0 && xs[1..|xs| - 1] == s
    ensures xs == [0.0] + s + [1.0]
  {
    forall k | 0 < k < |xs| - 1 ensures xs[k] == s[k - 1] {
      assert xs[1..|xs| - 1][k - 1] == xs[k];
    }
  }

  // ---------------------------------------------------------------------
  // Panels

  /** The 6 x 3 grid of axes. */
  const Panels: nat := 18

  /** The number of systems among `counts` with more than two phases. */
  function Eligible(counts: seq<nat>): (r: nat)
    ensures r <= |counts|
  {
    if counts == [] then 0
    else Eligible(counts[..|counts| - 1]) + (if counts[|counts| - 1] > 2 then 1 else 0)
  }

  /** `p` is the panel system `j` gets: the next free one in flattened
      order, when it has more than two phases and a panel is left. */
  predicate PanelOf(counts: seq<nat>, j: nat, p: Option<nat>)
    requires j < |counts|
  {
    (p.Some? <==> counts[j] > 2 && Eligible(counts[..j]) < Panels) &&
    (p.Some? ==> p.value == Eligible(counts[..j]))
  }

  /** The loop over the systems: the flattened, reversed list `ax` loses its
      last axis each time a system with more than two phases is drawn while
      axes remain.  `panel[i]` is the flattened index of the axis of system
      `i`, or None when it is not drawn. */
  method AllocatePanels(counts: seq<nat>) returns (panel: seq<Option<nat>>)
    ensures |panel| == |counts|
    ensures forall i :: 0 <= i < |counts| ==> PanelOf(counts, i, panel[i])
  {
    var ax := seq(Panels, k requires 0 <= k < Panels => Panels - 1 - k);
    panel := [];
    var i := 0;
    while i < |counts|
      invariant 0 <= i <= |counts| && |panel| == i
      invariant |ax| == Panels - Min(Eligible(counts[..i]), Panels)
      invariant forall k :: 0 <= k < |ax| ==> ax[k] == Panels - 1 - k
      invariant forall j :: 0 <= j < i ==> PanelOf(counts, j, panel[j])
    {
      EligibleStep(counts, i);
      var p: Option<nat> := None;
      if counts[i] > 2 && |ax| > 0 {
        p := Some(ax[|ax| - 1]);
        ax := ax[..|ax| - 1];
      }
      assert PanelOf(counts, i, p);
      panel := panel + [p];
      i := i + 1;
    }
  }

  lemma EligibleStep(counts: seq<nat>, i: nat)
    requires i < |counts|
    ensures Eligible(counts[..i + 1]) == Eligible(counts[..i]) + (if counts[i] > 2 then 1 else 0)
  {
    assert counts[..i + 1][..i] == counts[..i];
  }

  /** No two systems share a panel, and at most 18 are drawn. */
  lemma PanelsDistinct(counts: seq<nat>, panel: seq<Option<nat>>, i: nat, j: nat)
    requires |panel| == |counts|
    requires forall k :: 0 <= k < |counts| ==> PanelOf(counts, k, panel[k])
    requires i < j < |counts| && panel[i].Some? && panel[j].Some?
    ensures panel[i].value < panel[j].value < Panels
  {
    assert PanelOf(counts, i, panel[i]) && PanelOf(counts, j, panel[j]);
    EligibleGrows(counts, i, j);
  }

  /** A system with more than two phases counts before every later one. */
  lemma {:induction false} EligibleGrows(counts: seq<nat>, i: nat, j: nat)
    requires i < j <= |counts| && counts[i] > 2
    ensures Eligible(counts[..i]) < Eligible(counts[..j])
    decreases j - i
  {
    EligibleStep(counts, i);
    if j > i + 1 {
      EligibleGrows(counts, i, j - 1);
      EligibleStep(counts, j - 1);
    }
  }
}
