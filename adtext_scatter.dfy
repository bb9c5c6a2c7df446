/** The significance levels, the normalisation to AU Mic and the label
    choice of the second set of AD-test scatter plots
    (src/scripts/paper_adtext_vs_value_scatterplots.py).  Its colour
    classifiers are the ones of module AdtestScatter. */
module AdtextScatter {
  import opened Results
  import opened Floats
  import AdtestScatter

  // ---------------------------------------------------------------------
  // get_sigma_values

  /** One, two and three sigma as one minus the enclosed probability,
      built from the half-widths .342, .136 and .021 of the normal bands. */
  function SigmaValues(): (r: seq<real>)
    ensures |r| == 3
    ensures forall k {:trigger r[k]} :: 0 <= k < 3 ==> 0.0 < r[k] < 1.0
    ensures forall k {:trigger r[k]} :: 0 < k < 3 ==> r[k] < r[k - 1]
  {
    var one := 1.0 - 0.342 * 2.0;
    var two := one - 0.136 * 2.0;
    var three := two - 0.021 * 2.0;
    [one, two, three]
  }

  /** The levels of both scripts agree to within 0.002 at every sigma. */
  lemma SigmaValuesClose()
    ensures |SigmaValues()| == |AdtestScatter.SigmaValues()|
    ensures forall k {:trigger SigmaValues()[k]} :: 0 <= k < 3 ==>
      -0.002 < SigmaValues()[k] - AdtestScatter.SigmaValues()[k] < 0.002
  {
  }

  // ---------------------------------------------------------------------
  // make_adtest_figure: normalisation and labels

  /** One star of the results table: its ID, the AD-test p-value `mean`,
      and the plotted value with its upper and lower ends. */
  datatype Star = Star(id: string, mean: Float, value: Float, high: Float, low: Float)

  /** `data.loc[data.ID == "AU Mic", value].values[0]` on no row raises
      IndexError. */
  datatype NormError = NoAuMic

  /** `df[df[value].notnull()]`. */
  function WithValue(df: seq<Star>): (r: seq<Star>)
    ensures |r| <= |df|
    ensures forall s :: s in r <==> s in df && !s.value.NaN?
  {
    if df == [] then []
    else if df[0].value.NaN? then WithValue(df[1..])
    else [df[0]] + WithValue(df[1..])
  }

  /** The selection works piecewise and keeps table order. */
  lemma {:induction false} WithValueAppend(a: seq<Star>, b: seq<Star>)
    ensures WithValue(a + b) == WithValue(a) + WithValue(b)
  {
    if a != [] {
      assert (a + b)[0] == a[0];
      assert (a + b)[1..] == a[1..] + b;
      WithValueAppend(a[1..], b);
    } else {
      assert a + b == b;
    }
  }

  /** One row is kept exactly when its value is not NaN. */
  lemma WithValueSingle(s: Star)
    ensures WithValue([s]) == if s.value.NaN? then [] else [s]
  {
    assert [s][1..] == [];
  }

  /** The index of the first row with ID "AU Mic". */
  function FirstAuMic(data: seq<Star>): (r: Option<nat>)
    ensures r.None? <==> forall i :: 0 <= i < |data| ==> data[i].id != "AU Mic"
    ensures r.Some? ==> r.value < |data| && data[r.value].id == "AU Mic"
    ensures r.Some? ==> forall i :: 0 <= i < r.value ==> data[i].id != "AU Mic"
  {
    if data == [] then None
    else if data[0].id == "AU Mic" then Some(0)
    else
      var t := FirstAuMic(data[1..]);
      if t.None? then None else Some(t.value + 1)
  }

  /** A star with its value and both ends divided by `norm`. */
  function Scaled(s: Star, norm: Float): Star
  {
    s.(value := Div(s.value, norm), high := Div(s.high, norm), low := Div(s.low, norm))
  }

  /** The table that is plotted: the rows with a value, with value, high and
      low divided by AU Mic's value. */
  function Normalise(df: seq<Star>): (r: Result<seq<Star>, NormError>)
    ensures r.Err? <==> forall s :: s in df && !s.value.NaN? ==> s.id != "AU Mic"
    ensures r.Ok? ==> |r.value| == |WithValue(df)|
    ensures r.Ok? ==>
      var data := WithValue(df);
      var norm := data[FirstAuMic(data).value].value;
      forall i :: 0 <= i < |data| ==>
        r.value[i] == data[i].(value := Div(data[i].value, norm),
                               high := Div(data[i].high, norm),
                               low := Div(data[i].low, norm))
  {
    var data := WithValue(df);
    var at := FirstAuMic(data);
    if at.None? then
      assert forall s :: s in df && !s.value.NaN? ==> s in data;
      Err(NoAuMic)
    else
      assert data[at.value] in df;
      var norm := data[at.value].value;
      Ok(seq(|data|, i requires 0 <= i < |data| => Scaled(data[i], norm)))
  }

  /** AU Mic's own value becomes 1 whenever its value is finite and not
      zero. */
  lemma AuMicNormalisedToOne(df: seq<Star>)
    requires Normalise(df).Ok?
    ensures
      var data := WithValue(df);
      var at := FirstAuMic(data).value;
      data[at].value.Fin? && data[at].value.v != 0.0 ==>
        Normalise(df).value[at].value == Fin(1.0)
  {
    var r := Normalise(df).value;
    var data := WithValue(df);
    var at := FirstAuMic(data).value;
    var norm := data[at].value;
    if norm.Fin? && norm.v != 0.0 {
      assert r[at].value == Div(norm, norm);
      DivSelf(norm);
    }
  }

  /** A finite non-zero double divided by itself is 1. */
  lemma DivSelf(x: Float)
    requires x.Fin? && x.v != 0.0
    ensures Div(x, x) == Fin(1.0)
  {
    assert x.v / x.v == 1.0;
  }

  /** Dividing by a positive norm keeps `low <= value <= high`. */
  lemma NormalisePreservesOrder(s: Star, norm: real)
    requires norm > 0.0
    requires s.low.Fin? && s.value.Fin? && s.high.Fin?
    requires s.low.v <= s.value.v <= s.high.v
    ensures
      var t := Scaled(s, Fin(norm));
      t.low.Fin? && t.value.Fin? && t.high.Fin? &&
      t.low.v <= t.value.v <= t.high.v
  {
    DivMonotone(s.low.v, s.value.v, norm);
    DivMonotone(s.value.v, s.high.v, norm);
  }

  lemma DivMonotone(a: real, b: real, c: real)
    requires c > 0.0 && a <= b
    ensures a / c <= b / c
  {
    assert b / c - a / c == (b - a) / c;
  }

  /** `(row["mean"] <= .2) | (row[value] >= 1.)`: the star gets its name
      written next to it. */
  predicate Labelled(s: Star)
  {
    Le(s.mean, Fin(0.2)) || Le(Fin(1.0), s.value)
  }

  /** A star is labelled exactly when its p-value is at most 0.2 or its
      normalised value is at least AU Mic's. */
  lemma LabelledIff(s: Star)
    ensures Labelled(s) <==>
      (s.mean.NegInf? || (s.mean.Fin? && s.mean.v <= 0.2)) ||
      (s.value.PosInf? || (s.value.Fin? && s.value.v >= 1.0))
  {
  }

  /** AU Mic, the reference star, is labelled whenever its value is finite
      and not zero, as it then normalises to 1.  A value of 0 or of an
      infinity normalises to NaN (0/0, inf/inf), and then AU Mic is labelled
      exactly when its p-value is at most 0.2. */
  lemma AuMicLabelled(df: seq<Star>)
    requires Normalise(df).Ok?
    ensures
      var data := WithValue(df);
      var at := FirstAuMic(data).value;
      data[at].value.Fin? && data[at].value.v != 0.0 ==>
        Labelled(Normalise(df).value[at])
    ensures
      var data := WithValue(df);
      var at := FirstAuMic(data).value;
      !(data[at].value.Fin? && data[at].value.v != 0.0) ==>
        Normalise(df).value[at].value.NaN? &&
        (Labelled(Normalise(df).value[at]) <==> Le(data[at].mean, Fin(0.2)))
  {
    AuMicNormalisedToOne(df);
    var data := WithValue(df);
    var at := FirstAuMic(data).value;
    assert data[at] in data;
  }
}
