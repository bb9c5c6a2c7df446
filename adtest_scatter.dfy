/** The threshold classifiers and the reference significance levels of the
    AD-test scatter plots (src/scripts/paper_adtest_vs_value_scatterplots.py).
    The classifiers `colorcode_dist`, `colorcode_rotation`,
    `colorcode_multiplicity` and `colorcode_Lx` of
    src/scripts/paper_adtext_vs_value_scatterplots.py are the same code and
    are modelled by the same functions.

    Each input is a numpy double: NaN compares false with every threshold, so
    it falls through to the last branch of each `if`/`elif` chain. */
module AdtestScatter {
  import opened Results
  import opened Floats
  import opened Styles

  // ---------------------------------------------------------------------
  // get_sigma_values

  /** The two-sided tail probabilities of one, two and three sigma. */
  function SigmaValues(): (r: seq<real>)
    ensures |r| == 3
    ensures forall k {:trigger r[k]} :: 0 <= k < 3 ==> 0.0 < r[k] < 1.0
    ensures forall k {:trigger r[k]} :: 0 < k < 3 ==> r[k] < r[k - 1]
    ensures 0.317 < r[0] < 0.318 && 0.045 < r[1] < 0.046 && 0.002 < r[2] < 0.003
  {
    [0.3173, 0.0455, 0.0027]
  }

  /** The labels `$1\sigma$`, `$2\sigma$`, `$3\sigma$`. */
  function SigmaLabels(): (r: seq<string>)
    ensures |r| == |SigmaValues()|
    ensures forall k {:trigger r[k]} :: 0 <= k < 3 ==>
      r[k] == "$" + [(('1' as int) + k) as char] + "\\sigma$"
  {
    ["$1\\sigma$", "$2\\sigma$", "$3\\sigma$"]
  }

  // ---------------------------------------------------------------------
  // colorcode_dist

  /** Distance in pc: below 50, [50, 100), [100, 150), everything else. */
  function ColorcodeDist(dist: Float): (r: Style)
    ensures r == Style(Green, Circle) <==> dist.NegInf? || (dist.Fin? && dist.v < 50.0)
    ensures r == Style(Blue, Cross) <==> dist.Fin? && 50.0 <= dist.v < 100.0
    ensures r == Style(Black, Diamond) <==> dist.Fin? && 100.0 <= dist.v < 150.0
    ensures r == Style(LightGrey, Square) <==>
      dist.NaN? || dist.PosInf? || (dist.Fin? && 150.0 <= dist.v)
  {
    if Lt(dist, Fin(50.0)) then Style(Green, Circle)
    else if Le(Fin(50.0), dist) && Lt(dist, Fin(100.0)) then Style(Blue, Cross)
    else if Le(Fin(100.0), dist) && Lt(dist, Fin(150.0)) then Style(Black, Diamond)
    else Style(LightGrey, Square)
  }

  /** The position of a distance class from near to far. */
  function DistBand(s: Style): nat
  {
    match s.color
    case Green => 0
    case Blue => 1
    case Black => 2
    case _ => 3
  }

  /** A farther star never gets a nearer class. */
  lemma ColorcodeDistMonotone(x: Float, y: Float)
    requires Le(x, y)
    ensures DistBand(ColorcodeDist(x)) <= DistBand(ColorcodeDist(y))
  {
  }

  // ---------------------------------------------------------------------
  // colorcode_rossby

  /** The branch chain of `colorcode_rossby` has no `else`: no branch binds
      `color` for NaN, and the `return` raises UnboundLocalError. */
  datatype RossbyError = UnboundColor

  /** Rossby number: below 0.01, [0.01, 0.3), [0.3, 1), at least 1. */
  function ColorcodeRossby(ro: Float): (r: Result<Style, RossbyError>)
    ensures r.Err? <==> ro.NaN?
    ensures r == Ok(Style(Green, Circle)) <==> ro.NegInf? || (ro.Fin? && ro.v < 0.01)
    ensures r == Ok(Style(Blue, Cross)) <==> ro.Fin? && 0.01 <= ro.v < 0.3
    ensures r == Ok(Style(Black, Diamond)) <==> ro.Fin? && 0.3 <= ro.v < 1.0
    ensures r == Ok(Style(LightGrey, Square)) <==> ro.PosInf? || (ro.Fin? && 1.0 <= ro.v)
  {
    if Lt(ro, Fin(0.01)) then Ok(Style(Green, Circle))
    else if Le(Fin(0.01), ro) && Lt(ro, Fin(0.3)) then Ok(Style(Blue, Cross))
    else if Le(Fin(0.3), ro) && Lt(ro, Fin(1.0)) then Ok(Style(Black, Diamond))
    else if Le(Fin(1.0), ro) then Ok(Style(LightGrey, Square))
    else Err(UnboundColor)
  }

  /** The Rossby classes follow the same colour order as the distance
      classes, and a larger Rossby number never gets an earlier class. */
  lemma ColorcodeRossbyMonotone(x: Float, y: Float)
    requires Le(x, y)
    ensures ColorcodeRossby(x).Ok? && ColorcodeRossby(y).Ok?
    ensures DistBand(ColorcodeRossby(x).value) <= DistBand(ColorcodeRossby(y).value)
  {
  }

  // ---------------------------------------------------------------------
  // colorcode_rotation

  /** Rotation period in days: below 10, [10, 15), at least 15, NaN. */
  function ColorcodeRotation(rotp: Float): (r: Style)
    ensures r == Style(Green, Circle) <==> rotp.NegInf? || (rotp.Fin? && rotp.v < 10.0)
    ensures r == Style(Blue, Cross) <==> rotp.Fin? && 10.0 <= rotp.v < 15.0
    ensures r == Style(Black, Diamond) <==> rotp.PosInf? || (rotp.Fin? && 15.0 <= rotp.v)
    ensures r == Style(LightGrey, Square) <==> rotp.NaN?
  {
    if Lt(rotp, Fin(10.0)) then Style(Green, Circle)
    else if Le(Fin(10.0), rotp) && Lt(rotp, Fin(15.0)) then Style(Blue, Cross)
    else if Le(Fin(15.0), rotp) then Style(Black, Diamond)
    else Style(LightGrey, Square)
  }

  /** A slower rotator never gets a faster class; only NaN is grey. */
  lemma ColorcodeRotationMonotone(x: Float, y: Float)
    requires Le(x, y)
    ensures DistBand(ColorcodeRotation(x)) <= DistBand(ColorcodeRotation(y)) < 3
  {
  }

  // ---------------------------------------------------------------------
  // colorcode_multiplicity

  /** Number of stars in the system: exactly one, more than one, else. */
  function ColorcodeMultiplicity(snum: Float): (r: Style)
    ensures r == Style(Green, Circle) <==> snum == Fin(1.0)
    ensures r == Style(Blue, Cross) <==> snum.PosInf? || (snum.Fin? && snum.v > 1.0)
    ensures r == Style(LightGrey, Square) <==>
      snum.NaN? || snum.NegInf? || (snum.Fin? && snum.v < 1.0)
  {
    if Equal(snum, Fin(1.0)) then Style(Green, Circle)
    else if Lt(Fin(1.0), snum) then Style(Blue, Cross)
    else Style(LightGrey, Square)
  }

  // ---------------------------------------------------------------------
  // colorcode_Lx

  /** X-ray luminosity: missing (NaN), finite, or infinite. */
  function ColorcodeLx(lx: Float): (r: Style)
    ensures r.color == Blue <==> r.marker == Circle
    ensures r.color == Green <==> r.marker == Cross
    ensures r.color == LightGrey <==> r.marker == Square
    ensures lx.NaN? ==> r == Style(Blue, Circle)
    ensures lx.Fin? ==> r == Style(Green, Cross)
    ensures lx.PosInf? || lx.NegInf? ==> r == Style(LightGrey, Square)
  {
    if lx.NaN? then Style(Blue, Circle)
    else if lx.Fin? then Style(Green, Cross)
    else Style(LightGrey, Square)
  }

  // ---------------------------------------------------------------------
  // colorcode_B_G

  /** Field strength in Gauss: below 100, [100, 1000), [1000, 2000), at least
      2000, and NaN. */
  function ColorcodeBG(bg: Float): (r: Style)
    ensures r == Style(LightGrey, Square) <==> bg.NegInf? || (bg.Fin? && bg.v < 100.0)
    ensures r == Style(Blue, Cross) <==> bg.Fin? && 100.0 <= bg.v < 1000.0
    ensures r == Style(Black, Diamond) <==> bg.Fin? && 1000.0 <= bg.v < 2000.0
    ensures r == Style(Green, Circle) <==> bg.PosInf? || (bg.Fin? && 2000.0 <= bg.v)
    ensures r == Style(Red, Star) <==> bg.NaN?
  {
    if Lt(bg, Fin(100.0)) then Style(LightGrey, Square)
    else if Le(Fin(100.0), bg) && Lt(bg, Fin(1000.0)) then Style(Blue, Cross)
    else if Le(Fin(1000.0), bg) && Lt(bg, Fin(2000.0)) then Style(Black, Diamond)
    else if Le(Fin(2000.0), bg) then Style(Green, Circle)
    else Style(Red, Star)
  }

  /** The position of a field-strength class from weak to strong. */
  function FieldBand(s: Style): nat
  {
    match s.color
    case LightGrey => 0
    case Blue => 1
    case Black => 2
    case Green => 3
    case _ => 4
  }

  /** A stronger field never gets a weaker class; only NaN is red. */
  lemma ColorcodeBGMonotone(x: Float, y: Float)
    requires Le(x, y)
    ensures FieldBand(ColorcodeBG(x)) <= FieldBand(ColorcodeBG(y)) < 4
  {
  }
}
