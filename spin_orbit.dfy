/** The spin-orbit commensurability table and lookup, and the colour coding
    of the rows of the commensurability figure
    (src/scripts/paper_spin_orbit_commensurability.py).

    The tolerance is `tol = 10^-d`.  A rounded quotient `round(i / j, d)` is
    held as the integer `round(i / j * 10^d)`, computed exactly with ties to
    even; binary floating point is not modelled. */
module SpinOrbit {
  import opened Results
  import opened Floats
  import opened Styles

  // ---------------------------------------------------------------------
  // Integer helpers

  function Pow10(d: nat): (p: nat)
    ensures p >= 1
  {
    if d == 0 then 1 else 10 * Pow10(d - 1)
  }

  /** `int(np.sqrt(n))`: the integer square root. */
  function ISqrt(n: nat): (r: nat)
    ensures r * r <= n < (r + 1) * (r + 1)
  {
    if n == 0 then 0
    else
      var s := ISqrt(n - 1);
      if (s + 1) * (s + 1) <= n then
        assert (s + 1) * (s + 1) < (s + 2) * (s + 2);
        s + 1
      else s
  }

  function AbsInt(x: int): nat { if x < 0 then -x else x }

  /** A nearest integer to `x`, a tie going to the even one. */
  predicate RoundsTo(x: real, k: int)
  {
    2.0 * AbsReal(x - k as real) <= 1.0 &&
    (2.0 * AbsReal(x - k as real) == 1.0 ==> k % 2 == 0)
  }

  /** The rounding of `x` is unique. */
  lemma RoundsToUnique(x: real, k1: int, k2: int)
    requires RoundsTo(x, k1) && RoundsTo(x, k2)
    ensures k1 == k2
  {
    assert -1 <= k1 - k2 <= 1;
  }

  /** Every real has a rounding: its floor or the next integer up. */
  lemma RoundExists(x: real)
    ensures exists k :: RoundsTo(x, k)
  {
    var f := x.Floor;
    var frac := x - f as real;
    if 2.0 * frac > 1.0 {
      assert RoundsTo(x, f + 1);
    } else if 2.0 * frac < 1.0 {
      assert RoundsTo(x, f);
    } else if f % 2 == 0 {
      assert RoundsTo(x, f);
    } else {
      assert RoundsTo(x, f + 1);
    }
  }

  /** Python's `round` to an integer: to nearest, ties to even. */
  function RoundHalfEven(x: real): (k: int)
    ensures RoundsTo(x, k)
  {
    RoundExists(x);
    var k :| RoundsTo(x, k);
    k
  }

  /** `round(v, int(-np.log10(tol)))`, scaled by 10^d. */
  function RatioKey(d: nat, v: real): (k: int)
    ensures RoundsTo(v * Pow10(d) as real, k)
  {
    RoundHalfEven(v * Pow10(d) as real)
  }

  /** RoundHalfEven picks the one integer that rounds `x`. */
  lemma RoundHalfEvenUnique(x: real, k: int)
    requires RoundsTo(x, k)
    ensures k == RoundHalfEven(x)
  {
    RoundsToUnique(x, k, RoundHalfEven(x));
  }

  lemma AbsScale(y: real, c: real, e: real)
    requires c > 0.0 && y * c == e
    ensures AbsReal(y) * c == AbsReal(e)
  {
  }

  // ---------------------------------------------------------------------
  // build_ratios_table

  /** A small integer ratio `(i, j)`. */
  datatype Pair = Pair(num: int, den: int)

  /** `int(np.sqrt(1/tol))`, the exclusive upper end of both loops. */
  function Bound(d: nat): nat
  {
    ISqrt(Pow10(d))
  }

  predicate InRange(d: nat, p: Pair)
  {
    1 <= p.num < Bound(d) && 1 <= p.den < Bound(d)
  }

  /** `round(i/j, int(-np.log10(tol)))`, scaled by 10^d. */
  function Key(d: nat, p: Pair): int
    requires p.den > 0
  {
    RatioKey(d, p.num as real / p.den as real)
  }

  /** The order in which the nested loops visit the pairs: i-major, j-minor. */
  predicate PairLt(p: Pair, q: Pair)
  {
    p.num < q.num || (p.num == q.num && p.den < q.den)
  }

  /** Every quotient of an in-range pair is at least 1 after scaling, so
      every key is positive. */
  lemma KeyPositive(d: nat, p: Pair)
    requires InRange(d, p)
    ensures Key(d, p) > 0
  {
    assert 1 <= p.den <= Pow10(d) by { DenominatorAtMostScale(d, p); }
    QuotientKeyPositive(d, p.num, p.den);
  }

  lemma QuotientKeyPositive(d: nat, a: int, b: int)
    requires 1 <= a && 1 <= b <= Pow10(d)
    ensures RatioKey(d, a as real / b as real) >= 1
  {
    QuotientAtLeastOne(a, b, Pow10(d));
    RatioKeyPositive(d, a as real / b as real);
  }

  lemma RatioKeyPositive(d: nat, v: real)
    requires v * Pow10(d) as real >= 1.0
    ensures RatioKey(d, v) >= 1
  {
    var x := v * Pow10(d) as real;
    RoundAtLeastOne(x, RatioKey(d, v));
  }

  lemma DenominatorAtMostScale(d: nat, p: Pair)
    requires InRange(d, p)
    ensures p.den <= Pow10(d)
  {
    MulAtLeast(Bound(d), Bound(d));
  }

  lemma RoundAtLeastOne(x: real, k: int)
    requires x >= 1.0 && RoundsTo(x, k)
    ensures k >= 1
  {
  }

  lemma QuotientAtLeastOne(a: int, b: int, n: int)
    requires 1 <= a && 1 <= b <= n
    ensures (a as real / b as real) * n as real >= 1.0
  {
    assert a as real / b as real >= 1.0 / b as real;
    assert (1.0 / b as real) * n as real >= 1.0;
  }

  lemma MulAtLeast(a: int, b: int)
    requires a >= 1 && b >= 0
    ensures a * b >= b
  {
  }


  /** The keys of `order` are keys of the table, every key of the table is
      in `order`, and `order` lists them by their pairs in visiting order. */
  ghost predicate InsertionOrder(table: map<int, Pair>, order: seq<int>)
  {
    (forall a :: 0 <= a < |order| ==> order[a] in table) &&
    (forall k :: k in table ==> k in order) &&
    (forall a, b :: 0 <= a < b < |order| ==> PairLt(table[order[a]], table[order[b]]))
  }

  /** The table after the loops have visited every pair before `(i, j)`. */
  ghost predicate Filled(d: nat, table: map<int, Pair>, order: seq<int>, i: int, j: int)
  {
    (forall k :: k in table ==>
      InRange(d, table[k]) && PairLt(table[k], Pair(i, j)) && Key(d, table[k]) == k && k > 0) &&
    (forall p :: InRange(d, p) && PairLt(p, Pair(i, j)) ==>
      Key(d, p) in table && !PairLt(p, table[Key(d, p)])) &&
    InsertionOrder(table, order)
  }

  /** The finished table:
      - every stored pair is in range, its key is its rounded quotient, and
        every key is positive;
      - every in-range pair's rounded quotient is a key, and the pair stored
        under it comes no later in visiting order: the first insertion for a
        key wins;
      - `order` is the insertion order of the keys. */
  ghost predicate RatiosTable(d: nat, table: map<int, Pair>, order: seq<int>)
  {
    (forall k :: k in table ==> InRange(d, table[k]) && Key(d, table[k]) == k && k > 0) &&
    (forall p :: InRange(d, p) ==> Key(d, p) in table && !PairLt(p, table[Key(d, p)])) &&
    InsertionOrder(table, order)
  }

  /** `build_ratios_table(tol)` with `tol = 10^-d`; the dictionary is the map
      `table` together with its insertion order `order`. */
  method BuildRatiosTable(d: nat) returns (table: map<int, Pair>, order: seq<int>)
    ensures RatiosTable(d, table, order)
  {
    var b := Bound(d);
    table, order := map[], [];
    var i := 1;
    if b < 1 {
      return;
    }
    while i < b
      invariant 1 <= i <= b
      invariant Filled(d, table, order, i, 1)
    {
      var j := 1;
      while j < b
        invariant 1 <= j <= b
        invariant Filled(d, table, order, i, j)
      {
        var p := Pair(i, j);
        var ratio := Key(d, p);
        if ratio !in table {
          FilledAdd(d, table, order, p);
          table := table[ratio := p];
          order := order + [ratio];
        } else {
          FilledSkip(d, table, order, p);
        }
        j := j + 1;
      }
      FilledNextRow(d, table, order, i);
      i := i + 1;
    }
    FilledDone(d, table, order, i);
  }

  /** A pair whose key is new is stored under it and its key is listed last. */
  lemma FilledAdd(d: nat, t: map<int, Pair>, o: seq<int>, p: Pair)
    requires InRange(d, p) && Filled(d, t, o, p.num, p.den) && Key(d, p) !in t
    ensures Filled(d, t[Key(d, p) := p], o + [Key(d, p)], p.num, p.den + 1)
  {
    var k := Key(d, p);
    var t', o' := t[k := p], o + [k];
    KeyPositive(d, p);
    forall q | InRange(d, q) && PairLt(q, Pair(p.num, p.den + 1))
      ensures Key(d, q) in t' && !PairLt(q, t'[Key(d, q)])
    {
      if q != p {
        assert PairLt(q, p);
      }
    }
    forall a, c | 0 <= a < c < |o'| ensures PairLt(t'[o'[a]], t'[o'[c]]) {
      assert o'[a] == o[a] && o[a] in t;
      if c < |o| {
        assert o'[c] == o[c];
      }
    }
  }

  /** A pair whose key is already held leaves the table as it is. */
  lemma FilledSkip(d: nat, t: map<int, Pair>, o: seq<int>, p: Pair)
    requires InRange(d, p) && Filled(d, t, o, p.num, p.den) && Key(d, p) in t
    ensures Filled(d, t, o, p.num, p.den + 1)
  {
    forall q | InRange(d, q) && PairLt(q, Pair(p.num, p.den + 1))
      ensures Key(d, q) in t && !PairLt(q, t[Key(d, q)])
    {
      if q != p {
        assert PairLt(q, p);
      }
    }
  }

  /** After the last `j` of row `i` the next row starts. */
  lemma FilledNextRow(d: nat, t: map<int, Pair>, o: seq<int>, i: int)
    requires Filled(d, t, o, i, Bound(d))
    ensures Filled(d, t, o, i + 1, 1)
  {
  }

  /** After the last row every in-range pair has been visited. */
  lemma FilledDone(d: nat, t: map<int, Pair>, o: seq<int>, i: int)
    requires i == Bound(d) && Filled(d, t, o, i, 1)
    ensures RatiosTable(d, t, o)
  {
  }

  /** The table is determined by `d`: any two tables meeting the
      description are the same dictionary, in the same order. */
  lemma RatiosTableUnique(d: nat, t1: map<int, Pair>, o1: seq<int>, t2: map<int, Pair>, o2: seq<int>)
    requires RatiosTable(d, t1, o1) && RatiosTable(d, t2, o2)
    ensures t1 == t2 && o1 == o2
  {
    forall k | k in t1 ensures k in t2 && t2[k] == t1[k] {
      var p := t1[k];
      assert Key(d, p) in t2;
      var q := t2[k];
      assert !PairLt(p, q);
      assert Key(d, q) in t1;
      assert !PairLt(q, p);
    }
    forall k | k in t2 ensures k in t1 {
      assert Key(d, t2[k]) in t1;
    }
    assert t1 == t2;
    OrderUnique(t1, o1, o2);
  }

  lemma KeyListed(t: map<int, Pair>, o: seq<int>, k: int)
    requires InsertionOrder(t, o) && k in t
    ensures k in o
  {
  }

  /** Every key is listed exactly once. */
  lemma OrderLength(t: map<int, Pair>, o: seq<int>)
    requires InsertionOrder(t, o)
    ensures |o| == |t|
  {
    var s := set x | x in o;
    forall x | x in s ensures x in t {
      var a :| 0 <= a < |o| && o[a] == x;
    }
    forall x | x in t ensures x in s {
      assert x in o;
    }
    assert s == t.Keys;
    DistinctCard(o);
  }

  lemma {:induction false} DistinctCard(o: seq<int>)
    requires forall a, b :: 0 <= a < b < |o| ==> o[a] != o[b]
    ensures |set x | x in o| == |o|
  {
    if o != [] {
      var n := |o|;
      var init := o[..n - 1];
      assert (set x | x in o) == (set x | x in init) + {o[n - 1]};
      assert o[n - 1] !in (set x | x in init);
      DistinctCard(init);
    }
  }

  lemma {:induction false} OrderUnique(t: map<int, Pair>, o1: seq<int>, o2: seq<int>)
    requires InsertionOrder(t, o1) && InsertionOrder(t, o2)
    ensures o1 == o2
    decreases |o1|
  {
    OrderLength(t, o1);
    OrderLength(t, o2);
    if o1 != [] {
      var a :| 0 <= a < |o1| && o1[a] == o2[0];
      var b :| 0 <= b < |o2| && o2[b] == o1[0];
      assert a == 0;
      var t' := map k | k in t && k != o1[0] :: t[k];
      OrderTail(t, o1);
      OrderTail(t, o2);
      OrderUnique(t', o1[1..], o2[1..]);
      assert |o1| == |o2|;
      forall x | 0 <= x < |o1| ensures o1[x] == o2[x] {
        if x > 0 {
          assert o1[x] == o1[1..][x - 1] && o2[x] == o2[1..][x - 1];
        }
      }
    }
  }

  /** Without its first key, the order lists the rest of the table. */
  lemma OrderTail(t: map<int, Pair>, o: seq<int>)
    requires InsertionOrder(t, o) && o != []
    ensures InsertionOrder(map k | k in t && k != o[0] :: t[k], o[1..])
  {
    var t' := map k | k in t && k != o[0] :: t[k];
    forall x | 0 <= x < |o[1..]| ensures o[1..][x] in t' {
      assert PairLt(t[o[0]], t[o[x + 1]]);
    }
    forall k | k in t' ensures k in o[1..] {
      var c :| 0 <= c < |o| && o[c] == k;
      assert c != 0;
      assert o[1..][c - 1] == k;
    }
  }

  // ---------------------------------------------------------------------
  // is_spin_orbit_commensurable

  /** `np.abs((v - key) / key)` for the unscaled key. */
  function RelError(d: nat, v: real, key: int): (e: real)
    requires key != 0
    ensures e >= 0.0
  {
    var k := key as real / Pow10(d) as real;
    AbsReal((v - k) / k)
  }

  /** The index of `min(keys, key=lambda x: abs(x - target))`: a key at the
      least distance, the first such one in iteration order. */
  function ClosestIndex(keys: seq<int>, target: int): (c: nat)
    requires keys != []
    ensures c < |keys|
    ensures forall b :: 0 <= b < |keys| ==> AbsInt(keys[c] - target) <= AbsInt(keys[b] - target)
    ensures forall b :: 0 <= b < c ==> AbsInt(keys[b] - target) > AbsInt(keys[c] - target)
  {
    var n := |keys|;
    if n == 1 then 0
    else
      var best := ClosestIndex(keys[..n - 1], target);
      assert keys[..n - 1][best] == keys[best];
      if AbsInt(keys[n - 1] - target) < AbsInt(keys[best] - target) then n - 1 else best
  }

  /** The outcome: commensurable or not, the (closest) small ratio, and the
      relative difference to it. */
  datatype Verdict = Verdict(commensurable: bool, pair: Pair, relError: real)

  /** `min()` of an empty dictionary raises ValueError; a zero orbital
      period makes `period1 / period2` raise ZeroDivisionError, since the
      row values reach the function as Python floats. */
  datatype LookupError = EmptyRatios | ZeroPeriod

  /** The keys are listed once each in `order` and none is zero. */
  ghost predicate LookupTable(table: map<int, Pair>, order: seq<int>)
  {
    (forall a :: 0 <= a < |order| ==> order[a] in table) &&
    (forall k :: k in table ==> k in order && k != 0)
  }

  /** `min(ratios, key=lambda x: abs(x - ratio))` over the dictionary
      iterated in insertion order. */
  function ClosestKey(table: map<int, Pair>, order: seq<int>, target: int): (c: int)
    requires LookupTable(table, order) && order != []
    ensures c in table
    ensures forall k :: k in table ==> AbsInt(c - target) <= AbsInt(k - target)
    ensures exists a ::
      0 <= a < |order| && order[a] == c &&
      (forall b :: 0 <= b < a ==> AbsInt(order[b] - target) > AbsInt(c - target))
  {
    var a := ClosestIndex(order, target);
    var c := order[a];
    assert forall k :: k in table ==> AbsInt(c - target) <= AbsInt(k - target) by {
      forall k | k in table ensures AbsInt(c - target) <= AbsInt(k - target) {
        var b :| 0 <= b < |order| && order[b] == k;
      }
    }
    c
  }

  /** `is_spin_orbit_commensurable(period1, period2, ratios, tol)`. */
  function IsCommensurable(d: nat, p1: real, p2: real, table: map<int, Pair>, order: seq<int>)
    : (r: Result<Verdict, LookupError>)
    requires LookupTable(table, order)
    ensures r == Err(ZeroPeriod) <==> p2 == 0.0
    ensures r == Err(EmptyRatios) <==> p2 != 0.0 && table == map[]
    ensures r.Ok? ==> (r.value.commensurable <==> RatioKey(d, p1 / p2) in table)
    ensures r.Ok? && r.value.commensurable ==>
      var key := RatioKey(d, p1 / p2);
      r.value.pair == table[key] && r.value.relError == RelError(d, p1 / p2, key)
    ensures r.Ok? && !r.value.commensurable ==>
      order != [] &&
      (var key := ClosestKey(table, order, RatioKey(d, p1 / p2));
       r.value.pair == table[key] && r.value.relError == RelError(d, p1 / p2, key))
  {
    if p2 == 0.0 then Err(ZeroPeriod)
    else
    var v := p1 / p2;
    var ratio := RatioKey(d, v);
    if ratio in table then Ok(Verdict(true, table[ratio], RelError(d, v, ratio)))
    else if order == [] then
      assert forall k :: k in table ==> k in order;
      Err(EmptyRatios)
    else
      var closest := ClosestKey(table, order, ratio);
      Ok(Verdict(false, table[closest], RelError(d, v, closest)))
  }

  /** A built table meets the lookup's requirements. */
  lemma RatiosTableLookup(d: nat, table: map<int, Pair>, order: seq<int>)
    requires RatiosTable(d, table, order)
    ensures LookupTable(table, order)
  {
  }

  /** A period ratio equal to an in-range small ratio i/j is found
      commensurable, against the first pair with the same rounded quotient. */
  lemma ExactRatioCommensurable(d: nat, table: map<int, Pair>, order: seq<int>, p1: real, p2: real, p: Pair)
    requires RatiosTable(d, table, order)
    requires InRange(d, p) && p2 != 0.0 && p1 / p2 == p.num as real / p.den as real
    ensures IsCommensurable(d, p1, p2, table, order).Ok?
    ensures IsCommensurable(d, p1, p2, table, order).value.commensurable
    ensures var q := IsCommensurable(d, p1, p2, table, order).value.pair;
      InRange(d, q) && Key(d, q) == Key(d, p) && !PairLt(p, q)
  {
    assert RatioKey(d, p1 / p2) == Key(d, p);
  }

  // ---------------------------------------------------------------------
  // The colour coding of the main block

  /** `df["mean"] < 0.2`. */
  predicate LowMean(m: Float)
  {
    Lt(m, Fin(0.2))
  }

  /** `df["mean"] > .2`. */
  predicate HighMean(m: Float)
  {
    Lt(Fin(0.2), m)
  }

  /** `df.loc[df["mean"] < 0.2, power_name].min()`: the least power among
      the low-mean rows, skipping NaN; NaN when there is none. */
  function LowMeanMin(mean: seq<Float>, power: seq<Float>): (m: Float)
    requires |mean| == |power|
    ensures m.NaN? <==> forall k :: 0 <= k < |mean| && LowMean(mean[k]) ==> power[k].NaN?
    ensures !m.NaN? ==> exists k :: 0 <= k < |mean| && LowMean(mean[k]) && power[k] == m
    ensures forall k :: 0 <= k < |mean| && LowMean(mean[k]) && !power[k].NaN? ==> Le(m, power[k])
  {
    var n := |mean|;
    if n == 0 then NaN
    else
      var rest := LowMeanMin(mean[..n - 1], power[..n - 1]);
      assert forall k :: 0 <= k < n - 1 ==> mean[..n - 1][k] == mean[k] && power[..n - 1][k] == power[k];
      if !LowMean(mean[n - 1]) || power[n - 1].NaN? then rest
      else if rest.NaN? || Lt(power[n - 1], rest) then power[n - 1]
      else
        LtTotal(rest, power[n - 1]);
        rest
  }

  /** The colour and marker every row ends with:
      - rows with mean < 0.2 end black with a diamond;
      - rows with mean > 0.2 and power above the cutoff end red with a big cross;
      - every other row stays blue with a circle. */
  ghost predicate Styled(mean: seq<Float>, power: seq<Float>, cutoff: Float, color: seq<Color>, marker: seq<Marker>)
    requires |mean| == |power| == |color| == |marker|
  {
    forall k :: 0 <= k < |mean| ==>
      (LowMean(mean[k]) ==> color[k] == Black && marker[k] == Diamond) &&
      (!LowMean(mean[k]) && HighMean(mean[k]) && Lt(cutoff, power[k]) ==> color[k] == Red && marker[k] == BigCross) &&
      (!LowMean(mean[k]) && !(HighMean(mean[k]) && Lt(cutoff, power[k])) ==> color[k] == Blue && marker[k] == Circle)
  }

  /** The body of the loop over `power_names`, for one power column: the
      baseline, the red pass and the black pass, each overwriting the
      `color` and `marker` columns in place. */
  method ColorCodeRows(mean: seq<Float>, power: seq<Float>, color: array<Color>, marker: array<Marker>)
    requires |mean| == |power| == color.Length == marker.Length
    modifies color, marker
    ensures Styled(mean, power, LowMeanMin(mean, power), color[..], marker[..])
  {
    var n := color.Length;
    var k := 0;
    while k < n
      invariant 0 <= k <= n
      invariant forall x :: 0 <= x < k ==> color[x] == Blue && marker[x] == Circle
    {
      color[k], marker[k] := Blue, Circle;
      k := k + 1;
    }
    var cutoff := LowMeanMin(mean, power);
    k := 0;
    while k < n
      invariant 0 <= k <= n
      invariant forall x :: 0 <= x < n ==>
        var red := x < k && Lt(cutoff, power[x]) && HighMean(mean[x]);
        (red ==> color[x] == Red && marker[x] == BigCross) &&
        (!red ==> color[x] == Blue && marker[x] == Circle)
    {
      if Lt(cutoff, power[k]) && HighMean(mean[k]) {
        color[k], marker[k] := Red, BigCross;
      }
      k := k + 1;
    }
    k := 0;
    while k < n
      invariant 0 <= k <= n
      invariant forall x :: 0 <= x < n ==>
        var red := Lt(cutoff, power[x]) && HighMean(mean[x]);
        (x < k && LowMean(mean[x]) ==> color[x] == Black && marker[x] == Diamond) &&
        (!(x < k && LowMean(mean[x])) && red ==> color[x] == Red && marker[x] == BigCross) &&
        (!(x < k && LowMean(mean[x])) && !red ==> color[x] == Blue && marker[x] == Circle)
    {
      if LowMean(mean[k]) {
        color[k], marker[k] := Black, Diamond;
      }
      k := k + 1;
    }
  }

  /** A red row has more power than some low-mean row. */
  lemma RedAboveLowMeanRow(mean: seq<Float>, power: seq<Float>, k: nat)
    requires |mean| == |power| && k < |mean|
    requires Lt(LowMeanMin(mean, power), power[k])
    ensures exists x :: 0 <= x < |mean| && LowMean(mean[x]) && Lt(power[x], power[k])
  {
    var m := LowMeanMin(mean, power);
    var x :| 0 <= x < |mean| && LowMean(mean[x]) && power[x] == m;
  }

  /** Without a low-mean row of known power the cutoff is NaN and no row is
      red. */
  lemma NoRedWithoutLowMeanPower(mean: seq<Float>, power: seq<Float>, k: nat)
    requires |mean| == |power| && k < |mean|
    requires forall x :: 0 <= x < |mean| && LowMean(mean[x]) ==> power[x].NaN?
    ensures !Lt(LowMeanMin(mean, power), power[k])
  {
  }

  /** A low-mean row is never red: the black pass runs last. */
  lemma LowMeanNeverRed(mean: seq<Float>, power: seq<Float>, cutoff: Float, color: seq<Color>, marker: seq<Marker>, k: nat)
    requires |mean| == |power| == |color| == |marker| && k < |mean|
    requires Styled(mean, power, cutoff, color, marker)
    ensures color[k] == Red <==> !LowMean(mean[k]) && HighMean(mean[k]) && Lt(cutoff, power[k])
    ensures color[k] == Black <==> LowMean(mean[k])
  {
  }
}
