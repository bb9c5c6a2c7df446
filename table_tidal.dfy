/** The main block of the tidal-interaction table
    (src/scripts/paper_table_tidal.py): the rows sorted by p-value, the lower
    and torque errors made non-negative, the mass references numbered, the
    LaTeX clean-up replacements and the footnote of references.

    The f-string number formatting of the cells is not modelled; the LaTeX
    string of the table is an input. */
module TableTidal {
  import opened Results
  import opened Floats
  import opened Strings
  import opened Bibkeys

  /** One row of the table: the AD-test p-value `mean`, the four error
      columns passed through `np.abs`, and the bibkeys of the stellar and
      the planetary mass (None for a NaN cell). */
  datatype TidalRow = TidalRow(
    id: string,
    mean: Float,
    mPlLowErr: Float,
    mStarLowErr: Float,
    torqueUpErr: Float,
    torqueLowErr: Float,
    stMassKey: Option<string>,
    plMassKey: Option<string>)

  // ---------------------------------------------------------------------
  // df.sort_values(by="mean", ascending=False)

  /** `a` may come before `b`: a larger p-value first, NaN last. */
  predicate Before(a: TidalRow, b: TidalRow)
  {
    b.mean.NaN? || Le(b.mean, a.mean)
  }

  ghost predicate Descending(s: seq<TidalRow>)
  {
    forall i, j :: 0 <= i < j < |s| ==> Before(s[i], s[j])
  }

  lemma BeforeTotal(a: TidalRow, b: TidalRow)
    ensures Before(a, b) || Before(b, a)
  {
    if !a.mean.NaN? && !b.mean.NaN? { LtTotal(a.mean, b.mean); }
  }

  lemma BeforeTransitive(a: TidalRow, b: TidalRow, c: TidalRow)
    requires Before(a, b) && Before(b, c)
    ensures Before(a, c)
  {
    if !c.mean.NaN? && Lt(c.mean, b.mean) && Lt(b.mean, a.mean) {
      LtTransitive(c.mean, b.mean, a.mean);
    }
  }

  function InsertByMean(x: TidalRow, s: seq<TidalRow>): (r: seq<TidalRow>)
    requires Descending(s)
    ensures Descending(r)
    ensures multiset(r) == multiset(s) + multiset{x}
    ensures r != [] && (r[0] == x || (s != [] && r[0] == s[0]))
  {
    if s == [] then [x]
    else if Before(x, s[0]) then
      ConsDescending(x, s);
      [x] + s
    else
      InsertByMeanStep(x, s, InsertByMean(x, s[1..]));
      [s[0]] + InsertByMean(x, s[1..])
  }

  /** The step of InsertByMean past a head that must stay in front. */
  lemma InsertByMeanStep(x: TidalRow, s: seq<TidalRow>, t: seq<TidalRow>)
    requires Descending(s) && s != [] && !Before(x, s[0])
    requires Descending(t) && multiset(t) == multiset(s[1..]) + multiset{x}
    requires t != [] && (t[0] == x || (s[1..] != [] && t[0] == s[1..][0]))
    ensures Descending([s[0]] + t)
    ensures multiset([s[0]] + t) == multiset(s) + multiset{x}
  {
    assert s == [s[0]] + s[1..];
    BeforeTotal(x, s[0]);
    ConsDescending(s[0], t);
  }

  /** A row that may precede the head of a descending sequence may precede
      all of it. */
  lemma ConsDescending(h: TidalRow, t: seq<TidalRow>)
    requires Descending(t) && (t != [] ==> Before(h, t[0]))
    ensures Descending([h] + t)
  {
    var r := [h] + t;
    forall i, j | 0 <= i < j < |r| ensures Before(r[i], r[j]) {
      if i > 0 {
        assert r[i] == t[i - 1] && r[j] == t[j - 1];
      } else {
        assert r[j] == t[j - 1];
        if j > 1 { BeforeTransitive(h, t[0], t[j - 1]); }
      }
    }
  }

  /** The rows from the largest p-value down, NaN p-values at the end. */
  function SortByMean(rows: seq<TidalRow>): (r: seq<TidalRow>)
    ensures Descending(r)
    ensures multiset(r) == multiset(rows)
  {
    if rows == [] then []
    else
      assert rows == [rows[0]] + rows[1..];
      InsertByMean(rows[0], SortByMean(rows[1..]))
  }

  /** After the sort a row with a p-value comes before every row with a
      smaller one, and every NaN row comes after all rows with one. */
  lemma SortByMeanOrder(rows: seq<TidalRow>, i: nat, j: nat)
    requires i < j < |SortByMean(rows)|
    ensures
      var s := SortByMean(rows);
      (s[i].mean.NaN? ==> s[j].mean.NaN?) &&
      (!s[j].mean.NaN? ==> Le(s[j].mean, s[i].mean))
  {
  }

  // ---------------------------------------------------------------------
  // np.abs of the error columns

  /** The row with its lower mass errors and both torque errors made
      non-negative. */
  function AbsErrors(row: TidalRow): (r: TidalRow)
    ensures r.id == row.id && r.mean == row.mean
    ensures r.stMassKey == row.stMassKey && r.plMassKey == row.plMassKey
    ensures !r.mPlLowErr.NaN? ==> Le(Fin(0.0), r.mPlLowErr)
    ensures !r.mStarLowErr.NaN? ==> Le(Fin(0.0), r.mStarLowErr)
    ensures !r.torqueUpErr.NaN? ==> Le(Fin(0.0), r.torqueUpErr)
    ensures !r.torqueLowErr.NaN? ==> Le(Fin(0.0), r.torqueLowErr)
    ensures r.mPlLowErr == row.mPlLowErr || r.mPlLowErr == Neg(row.mPlLowErr)
    ensures r.mStarLowErr == row.mStarLowErr || r.mStarLowErr == Neg(row.mStarLowErr)
    ensures r.torqueUpErr == row.torqueUpErr || r.torqueUpErr == Neg(row.torqueUpErr)
    ensures r.torqueLowErr == row.torqueLowErr || r.torqueLowErr == Neg(row.torqueLowErr)
  {
    row.(mPlLowErr := Abs(row.mPlLowErr), mStarLowErr := Abs(row.mStarLowErr),
         torqueUpErr := Abs(row.torqueUpErr), torqueLowErr := Abs(row.torqueLowErr))
  }

  /** Taking the absolute values twice is the same as once. */
  lemma AbsErrorsIdempotent(row: TidalRow)
    ensures AbsErrors(AbsErrors(row)) == AbsErrors(row)
  {
  }

  /** The four `np.abs` column assignments, row by row in place. */
  method AbsColumns(df: array<TidalRow>)
    modifies df
    ensures forall i :: 0 <= i < df.Length ==> df[i] == AbsErrors(old(df[i]))
  {
    var i := 0;
    while i < df.Length
      invariant 0 <= i <= df.Length
      invariant forall k :: 0 <= k < i ==> df[k] == AbsErrors(old(df[k]))
      invariant forall k :: i <= k < df.Length ==> df[k] == old(df[k])
    {
      df[i] := AbsErrors(df[i]);
      i := i + 1;
    }
  }

  /** The table after the sort and the absolute values. */
  function Prepared(df: seq<TidalRow>): (r: seq<TidalRow>)
    ensures |r| == |df|
    ensures forall i {:trigger r[i]} :: 0 <= i < |r| ==>
      r[i] == AbsErrors(SortByMean(df)[i])
  {
    var s := SortByMean(df);
    assert |s| == |multiset(s)| == |multiset(df)| == |df|;
    seq(|s|, i requires 0 <= i < |s| => AbsErrors(s[i]))
  }

  // ---------------------------------------------------------------------
  // Reference numbering

  /** `column.dropna()`: the bibkeys of the non-NaN cells, in row order. */
  function Present(column: seq<Option<string>>): (r: seq<string>)
    ensures forall k :: k in r <==> Some(k) in column
  {
    if column == [] then []
    else
      var t := Present(column[1..]);
      assert forall o :: o in column <==> o == column[0] || o in column[1..];
      if column[0].Some? then [column[0].value] + t else t
  }

  function StMassColumn(df: seq<TidalRow>): (r: seq<Option<string>>)
    ensures |r| == |df|
  {
    seq(|df|, i requires 0 <= i < |df| => df[i].stMassKey)
  }

  function PlMassColumn(df: seq<TidalRow>): (r: seq<Option<string>>)
    ensures |r| == |df|
  {
    seq(|df|, i requires 0 <= i < |df| => df[i].plMassKey)
  }

  /** The bibkeys of both mass columns, NaN dropped, numbered in sorted
      order from 1. */
  function TidalNumbering(df: seq<TidalRow>): (keys: seq<string>)
    ensures StrictlySorted(keys)
    ensures forall k :: k in keys <==>
      exists i :: 0 <= i < |df| && (df[i].stMassKey == Some(k) || df[i].plMassKey == Some(k))
  {
    var st, pl := StMassColumn(df), PlMassColumn(df);
    var keys := Numbering(Present(st) + Present(pl));
    assert forall k :: k in keys <==> Some(k) in st || Some(k) in pl;
    assert forall k :: Some(k) in st <==> exists i :: 0 <= i < |df| && df[i].stMassKey == Some(k) by {
      forall k ensures Some(k) in st <==> exists i :: 0 <= i < |df| && df[i].stMassKey == Some(k) {
        if Some(k) in st {
          var i :| 0 <= i < |st| && st[i] == Some(k);
          assert df[i].stMassKey == Some(k);
        }
        if exists i :: 0 <= i < |df| && df[i].stMassKey == Some(k) {
          var i :| 0 <= i < |df| && df[i].stMassKey == Some(k);
          assert st[i] == Some(k);
        }
      }
    }
    assert forall k :: Some(k) in pl <==> exists i :: 0 <= i < |df| && df[i].plMassKey == Some(k) by {
      forall k ensures Some(k) in pl <==> exists i :: 0 <= i < |df| && df[i].plMassKey == Some(k) {
        if Some(k) in pl {
          var i :| 0 <= i < |pl| && pl[i] == Some(k);
          assert df[i].plMassKey == Some(k);
        }
        if exists i :: 0 <= i < |df| && df[i].plMassKey == Some(k) {
          var i :| 0 <= i < |df| && df[i].plMassKey == Some(k);
          assert pl[i] == Some(k);
        }
      }
    }
    keys
  }

  /** `bibkeys[x]` raises KeyError for a NaN cell, or for a bibkey that the
      numbering does not hold. */
  datatype ReferenceError = KeyError(row: nat)

  /** The number of a cell's bibkey, or None when the lookup fails. */
  function Lookup(keys: seq<string>, cell: Option<string>): (r: Option<nat>)
    ensures r.Some? <==> cell.Some? && cell.value in keys
    ensures r.Some? ==> 1 <= r.value <= |keys| && keys[r.value - 1] == cell.value
  {
    if cell.Some? && cell.value in keys then Some(Number(keys, cell.value)) else None
  }

  /** Both mass bibkeys of the row have a number. */
  predicate Resolvable(keys: seq<string>, row: TidalRow)
  {
    Lookup(keys, row.stMassKey).Some? && Lookup(keys, row.plMassKey).Some?
  }

  /** `refs` are the numbers of the row's stellar and planetary mass
      bibkeys. */
  predicate NumbersOf(keys: seq<string>, row: TidalRow, refs: (nat, nat))
  {
    1 <= refs.0 <= |keys| && row.stMassKey == Some(keys[refs.0 - 1]) &&
    1 <= refs.1 <= |keys| && row.plMassKey == Some(keys[refs.1 - 1])
  }

  /** The columns `ref. $M_*$` and `ref. $M_p$`: each row's two reference
      numbers; the first row whose lookup fails raises. */
  function References(df: seq<TidalRow>, keys: seq<string>): (r: Result<seq<(nat, nat)>, ReferenceError>)
    ensures r.Ok? <==> forall i :: 0 <= i < |df| ==> Resolvable(keys, df[i])
    ensures r.Ok? ==> |r.value| == |df|
    ensures r.Ok? ==> forall i :: 0 <= i < |df| ==> NumbersOf(keys, df[i], r.value[i])
    ensures r.Err? ==> r.error.row < |df| && !Resolvable(keys, df[r.error.row])
  {
    if df == [] then Ok([])
    else if !Resolvable(keys, df[0]) then Err(KeyError(0))
    else
      var a, b := Lookup(keys, df[0].stMassKey).value, Lookup(keys, df[0].plMassKey).value;
      match References(df[1..], keys)
      case Err(e) =>
        assert df[1..][e.row] == df[e.row + 1];
        Err(KeyError(e.row + 1))
      case Ok(t) =>
        ReferencesCons(df, keys, (a, b), t);
        Ok([(a, b)] + t)
  }

  /** The numbers of the first row put in front of those of the others
      number the whole table. */
  lemma ReferencesCons(df: seq<TidalRow>, keys: seq<string>, refs: (nat, nat), t: seq<(nat, nat)>)
    requires df != [] && NumbersOf(keys, df[0], refs) && |t| == |df| - 1
    requires forall i :: 0 <= i < |df| - 1 ==> NumbersOf(keys, df[1..][i], t[i])
    ensures forall i :: 0 <= i < |df| ==> NumbersOf(keys, df[i], ([refs] + t)[i])
    ensures forall i :: 0 <= i < |df| ==> Resolvable(keys, df[i])
  {
    var r := [refs] + t;
    forall i | 0 <= i < |df| ensures NumbersOf(keys, df[i], r[i]) {
      if i > 0 {
        assert df[i] == df[1..][i - 1] && r[i] == t[i - 1];
      }
    }
    forall i | 0 <= i < |df| ensures Resolvable(keys, df[i]) {
      assert NumbersOf(keys, df[i], r[i]);
    }
  }

  /** With the table's own numbering, the lookups fail exactly when some
      row has a NaN mass bibkey. */
  lemma ReferencesComplete(df: seq<TidalRow>)
    ensures References(df, TidalNumbering(df)).Ok? <==>
      forall i :: 0 <= i < |df| ==> df[i].stMassKey.Some? && df[i].plMassKey.Some?
  {
    var keys := TidalNumbering(df);
    forall i | 0 <= i < |df| && df[i].stMassKey.Some?
      ensures df[i].stMassKey.value in keys
    {
    }
    forall i | 0 <= i < |df| && df[i].plMassKey.Some?
      ensures df[i].plMassKey.value in keys
    {
    }
  }

  // ---------------------------------------------------------------------
  // The clean-up replacements of the LaTeX string

  /** The pattern the first replacement looks for, `$nan^{nan}_{nan}$`: a
      missing value with both errors missing, laid out without a space
      before the lower error. */
  const EmptyCell: string := "$nan^{nan}_{nan}$"

  /** The replacements in the order the main block applies them. */
  function TidyLatex(s: string): string
  {
    var s := ReplaceAll(s, EmptyCell, "--");
    var s := ReplaceAll(s, "nan", "-");
    var s := ReplaceAll(s, "NaN", "-");
    var s := ReplaceAll(s, "e+00", "");
    var s := ReplaceAll(s, "e-0", "\\text{e-}");
    var s := ReplaceAll(s, "e+0", "\\text{e}");
    var s := ReplaceAll(s, "midrule", "hline");
    var s := ReplaceAll(s, "toprule", "hline");
    ReplaceAll(s, "bottomrule", "hline")
  }

  /** The string rebinding of the main block. */
  method Tidy(latex: string) returns (t: string)
    ensures t == TidyLatex(latex)
  {
    t := ReplaceAll(latex, EmptyCell, "--");
    t := ReplaceAll(t, "nan", "-");
    t := ReplaceAll(t, "NaN", "-");
    t := ReplaceAll(t, "e+00", "");
    t := ReplaceAll(t, "e-0", "\\text{e-}");
    t := ReplaceAll(t, "e+0", "\\text{e}");
    t := ReplaceAll(t, "midrule", "hline");
    t := ReplaceAll(t, "toprule", "hline");
    t := ReplaceAll(t, "bottomrule", "hline");
  }

  /** The first replacement turns an empty cell into `--` when the text
      before it does not end in `}`, as every cell separator ` & ` does not;
      the text on either side is replaced on its own, and text without `$`
      is left as it is. */
  lemma EmptyCellDashed(a: string, b: string)
    requires a == [] || a[|a| - 1] != '}'
    ensures ReplaceAll(a + EmptyCell + b, EmptyCell, "--") ==
      ReplaceAll(a, EmptyCell, "--") + "--" + ReplaceAll(b, EmptyCell, "--")
    ensures '$' !in a ==> ReplaceAll(a, EmptyCell, "--") == a
  {
    NoStraddle(a, b);
    ReplaceSplit(a, EmptyCell + b, EmptyCell, "--");
    ReplaceLeading(EmptyCell, b, "--");
    ConcatAssoc(a, EmptyCell, b);
    ConcatAssoc(ReplaceAll(a, EmptyCell, "--"), "--", ReplaceAll(b, EmptyCell, "--"));
    if '$' !in a {
      ReplaceSkips(a, [], EmptyCell, "--");
      assert a + [] == a;
    }
  }

  /** The empty cell holds `$` only at its two ends. */
  lemma CellDollars(j: int)
    requires 0 < j < |EmptyCell| - 1
    ensures EmptyCell[j] != '$'
  {
  }

  /** No empty cell that starts in text not ending in `}` reaches into the
      empty cell after that text: the cell overlaps itself only in one `$`,
      and the character before that `$` is `}`. */
  lemma NoStraddle(a: string, b: string)
    requires a == [] || a[|a| - 1] != '}'
    ensures forall i :: 0 <= i < |a| < i + |EmptyCell| ==> !OccursAt(a + (EmptyCell + b), EmptyCell, i)
  {
    var s, e := a + (EmptyCell + b), EmptyCell;
    assert s[|a|] == e[0];
    forall i | 0 <= i < |a| < i + |e| ensures !OccursAt(s, e, i) {
      if i + |e| <= |s| {
        var j := |a| - i;
        assert s[i..i + |e|][j] == s[|a|];
        if j < |e| - 1 {
          CellDollars(j);
        } else {
          assert e[j - 1] == '}';
          assert s[i..i + |e|][j - 1] == s[|a| - 1] == a[|a| - 1];
        }
      }
    }
  }

  /** A pattern that cannot overlap a `--`: it is longer than two
      characters, neither starts nor ends with `-`, and holds no `--`. */
  predicate DashSafe(pat: string)
  {
    |pat| > 2 && pat[0] != '-' && pat[|pat| - 1] != '-' &&
    forall k :: 0 <= k < |pat| - 1 ==> !(pat[k] == '-' && pat[k + 1] == '-')
  }

  /** A `--` separates the string into two parts that a dash-safe
      replacement treats independently, and it survives the replacement. */
  lemma AroundDashes(u: string, d: string, v: string, pat: string, rep: string)
    requires d == "--" && DashSafe(pat)
    ensures ReplaceAll(u + d + v, pat, rep) == ReplaceAll(u, pat, rep) + d + ReplaceAll(v, pat, rep)
  {
    NoneBeforeDashes(u, d, v, pat);
    ReplaceSplit(u, d + v, pat, rep);
    NoneFromDashes(d, v, pat);
    ReplaceSplit(d, v, pat, rep);
    assert ReplaceAll(d, pat, rep) == d;
    ConcatAssoc(u, d, v);
    ConcatAssoc(ReplaceAll(u, pat, rep), d, ReplaceAll(v, pat, rep));
  }

  /** No occurrence starting before the dashes reaches into them. */
  lemma NoneBeforeDashes(u: string, d: string, v: string, pat: string)
    requires d == "--" && DashSafe(pat)
    ensures forall i :: 0 <= i < |u| < i + |pat| ==> !OccursAt(u + (d + v), pat, i)
  {
    var s := u + (d + v);
    assert s[|u|] == '-' && s[|u| + 1] == '-';
    forall i | 0 <= i < |u| < i + |pat| ensures !OccursAt(s, pat, i) {
      if i + |pat| <= |s| {
        var j := |u| - i;
        assert s[i..i + |pat|][j] == s[|u|];
        if j + 1 < |pat| {
          assert s[i..i + |pat|][j + 1] == s[|u| + 1];
        }
      }
    }
  }

  /** No occurrence starts on one of the dashes. */
  lemma NoneFromDashes(d: string, v: string, pat: string)
    requires d == "--" && DashSafe(pat)
    ensures forall i :: 0 <= i < |d| < i + |pat| ==> !OccursAt(d + v, pat, i)
  {
    var w := d + v;
    forall i | 0 <= i < |d| < i + |pat| ensures !OccursAt(w, pat, i) {
      if i + |pat| <= |w| {
        assert w[i..i + |pat|][0] == w[i] == '-';
      }
    }
  }

  /** The patterns after the first are all dash-safe. */
  lemma LaterPatternsDashSafe()
    ensures DashSafe("nan") && DashSafe("NaN") && DashSafe("e+00") && DashSafe("e-0")
    ensures DashSafe("e+0") && DashSafe("midrule") && DashSafe("toprule") && DashSafe("bottomrule")
  {
  }

  /** An empty cell after text that does not end in `}` becomes `--`, and
      the replacements then work on the text before it and the text after
      it separately: no later pattern can start in, end in or pass through
      the `--`. */
  lemma TidyAroundEmptyCell(a: string, b: string)
    requires a == [] || a[|a| - 1] != '}'
    ensures TidyLatex(a + EmptyCell + b) == TidyLatex(a) + "--" + TidyLatex(b)
  {
    EmptyCellDashed(a, b);
    LaterPatternsDashSafe();
    var x, y := ReplaceAll(a, EmptyCell, "--"), ReplaceAll(b, EmptyCell, "--");
    AroundDashes(x, "--", y, "nan", "-");
    x, y := ReplaceAll(x, "nan", "-"), ReplaceAll(y, "nan", "-");
    AroundDashes(x, "--", y, "NaN", "-");
    x, y := ReplaceAll(x, "NaN", "-"), ReplaceAll(y, "NaN", "-");
    AroundDashes(x, "--", y, "e+00", "");
    x, y := ReplaceAll(x, "e+00", ""), ReplaceAll(y, "e+00", "");
    AroundDashes(x, "--", y, "e-0", "\\text{e-}");
    x, y := ReplaceAll(x, "e-0", "\\text{e-}"), ReplaceAll(y, "e-0", "\\text{e-}");
    AroundDashes(x, "--", y, "e+0", "\\text{e}");
    x, y := ReplaceAll(x, "e+0", "\\text{e}"), ReplaceAll(y, "e+0", "\\text{e}");
    AroundDashes(x, "--", y, "midrule", "hline");
    x, y := ReplaceAll(x, "midrule", "hline"), ReplaceAll(y, "midrule", "hline");
    AroundDashes(x, "--", y, "toprule", "hline");
    x, y := ReplaceAll(x, "toprule", "hline"), ReplaceAll(y, "toprule", "hline");
    AroundDashes(x, "--", y, "bottomrule", "hline");
  }

  /** A value cell as the mass and timescale columns lay it out, the three
      formatted numbers being given: the lower error follows `}_{` and a
      space. */
  function ValueCell(v: string, up: string, low: string): string
  {
    "$" + (v + ("^{" + (up + ("}_{ " + (low + "}$")))))
  }

  /** The same layout without the space, the one the first replacement
      expects. */
  function ValueCellUnspaced(v: string, up: string, low: string): string
  {
    "$" + (v + ("^{" + (up + ("}_{" + (low + "}$")))))
  }

  /** A cell whose value and errors are all missing, as the columns write it. */
  const MissingCell: string := "$nan^{nan}_{ nan}$"

  /** Replacing a pattern whose first character does not occur leaves the
      text unchanged. */
  lemma ReplaceNoStart(t: string, pat: string, rep: string)
    requires pat != [] && pat[0] !in t
    ensures ReplaceAll(t, pat, rep) == t
  {
    ReplaceSkips(t, [], pat, rep);
    assert t + [] == t;
  }

  /** The first replacement never matches a missing cell the columns write,
      because of the space before the lower error, so that cell does not
      become `--`: the clean-up leaves `$-^{-}_{ -}$`. */
  lemma MissingCellAsWritten()
    ensures ValueCell("nan", "nan", "nan") == MissingCell
    ensures ReplaceAll(MissingCell, EmptyCell, "--") == MissingCell
    ensures TidyLatex(MissingCell) == "$-^{-}_{ -}$"
  {
    MissingCellLayout();
    MissingCellKept();
    MissingCellNan();
    MissingDashedLetterFree();
    LaterPatternsAbsent("$-^{-}_{ -}$");
  }

  lemma MissingCellLayout()
    ensures ValueCell("nan", "nan", "nan") == MissingCell
  {
  }

  lemma MissingDashedLetterFree()
    ensures forall c :: c in "$-^{-}_{ -}$" ==> c !in "Nemtb"
  {
    var d := "$-^{-}_{ -}$";
    forall c | c in d ensures c !in "Nemtb" {
      var k :| 0 <= k < |d| && d[k] == c;
    }
  }

  /** The missing cell the columns write does not hold the pattern. */
  lemma MissingCellKept()
    ensures ReplaceAll(MissingCell, EmptyCell, "--") == MissingCell
  {
    var m, e := MissingCell, EmptyCell;
    forall i ensures !OccursAt(m, e, i) {
      if 0 <= i && i + |e| <= |m| {
        if i == 0 {
          assert m[..|e|][12] == m[12] != e[12];
        } else {
          assert m[i..i + |e|][0] == m[1] != e[0];
        }
      }
    }
    ReplaceAbsent(m, e, "--");
  }

  /** Text holding none of `N`, `e`, `m`, `t` and `b` goes through the
      seven replacements after `nan` unchanged. */
  lemma LaterPatternsAbsent(d: string)
    requires forall c :: c in d ==> c !in "Nemtb"
    ensures var d1 := ReplaceAll(d, "NaN", "-");
      var d2 := ReplaceAll(d1, "e+00", "");
      var d3 := ReplaceAll(d2, "e-0", "\\text{e-}");
      var d4 := ReplaceAll(d3, "e+0", "\\text{e}");
      var d5 := ReplaceAll(d4, "midrule", "hline");
      var d6 := ReplaceAll(d5, "toprule", "hline");
      ReplaceAll(d6, "bottomrule", "hline") == d
  {
    ReplaceNoStart(d, "NaN", "-");
    ReplaceNoStart(d, "e+00", "");
    ReplaceNoStart(d, "e-0", "\\text{e-}");
    ReplaceNoStart(d, "e+0", "\\text{e}");
    ReplaceNoStart(d, "midrule", "hline");
    ReplaceNoStart(d, "toprule", "hline");
    ReplaceNoStart(d, "bottomrule", "hline");
  }

  /** The `nan` replacement on the missing cell the columns write. */
  lemma MissingCellNan()
    ensures ReplaceAll(MissingCell, "nan", "-") == "$-^{-}_{ -}$"
  {
    var n := "nan";
    var s6 := "}$";
    var s5 := n + s6;
    var s4 := "}_{ " + s5;
    var s3 := n + s4;
    var s2 := "^{" + s3;
    var s1 := n + s2;
    var s0 := "$" + s1;
    assert s0 == MissingCell;
    assert ReplaceAll(s6, n, "-") == s6;
    ReplaceLeading(n, s6, "-");
    ReplaceSkips("}_{ ", s5, n, "-");
    ReplaceLeading(n, s4, "-");
    ReplaceSkips("^{", s3, n, "-");
    ReplaceLeading(n, s2, "-");
    ReplaceSkips("$", s1, n, "-");
    MissingDashedParts();
  }

  lemma MissingDashedParts()
    ensures "$" + ("-" + ("^{" + ("-" + ("}_{ " + ("-" + "}$"))))) == "$-^{-}_{ -}$"
  {
  }

  /** Laid out without the space, a missing cell is the pattern of the first
      replacement, and in a table it becomes `--` with the clean-up working
      on each side of it separately. */
  lemma MissingCellUnspacedDashed(a: string, b: string)
    requires a == [] || a[|a| - 1] != '}'
    ensures ValueCellUnspaced("nan", "nan", "nan") == EmptyCell
    ensures TidyLatex(a + ValueCellUnspaced("nan", "nan", "nan") + b) == TidyLatex(a) + "--" + TidyLatex(b)
  {
    assert ValueCellUnspaced("nan", "nan", "nan") == EmptyCell;
    TidyAroundEmptyCell(a, b);
  }

  /** Had `nan` been replaced first, an empty cell would have become
      `$-^{-}_{-}$` and never `--`. */
  lemma EmptyCellNeedsOrder()
    ensures ReplaceAll(EmptyCell, "nan", "-") == "$-^{-}_{-}$"
    ensures ReplaceAll(ReplaceAll(EmptyCell, "nan", "-"), EmptyCell, "--") == "$-^{-}_{-}$"
  {
    var n := "nan";
    var s6 := "}$";
    var s5 := n + s6;
    var s4 := "}_{" + s5;
    var s3 := n + s4;
    var s2 := "^{" + s3;
    var s1 := n + s2;
    var s0 := "$" + s1;
    assert s0 == EmptyCell;
    assert ReplaceAll(s6, n, "-") == s6;
    ReplaceLeading(n, s6, "-");
    ReplaceSkips("}_{", s5, n, "-");
    ReplaceLeading(n, s4, "-");
    ReplaceSkips("^{", s3, n, "-");
    ReplaceLeading(n, s2, "-");
    ReplaceSkips("$", s1, n, "-");
    DashedCellParts();
  }

  lemma DashedCellParts()
    ensures "$" + ("-" + ("^{" + ("-" + ("}_{" + ("-" + "}$"))))) == "$-^{-}_{-}$"
  {
  }

  /** `e+00` is removed whole; had `e+0` been replaced first, it would have
      left `\text{e}0`. */
  lemma ExponentNeedsOrder()
    ensures ReplaceAll(ReplaceAll("e+00", "e+00", ""), "e+0", "\\text{e}") == ""
    ensures ReplaceAll("e+00", "e+0", "\\text{e}") == "\\text{e}0"
  {
    ReplaceLeading("e+00", "", "");
    ReplaceLeading("e+0", "0", "\\text{e}");
    assert "e+0" + "0" == "e+00";
  }

  // ---------------------------------------------------------------------
  // The footnote of references

  /** `"(" + str(n) + ") \citet{" + key + "}, "`. */
  function FootnoteEntry(n: nat, key: string): string
  {
    NumberText(n) + " " + CiteText(key) + ", "
  }

  /** `entry(1, keys[0]) + ... + entry(i, keys[i - 1])`. */
  function Concatenated(keys: seq<string>, i: nat, entry: (nat, string) -> string): string
    requires i <= |keys|
  {
    if i == 0 then "" else Concatenated(keys, i - 1, entry) + entry(i, keys[i - 1])
  }

  /** The entries of the first `i` bibkeys of the numbering, in order. */
  function Footnote(keys: seq<string>, i: nat): string
    requires i <= |keys|
  {
    Concatenated(keys, i, FootnoteEntry)
  }

  /** The `bibstring` loop over the numbering. */
  method BuildFootnote(keys: seq<string>) returns (bibstring: string)
    ensures bibstring == Footnote(keys, |keys|)
  {
    bibstring := "";
    var i := 0;
    while i < |keys|
      invariant 0 <= i <= |keys|
      invariant bibstring == Footnote(keys, i)
    {
      bibstring := bibstring + FootnoteEntry(i + 1, keys[i]);
      i := i + 1;
    }
  }

  /** The entries of a shorter prefix open the footnote. */
  lemma FootnotePrefix(keys: seq<string>, i: nat, m: nat)
    requires i <= m <= |keys|
    ensures |Footnote(keys, i)| <= |Footnote(keys, m)|
    ensures Footnote(keys, m)[..|Footnote(keys, i)|] == Footnote(keys, i)
  {
    ConcatenatedPrefix(keys, i, m, FootnoteEntry);
  }

  lemma {:induction false} ConcatenatedPrefix(keys: seq<string>, i: nat, m: nat, entry: (nat, string) -> string)
    requires i <= m <= |keys|
    ensures |Concatenated(keys, i, entry)| <= |Concatenated(keys, m, entry)|
    ensures Concatenated(keys, m, entry)[..|Concatenated(keys, i, entry)|] == Concatenated(keys, i, entry)
    decreases m - i
  {
    if i < m {
      ConcatenatedPrefix(keys, i, m - 1, entry);
      var f, n := Concatenated(keys, m - 1, entry), |Concatenated(keys, i, entry)|;
      PrefixOfAppend(f, entry(m, keys[m - 1]), n);
    }
  }

  /** The footnote holds the entry of every bibkey with that bibkey's
      number, at the place fixed by the numbering. */
  lemma FootnoteEntryAt(keys: seq<string>, i: nat)
    requires i < |keys|
    ensures
      var f := Footnote(keys, |keys|);
      var at := |Footnote(keys, i)|;
      var e := FootnoteEntry(i + 1, keys[i]);
      at + |e| <= |f| && f[at..at + |e|] == e
  {
    ConcatenatedEntryAt(keys, i, FootnoteEntry);
  }

  lemma ConcatenatedEntryAt(keys: seq<string>, i: nat, entry: (nat, string) -> string)
    requires i < |keys|
    ensures
      var f := Concatenated(keys, |keys|, entry);
      var at := |Concatenated(keys, i, entry)|;
      var e := entry(i + 1, keys[i]);
      at + |e| <= |f| && f[at..at + |e|] == e
  {
    ConcatenatedPrefix(keys, i + 1, |keys|, entry);
    EntryInside(Concatenated(keys, |keys|, entry), Concatenated(keys, i, entry), entry(i + 1, keys[i]));
  }

  /** A string that opens with `a + e` holds `e` right after `a`. */
  lemma EntryInside(f: string, a: string, e: string)
    requires |a + e| <= |f| && f[..|a + e|] == a + e
    ensures f[|a|..|a| + |e|] == e
  {
    forall k | 0 <= k < |e| ensures f[|a| + k] == e[k] {
      assert f[..|a + e|][|a| + k] == (a + e)[|a| + k];
    }
  }

  /** A row's reference number leads, in the footnote, to the entry that
      cites that row's own stellar-mass bibkey (and likewise for the planet
      mass). */
  lemma ReferenceInFootnote(df: seq<TidalRow>, keys: seq<string>, i: nat)
    requires i < |df|
    requires References(df, keys).Ok?
    ensures
      var refs := References(df, keys).value[i];
      var f := Footnote(keys, |keys|);
      var at := |Footnote(keys, refs.0 - 1)|;
      var e := FootnoteEntry(refs.0, df[i].stMassKey.value);
      at + |e| <= |f| && f[at..at + |e|] == e
  {
    var refs := References(df, keys).value[i];
    assert 1 <= refs.0 <= |keys| && keys[refs.0 - 1] == df[i].stMassKey.value by {
      assert NumbersOf(keys, df[i], refs);
    }
    FootnoteEntryAt(keys, refs.0 - 1);
  }
}
