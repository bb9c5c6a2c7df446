# flaring-spi-paper: the exact logic of the paper scripts

The repository is a set of scripts. They produce the figures and tables of
a paper on star-planet interaction seen through the timing of stellar
flares. Most of the code is pandas and matplotlib glue. This project models
the parts that are exact logic, one module per script:

- the Anderson-Darling statistic against an arbitrary null distribution,
  and the bookkeeping around its calibration (`AndersonDarling`);
- the small-integer ratio table and the spin-orbit commensurability lookup,
  with the colour coding of the commensurability figure (`SpinOrbit`);
- the threshold colour/marker classifiers and the significance levels of
  the two AD-test scatter plot scripts (`AdtestScatter`, `AdtextScatter`).
  The second script's `colorcode_dist`, `colorcode_rotation`,
  `colorcode_multiplicity` and `colorcode_Lx`
  (`src/scripts/paper_adtext_vs_value_scatterplots.py`, lines 53-69, 86-102,
  120-132 and 149-161) are the same code as the first script's, so they are
  modelled once, in `AdtestScatter`;
- the LaTeX builders, the column-group dispatch and the citation numbering
  of the main table (`MainTable`);
- the tidal table's sort, absolute errors, reference numbering, clean-up
  replacements and footnote (`TableTidal`);
- the flare filter, the empirical cumulative curve and the panel
  allocation of the transiting-systems figure (`CumdistTransiting`);
- the TRAPPIST-1 rename and the Kepler-411(c) drop (`RenameTrappist`);
- the sentence listing multiple stars (`MultipleStars`).

Shared modules:

- `Results`: Option and Result.
- `Floats`: a numpy double as `Fin(v) | PosInf | NegInf | NaN`. Every
  comparison with NaN is false. It also holds the absolute value and the
  minimum of exact numbers.
- `Sorting`: `np.sort` on reals.
- `Strings`: Python's `str.replace`, `", ".join` and `str` of a natural
  number.
- `Bibkeys`: `np.unique` followed by numbering from 1.

Numbers are exact reals. A pandas column is a sequence with one entry per
row, and a NaN cell is `NaN` or `None`. Parts of the scripts that work in
place are methods: the ratio-table loops, the colour passes, the in-place
fold, the ID rename, the replace chains, the footnote loop and the panel
pops. Each such method is proved against a function or predicate, and the
lemmas are stated about that function or predicate.

The NaN inputs of the classifiers are a `Float`, not an `Option`. One
classifier, `colorcode_Lx`, tells NaN apart from the two infinities, and
IEEE comparisons with infinities decide the other branches as well.

## Model

| member | source | states |
|---|---|---|
| AndersonDarling.Interior | src/scripts/paper_example_ad_dist.py:104 | the survivors lie strictly inside (0, 1); each value in that range keeps its multiplicity and every other value is dropped |
| AndersonDarling.InteriorAppend | src/scripts/paper_example_ad_dist.py:104 | the filter keeps the order of the sorted sample: the survivors of a + b are those of a followed by those of b |
| AndersonDarling.TermPairing | src/scripts/paper_example_ad_dist.py:107-108 | the i-th term (1-based) is (2i-1)/N times ln z_i + ln(1 - z_{N+1-i}) |
| AndersonDarling.StatisticPerPoint | src/scripts/paper_example_ad_dist.py:106-109 | the reversed-pair sum equals the textbook per-point form, where z_k carries (2k+1)/N ln z_k + (2(N-k)-1)/N ln(1-z_k) |
| AndersonDarling.ReflectionInvariant | src/scripts/paper_example_ad_dist.py:106-109 | replacing the survivors by 1 - z in reverse order leaves A2 unchanged |
| AndersonDarling.AndersonCustomPermutationInvariant | src/scripts/paper_example_ad_dist.py:100-101 | anderson_custom gives the same A2 for any two samples with equal multisets |
| AndersonDarling.AndersonCustomNoSurvivors | src/scripts/paper_example_ad_dist.py:104-109 | when no CDF value lies strictly inside (0, 1), the sum is empty and A2 = 0 |
| AndersonDarling.AndersonCustomBoundaryPoint | src/scripts/paper_example_ad_dist.py:103-106 | adding a sample point whose CDF value is not strictly inside (0, 1) leaves A2 unchanged, so N counts only survivors |
| AndersonDarling.ControlPoints | src/scripts/paper_example_ad_dist.py:129-131 | the control points have length len(p) + 2, start at 0, end at 1 and hold p in between |
| AndersonDarling.ControlPointsSorted | src/scripts/paper_example_ad_dist.py:129-131 | sorted phases in [0, 1] give sorted control points |
| AndersonDarling.NullHypothesis | src/scripts/paper_example_ad_dist.py:130-134 | the interpolant is built exactly when there are two more y values than phases, over the control points |
| AndersonDarling.StepSize | src/scripts/paper_example_ad_dist.py:35 | dx is the least of 1e-4, (1-x)/3 and x/3; for x in (0, 1), dx > 0 and x - dx, x + dx lie strictly inside (0, 1) |
| AndersonDarling.LogTarget | src/scripts/paper_example_ad_dist.py:31-40 | -inf when x <= 0 or x >= 1; finite exactly when x is in (0, 1) and the central difference is positive, and then it is ln of that difference |
| AndersonDarling.Reshape | src/scripts/paper_example_ad_dist.py:67 | reshaping succeeds exactly when the size is rows * cols; row i is the i-th block of cols values |
| AndersonDarling.SampleStatistics | src/scripts/paper_example_ad_dist.py:67-74 | exactly N statistics, the i-th being anderson_custom of row i of the N x nobs chain; a wrong size fails |
| AndersonDarling.Folded | src/scripts/paper_example_ad_dist.py:199-200 | same length; every entry ends at m + abs(v - m), so it is >= m, and entries already >= m are unchanged |
| AndersonDarling.FoldedIdempotent | src/scripts/paper_example_ad_dist.py:199-200 | folding twice around the same centre equals folding once |
| AndersonDarling.FoldAroundMean | src/scripts/paper_example_ad_dist.py:198-200 | the array is folded in place around its mean; an empty array is left unchanged |
| SpinOrbit.ISqrt | src/scripts/paper_spin_orbit_commensurability.py:35 | r is the integer square root: r*r <= n < (r+1)*(r+1) |
| SpinOrbit.RoundHalfEven | src/scripts/paper_spin_orbit_commensurability.py:37 | the result is a nearest integer, with ties going to the even one |
| SpinOrbit.RoundsToUnique | src/scripts/paper_spin_orbit_commensurability.py:37 | that rounding is unique |
| SpinOrbit.RatioKey | src/scripts/paper_spin_orbit_commensurability.py:37 | the key is the rounding of v * 10^d |
| SpinOrbit.KeyPositive | src/scripts/paper_spin_orbit_commensurability.py:35-37 | the rounded quotient of an in-range pair is positive |
| SpinOrbit.BuildRatiosTable | src/scripts/paper_spin_orbit_commensurability.py:33-40 | every stored pair is in range, is stored under its own rounded quotient, and that key is positive; every in-range pair's quotient is a key; the stored pair is the first in i-major, j-minor order; the order list is the insertion order |
| SpinOrbit.RatiosTableUnique | src/scripts/paper_spin_orbit_commensurability.py:33-40 | that description fixes the dictionary and its iteration order completely |
| SpinOrbit.OrderLength | src/scripts/paper_spin_orbit_commensurability.py:38-39 | each key is listed exactly once in the insertion order |
| SpinOrbit.ClosestIndex | src/scripts/paper_spin_orbit_commensurability.py:78 | the index of a key at least distance from the target, the first such key in iteration order |
| SpinOrbit.ClosestKey | src/scripts/paper_spin_orbit_commensurability.py:78 | min(ratios, key=...) returns a key at minimal distance, with ties going to the earliest inserted key |
| SpinOrbit.RelError | src/scripts/paper_spin_orbit_commensurability.py:76 | the relative error is non-negative |
| SpinOrbit.IsCommensurable | src/scripts/paper_spin_orbit_commensurability.py:72-80 | a zero orbital period is an error; a rounded ratio found in the table gives (True, its pair, its relative error); otherwise (False, the pair of the closest key, the relative error to it); an empty table is an error |
| SpinOrbit.RatiosTableLookup | src/scripts/paper_spin_orbit_commensurability.py:105-108 | a built table meets the lookup's requirements |
| SpinOrbit.ExactRatioCommensurable | src/scripts/paper_spin_orbit_commensurability.py:72-76 | a period ratio equal to an in-range i/j is commensurable; the stored pair has the same key and comes no later than (i, j) |
| SpinOrbit.LowMeanMin | src/scripts/paper_spin_orbit_commensurability.py:133 | the cutoff is the least non-NaN power among rows with mean < 0.2, attained by such a row; it is NaN exactly when there is none |
| SpinOrbit.ColorCodeRows | src/scripts/paper_spin_orbit_commensurability.py:126-141 | rows with mean < 0.2 end black/diamond; other rows with mean > 0.2 and power > cutoff end red/X; every other row ends blue/circle |
| SpinOrbit.RedAboveLowMeanRow | src/scripts/paper_spin_orbit_commensurability.py:133-135 | a red row has more power than some row with mean < 0.2 |
| SpinOrbit.NoRedWithoutLowMeanPower | src/scripts/paper_spin_orbit_commensurability.py:133-135 | if no low-mean row has a known power, no row is red |
| SpinOrbit.LowMeanNeverRed | src/scripts/paper_spin_orbit_commensurability.py:133-141 | red exactly when mean is not < 0.2, mean > 0.2 and power > cutoff; black exactly when mean < 0.2 |
| AdtestScatter.SigmaValues | src/scripts/paper_adtest_vs_value_scatterplots.py:26-31 | three levels strictly inside (0, 1), strictly decreasing, near 0.3173, 0.0455 and 0.0027 |
| AdtestScatter.SigmaLabels | src/scripts/paper_adtest_vs_value_scatterplots.py:32 | one label per level, the k-th reading $k\sigma$ |
| AdtestScatter.ColorcodeDist | src/scripts/paper_adtest_vs_value_scatterplots.py:53-69 | green/o iff < 50; blue/x iff in [50, 100); black/d iff in [100, 150); lightgrey/s iff >= 150 or NaN |
| AdtestScatter.ColorcodeDistMonotone | src/scripts/paper_adtest_vs_value_scatterplots.py:53-69 | a larger distance never gets a nearer class |
| AdtestScatter.ColorcodeRossby | src/scripts/paper_adtest_vs_value_scatterplots.py:87-103 | green/o iff < 0.01; blue/x iff in [0.01, 0.3); black/d iff in [0.3, 1); lightgrey/s iff >= 1; an error (unbound local) iff NaN |
| AdtestScatter.ColorcodeRossbyMonotone | src/scripts/paper_adtest_vs_value_scatterplots.py:87-103 | ordered inputs are never NaN, so both classify, and a larger Rossby number never gets an earlier class |
| AdtestScatter.ColorcodeRotation | src/scripts/paper_adtest_vs_value_scatterplots.py:120-136 | green/o iff < 10; blue/x iff in [10, 15); black/d iff >= 15; lightgrey/s iff NaN |
| AdtestScatter.ColorcodeRotationMonotone | src/scripts/paper_adtest_vs_value_scatterplots.py:120-136 | a slower rotator never gets a faster class, and no ordered input is grey |
| AdtestScatter.ColorcodeMultiplicity | src/scripts/paper_adtest_vs_value_scatterplots.py:154-166 | green/o iff == 1; blue/x iff > 1; lightgrey/s iff < 1 or NaN |
| AdtestScatter.ColorcodeLx | src/scripts/paper_adtest_vs_value_scatterplots.py:183-195 | NaN gives blue/o, finite gives green/x, +-inf gives lightgrey/s; the colour determines the marker |
| AdtestScatter.ColorcodeBG | src/scripts/paper_adtest_vs_value_scatterplots.py:212-233 | lightgrey/s iff < 100; blue/x iff in [100, 1000); black/d iff in [1000, 2000); green/o iff >= 2000; r/* iff NaN |
| AdtestScatter.ColorcodeBGMonotone | src/scripts/paper_adtest_vs_value_scatterplots.py:212-233 | a stronger field never gets a weaker class, and no ordered input is red |
| AdtextScatter.SigmaValues | src/scripts/paper_adtext_vs_value_scatterplots.py:26-31 | 1 - 0.684, minus 0.272, minus 0.042: all inside (0, 1) and strictly decreasing |
| AdtextScatter.SigmaValuesClose | src/scripts/paper_adtext_vs_value_scatterplots.py:26-31 | the two scripts' levels differ by less than 0.002 at each sigma |
| AdtextScatter.WithValue | src/scripts/paper_adtext_vs_value_scatterplots.py:195 | the kept rows are exactly the rows whose value is not NaN |
| AdtextScatter.WithValueAppend | src/scripts/paper_adtext_vs_value_scatterplots.py:195 | dropna keeps the table order: the kept rows of a + b are those of a followed by those of b |
| AdtextScatter.FirstAuMic | src/scripts/paper_adtext_vs_value_scatterplots.py:196 | the first row with ID "AU Mic", or None when there is none |
| AdtextScatter.Normalise | src/scripts/paper_adtext_vs_value_scatterplots.py:195-200 | an error iff no AU Mic row has a value; otherwise each kept row has value, high and low divided by AU Mic's value |
| AdtextScatter.AuMicNormalisedToOne | src/scripts/paper_adtext_vs_value_scatterplots.py:196-198 | AU Mic's own value becomes 1 when it is finite and not zero |
| AdtextScatter.NormalisePreservesOrder | src/scripts/paper_adtext_vs_value_scatterplots.py:198-200 | a positive norm keeps low <= value <= high |
| AdtextScatter.LabelledIff | src/scripts/paper_adtext_vs_value_scatterplots.py:220 | a star is labelled iff its mean is <= 0.2 or its normalised value is >= 1 |
| AdtextScatter.AuMicLabelled | src/scripts/paper_adtext_vs_value_scatterplots.py:196-220 | AU Mic is labelled when its value is finite and not zero; otherwise its normalised value is NaN (0/0 or inf/inf) and it is labelled iff its mean is <= 0.2 |
| MainTable.CitationFromBibkey | src/scripts/paper_main_table.py:28 | the citation is " \citet{", then the bibkey, then "}", and nothing else |
| MainTable.CitationRoundTrip | src/scripts/paper_main_table.py:28 | the bibkey can be read back from its citation |
| MainTable.CitationInjective | src/scripts/paper_main_table.py:28 | distinct bibkeys give distinct citations |
| MainTable.MaxArray | src/scripts/paper_main_table.py:30-34 | same length; each entry is one of the inputs and >= both when neither is NaN; with a NaN it is b |
| MainTable.MinArray | src/scripts/paper_main_table.py:36-40 | same length; each entry is one of the inputs and <= both when neither is NaN; with a NaN it is b |
| MainTable.MaxMinSplit | src/scripts/paper_main_table.py:30-40 | where no NaN occurs, the maximum and the minimum are the two inputs again |
| MainTable.TexOneErr | src/scripts/paper_main_table.py:162 | the value, "[", the error and "]", at their positions |
| MainTable.OneErrRoundTrip | src/scripts/paper_main_table.py:162 | a value without "[" and its error are read back from the string |
| MainTable.TexUpLow | src/scripts/paper_main_table.py:145 | "$", the value, "^{", the upper error, "}_{", the lower error and "}$", at their positions |
| MainTable.UpLowRoundTrip | src/scripts/paper_main_table.py:145 | a value without "^" and an upper error without "}" are read back, together with the lower error |
| MainTable.ToTex | src/scripts/paper_main_table.py:181-207 | length 4 with a third name ending in "bibkey": one-error string plus citation; other length 4: up/low string; length 5: up/low string plus the citation of the fourth name; length 3: one-error string; any other non-empty group: the raw column; an empty group: an error |
| MainTable.ToTexCites | src/scripts/paper_main_table.py:183-196 | the entry of a citing group ends in the citation of that row's bibkey, and the bibkey can be read back from it |
| MainTable.CollectedBibkeys | src/scripts/paper_main_table.py:324-329 | the collected list holds exactly the bibkeys of the citing columns |
| MainTable.ReplaceCitation | src/scripts/paper_main_table.py:386-387 | in a table whose text holds "\c" only where a citation starts, replacing "\citet{key}" by inert text replaces exactly the citations of that bibkey; the text and the other citations are unchanged, and the table stays of that kind |
| MainTable.StarMarks | src/scripts/paper_main_table.py:379 | "\citet{[*]}" becomes "[*]" and nothing else changes |
| MainTable.NumberCitations | src/scripts/paper_main_table.py:379-387 | the layout replacements, then one replacement per numbered bibkey, in numbering order |
| MainTable.NumberTextInert | src/scripts/paper_main_table.py:387 | "(n)" holds no backslash and no lower-case letter, so it starts no citation and no rule name |
| MainTable.RenamePieces | src/scripts/paper_main_table.py:380-382 | renaming a rule word changes the text pieces only; a citation whose bibkey lacks the word, and a replaced citation, are untouched |
| MainTable.LayoutPieces | src/scripts/paper_main_table.py:379-382 | the four layout replacements turn each [*] mark into "[*]", rename the rules inside the text pieces, keep every other citation, and leave a table of the same kind |
| MainTable.CitationsNumbered | src/scripts/paper_main_table.py:332-387 | with the numbers of the sorted, de-duplicated bibkey list, after the loop every citation of a numbered bibkey reads (n), where n is that bibkey's number, and all else is as before |
| MainTable.TableNumbered | src/scripts/paper_main_table.py:379-387 | the whole main block: each [*] mark reads "[*]", every other citation of a numbered bibkey reads (n) with its number, unnumbered citations stay, and each text piece only has its rules renamed |
| MainTable.SampleRowPlain | src/scripts/paper_main_table.py:376-387 | a row with \toprule, \\, R$_\odot$ and a citation is such a table, and its bibkey holds no rule name, so the main block applies to it |
| MainTable.NumberAt | src/scripts/paper_main_table.py:335 | in the numbering, the bibkey at position i has number i + 1 |
| Bibkeys.SortedUnique | src/scripts/paper_main_table.py:332 | np.unique: strictly ascending, holding exactly the given keys |
| Bibkeys.Numbering | src/scripts/paper_table_tidal.py:75-78 | the numbering is strictly sorted and holds exactly the collected keys |
| Bibkeys.Number | src/scripts/paper_main_table.py:335 | a bibkey's number lies in 1..n and points back at that bibkey |
| Bibkeys.NumberOrdered | src/scripts/paper_main_table.py:332-335 | numbers follow the order of the bibkeys, and distinct bibkeys get distinct numbers |
| Bibkeys.NumberingComplete | src/scripts/paper_main_table.py:332-335 | every number 1..n belongs to exactly one collected bibkey |
| Strings.ReplaceLeading | src/scripts/paper_table_tidal.py:93 | str.replace turns a leading occurrence into the replacement and continues after it |
| Strings.ReplaceSkips | src/scripts/paper_table_tidal.py:93 | text that cannot start the pattern is copied unchanged |
| Strings.ReplaceSplit | src/scripts/paper_table_tidal.py:94-101 | when no occurrence runs across the split, str.replace on a + b is str.replace on a followed by str.replace on b |
| Strings.ReplaceSkipsPair | src/scripts/paper_main_table.py:387 | text in which the first two characters of the pattern never stand side by side, also not across the seam, is copied unchanged |
| Strings.NatToStringRoundTrip | src/scripts/paper_table_tidal.py:114 | str(n) has decimal value n, so distinct numbers print differently |
| TableTidal.SortByMean | src/scripts/paper_table_tidal.py:24 | the rows in descending order of p-value, NaN last, and a permutation of the input |
| TableTidal.SortByMeanOrder | src/scripts/paper_table_tidal.py:24 | a row with a p-value comes before every row with a smaller one; NaN rows come after all others |
| TableTidal.AbsErrors | src/scripts/paper_table_tidal.py:27-34 | the four error cells are non-negative unless NaN, each is the old value or its negation, and the other cells are unchanged |
| TableTidal.AbsErrorsIdempotent | src/scripts/paper_table_tidal.py:27-34 | taking the absolute values a second time changes nothing |
| TableTidal.AbsColumns | src/scripts/paper_table_tidal.py:27-34 | every row of the table has its four error cells made absolute, in place |
| TableTidal.Prepared | src/scripts/paper_table_tidal.py:24-34 | the sorted table with the absolute errors |
| TableTidal.Present | src/scripts/paper_table_tidal.py:71-72 | dropna keeps exactly the bibkeys present in the column |
| TableTidal.TidalNumbering | src/scripts/paper_table_tidal.py:71-78 | strictly sorted, holding exactly the bibkeys present in either mass column |
| TableTidal.Lookup | src/scripts/paper_table_tidal.py:81-82 | a number exactly when the cell holds a numbered bibkey, and that number points back at the bibkey |
| TableTidal.References | src/scripts/paper_table_tidal.py:81-82 | succeeds iff every row's two bibkeys have numbers, and then each row holds the numbers of its own two bibkeys; a failure names a row whose lookup fails |
| TableTidal.ReferencesComplete | src/scripts/paper_table_tidal.py:71-82 | with the table's own numbering, the lookup fails exactly when some mass bibkey is NaN |
| TableTidal.Tidy | src/scripts/paper_table_tidal.py:93-101 | the nine replacements in the order the script applies them |
| TableTidal.AroundDashes | src/scripts/paper_table_tidal.py:94-101 | a "--" left by the first replacement splits each later replacement: none of their patterns can overlap it |
| TableTidal.TidyAroundEmptyCell | src/scripts/paper_table_tidal.py:93-101 | the pattern $nan^{nan}_{nan}$ of the first replacement, after text not ending in "}" (a cell separator ends in a space), becomes "--", and the clean-up of all nine replacements then works on each side of it separately |
| TableTidal.EmptyCellDashed | src/scripts/paper_table_tidal.py:93 | the first replacement's pattern, after text not ending in "}", becomes "--", the text on each side being replaced on its own; text without "$" is unchanged |
| TableTidal.EmptyCellNeedsOrder | src/scripts/paper_table_tidal.py:93-94 | with "nan" replaced first, the first replacement's pattern would become $-^{-}_{-}$ and never match |
| TableTidal.MissingCellAsWritten | src/scripts/paper_table_tidal.py:53-101 | a cell with value and both errors missing is laid out as $nan^{nan}_{ nan}$; the first replacement does not match it, and the clean-up leaves $-^{-}_{ -}$ instead of "--" |
| TableTidal.MissingCellUnspacedDashed | src/scripts/paper_table_tidal.py:53-101 | laid out without the space before the lower error, the missing cell is the first replacement's pattern and becomes "--" in any table, the clean-up working on each side of it |
| TableTidal.ExponentNeedsOrder | src/scripts/paper_table_tidal.py:96-98 | "e+00" is removed whole, whereas "e+0" replaced first would leave \text{e}0 |
| TableTidal.BuildFootnote | src/scripts/paper_table_tidal.py:112-114 | the footnote concatenates the entries of the numbered bibkeys in numbering order |
| TableTidal.FootnotePrefix | src/scripts/paper_table_tidal.py:113-114 | the entries of the first i bibkeys open the footnote |
| TableTidal.FootnoteEntryAt | src/scripts/paper_table_tidal.py:114 | the i-th entry, "(i) \citet{key}, ", sits at its place in the footnote |
| TableTidal.ReferenceInFootnote | src/scripts/paper_table_tidal.py:81-114 | a row's reference number leads, in the footnote, to the entry that cites the row's own bibkey |
| CumdistTransiting.RealFlares | src/scripts/paper_cumdist_individual_transiting.py:27 | the kept flares are exactly those whose phase is not -1 |
| CumdistTransiting.RealFlaresAppend | src/scripts/paper_cumdist_individual_transiting.py:27 | the filter keeps table order |
| CumdistTransiting.RealFlaresIdempotent | src/scripts/paper_cumdist_individual_transiting.py:27 | filtering twice equals filtering once |
| CumdistTransiting.CumulativeCurve | src/scripts/paper_cumdist_individual_transiting.py:80-89 | both sequences have length n + 2; the phases are 0, the sorted phases, then 1; the heights are 0, k/n for k = 1..n, then 1 |
| CumdistTransiting.HeightsMonotone | src/scripts/paper_cumdist_individual_transiting.py:83-87 | the heights never fall and lie in [0, 1] |
| CumdistTransiting.CumulativeHeights | src/scripts/paper_cumdist_individual_transiting.py:83-87 | the heights for n phases are 0, k/n for k = 1..n, then 1 |
| CumdistTransiting.CurveSorted | src/scripts/paper_cumdist_individual_transiting.py:80-89 | phases in [0, 1] give a sorted abscissa from 0 to 1 |
| CumdistTransiting.AllocatePanels | src/scripts/paper_cumdist_individual_transiting.py:57-70 | a system gets a panel iff it has more than two phases and fewer than 18 earlier systems did; the panel is the next one in flattened order |
| CumdistTransiting.PanelsDistinct | src/scripts/paper_cumdist_individual_transiting.py:60-70 | no two systems share a panel, and every panel index is below 18 |
| RenameTrappist.DropKepler | src/scripts/paper_rename_trappist.py:24 | the kept rows are exactly the rows that are not Kepler-411(c) |
| RenameTrappist.RenameInPlace | src/scripts/paper_rename_trappist.py:21 | in place, every row named EPIC 200164267 is renamed TRAPPIST-1 and no other row changes |
| RenameTrappist.Transform | src/scripts/paper_rename_trappist.py:21-24 | the array is renamed in place, and the result is the renamed table without Kepler-411(c) |
| RenameTrappist.RenameBothTables | src/scripts/paper_rename_trappist.py:18-39 | the same transform is applied to the flare table and to the results table, each array being renamed in place |
| RenameTrappist.NoOldNames | src/scripts/paper_rename_trappist.py:21-24 | no EPIC 200164267 and no Kepler-411(c) are left, and every EPIC 200164267 row reappears as TRAPPIST-1 |
| RenameTrappist.UntouchedTable | src/scripts/paper_rename_trappist.py:21-24 | a table with neither name is unchanged |
| RenameTrappist.SingleRow | src/scripts/paper_rename_trappist.py:21-24 | one row is dropped, renamed or kept unchanged, and only the ID can change |
| RenameTrappist.RenameThenDropAppend | src/scripts/paper_rename_trappist.py:21-24 | the transform works row by row and keeps the order of the rows |
| RenameTrappist.RenameThenDropIdempotent | src/scripts/paper_rename_trappist.py:21-24 | running the transform a second time changes nothing |
| MultipleStars.Multiples | src/scripts/paper_string_multiple_stars.py:21 | the selected rows are exactly those with a non-null multiple_star |
| MultipleStars.MultiplesAppend | src/scripts/paper_string_multiple_stars.py:21 | the selection keeps table order |
| MultipleStars.Entries | src/scripts/paper_string_multiple_stars.py:24-27 | one non-empty entry per selected row: the ID, then ~\citep{source} |
| MultipleStars.MultiplesString | src/scripts/paper_string_multiple_stars.py:28-30 | the sentence is non-empty and ends with "." |
| MultipleStars.EmptySentence | src/scripts/paper_string_multiple_stars.py:28-30 | the sentence is exactly "." iff no row is multiple |
| MultipleStars.AppendStar | src/scripts/paper_string_multiple_stars.py:28 | one more multiple star at the end of the table adds ", " and its entry before the full stop |
| Floats.Abs | src/scripts/paper_table_tidal.py:27 | np.abs: non-negative unless NaN, and either the value or its negation |
| Floats.Div | src/scripts/paper_adtext_vs_value_scatterplots.py:198 | the division of two finite doubles with a non-zero divisor is the real quotient; NaN propagates |
| Sorting.Sort | src/scripts/paper_example_ad_dist.py:100 | np.sort: sorted, and a permutation of the input |
| Sorting.SortOfPermutation | src/scripts/paper_example_ad_dist.py:100 | samples with equal multisets sort to the same sequence |

## Left out

- Binary floating point is not modelled. Numbers are exact reals, and the
  ratio keys are exact roundings of the real quotient.
  - `int(np.sqrt(1/tol))` and `int(-np.log10(tol))` are exact for
    `tol = 10^-d`.
  - Python's `round` on doubles is modelled as ties to even on the exact
    value. A binary double can differ from the exact value at a tie.
- The natural logarithm, the CDF interpolant built by `interp1d`, and the
  function under `derivative` are function parameters. `derivative` is
  modelled as the central difference it computes with its default order.
- Not modelled, because they are library internals:
  - the emcee sampler;
  - `scoreatpercentile` and the percentile lines;
  - the lightkurve download, and the phase histogram of the main block of
    the AD example script.
- The replacement of non-finite samples
  (src/scripts/paper_example_ad_dist.py:64-66) is not modelled. It draws
  random numbers; the model takes the chain as given.
- AndersonDarling.SampleStatistics: starts from the flattened chain after
  sampling; the `assert len(A2) == N` is its length ensures.
- `round_to_decimals` and `get_len_decimals` of the main table are not
  modelled. They are log10 digit counting on floats. `MainTable.ToTex`
  receives their results as function parameters.
- `astype(str)` and the f-string number formats of the tidal table
  (src/scripts/paper_table_tidal.py:52-63) are not modelled. Cells enter
  as strings. Only the layout of a value cell around its three formatted
  numbers is modelled (`TableTidal.ValueCell`).
- `to_latex`: not modelled. The LaTeX string of a table is an input:
  `MainTable.Render` of text and citation pieces, or an arbitrary string
  for `TableTidal.Tidy`.
- The column add/delete loop of the main table
  (src/scripts/paper_main_table.py:288-299) is not modelled. It renames
  pandas columns only.
- MainTable.TableNumbered: is stated for a table in which "\c" occurs only
  where a citation starts. Two text pieces never stand side by side, and the
  bibkeys hold no backslash, no "}" and none of "midrule", "toprule" and
  "bottomrule". `MainTable.SampleRowPlain` shows a row of that kind. In
  other text a replacement can match across a citation, or a rule rename
  can change a bibkey.
- Bibkeys of the main table: a NaN bibkey cell is not modelled. Bibkeys are
  strings, so the mixed float/str `np.unique` is not modelled.
- TableTidal.References: stops at the first row where either lookup fails.
  The script fills the whole stellar-mass column before the planet-mass
  column, so the row named by the error can differ. Success, and the
  numbers on success, are the same.
- TableTidal.SortByMean: the tie order of equal p-values is that of a
  stable insertion sort. pandas' default quicksort does not fix ties.
- CumdistTransiting.CumulativeCurve: phases are reals, so a NaN phase is
  not modelled. `RealFlares` keeps NaN phases, as the comparison `!= -1`
  does.
- Not modelled in the transiting-systems script: the reading, filtering
  and sorting of the systems table (lines 30-54), and the per-system
  `TIC_*_cumhist.csv` files. `CumdistTransiting.AllocatePanels` takes the
  phase counts of the systems in the order the loop visits them.
- RenameTrappist.RenameBothTables: requires two distinct arrays. The two
  tables are separate DataFrames.
- All matplotlib, adjustText and legend code, printing, and CSV input and
  output.
- SpinOrbit.LookupTable: the lookup requires a table whose keys are
  non-zero and listed in iteration order. Every built table has this
  (`SpinOrbit.RatiosTableLookup`). A zero key would make the relative
  error a division by zero, which a hand-made dictionary could contain.
- SpinOrbit.IsCommensurable: does not model a NaN period (st_rotp or
  orbper_d). There the source compares NaN to every key, keeps the first
  key as the closest one, and returns (False, that key's pair, nan).
  Periods are exact reals here.

## Findings

| source | as written | input that shows it | evidently intended | confidence | as-written member | corrected member |
|---|---|---|---|---|---|---|
| src/scripts/paper_table_tidal.py:57 | the lower error is written after a space, so a cell whose value and errors are all NaN reads $nan^{nan}_{ nan}$, which the replacement of line 93 (pattern $nan^{nan}_{nan}$) never matches; the clean-up turns it into $-^{-}_{ -}$ | a row with M_star, M_star_up_err and M_star_low_err all NaN | a fully missing cell printed as "--" in the table | medium, not executed | TableTidal.MissingCellAsWritten | TableTidal.MissingCellUnspacedDashed |
