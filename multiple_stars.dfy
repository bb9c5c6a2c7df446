/** The sentence listing the multiple or contaminated stars with their
    references (src/scripts/paper_string_multiple_stars.py). */
module MultipleStars {
  import opened Results
  import opened Strings

  /** A row of the results table: the star's ID, its `multiple_star` cell
      and its `multiple_star_source` cell (None for NaN). */
  datatype Star = Star(id: string, multiple: Option<string>, source: Option<string>)

  /** `df[~df.multiple_star.isnull()]`. */
  function Multiples(df: seq<Star>): (r: seq<Star>)
    ensures |r| <= |df|
    ensures forall s :: s in r <==> s in df && s.multiple.Some?
  {
    if df == [] then []
    else
      var t := Multiples(df[1..]);
      assert forall s :: s in df <==> s == df[0] || s in df[1..];
      if df[0].multiple.Some? then [df[0]] + t else t
  }

  /** Selection keeps table order: selecting from a concatenation selects
      from each part. */
  lemma {:induction false} MultiplesAppend(a: seq<Star>, b: seq<Star>)
    ensures Multiples(a + b) == Multiples(a) + Multiples(b)
  {
    if a == [] {
      assert a + b == b;
    } else {
      assert (a + b)[0] == a[0];
      assert (a + b)[1..] == a[1..] + b;
      MultiplesAppend(a[1..], b);
    }
  }

  /** The f-string `~\citep{x}`: a NaN source is printed as `nan`. */
  function CiteSource(source: Option<string>): string
  {
    "~\\citep{" + (if source.Some? then source.value else "nan") + "}"
  }

  /** `multiples.ID + multiples.multiple_star_source`, row by row. */
  function Entries(selected: seq<Star>): (r: seq<string>)
    ensures |r| == |selected|
    ensures forall i {:trigger r[i]} :: 0 <= i < |r| ==>
      r[i] == selected[i].id + CiteSource(selected[i].source) && r[i] != []
  {
    seq(|selected|, i requires 0 <= i < |selected| => selected[i].id + CiteSource(selected[i].source))
  }

  /** The sentence: the entries joined with ", " and a final full stop. */
  function MultiplesString(df: seq<Star>): (r: string)
    ensures r != [] && r[|r| - 1] == '.'
  {
    Join(", ", Entries(Multiples(df))) + "."
  }

  /** The sentence is just "." exactly when no star is multiple. */
  lemma EmptySentence(df: seq<Star>)
    ensures MultiplesString(df) == "." <==> forall s :: s in df ==> s.multiple.None?
  {
    var sel := Multiples(df);
    if sel != [] {
      JoinNonEmpty(", ", Entries(sel));
      assert sel[0] in sel;
    } else {
      assert Join(", ", []) == "";
    }
  }

  lemma {:induction false} JoinNonEmpty(sep: string, xs: seq<string>)
    requires xs != [] && forall i :: 0 <= i < |xs| ==> xs[i] != []
    ensures Join(sep, xs) != []
  {
    if |xs| > 1 {
      assert xs[|xs| - 1] != [];
    }
  }

  /** `", ".join` puts one separator between neighbours: the sentence of a
      table with one more multiple star at the end has that entry appended
      after ", "; the number of entries is the number of selected rows. */
  lemma AppendStar(df: seq<Star>, s: Star)
    requires s.multiple.Some? && Multiples(df) != []
    ensures MultiplesString(df + [s]) ==
      Join(", ", Entries(Multiples(df))) + ", " + s.id + CiteSource(s.source) + "."
  {
    var m := Multiples(df);
    var x := s.id + CiteSource(s.source);
    assert Multiples(df + [s]) == m + [s] by {
      MultiplesAppend(df, [s]);
      assert [s][1..] == [];
    }
    assert Entries(m + [s]) == Entries(m) + [x] by {
      EntriesSnoc(m, s);
    }
    var j := Join(", ", Entries(m));
    assert Join(", ", Entries(m) + [x]) == j + ", " + x by {
      JoinSnoc(", ", Entries(m), x);
    }
    ConcatRegroup(j + ", ", s.id, CiteSource(s.source), ".");
  }

  /** Regrouping a concatenation of four strings. */
  lemma ConcatRegroup(a: string, b: string, c: string, d: string)
    ensures a + (b + c) + d == a + b + c + d
  {
    assert a + (b + c) == a + b + c;
  }

  /** Selecting one more star adds its entry at the end. */
  lemma EntriesSnoc(m: seq<Star>, s: Star)
    ensures Entries(m + [s]) == Entries(m) + [s.id + CiteSource(s.source)]
  {
    var l, r := Entries(m + [s]), Entries(m) + [s.id + CiteSource(s.source)];
    assert |l| == |r|;
    forall i | 0 <= i < |l| ensures l[i] == r[i] {
      assert (m + [s])[i] == if i < |m| then m[i] else s;
    }
  }
}
