/** The LaTeX string builders, the group dispatch and the reference
    numbering of the main results table (src/scripts/paper_main_table.py).

    The numeric rounding `round_to_decimals` is not modelled: it is passed to
    `ToTex` as function parameters that give a row's rounded strings.  A cell
    is its string after `astype(str)`; the Series operations act row by row,
    so each builder is modelled on one row. */
module MainTable {
  import opened Results
  import opened Floats
  import opened Strings
  import opened Bibkeys

  // ---------------------------------------------------------------------
  // citation_from_bibkey

  const CitePrefix: string := " \\citet{"

  /** The citation command for a bibkey, with a leading space. */
  function CitationFromBibkey(bibkey: string): (r: string)
    ensures |r| == |CitePrefix| + |bibkey| + 1
    ensures StartsWith(r, CitePrefix) && EndsWith(r, "}")
    ensures r[|CitePrefix|..|r| - 1] == bibkey
  {
    CitePrefix + bibkey + "}"
  }

  /** Reads the bibkey back out of a citation built by CitationFromBibkey. */
  function CitedKey(s: string): (r: Option<string>)
    ensures r.Some? ==> |s| > |CitePrefix|
  {
    if |s| > |CitePrefix| && StartsWith(s, CitePrefix) && s[|s| - 1] == '}' then
      Some(s[|CitePrefix|..|s| - 1])
    else None
  }

  /** The bibkey of a citation can be read back, so distinct bibkeys give
      distinct citations. */
  lemma CitationRoundTrip(bibkey: string)
    ensures CitedKey(CitationFromBibkey(bibkey)) == Some(bibkey)
  {
  }

  lemma CitationInjective(k1: string, k2: string)
    requires CitationFromBibkey(k1) == CitationFromBibkey(k2)
    ensures k1 == k2
  {
    CitationRoundTrip(k1);
    CitationRoundTrip(k2);
  }

  // ---------------------------------------------------------------------
  // max_array, min_array

  /** `np.where(a > b, a, b)`. */
  function MaxArray(a: seq<Float>, b: seq<Float>): (r: seq<Float>)
    requires |a| == |b|
    ensures |r| == |a|
    ensures forall i {:trigger r[i]} :: 0 <= i < |r| ==> r[i] == a[i] || r[i] == b[i]
    ensures forall i {:trigger r[i]} :: 0 <= i < |r| && !a[i].NaN? && !b[i].NaN? ==>
      Le(a[i], r[i]) && Le(b[i], r[i])
    ensures forall i {:trigger r[i]} :: 0 <= i < |r| && (a[i].NaN? || b[i].NaN?) ==> r[i] == b[i]
  {
    seq(|a|, i requires 0 <= i < |a| => if Lt(b[i], a[i]) then a[i] else b[i])
  }

  /** `np.where(a < b, a, b)`. */
  function MinArray(a: seq<Float>, b: seq<Float>): (r: seq<Float>)
    requires |a| == |b|
    ensures |r| == |a|
    ensures forall i {:trigger r[i]} :: 0 <= i < |r| ==> r[i] == a[i] || r[i] == b[i]
    ensures forall i {:trigger r[i]} :: 0 <= i < |r| && !a[i].NaN? && !b[i].NaN? ==>
      Le(r[i], a[i]) && Le(r[i], b[i])
    ensures forall i {:trigger r[i]} :: 0 <= i < |r| && (a[i].NaN? || b[i].NaN?) ==> r[i] == b[i]
  {
    seq(|a|, i requires 0 <= i < |a| => if Lt(a[i], b[i]) then a[i] else b[i])
  }

  /** Where neither entry is NaN, the maximum and the minimum are the two
      inputs again, in some order. */
  lemma MaxMinSplit(a: seq<Float>, b: seq<Float>, i: nat)
    requires |a| == |b| && i < |a|
    requires !a[i].NaN? && !b[i].NaN?
    ensures multiset{MaxArray(a, b)[i], MinArray(a, b)[i]} == multiset{a[i], b[i]}
  {
    LtTotal(a[i], b[i]);
  }

  // ---------------------------------------------------------------------
  // tex_one_err, tex_up_low

  /** A value with its error in brackets. */
  function TexOneErr(val: string, err: string): (r: string)
    ensures |r| == |val| + |err| + 2
    ensures r[..|val|] == val && r[|val|] == '[' && r[|r| - 1] == ']'
    ensures r[|val| + 1..|r| - 1] == err
  {
    val + "[" + err + "]"
  }

  /** `s.partition(c)` when `c` occurs: the text before the first `c` and
      the text after it. */
  function SplitAt(s: string, c: char): (r: Option<(string, string)>)
    ensures r.Some? ==> s == r.value.0 + [c] + r.value.1 && c !in r.value.0
  {
    match FindChar(s, c)
    case None => None
    case Some(i) =>
      assert s == s[..i] + [c] + s[i + 1..];
      Some((s[..i], s[i + 1..]))
  }

  /** Splitting at the first `c` undoes the concatenation around a `c`. */
  lemma {:induction false} SplitAtJoin(a: string, b: string, c: char)
    requires c !in a
    ensures SplitAt(a + [c] + b, c) == Some((a, b))
  {
    var s := a + [c] + b;
    assert FindChar(s, c) == Some(|a|) by {
      assert s == a + ([c] + b);
      FirstAfterPrefix(a, [c] + b, c);
    }
    assert s[..|a|] == a && s[|a| + 1..] == b;
  }

  /** Splits `val[err]` at its first `[`. */
  function ParseOneErr(s: string): Option<(string, string)>
  {
    match SplitAt(s, '[')
    case None => None
    case Some((val, rest)) =>
      if rest != [] && rest[|rest| - 1] == ']' then Some((val, rest[..|rest| - 1]))
      else None
  }

  /** A value without `[` and its error are read back from the string. */
  lemma OneErrRoundTrip(val: string, err: string)
    requires '[' !in val
    ensures ParseOneErr(TexOneErr(val, err)) == Some((val, err))
  {
    assert TexOneErr(val, err) == val + ['['] + (err + "]");
    SplitAtJoin(val, err + "]", '[');
    assert (err + "]")[..|err|] == err;
  }

  /** The first `c` of `a + b` is the first of `b` when `a` does not hold
      one and `b` starts with it. */
  lemma {:induction false} FirstAfterPrefix(a: string, b: string, c: char)
    requires c !in a && b != [] && b[0] == c
    ensures FindChar(a + b, c) == Some(|a|)
  {
    if a != [] {
      assert (a + b)[0] == a[0];
      assert (a + b)[1..] == a[1..] + b;
      FirstAfterPrefix(a[1..], b, c);
    }
  }

  const UpOpen: string := "^{"
  const LowOpen: string := "}_{"

  /** A value with its upper and lower errors as super- and subscript, in
      math mode. */
  function TexUpLow(val: string, err: string, err2: string): (r: string)
    ensures |r| == |val| + |err| + |err2| + 8
    ensures r[0] == '$' && r[|r| - 2..] == "}$"
    ensures r[1..|val| + 1] == val
    ensures r[|val| + 1..|val| + 3] == UpOpen
    ensures r[|val| + 3..|val| + 3 + |err|] == err
    ensures r[|val| + 3 + |err|..|val| + 6 + |err|] == LowOpen
    ensures r[|val| + 6 + |err|..|r| - 2] == err2
  {
    "$" + val + UpOpen + err + LowOpen + err2 + "}$"
  }

  /** Splits `$val^{err}_{err2}$` at its first `^` and the first `}` after it. */
  function ParseUpLow(s: string): Option<(string, string, string)>
  {
    if |s| < 2 || s[0] != '$' || s[|s| - 2..] != "}$" then None
    else
      match SplitAt(s[1..|s| - 2], '^')
      case None => None
      case Some((val, rest)) =>
        if rest == [] || rest[0] != '{' then None
        else
          match SplitAt(rest[1..], '}')
          case None => None
          case Some((err, tail)) =>
            if |tail| < 2 || tail[..2] != "_{" then None
            else Some((val, err, tail[2..]))
  }

  /** A value without `^` and an upper error without `}` are read back,
      together with the lower error. */
  lemma UpLowRoundTrip(val: string, err: string, err2: string)
    requires '^' !in val && '}' !in err
    ensures ParseUpLow(TexUpLow(val, err, err2)) == Some((val, err, err2))
  {
    var s := TexUpLow(val, err, err2);
    var tail := "_{" + err2;
    var rest := "{" + (err + ['}'] + tail);
    assert s[1..|s| - 2] == val + ['^'] + rest by {
      UpLowInner(val, err, err2);
    }
    SplitAtJoin(val, rest, '^');
    SplitAtJoin(err, tail, '}');
    assert tail[..2] == "_{" && tail[2..] == err2;
  }

  /** The text between the dollar signs of TexUpLow, grouped at the `^`
      and at the `}` after it. */
  lemma UpLowInner(val: string, err: string, err2: string)
    ensures var s := TexUpLow(val, err, err2);
      s[1..|s| - 2] == val + ['^'] + ("{" + (err + ['}'] + ("_{" + err2)))
  {
    var s := TexUpLow(val, err, err2);
    var m := val + ['^'] + ("{" + (err + ['}'] + ("_{" + err2)));
    assert |s| == |m| + 3;
    forall k | 0 <= k < |m| ensures s[k + 1] == m[k] {
    }
  }

  // ---------------------------------------------------------------------
  // to_tex

  /** `col[0]` of an empty group raises IndexError. */
  datatype GroupError = EmptyGroup

  /** The LaTeX entry of one row for a group of column names.

      `cell(c)` is the row's entry in column `c` as a string;
      `round2(v, e, typ)` and `round3(v, e, e2, typ)` are the row's rounded
      value and errors that `round_to_decimals` returns. */
  function ToTex(col: seq<string>, cell: string -> string,
                 round2: (string, string, string) -> (string, string),
                 round3: (string, string, string, string) -> (string, string, string)): (r: Result<string, GroupError>)
    ensures r.Err? <==> col == []
    ensures |col| == 4 && EndsWith(col[2], "bibkey") ==>
      var (v, e) := round2(col[0], col[1], col[3]);
      r == Ok(TexOneErr(v, e) + CitationFromBibkey(cell(col[2])))
    ensures |col| == 4 && !EndsWith(col[2], "bibkey") ==>
      var (v, e, e2) := round3(col[0], col[1], col[2], col[3]);
      r == Ok(TexUpLow(v, e, e2))
    ensures |col| == 5 ==>
      var (v, e, e2) := round3(col[0], col[1], col[2], col[4]);
      r == Ok(TexUpLow(v, e, e2) + CitationFromBibkey(cell(col[3])))
    ensures |col| == 3 ==>
      var (v, e) := round2(col[0], col[1], col[2]);
      r == Ok(TexOneErr(v, e))
    ensures |col| !in {3, 4, 5} && col != [] ==> r == Ok(cell(col[0]))
  {
    if |col| == 4 then
      if col[2][|col[2]| - Min(6, |col[2]|)..] == "bibkey" then
        var (v, e) := round2(col[0], col[1], col[3]);
        Ok(TexOneErr(v, e) + CitationFromBibkey(cell(col[2])))
      else
        var (v, e, e2) := round3(col[0], col[1], col[2], col[3]);
        Ok(TexUpLow(v, e, e2))
    else if |col| == 5 then
      var (v, e, e2) := round3(col[0], col[1], col[2], col[4]);
      Ok(TexUpLow(v, e, e2) + CitationFromBibkey(cell(col[3])))
    else if |col| == 3 then
      var (v, e) := round2(col[0], col[1], col[2]);
      Ok(TexOneErr(v, e))
    else if col == [] then Err(EmptyGroup)
    else Ok(cell(col[0]))
  }

  /** A group that names a bibkey column yields an entry that ends in the
      citation of that row's bibkey, and the bibkey can be read back. */
  lemma ToTexCites(col: seq<string>, cell: string -> string,
                   round2: (string, string, string) -> (string, string),
                   round3: (string, string, string, string) -> (string, string, string))
    requires (|col| == 4 && EndsWith(col[2], "bibkey")) || |col| == 5
    ensures
      var key := if |col| == 4 then cell(col[2]) else cell(col[3]);
      var t := ToTex(col, cell, round2, round3).value;
      |t| >= |CitationFromBibkey(key)| &&
      CitedKey(t[|t| - |CitationFromBibkey(key)|..]) == Some(key)
  {
    var key := if |col| == 4 then cell(col[2]) else cell(col[3]);
    var t := ToTex(col, cell, round2, round3).value;
    var c := CitationFromBibkey(key);
    assert t[|t| - |c|..] == c;
    CitationRoundTrip(key);
  }

  // ---------------------------------------------------------------------
  // Bibkey numbering and the citation replacement of the main block

  /** The bibkeys of the six citing columns, one column after the other;
      `np.unique` of the whole list numbers them. */
  function CollectedBibkeys(columns: seq<seq<string>>): (r: seq<string>)
    ensures forall k :: k in r <==> exists c :: c in columns && k in c
  {
    if columns == [] then []
    else
      var r := columns[0] + CollectedBibkeys(columns[1..]);
      assert forall c :: c in columns <==> c == columns[0] || c in columns[1..];
      r
  }

  /** The LaTeX table seen as text, citations `\citet{key}`, and the text
      a replacement has put in place of a citation. */
  datatype Piece = Text(text: string) | Cite(key: string) | Replaced(text: string)

  function PieceString(p: Piece): string
  {
    match p
    case Text(t) => t
    case Cite(k) => CiteText(k)
    case Replaced(t) => t
  }

  /** The string the pieces make up. */
  function Render(ps: seq<Piece>): string
  {
    if ps == [] then "" else PieceString(ps[0]) + Render(ps[1..])
  }

  /** A bibkey holds neither a backslash nor `}`. */
  predicate PlainKey(k: string)
  {
    '\\' !in k && '}' !in k
  }

  /** `\c`, with which every citation command starts, does not occur in `t`. */
  predicate NoCiteStart(t: string)
  {
    forall k :: 0 <= k < |t| - 1 ==> !(t[k] == '\\' && t[k + 1] == 'c')
  }

  /** Text that may stand in place of a citation, as `(n)` and `[*]` do:
      not empty, with no backslash and no lower-case letter. */
  predicate Inert(t: string)
  {
    t != [] && forall k :: 0 <= k < |t| ==> t[k] != '\\' && !('a' <= t[k] <= 'z')
  }

  predicate PlainPiece(p: Piece)
  {
    match p
    case Text(t) => NoCiteStart(t)
    case Cite(k) => PlainKey(k)
    case Replaced(t) => Inert(t)
  }

  /** A table in which `\c` occurs only where a citation starts: the text
      between two citations is a single piece, and it holds no `\c`.
      Backslashes are otherwise free, as in `\toprule`, `\\` and
      `R$_\odot$`. */
  predicate Plain(ps: seq<Piece>)
  {
    (forall i :: 0 <= i < |ps| ==> PlainPiece(ps[i])) &&
    (forall i :: 0 <= i < |ps| - 1 ==> !(ps[i].Text? && ps[i + 1].Text?))
  }

  lemma PlainTail(ps: seq<Piece>)
    requires Plain(ps) && ps != []
    ensures Plain(ps[1..])
  {
    assert forall i :: 0 <= i < |ps| - 1 ==> ps[1..][i] == ps[i + 1];
  }

  /** What follows a text piece starts with a backslash or with inert
      text, so neither `\c` nor a word can run across the seam. */
  lemma NextStartsInert(ps: seq<Piece>)
    requires Plain(ps) && |ps| >= 2 && ps[0].Text?
    ensures Render(ps[1..]) != [] && !('a' <= Render(ps[1..])[0] <= 'z')
  {
    var q := ps[1];
    assert !q.Text? && PlainPiece(q) && ps[1..][0] == q;
    var x := PieceString(q);
    assert Render(ps[1..]) == x + Render(ps[1..][1..]);
    if q.Cite? {
      assert x[0] == '\\';
    } else {
      assert x[0] != '\\' && !('a' <= x[0] <= 'z');
    }
  }

  /** Every citation of `key` turned into the text `rep`. */
  function Substitute(ps: seq<Piece>, key: string, rep: string): (r: seq<Piece>)
    ensures |r| == |ps|
  {
    seq(|ps|, i requires 0 <= i < |ps| => if ps[i] == Cite(key) then Replaced(rep) else ps[i])
  }

  lemma SubstitutePlain(ps: seq<Piece>, key: string, rep: string)
    requires Plain(ps) && Inert(rep)
    ensures Plain(Substitute(ps, key, rep))
  {
    var sub := Substitute(ps, key, rep);
    forall i | 0 <= i < |sub| ensures PlainPiece(sub[i]) {
      assert PlainPiece(ps[i]);
    }
  }

  /** Replacing the citation text of one bibkey replaces exactly the
      citations of that bibkey and leaves the text and the other citations
      as they are. */
  lemma {:induction false} ReplaceCitation(ps: seq<Piece>, key: string, rep: string)
    requires Plain(ps) && PlainKey(key) && Inert(rep)
    ensures ReplaceAll(Render(ps), CiteText(key), rep) == Render(Substitute(ps, key, rep))
    ensures Plain(Substitute(ps, key, rep))
  {
    SubstitutePlain(ps, key, rep);
    if ps == [] {
      assert Render(ps) == "";
      assert Substitute(ps, key, rep) == [];
    } else {
      var rest := Render(ps[1..]);
      PlainTail(ps);
      ReplaceCitation(ps[1..], key, rep);
      var sub := Substitute(ps, key, rep);
      assert sub == [sub[0]] + Substitute(ps[1..], key, rep);
      assert PlainPiece(ps[0]);
      if |ps| >= 2 && ps[0].Text? {
        NextStartsInert(ps);
      }
      ReplacePiece(ps[0], rest, key, rep);
    }
  }

  /** The replacement goes through one piece: a citation of `key` becomes
      `rep`, anything else is copied. */
  lemma ReplacePiece(p: Piece, rest: string, key: string, rep: string)
    requires PlainPiece(p) && PlainKey(key) && Inert(rep)
    requires p.Text? && p.text != [] && p.text[|p.text| - 1] == '\\' && rest != [] ==> rest[0] != 'c'
    ensures var q := if p == Cite(key) then Replaced(rep) else p;
      ReplaceAll(PieceString(p) + rest, CiteText(key), rep) ==
        PieceString(q) + ReplaceAll(rest, CiteText(key), rep)
  {
    var pat := CiteText(key);
    assert pat[0] == '\\' && pat[1] == 'c';
    match p
    case Text(t) =>
      ReplaceSkipsPair(t, rest, pat, rep);
    case Replaced(t) =>
      assert '\\' !in t;
      ReplaceSkips(t, rest, pat, rep);
    case Cite(k) =>
      if k == key {
        ReplaceLeading(pat, rest, rep);
      } else {
        OtherCitation(k, key, rest, rep);
      }
  }

  /** A citation of a different bibkey does not match the pattern. */
  lemma OtherCitation(k: string, key: string, rest: string, rep: string)
    requires PlainKey(k) && PlainKey(key) && k != key
    ensures ReplaceAll(CiteText(k) + rest, CiteText(key), rep) ==
      CiteText(k) + ReplaceAll(rest, CiteText(key), rep)
  {
    var pat := CiteText(key);
    var cite := CiteText(k);
    var s := cite + rest;
    var tail := "citet{" + k + "}";
    assert cite == ['\\'] + tail;
    assert s[0] == '\\' && s[1..] == tail + rest;
    assert |s| >= |pat| ==> s[..|pat|] != pat by {
      if |s| >= |pat| {
        PrefixDiffers(k, key, rest);
      }
    }
    ReplaceHeadMismatch(s, pat, rep);
    assert '\\' !in tail;
    ReplaceSkips(tail, rest, pat, rep);
    ConcatAssoc(['\\'], tail, ReplaceAll(rest, pat, rep));
  }

  /** `\citet{k}` followed by anything does not start with `\citet{key}`
      for another bibkey without `}`. */
  lemma PrefixDiffers(k: string, key: string, rest: string)
    requires PlainKey(k) && PlainKey(key) && k != key
    requires |CiteText(k) + rest| >= |CiteText(key)|
    ensures (CiteText(k) + rest)[..|CiteText(key)|] != CiteText(key)
  {
    var s := CiteText(k) + rest;
    var pat := CiteText(key);
    if |k| < |key| {
      assert s[7 + |k|] == '}';
      assert pat[7 + |k|] == key[|k|];
      assert key[|k|] in key;
    } else if |k| > |key| {
      assert pat[7 + |key|] == '}';
      assert s[7 + |key|] == k[|key|];
      assert k[|key|] in k;
    } else {
      var i :| 0 <= i < |k| && k[i] != key[i];
      assert s[7 + i] == k[i];
      assert pat[7 + i] == key[i];
    }
  }

  /** The string after the replace loop has run over the first `i` bibkeys
      of the numbering, the bibkey at position `j` becoming `(j + 1)`. */
  function CitationsReplaced(s: string, keys: seq<string>, i: nat): string
    requires i <= |keys|
  {
    if i == 0 then s
    else ReplaceAll(CitationsReplaced(s, keys, i - 1), CiteText(keys[i - 1]), NumberText(i))
  }

  /** The main block on one LaTeX table: the `[*]` marks lose their
      citation command, the three booktabs rules become `hline`, and every
      bibkey of the numbering is replaced by its number. */
  method NumberCitations(latex: string, keys: seq<string>) returns (t: string)
    ensures t == CitationsReplaced(Layout(latex), keys, |keys|)
  {
    t := ReplaceAll(latex, CiteText("[*]"), "[*]");
    t := ReplaceAll(t, "midrule", "hline");
    t := ReplaceAll(t, "toprule", "hline");
    t := ReplaceAll(t, "bottomrule", "hline");
    assert t == Layout(latex);
    var i := 0;
    while i < |keys|
      invariant 0 <= i <= |keys|
      invariant t == CitationsReplaced(Layout(latex), keys, i)
    {
      t := ReplaceAll(t, CiteText(keys[i]), NumberText(i + 1));
      i := i + 1;
    }
  }

  /** The three booktabs rules renamed to `hline`, in the order of the main
      block. */
  function RenameRules(s: string): string
  {
    var s := ReplaceAll(s, "midrule", "hline");
    var s := ReplaceAll(s, "toprule", "hline");
    ReplaceAll(s, "bottomrule", "hline")
  }

  /** The layout replacements, in the order the main block applies them. */
  function Layout(latex: string): string
  {
    RenameRules(ReplaceAll(latex, CiteText("[*]"), "[*]"))
  }

  /** The `[*]` marks are the citations of the bibkey `[*]`: each becomes
      the plain text `[*]`. */
  lemma StarMarks(ps: seq<Piece>)
    requires Plain(ps)
    ensures ReplaceAll(Render(ps), CiteText("[*]"), "[*]") == Render(Substitute(ps, "[*]", "[*]"))
    ensures Plain(Substitute(ps, "[*]", "[*]"))
  {
    ReplaceCitation(ps, "[*]", "[*]");
  }

  // ---------------------------------------------------------------------
  // The rule renames on a table of pieces

  /** `w` does not occur in `k`. */
  ghost predicate FreeOf(k: string, w: string)
  {
    forall i :: !OccursAt(k, w, i)
  }

  /** A bibkey in which none of the three rule names occurs. */
  ghost predicate RuleFree(k: string)
  {
    FreeOf(k, "midrule") && FreeOf(k, "toprule") && FreeOf(k, "bottomrule")
  }

  /** A word of at least seven lower-case letters, as the rule names are. */
  predicate RuleWord(w: string)
  {
    |w| >= 7 && forall k :: 0 <= k < |w| ==> 'a' <= w[k] <= 'z'
  }

  /** The three rule names are such words. */
  lemma RuleWords()
    ensures RuleWord("midrule") && RuleWord("toprule") && RuleWord("bottomrule")
  {
    LowerWord("midrule");
    LowerWord("toprule");
    LowerWord("bottomrule");
  }

  lemma LowerWord(w: string)
    requires |w| >= 7 && forall c :: c in w ==> c in "abcdefghijklmnopqrstuvwxyz"
    ensures RuleWord(w)
  {
    forall k | 0 <= k < |w| ensures 'a' <= w[k] <= 'z' {
      assert w[k] in w;
    }
  }

  /** A replacement that cannot complete a `\c`, as `hline`. */
  predicate RuleRep(rep: string)
  {
    rep != [] && rep[0] != 'c' && '\\' !in rep
  }

  /** Every text piece with `w` replaced by `rep`. */
  function RenameTexts(ps: seq<Piece>, w: string, rep: string): (r: seq<Piece>)
    ensures |r| == |ps|
  {
    seq(|ps|, i requires 0 <= i < |ps| =>
      if ps[i].Text? then Text(ReplaceAll(ps[i].text, w, rep)) else ps[i])
  }

  /** The seam after the first piece: its last character and the first
      character after it are never both lower-case letters. */
  lemma SeamChars(ps: seq<Piece>)
    requires Plain(ps) && ps != []
    ensures var p0, rest := PieceString(ps[0]), Render(ps[1..]);
      p0 != [] && rest != [] ==> !('a' <= p0[|p0| - 1] <= 'z' && 'a' <= rest[0] <= 'z')
  {
    var p0, rest := PieceString(ps[0]), Render(ps[1..]);
    assert PlainPiece(ps[0]);
    if ps[0].Text? && |ps| >= 2 {
      NextStartsInert(ps);
    } else if ps[0].Cite? {
      assert p0[|p0| - 1] == '}';
    } else if ps[0].Replaced? {
      assert p0 != [] ==> !('a' <= p0[|p0| - 1] <= 'z');
    } else {
      assert ps[1..] == [];
    }
  }

  /** No occurrence of a rule word runs across the seam after the first
      piece. */
  lemma SeamClear(ps: seq<Piece>, w: string)
    requires Plain(ps) && ps != [] && RuleWord(w)
    ensures var p0, rest := PieceString(ps[0]), Render(ps[1..]);
      forall i :: 0 <= i < |p0| < i + |w| ==> !OccursAt(p0 + rest, w, i)
  {
    var p0, rest := PieceString(ps[0]), Render(ps[1..]);
    var s := p0 + rest;
    SeamChars(ps);
    forall i | 0 <= i < |p0| < i + |w| ensures !OccursAt(s, w, i) {
      if i + |w| <= |s| {
        var j := |p0| - 1 - i;
        assert s[i..i + |w|][j] == p0[|p0| - 1];
        assert s[i..i + |w|][j + 1] == rest[0];
      }
    }
  }

  /** Inert text holds no rule word. */
  lemma InertUntouched(t: string, w: string, rep: string)
    requires Inert(t) && RuleWord(w)
    ensures ReplaceAll(t, w, rep) == t
  {
    forall i ensures !OccursAt(t, w, i) {
      if 0 <= i && i + |w| <= |t| {
        assert t[i..i + |w|][0] == t[i];
      }
    }
    ReplaceAbsent(t, w, rep);
  }

  /** A rule word occurs in a citation only inside its bibkey. */
  lemma CiteUntouched(k: string, w: string, rep: string)
    requires PlainKey(k) && RuleWord(w) && FreeOf(k, w)
    ensures ReplaceAll(CiteText(k), w, rep) == CiteText(k)
  {
    var s := CiteText(k);
    assert s[6] == '{' && s[|s| - 1] == '}';
    forall i ensures !OccursAt(s, w, i) {
      if 0 <= i && i + |w| <= |s| {
        if i <= 6 {
          assert s[i..i + |w|][6 - i] == s[6];
        } else if i + |w| <= 7 + |k| {
          assert s[i..i + |w|] == k[i - 7..i - 7 + |w|];
          assert !OccursAt(k, w, i - 7);
        } else {
          assert s[i..i + |w|][|s| - 1 - i] == s[|s| - 1];
        }
      }
    }
    ReplaceAbsent(s, w, rep);
  }

  /** A rule rename goes through one piece: only a text piece changes. */
  lemma RenameHead(p: Piece, w: string, rep: string)
    requires PlainPiece(p) && RuleWord(w)
    requires p.Cite? ==> FreeOf(p.key, w)
    ensures ReplaceAll(PieceString(p), w, rep) ==
      PieceString(if p.Text? then Text(ReplaceAll(p.text, w, rep)) else p)
  {
    match p
    case Text(t) =>
    case Cite(k) => CiteUntouched(k, w, rep);
    case Replaced(t) => InertUntouched(t, w, rep);
  }

  /** A rule rename on the whole table is the rename inside each text
      piece, the citations and the replaced text being untouched. */
  lemma {:induction false} RenamePieces(ps: seq<Piece>, w: string, rep: string)
    requires Plain(ps) && RuleWord(w)
    requires forall j :: 0 <= j < |ps| && ps[j].Cite? ==> FreeOf(ps[j].key, w)
    ensures ReplaceAll(Render(ps), w, rep) == Render(RenameTexts(ps, w, rep))
  {
    var r := RenameTexts(ps, w, rep);
    if ps == [] {
      assert Render(ps) == [] && r == [];
    } else {
      var p0, rest := PieceString(ps[0]), Render(ps[1..]);
      PlainTail(ps);
      assert forall j :: 0 <= j < |ps| - 1 ==> ps[1..][j] == ps[j + 1];
      RenamePieces(ps[1..], w, rep);
      SeamClear(ps, w);
      ReplaceSplit(p0, rest, w, rep);
      assert PlainPiece(ps[0]);
      RenameHead(ps[0], w, rep);
      assert r == [r[0]] + RenameTexts(ps[1..], w, rep);
    }
  }

  /** `\c` cannot arise from a replacement by text such as `hline`. */
  lemma {:induction false} NoCiteStartReplace(t: string, w: string, rep: string)
    requires NoCiteStart(t) && w != [] && RuleRep(rep)
    ensures NoCiteStart(ReplaceAll(t, w, rep))
    decreases |t|
  {
    if |t| >= |w| {
      var k := if t[..|w|] == w then |w| else 1;
      var u := t[k..];
      assert forall m :: 0 <= m < |u| ==> u[m] == t[m + k];
      NoCiteStartReplace(u, w, rep);
      if t[..|w|] == w {
        assert forall m :: 0 <= m < |rep| ==> rep[m] != '\\';
        NoCiteStartAppend(rep, ReplaceAll(u, w, rep));
      } else {
        ReplaceHead(u, w, rep);
        NoCiteStartAppend([t[0]], ReplaceAll(u, w, rep));
      }
    }
  }

  lemma NoCiteStartAppend(x: string, y: string)
    requires NoCiteStart(x) && NoCiteStart(y)
    requires x != [] && y != [] ==> !(x[|x| - 1] == '\\' && y[0] == 'c')
    ensures NoCiteStart(x + y)
  {
    var s := x + y;
    forall k | 0 <= k < |s| - 1 ensures !(s[k] == '\\' && s[k + 1] == 'c') {
      if k + 1 < |x| {
        assert s[k] == x[k] && s[k + 1] == x[k + 1];
      } else if k >= |x| {
        assert s[k] == y[k - |x|] && s[k + 1] == y[k + 1 - |x|];
      } else {
        assert s[k] == x[|x| - 1] && s[k + 1] == y[0];
      }
    }
  }

  lemma RenamePlain(ps: seq<Piece>, w: string, rep: string)
    requires Plain(ps) && w != [] && RuleRep(rep)
    ensures Plain(RenameTexts(ps, w, rep))
  {
    var r := RenameTexts(ps, w, rep);
    forall i | 0 <= i < |r| ensures PlainPiece(r[i]) {
      assert PlainPiece(ps[i]);
      if ps[i].Text? {
        NoCiteStartReplace(ps[i].text, w, rep);
      }
    }
  }

  /** The pieces after the layout replacements: a `[*]` mark is the text
      `[*]`, each text piece has its rule names renamed, and every other
      citation is as it was. */
  function Laid(ps: seq<Piece>): (r: seq<Piece>)
    ensures |r| == |ps|
  {
    seq(|ps|, i requires 0 <= i < |ps| =>
      if ps[i].Text? then Text(RenameRules(ps[i].text))
      else if ps[i] == Cite("[*]") then Replaced("[*]")
      else ps[i])
  }

  /** No citation of the table has `w` in its bibkey. */
  ghost predicate CitesFree(ps: seq<Piece>, w: string)
  {
    forall j :: 0 <= j < |ps| && ps[j].Cite? ==> FreeOf(ps[j].key, w)
  }

  lemma CitesFreeRename(ps: seq<Piece>, w: string, rep: string, w2: string)
    requires CitesFree(ps, w2)
    ensures CitesFree(RenameTexts(ps, w, rep), w2)
  {
    var r := RenameTexts(ps, w, rep);
    forall j | 0 <= j < |r| && r[j].Cite? ensures FreeOf(r[j].key, w2) {
      assert r[j] == ps[j];
    }
  }

  lemma CitesFreeStar(ps: seq<Piece>, w: string)
    requires CitesFree(ps, w)
    ensures CitesFree(Substitute(ps, "[*]", "[*]"), w)
  {
    var r := Substitute(ps, "[*]", "[*]");
    forall j | 0 <= j < |r| && r[j].Cite? ensures FreeOf(r[j].key, w) {
      assert r[j] == ps[j];
    }
  }

  /** One rename over the whole table keeps it plain. */
  lemma RenameStep(ps: seq<Piece>, w: string)
    requires Plain(ps) && RuleWord(w) && CitesFree(ps, w)
    ensures ReplaceAll(Render(ps), w, "hline") == Render(RenameTexts(ps, w, "hline"))
    ensures Plain(RenameTexts(ps, w, "hline"))
  {
    RenamePieces(ps, w, "hline");
    RenamePlain(ps, w, "hline");
  }

  /** The layout pieces are the three renames after the `[*]` marks. */
  lemma LaidRenames(ps: seq<Piece>)
    ensures Laid(ps) == RenameTexts(RenameTexts(RenameTexts(Substitute(ps, "[*]", "[*]"),
      "midrule", "hline"), "toprule", "hline"), "bottomrule", "hline")
  {
  }

  /** The layout replacements on a table of pieces. */
  lemma LayoutPieces(ps: seq<Piece>)
    requires Plain(ps)
    requires forall j :: 0 <= j < |ps| && ps[j].Cite? ==> RuleFree(ps[j].key)
    ensures Layout(Render(ps)) == Render(Laid(ps))
    ensures Plain(Laid(ps))
  {
    var m, t, b := "midrule", "toprule", "bottomrule";
    assert CitesFree(ps, m) && CitesFree(ps, t) && CitesFree(ps, b);
    RuleWords();
    StarMarks(ps);
    var q0 := Substitute(ps, "[*]", "[*]");
    CitesFreeStar(ps, m);
    CitesFreeStar(ps, t);
    CitesFreeStar(ps, b);
    RenameStep(q0, m);
    var q1 := RenameTexts(q0, m, "hline");
    CitesFreeRename(q0, m, "hline", t);
    CitesFreeRename(q0, m, "hline", b);
    RenameStep(q1, t);
    var q2 := RenameTexts(q1, t, "hline");
    CitesFreeRename(q1, t, "hline", b);
    RenameStep(q2, b);
    LaidRenames(ps);
  }

  /** The text around one citation in a row as the table writer lays it
      out: the backslashes of `\\toprule`, `\\\\` and `R$_\\odot$` start no
      citation. */
  const SampleHead: string := "\\toprule\nAU Mic & R$_\\odot$ & "
  const SampleTail: string := " \\\\\n\\bottomrule\n"

  lemma SampleHeadClear()
    ensures NoCiteStart(SampleHead)
  {
    var t := SampleHead;
    forall k | 0 <= k < |t| - 1 ensures !(t[k] == '\\' && t[k + 1] == 'c') {
    }
  }

  lemma SampleTailClear()
    ensures NoCiteStart(SampleTail)
  {
    var t := SampleTail;
    forall k | 0 <= k < |t| - 1 ensures !(t[k] == '\\' && t[k + 1] == 'c') {
    }
  }

  /** Text, a citation and text make a plain table when the texts hold no
      `\\c`. */
  lemma CitedRow(a: string, k: string, b: string)
    requires NoCiteStart(a) && PlainKey(k) && NoCiteStart(b)
    ensures Plain([Text(a), Cite(k), Text(b)])
    ensures Render([Text(a), Cite(k), Text(b)]) == a + CiteText(k) + b
  {
    var ps := [Text(a), Cite(k), Text(b)];
    forall i | 0 <= i < |ps| ensures PlainPiece(ps[i]) {
      if i == 0 {
        assert ps[i] == Text(a);
      } else if i == 1 {
        assert ps[i] == Cite(k);
      } else {
        assert ps[i] == Text(b);
      }
    }
    CitedRowRender(a, k, b);
  }

  lemma CitedRowRender(a: string, k: string, b: string)
    ensures Render([Text(a), Cite(k), Text(b)]) == a + CiteText(k) + b
  {
    var ps := [Text(a), Cite(k), Text(b)];
    var c := CiteText(k);
    assert ps[2..] == [Text(b)] && ps[2..][1..] == [];
    assert ps[1..] == [Cite(k), Text(b)] && ps[1..][1..] == ps[2..];
    assert Render(ps[2..]) == b;
    assert Render(ps[1..]) == c + b;
  }

  /** Such a row is a plain table whose bibkey holds no rule name, so the
      main block numbers its citation and leaves its text alone. */
  lemma SampleRowPlain()
    ensures var ps := [Text(SampleHead), Cite("plavchan2020"), Text(SampleTail)];
      Plain(ps) && RuleFree(ps[1].key) &&
      Render(ps) == SampleHead + CiteText("plavchan2020") + SampleTail
  {
    var k := "plavchan2020";
    SampleHeadClear();
    SampleTailClear();
    assert PlainKey(k);
    CitedRow(SampleHead, k, SampleTail);
    LowerFree(k, "midrule");
    LowerFree(k, "toprule");
    LowerFree(k, "bottomrule");
  }

  /** A word holding no `r` holds none of the rule names. */
  lemma LowerFree(k: string, w: string)
    requires 'r' !in k && 'r' in w
    ensures FreeOf(k, w)
  {
    forall i ensures !OccursAt(k, w, i) {
      if 0 <= i && i + |w| <= |k| {
        var m :| 0 <= m < |w| && w[m] == 'r';
        assert k[i..i + |w|][m] == k[i + m];
      }
    }
  }

  /** Every citation of a numbered bibkey as its number. */
  function Resolve(ps: seq<Piece>, keys: seq<string>, i: nat): (r: seq<Piece>)
    ensures |r| == |ps|
  {
    seq(|ps|, j requires 0 <= j < |ps| =>
      if ps[j].Cite? && ps[j].key in keys && Number(keys, ps[j].key) <= i
      then Replaced(NumberText(Number(keys, ps[j].key)))
      else ps[j])
  }

  /** After the replace loop, every citation `\citet{key}` of a numbered
      bibkey reads `(n)` with `n` the number of that bibkey, and the text
      and the other citations are left as they were. */
  lemma CitationsNumbered(ps: seq<Piece>, keys: seq<string>)
    requires Plain(ps) && StrictlySorted(keys)
    requires forall k :: k in keys ==> PlainKey(k)
    ensures CitationsReplaced(Render(ps), keys, |keys|) == Render(Resolve(ps, keys, |keys|))
    ensures forall j :: 0 <= j < |ps| && ps[j].Cite? && ps[j].key in keys ==>
      Resolve(ps, keys, |keys|)[j] == Replaced(NumberText(Number(keys, ps[j].key)))
  {
    CitationsUpTo(ps, keys, |keys|);
    var r := Resolve(ps, keys, |keys|);
    forall j | 0 <= j < |ps| && ps[j].Cite? && ps[j].key in keys
      ensures r[j] == Replaced(NumberText(Number(keys, ps[j].key)))
    {
      var n := Number(keys, ps[j].key);
      assert n <= |keys|;
    }
  }

  /** The main block on a table of pieces, from the layout replacements
      through the replace loop: each `[*]` mark reads `[*]`, every other
      citation of a numbered bibkey reads `(n)` with `n` the number of that
      bibkey, any other citation is left, and each text piece has only its
      rule names renamed. */
  lemma TableNumbered(ps: seq<Piece>, keys: seq<string>)
    requires Plain(ps) && StrictlySorted(keys)
    requires forall k :: k in keys ==> PlainKey(k)
    requires forall j :: 0 <= j < |ps| && ps[j].Cite? ==> RuleFree(ps[j].key)
    ensures CitationsReplaced(Layout(Render(ps)), keys, |keys|) == Render(Resolve(Laid(ps), keys, |keys|))
    ensures var r := Resolve(Laid(ps), keys, |keys|);
      forall j :: 0 <= j < |ps| ==>
        (ps[j].Text? ==> r[j] == Text(RenameRules(ps[j].text))) &&
        (ps[j] == Cite("[*]") ==> r[j] == Replaced("[*]")) &&
        (ps[j].Cite? && ps[j].key != "[*]" && ps[j].key in keys ==>
          r[j] == Replaced(NumberText(Number(keys, ps[j].key)))) &&
        (ps[j].Cite? && ps[j].key != "[*]" && ps[j].key !in keys ==> r[j] == ps[j]) &&
        (ps[j].Replaced? ==> r[j] == ps[j])
  {
    LayoutPieces(ps);
    CitationsUpTo(Laid(ps), keys, |keys|);
    LaidResolved(ps, keys);
  }

  lemma LaidResolved(ps: seq<Piece>, keys: seq<string>)
    ensures var r := Resolve(Laid(ps), keys, |keys|);
      forall j :: 0 <= j < |ps| ==>
        (ps[j].Text? ==> r[j] == Text(RenameRules(ps[j].text))) &&
        (ps[j] == Cite("[*]") ==> r[j] == Replaced("[*]")) &&
        (ps[j].Cite? && ps[j].key != "[*]" && ps[j].key in keys ==>
          r[j] == Replaced(NumberText(Number(keys, ps[j].key)))) &&
        (ps[j].Cite? && ps[j].key != "[*]" && ps[j].key !in keys ==> r[j] == ps[j]) &&
        (ps[j].Replaced? ==> r[j] == ps[j])
  {
  }

  lemma {:induction false} CitationsUpTo(ps: seq<Piece>, keys: seq<string>, i: nat)
    requires Plain(ps) && StrictlySorted(keys)
    requires forall k :: k in keys ==> PlainKey(k)
    requires i <= |keys|
    ensures CitationsReplaced(Render(ps), keys, i) == Render(Resolve(ps, keys, i))
    ensures Plain(Resolve(ps, keys, i))
  {
    if i == 0 {
      assert Resolve(ps, keys, 0) == ps;
    } else {
      CitationsUpTo(ps, keys, i - 1);
      CitationsStep(ps, keys, i);
    }
  }

  /** One round of the replace loop: replacing the citations of the `i`-th
      bibkey by `(i)` resolves that bibkey too. */
  lemma CitationsStep(ps: seq<Piece>, keys: seq<string>, i: nat)
    requires Plain(ps) && StrictlySorted(keys)
    requires forall k :: k in keys ==> PlainKey(k)
    requires 1 <= i <= |keys| && Plain(Resolve(ps, keys, i - 1))
    ensures ReplaceAll(Render(Resolve(ps, keys, i - 1)), CiteText(keys[i - 1]), NumberText(i)) ==
      Render(Resolve(ps, keys, i))
    ensures Plain(Resolve(ps, keys, i))
  {
    var prev := Resolve(ps, keys, i - 1);
    var key := keys[i - 1];
    NumberTextInert(i);
    ReplaceCitation(prev, key, NumberText(i));
    assert Substitute(prev, key, NumberText(i)) == Resolve(ps, keys, i) by {
      var sub, next := Substitute(prev, key, NumberText(i)), Resolve(ps, keys, i);
      assert key in keys;
      NumberAt(keys, i - 1);
      forall j | 0 <= j < |ps| ensures sub[j] == next[j] {
        if ps[j].Cite? && ps[j].key in keys && Number(keys, ps[j].key) == i {
          assert ps[j].key == key;
        }
      }
    }
  }

  /** In a strictly sorted numbering the bibkey at position `i` has number
      `i + 1`. */
  lemma NumberAt(keys: seq<string>, i: nat)
    requires StrictlySorted(keys) && i < |keys|
    ensures Number(keys, keys[i]) == i + 1
  {
    StrLtIrreflexive(keys[i]);
  }

  /** `(n)` is inert text. */
  lemma NumberTextInert(n: nat)
    ensures Inert(NumberText(n))
  {
    var d := NatToString(n);
    var t := NumberText(n);
    assert t == "(" + d + ")";
    forall k | 0 <= k < |t| ensures t[k] != '\\' && !('a' <= t[k] <= 'z') {
      if 0 < k < |t| - 1 {
        assert t[k] == d[k - 1];
      }
    }
  }
}
