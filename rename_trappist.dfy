/** The renaming of EPIC 200164267 to TRAPPIST-1 and the removal of
    Kepler-411(c), applied to the flare table and to the results table
    (src/scripts/paper_rename_trappist.py).  A row is its ID and the rest of
    its cells. */
module RenameTrappist {

  datatype Row = Row(id: string, cells: seq<string>)

  const OldName: string := "EPIC 200164267"
  const NewName: string := "TRAPPIST-1"
  const Dropped: string := "Kepler-411(c)"

  /** `df.loc[df.ID == "EPIC 200164267", "ID"] = "TRAPPIST-1"` on one row. */
  function Renamed(r: Row): Row
  {
    if r.id == OldName then r.(id := NewName) else r
  }

  /** `df[df.ID != "Kepler-411(c)"]`. */
  function DropKepler(rows: seq<Row>): (r: seq<Row>)
    ensures |r| <= |rows|
    ensures forall x :: x in r <==> x in rows && x.id != Dropped
  {
    if rows == [] then []
    else
      var t := DropKepler(rows[1..]);
      assert forall x :: x in rows <==> x == rows[0] || x in rows[1..];
      if rows[0].id != Dropped then [rows[0]] + t else t
  }

  function RenameAll(rows: seq<Row>): (r: seq<Row>)
    ensures |r| == |rows|
  {
    seq(|rows|, i requires 0 <= i < |rows| => Renamed(rows[i]))
  }

  /** The table the script writes back. */
  function RenameThenDrop(rows: seq<Row>): seq<Row>
  {
    DropKepler(RenameAll(rows))
  }

  /** The in-place assignment to the ID column. */
  method RenameInPlace(df: array<Row>)
    modifies df
    ensures df[..] == RenameAll(old(df[..]))
  {
    var i := 0;
    while i < df.Length
      invariant 0 <= i <= df.Length
      invariant forall k :: 0 <= k < i ==> df[k] == Renamed(old(df[k]))
      invariant forall k :: i <= k < df.Length ==> df[k] == old(df[k])
    {
      if df[i].id == OldName {
        df[i] := df[i].(id := NewName);
      }
      i := i + 1;
    }
  }

  /** Rename in place, then keep the rows that are not Kepler-411(c). */
  method Transform(df: array<Row>) returns (result: seq<Row>)
    modifies df
    ensures df[..] == RenameAll(old(df[..]))
    ensures result == RenameThenDrop(old(df[..]))
  {
    RenameInPlace(df);
    result := DropKepler(df[..]);
  }

  /** Both tables of the script go through the same transform. */
  method RenameBothTables(flares: array<Row>, results: array<Row>)
    returns (newFlares: seq<Row>, newResults: seq<Row>)
    requires flares != results
    modifies flares, results
    ensures flares[..] == RenameAll(old(flares[..]))
    ensures results[..] == RenameAll(old(results[..]))
    ensures newFlares == RenameThenDrop(old(flares[..]))
    ensures newResults == RenameThenDrop(old(results[..]))
  {
    newFlares := Transform(flares);
    newResults := Transform(results);
  }

  /** Neither the old name nor Kepler-411(c) is left, and every row that had
      the old name has the new one. */
  lemma NoOldNames(rows: seq<Row>)
    ensures forall x :: x in RenameThenDrop(rows) ==> x.id != OldName && x.id != Dropped
    ensures forall i :: 0 <= i < |rows| && rows[i].id == OldName ==>
      rows[i].(id := NewName) in RenameThenDrop(rows)
  {
    var r := RenameAll(rows);
    forall x | x in r ensures x.id != OldName {
      var i :| 0 <= i < |r| && r[i] == x;
    }
    forall i | 0 <= i < |rows| && rows[i].id == OldName
      ensures rows[i].(id := NewName) in RenameThenDrop(rows)
    {
      assert r[i] == rows[i].(id := NewName);
    }
  }

  /** Without either name in the table, the transform changes nothing. */
  lemma {:induction false} UntouchedTable(rows: seq<Row>)
    requires forall i :: 0 <= i < |rows| ==> rows[i].id != OldName && rows[i].id != Dropped
    ensures RenameThenDrop(rows) == rows
  {
    if rows != [] {
      UntouchedTable(rows[1..]);
      assert RenameAll(rows) == [rows[0]] + RenameAll(rows[1..]);
    } else {
      assert RenameAll(rows) == [];
    }
  }

  /** The rows, other than Kepler-411(c), keep their cells and their order:
      the transform of a concatenation is the concatenation of the
      transforms. */
  lemma {:induction false} RenameThenDropAppend(a: seq<Row>, b: seq<Row>)
    ensures RenameThenDrop(a + b) == RenameThenDrop(a) + RenameThenDrop(b)
  {
    assert RenameAll(a + b) == RenameAll(a) + RenameAll(b);
    DropAppend(RenameAll(a), RenameAll(b));
  }

  lemma {:induction false} DropAppend(a: seq<Row>, b: seq<Row>)
    ensures DropKepler(a + b) == DropKepler(a) + DropKepler(b)
  {
    if a == [] {
      assert a + b == b;
    } else {
      assert (a + b)[0] == a[0];
      assert (a + b)[1..] == a[1..] + b;
      DropAppend(a[1..], b);
    }
  }

  /** A single row goes through unchanged unless it is Kepler-411(c) or
      has the old name. */
  lemma SingleRow(r: Row)
    ensures RenameThenDrop([r]) ==
      if r.id == Dropped then [] else if r.id == OldName then [r.(id := NewName)] else [r]
  {
    assert RenameAll([r]) == [Renamed(r)];
    assert DropKepler([Renamed(r)]) == (if Renamed(r).id != Dropped then [Renamed(r)] else []) by {
      assert [Renamed(r)][1..] == [];
    }
  }

  /** Running the script a second time changes nothing. */
  lemma RenameThenDropIdempotent(rows: seq<Row>)
    ensures RenameThenDrop(RenameThenDrop(rows)) == RenameThenDrop(rows)
  {
    NoOldNames(rows);
    var r := RenameThenDrop(rows);
    forall i | 0 <= i < |r| ensures r[i].id != OldName && r[i].id != Dropped {
      assert r[i] in r;
    }
    UntouchedTable(r);
  }
}
