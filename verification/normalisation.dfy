/** The required-column completion at the end of `process_image_to_excel`
    (transcription.py:56-67): every required column missing from the table
    is added, holding "" in every row. */
module Normalisation {
  import opened Wrappers
  import opened Schema

  /** `df[c] = ""` for a column `c` the table does not have yet. */
  function AddColumn(t: Table, c: Column): (r: Table)
    requires WellFormed(t) && c !in t.columns
    ensures WellFormed(r)
    ensures r.columns == t.columns + [c]
    ensures |r.rows| == |t.rows|
    ensures forall i :: 0 <= i < |t.rows| ==> r.rows[i] == t.rows[i][c := Some("")]
  {
    Table(t.columns + [c], seq(|t.rows|, i requires 0 <= i < |t.rows| => t.rows[i][c := Some("")]))
  }

  /** The columns of `cols` not in `present`, in list order, each once: a
      column counts as present once it has been added. */
  function Missing(present: seq<Column>, cols: seq<Column>): (r: seq<Column>)
    ensures forall c :: c in r <==> c in cols && c !in present
    ensures Distinct(r)
    decreases |cols|
  {
    if |cols| == 0 then []
    else if cols[0] in present then Missing(present, cols[1..])
    else
      var rest := Missing(present + [cols[0]], cols[1..]);
      assert forall c :: c in cols <==> c == cols[0] || c in cols[1..];
      DistinctAppend([cols[0]], rest);
      [cols[0]] + rest
  }

  /** The loop `for column in cols: if column not in df.columns: df[column] = ""`. */
  function AddMissing(t: Table, cols: seq<Column>): (r: Table)
    requires WellFormed(t)
    ensures WellFormed(r)
    ensures r.columns == t.columns + Missing(t.columns, cols)
    ensures |r.rows| == |t.rows|
    ensures |t.columns| <= |r.columns| && r.columns[..|t.columns|] == t.columns
    ensures forall c :: c in r.columns <==> c in t.columns || c in cols
    ensures forall i, c :: 0 <= i < |t.rows| && c in t.rows[i] ==> c in r.rows[i] && r.rows[i][c] == t.rows[i][c]
    ensures forall i, c :: 0 <= i < |t.rows| && c in r.rows[i] && c !in t.rows[i] ==> r.rows[i][c] == Some("")
    decreases |cols|
  {
    if |cols| == 0 then t
    else if cols[0] in t.columns then AddMissing(t, cols[1..])
    else AddMissing(AddColumn(t, cols[0]), cols[1..])
  }

  /** The table handed back by `process_image_to_excel`: all 25 required
      columns present, nothing already there changed, every added cell "". */
  function Normalise(t: Table): (r: Table)
    requires WellFormed(t)
    ensures WellFormed(r)
    ensures forall c :: c in RequiredColumns ==> c in r.columns
    ensures |r.rows| == |t.rows|
    ensures |t.columns| <= |r.columns| && r.columns[..|t.columns|] == t.columns
    ensures forall c :: c in r.columns ==> c in t.columns || c in RequiredColumns
    ensures forall i, c :: 0 <= i < |t.rows| && c in t.rows[i] ==> r.rows[i][c] == t.rows[i][c]
    ensures forall i, c :: 0 <= i < |t.rows| && c in RequiredColumns && c !in t.columns ==> r.rows[i][c] == Some("")
  {
    AddMissing(t, RequiredColumns)
  }

  /** A table that already has every column of `cols` is left as it is. */
  lemma {:induction false} AddMissingNoop(t: Table, cols: seq<Column>)
    requires WellFormed(t)
    requires forall c :: c in cols ==> c in t.columns
    ensures AddMissing(t, cols) == t
    decreases |cols|
  {
    if |cols| > 0 {
      assert cols[0] in cols;
      AddMissingNoop(t, cols[1..]);
    }
  }

  /** Normalising twice is normalising once. */
  lemma NormaliseIdempotent(t: Table)
    requires WellFormed(t)
    ensures Normalise(Normalise(t)) == Normalise(t)
  {
    AddMissingNoop(Normalise(t), RequiredColumns);
  }

  /** Walking the distinct list `cols` from position `i`, with its first
      `m` entries already present, adds exactly the entries from `m` on. */
  lemma {:induction false} MissingRest(cols: seq<Column>, i: nat, m: nat)
    requires Distinct(cols) && i <= m <= |cols|
    ensures Missing(cols[..m], cols[i..]) == cols[m..]
    decreases |cols| - i
  {
    if i == |cols| {
    } else {
      var rest := cols[i..];
      assert rest[0] == cols[i] && rest[1..] == cols[i + 1..];
      if i < m {
        assert cols[i] == cols[..m][i];
        MissingRest(cols, i + 1, m);
      } else {
        assert cols[i] !in cols[..m];
        assert cols[..m] + [cols[i]] == cols[..m + 1];
        MissingRest(cols, i + 1, m + 1);
        assert cols[m..] == [cols[m]] + cols[m + 1..];
      }
    }
  }

  /** A table holding just the five default columns is widened to exactly
      the 25 required columns, in the fixed output order. */
  lemma NormaliseDefaultsOrder(t: Table)
    requires WellFormed(t) && t.columns == DefaultColumns
    ensures Normalise(t).columns == RequiredColumns
  {
    RequiredColumnsDistinct();
    assert RequiredColumns[..5] == DefaultColumns;
    assert RequiredColumns[0..] == RequiredColumns;
    MissingRest(RequiredColumns, 0, 5);
    assert RequiredColumns[..5] + RequiredColumns[5..] == RequiredColumns;
  }
}
