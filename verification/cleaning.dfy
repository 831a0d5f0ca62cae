/** The record-cleaning steps of the `Transform` class in
    automate/classes/transform.py, over the DataFrame slice of `Frame`. */
module Cleaning {
  import opened Wrappers
  import opened SortedUnique
  import opened Frame
  import opened Dedup
  import opened TableDedup

  /** The columns duplicates are judged on: every column for `None`. */
  function DedupNames(t: Table, subset: Subset): seq<string> {
    if subset.AllColumns? then t.columns else Named(subset)
  }

  /** After the guard, every judged column is a column of the table. */
  lemma GuardedNames(t: Table, subset: Subset)
    requires Guard(t, subset).Success?
    ensures UnknownOf(t, DedupNames(t, subset)) == {}
  {
    assert forall c :: c in DedupNames(t, subset) ==> c in t.columns;
  }

  /** `__remove_duplicates__`: the column guard for an explicit subset, then,
      if `duplicated` flags any row, `drop_duplicates(keep='last')`. Whether
      or not anything was flagged, the outcome is that of dropping. */
  function RemoveDuplicates(t: Table, subset: Subset): (r: Result<Table, FrameError>)
    requires t.Valid()
    ensures r.Failure? <==> Guard(t, subset).Failure? || (!Empty(t) && |DedupNames(t, subset)| == 0)
    ensures Guard(t, subset).Failure? ==> r == Failure(Guard(t, subset).error)
    ensures Guard(t, subset).Success? && r.Failure? ==> r.error == EmptyLabels
    ensures r.Success? ==> r.value.Valid() && r.value.columns == t.columns
    ensures r.Success? && Empty(t) ==> r.value == t
    ensures r.Success? && !Empty(t) ==>
              HasColumns(t, DedupNames(t, subset)) && r.value == DropLast(t, DedupNames(t, subset))
  {
    match Guard(t, subset)
    case Failure(e) => Failure(e)
    case Success(_) =>
      var names := DedupNames(t, subset);
      GuardedNames(t, subset);
      match AnyDuplicatedRows(t, names)
      case Failure(e) => Failure(e)
      case Success(dup) =>
        if dup then Success(DropLast(t, names))
        else
          assert !Empty(t) ==> DropLast(t, names) == t by {
            if !Empty(t) {
              DropLastNoDuplicates(t, names);
            }
          }
          Success(t)
  }

  /** `remove_duplicated_leads` / `remove_duplicated_reviews`: the cleaned
      table and the number of rows removed, which is the number of rows that
      repeat the key of another row. */
  function RemoveDuplicatedRows(t: Table, subset: Subset): (r: Result<(Table, nat), FrameError>)
    requires t.Valid()
    ensures r.Failure? <==> RemoveDuplicates(t, subset).Failure?
    ensures r.Success? ==> r.value.0 == RemoveDuplicates(t, subset).value
    ensures r.Success? && Empty(t) ==> r.value.1 == 0
    ensures r.Success? && !Empty(t) ==>
              HasColumns(t, DedupNames(t, subset))
              && r.value.1 == |t.rows| - |Elems(KeysOf(t, DedupNames(t, subset)))|
  {
    match RemoveDuplicates(t, subset)
    case Failure(e) => Failure(e)
    case Success(out) =>
      assert !Empty(t) ==> |out.rows| == |Elems(KeysOf(t, DedupNames(t, subset)))| by {
        if !Empty(t) {
          DropLastCount(t, DedupNames(t, subset));
        }
      }
      Success((out, |t.rows| - |out.rows|))
  }

  /** Removing duplicates is idempotent: a second pass with the same subset
      succeeds, changes nothing and reports no removed row. */
  lemma RemoveDuplicatedRowsTwice(t: Table, subset: Subset)
    requires t.Valid() && RemoveDuplicatedRows(t, subset).Success?
    ensures var once := RemoveDuplicatedRows(t, subset).value.0;
            once.Valid() && RemoveDuplicatedRows(once, subset) == Success((once, 0))
  {
    var once := RemoveDuplicates(t, subset).value;
    assert Guard(once, subset) == Guard(t, subset);
    assert DedupNames(once, subset) == DedupNames(t, subset);
    if !Empty(once) {
      var names := DedupNames(t, subset);
      DropLastKeys(t, names);
      DropLastNoDuplicates(once, names);
      DistinctCard(KeysOf(once, names));
    }
  }

  /** `column`'s cell with NaN replaced. */
  function Fill(row: Row, column: string, replacement: Value): Row
    requires column in row
  {
    row[column := if row[column] == Null then replacement else row[column]]
  }

  /** `after` is `before` with a NaN in `column` replaced and every other
      cell as it was. */
  predicate Filled(before: Row, after: Row, column: string, replacement: Value) {
    && after.Keys == before.Keys
    && (column in before && before[column] == Null ==> after[column] == replacement)
    && forall c :: c in before && (c != column || before[c] != Null) ==> after[c] == before[c]
  }

  /** `__replace_nulls__`: the column guard, then `fillna(replacement)` on
      `column`; every other cell is kept. The replacement is `None` for
      Python's `None`, which `fillna` refuses, and `Some(v)` for a value;
      `Some(Null)` is a NaN replacement, which `fillna` accepts and which
      leaves the NaN cells as they are. */
  function ReplaceNulls(t: Table, column: string, replacement: Option<Value>): (r: Result<Table, FrameError>)
    requires t.Valid()
    ensures column !in t.columns ==> r == Failure(MissingColumns([column]))
    ensures column in t.columns && replacement.None? ==> r == Failure(NoFillValue)
    ensures r.Success? <==> column in t.columns && replacement.Some?
    ensures r.Success? ==> r.value.Valid() && r.value.columns == t.columns && |r.value.rows| == |t.rows|
    ensures r.Success? ==> forall i :: 0 <= i < |t.rows| ==> Filled(t.rows[i], r.value.rows[i], column, replacement.value)
  {
    match Guard(t, Columns([column]))
    case Failure(e) =>
      assert Missing([column], t.columns) == [column];
      Failure(e)
    case Success(_) =>
      assert column in t.columns;
      if replacement.None? then Failure(NoFillValue)
      else Success(Table(t.columns, seq(|t.rows|, i requires 0 <= i < |t.rows| => Fill(t.rows[i], column, replacement.value))))
  }

  /** A NaN replacement is a legal fill that changes nothing. */
  lemma ReplaceNullsNaNUnchanged(t: Table, column: string)
    requires t.Valid() && column in t.columns
    ensures ReplaceNulls(t, column, Some(Null)) == Success(t)
  {
    var out := ReplaceNulls(t, column, Some(Null)).value;
    forall i | 0 <= i < |t.rows| ensures out.rows[i] == t.rows[i] {
      assert out.rows[i] == Fill(t.rows[i], column, Null);
      FillNaN(t.rows[i], column);
    }
    assert out.rows == t.rows;
  }

  /** Filling NaN with NaN leaves the row as it was. */
  lemma FillNaN(row: Row, column: string)
    requires column in row
    ensures Fill(row, column, Null) == row
  {
  }

  /** After a fill with a value other than NaN `column` holds no NaN, and
      a second fill, with any replacement, changes nothing. */
  lemma ReplaceNullsIdempotent(t: Table, column: string, replacement: Option<Value>)
    requires t.Valid() && ReplaceNulls(t, column, replacement).Success?
    ensures var once := ReplaceNulls(t, column, replacement).value;
            && (replacement.value != Null ==> forall i :: 0 <= i < |once.rows| ==> once.rows[i][column] != Null)
            && ReplaceNulls(once, column, replacement) == Success(once)
  {
    var once := ReplaceNulls(t, column, replacement).value;
    if replacement.value == Null {
      ReplaceNullsNaNUnchanged(t, column);
      ReplaceNullsNaNUnchanged(once, column);
    } else {
      FillLeavesNoNull(t, once, column, replacement.value);
      NoNullUnchanged(once, column, replacement.value);
    }
  }

  /** A successful fill leaves no NaN in `column`. */
  lemma FillLeavesNoNull(t: Table, once: Table, column: string, replacement: Value)
    requires t.Valid() && replacement != Null && ReplaceNulls(t, column, Some(replacement)) == Success(once)
    ensures once.Valid() && column in once.columns
    ensures forall i :: 0 <= i < |once.rows| ==> once.rows[i][column] != Null
  {
    forall i | 0 <= i < |once.rows| ensures once.rows[i][column] != Null {
      assert once.rows[i] == Fill(t.rows[i], column, replacement);
      FillTwice(t.rows[i], column, replacement);
    }
  }

  /** Filling a column without NaN changes nothing. */
  lemma NoNullUnchanged(t: Table, column: string, replacement: Value)
    requires t.Valid() && column in t.columns && replacement != Null
    requires forall i :: 0 <= i < |t.rows| ==> t.rows[i][column] != Null
    ensures ReplaceNulls(t, column, Some(replacement)) == Success(t)
  {
    var out := ReplaceNulls(t, column, Some(replacement)).value;
    forall i | 0 <= i < |t.rows| ensures out.rows[i] == t.rows[i] {
      assert out.rows[i] == Fill(t.rows[i], column, replacement);
      FillChanges(t.rows[i], column, replacement);
    }
    assert out.rows == t.rows;
  }

  /** Filling a filled row changes nothing. */
  lemma FillTwice(row: Row, column: string, replacement: Value)
    requires column in row && replacement != Null
    ensures Fill(row, column, replacement)[column] != Null
    ensures Fill(Fill(row, column, replacement), column, replacement) == Fill(row, column, replacement)
  {
  }

  /** A fill changes a row exactly when its cell was NaN. */
  lemma FillChanges(row: Row, column: string, replacement: Value)
    requires column in row && replacement != Null
    ensures Fill(row, column, replacement) != row <==> row[column] == Null
  {
    if row[column] != Null {
      assert Fill(row, column, replacement) == row;
    }
  }

  /** Whether `column` is NaN in a row. */
  function IsNullIn(column: string): Row -> bool {
    row => column in row && row[column] == Null
  }

  /** The positions of the rows whose `column` is NaN. */
  function NullRows(t: Table, column: string): set<nat>
    requires t.Valid() && column in t.columns
  {
    set i | 0 <= i < |t.rows| && t.rows[i][column] == Null
  }

  /** `replace_leads_null_values` / `replace_reviews_null_values`: selecting
      the column raises KeyError before the guard can; the count, taken
      before the fill, is the number of NaN cells in the column. It is the
      number of rows the fill changed, except for a NaN replacement, which
      changes nothing and still reports every NaN cell. */
  function ReplaceNullValues(t: Table, column: string, replacement: Option<Value>): (r: Result<(Table, nat), FrameError>)
    requires t.Valid()
    ensures column !in t.columns ==> r == Failure(KeyError(column))
    ensures column in t.columns ==> (r.Failure? <==> replacement.None?)
    ensures column in t.columns && r.Failure? ==> r.error == NoFillValue
    ensures r.Success? ==>
              && r.value.0 == ReplaceNulls(t, column, replacement).value
              && r.value.1 == |NullRows(t, column)|
              && |r.value.0.rows| == |t.rows|
    ensures r.Success? && replacement.value != Null ==> r.value.1 == |ChangedRows(t.rows, r.value.0.rows)|
    ensures r.Success? && replacement.value == Null ==> r.value.0 == t
  {
    if column !in t.columns then Failure(KeyError(column))
    else
      var count := CountWhere(t.rows, IsNullIn(column), |t.rows|);
      CountWhereIsWhere(t.rows, IsNullIn(column), |t.rows|);
      assert Where(t.rows, IsNullIn(column), |t.rows|) == NullRows(t, column);
      match ReplaceNulls(t, column, replacement)
      case Failure(e) => Failure(e)
      case Success(out) =>
        if replacement.value == Null then
          ReplaceNullsNaNUnchanged(t, column);
          Success((out, count))
        else
          FillCount(t, out, column, replacement.value);
          Success((out, count))
  }

  /** The positions where two equally long row lists differ. */
  function ChangedRows(before: seq<Row>, after: seq<Row>): set<nat>
    requires |after| == |before|
  {
    set i | 0 <= i < |before| && after[i] != before[i]
  }

  /** The rows a successful fill changes are the rows with NaN. */
  lemma FillCount(t: Table, out: Table, column: string, replacement: Value)
    requires t.Valid() && replacement != Null && ReplaceNulls(t, column, Some(replacement)) == Success(out)
    ensures |out.rows| == |t.rows| && ChangedRows(t.rows, out.rows) == NullRows(t, column)
  {
    forall i | 0 <= i < |t.rows| ensures (out.rows[i] != t.rows[i] <==> t.rows[i][column] == Null) {
      assert out.rows[i] == Fill(t.rows[i], column, replacement);
      FillChanges(t.rows[i], column, replacement);
    }
  }
}
