/** The slice of a pandas DataFrame the cleaning transforms of
    automate/classes/transform.py and etl/classes/transform.py rely on: named
    columns, rows as column-to-cell maps, NaN cells, and the column-existence
    guard that raises before a transform runs. */
module Frame {
  import opened Wrappers
  import opened SortedUnique

  /** One cell: NaN/None, a string, or a number. */
  datatype Value = Null | Text(s: string) | Num(x: real)

  type Row = map<string, Value>

  datatype Table = Table(columns: seq<string>, rows: seq<Row>)
  {
    /** Column names are unique and every row has exactly those columns. */
    predicate Valid() {
      && Distinct(columns)
      && forall i :: 0 <= i < |rows| ==> rows[i].Keys == Elems(columns)
    }
  }

  /** The `subset` argument: `None` (every column), one name, or a list. */
  datatype Subset = AllColumns | Column(name: string) | Columns(names: seq<string>)

  /** The exceptions the transforms raise. */
  datatype FrameError =
    | MissingColumns(missing: seq<string>)  // the guard's ValueError, naming the absent columns
    | KeyError(column: string)              // indexing a column that does not exist
    | NoFillValue                           // `fillna(None)` raises ValueError
    | IndexError                            // `.values[0]` of an empty selection
    | UnknownLabels(labels: set<string>)    // `duplicated` names labels that are not columns: KeyError
    | EmptyLabels                           // `duplicated` with an empty label list: ValueError

  /** pandas `==` on cells: NaN equals nothing, not even NaN. */
  predicate PdEq(a: Value, b: Value) {
    a != Null && a == b
  }

  /** The names a non-`None` subset stands for; a single string is a
      one-element list. */
  function Named(subset: Subset): seq<string>
    requires !subset.AllColumns?
  {
    if subset.Column? then [subset.name] else subset.names
  }

  /** The names of `names` that are not columns, in `names` order
      (`np.setdiff1d(..., assume_unique=True)` does not sort). */
  function Missing(names: seq<string>, columns: seq<string>): (r: seq<string>)
    ensures forall c :: c in r <==> c in names && c !in columns
    ensures |r| <= |names|
  {
    if |names| == 0 then []
    else (if names[0] in columns then [] else [names[0]]) + Missing(names[1..], columns)
  }

  /** `__guard_against_non_existent_columns__`. */
  function Guard(t: Table, subset: Subset): (r: Result<(), FrameError>)
    ensures r.Failure? <==> !subset.AllColumns? && exists c :: c in Named(subset) && c !in t.columns
    ensures subset.AllColumns? ==> r.Success?
    ensures r.Failure? ==>
              && r.error.MissingColumns?
              && |r.error.missing| > 0
              && (forall c :: c in r.error.missing <==> c in Named(subset) && c !in t.columns)
  {
    if subset.AllColumns? then Success(())
    else
      var missing := Missing(Named(subset), t.columns);
      if |missing| == 0 then
        assert forall c :: c in Named(subset) ==> c in t.columns;
        Success(())
      else
        assert missing[0] in missing;
        Failure(MissingColumns(missing))
  }

  /** The cells of `names` in one row, in `names` order. */
  function KeyOf(row: Row, names: seq<string>): seq<Value>
    requires forall c :: c in names ==> c in row
  {
    seq(|names|, k requires 0 <= k < |names| => row[names[k]])
  }

  /** Every row has the named columns. */
  predicate HasColumns(t: Table, names: seq<string>) {
    forall i, c :: 0 <= i < |t.rows| && c in names ==> c in t.rows[i]
  }

  /** The key of every row, in row order. */
  function KeysOf(t: Table, names: seq<string>): (r: seq<seq<Value>>)
    requires HasColumns(t, names)
    ensures |r| == |t.rows|
  {
    seq(|t.rows|, i requires 0 <= i < |t.rows| => KeyOf(t.rows[i], names))
  }

  /** In a valid table every row has every listed column. */
  lemma ValidHasColumns(t: Table, names: seq<string>)
    requires t.Valid() && forall c :: c in names ==> c in t.columns
    ensures HasColumns(t, names)
  {
    forall i, c | 0 <= i < |t.rows| && c in names ensures c in t.rows[i] {
      assert c in Elems(t.columns);
    }
  }

  /** The positions of the first `n` rows that satisfy `p`. */
  function Where(rows: seq<Row>, p: Row -> bool, n: nat): set<nat>
    requires n <= |rows|
  {
    set i | 0 <= i < n && p(rows[i])
  }

  /** The number of rows among the first `n` that satisfy `p` (a boolean
      mask's `sum()`). */
  function CountWhere(rows: seq<Row>, p: Row -> bool, n: nat): (r: nat)
    requires n <= |rows|
  {
    if n == 0 then 0 else CountWhere(rows, p, n - 1) + (if p(rows[n - 1]) then 1 else 0)
  }

  /** The running count is the number of matching positions. */
  lemma {:induction false} CountWhereIsWhere(rows: seq<Row>, p: Row -> bool, n: nat)
    requires n <= |rows|
    ensures CountWhere(rows, p, n) == |Where(rows, p, n)| <= n
  {
    if n > 0 {
      CountWhereIsWhere(rows, p, n - 1);
      if p(rows[n - 1]) {
        assert Where(rows, p, n) == Where(rows, p, n - 1) + {n - 1};
      } else {
        assert Where(rows, p, n) == Where(rows, p, n - 1);
      }
    }
  }

  /** `columns` without `name`, in order (`drop(name, axis=1)`). */
  function Remove(columns: seq<string>, name: string): (r: seq<string>)
    ensures forall c :: c in r <==> c in columns && c != name
    ensures Distinct(columns) ==> Distinct(r)
  {
    if |columns| == 0 then []
    else
      var rest := Remove(columns[1..], name);
      if columns[0] == name then rest
      else
        assert Distinct(columns) ==> columns[0] !in columns[1..];
        [columns[0]] + rest
  }
}
