/** Duplicate removal of the ETL stage's `Transform` class in
    etl/classes/transform.py. Unlike the automate variant it has no column
    guard and no default subset: unknown labels reach `duplicated`, which
    raises KeyError. */
module EtlCleaning {
  import opened Wrappers
  import opened SortedUnique
  import opened Frame
  import opened TableDedup

  /** `__remove_duplicates__`: if `duplicated(columns)` flags any row,
      `drop_duplicates(columns, keep='last')`. Whether or not anything was
      flagged, the outcome is that of dropping. */
  function RemoveDuplicates(t: Table, columns: seq<string>): (r: Result<Table, FrameError>)
    requires t.Valid()
    ensures r.Failure? <==> !Empty(t) && (UnknownOf(t, columns) != {} || |columns| == 0)
    ensures r.Failure? && UnknownOf(t, columns) != {} ==> r.error == UnknownLabels(UnknownOf(t, columns))
    ensures r.Success? ==> r.value.Valid() && r.value.columns == t.columns
    ensures r.Success? && Empty(t) ==> r.value == t
    ensures r.Success? && !Empty(t) ==> HasColumns(t, columns) && r.value == DropLast(t, columns)
  {
    match AnyDuplicatedRows(t, columns)
    case Failure(e) => Failure(e)
    case Success(dup) =>
      if dup then Success(DropLast(t, columns))
      else
        assert !Empty(t) ==> DropLast(t, columns) == t by {
          if !Empty(t) {
            DropLastNoDuplicates(t, columns);
          }
        }
        Success(t)
  }

  /** `remove_duplicated_leads` / `remove_duplicated_reviews`: the cleaned
      table and the number of rows removed, which is the number of rows that
      repeat the key of another row. */
  function RemoveDuplicatedRows(t: Table, columns: seq<string>): (r: Result<(Table, nat), FrameError>)
    requires t.Valid()
    ensures r.Failure? <==> RemoveDuplicates(t, columns).Failure?
    ensures r.Success? ==> r.value.0 == RemoveDuplicates(t, columns).value
    ensures r.Success? && Empty(t) ==> r.value.1 == 0
    ensures r.Success? && !Empty(t) ==>
              HasColumns(t, columns) && r.value.1 == |t.rows| - |Elems(KeysOf(t, columns))|
  {
    match RemoveDuplicates(t, columns)
    case Failure(e) => Failure(e)
    case Success(out) =>
      assert !Empty(t) ==> |out.rows| == |Elems(KeysOf(t, columns))| by {
        if !Empty(t) {
          DropLastCount(t, columns);
        }
      }
      Success((out, |t.rows| - |out.rows|))
  }

  /** Removing duplicates is idempotent: a second pass over the same
      columns succeeds, changes nothing and reports no removed row. */
  lemma RemoveDuplicatedRowsTwice(t: Table, columns: seq<string>)
    requires t.Valid() && RemoveDuplicatedRows(t, columns).Success?
    ensures var once := RemoveDuplicatedRows(t, columns).value.0;
            once.Valid() && RemoveDuplicatedRows(once, columns) == Success((once, 0))
  {
    var once := RemoveDuplicates(t, columns).value;
    if !Empty(once) {
      assert UnknownOf(once, columns) == UnknownOf(t, columns);
      DropLastKeys(t, columns);
      DropLastNoDuplicates(once, columns);
      DistinctCard(KeysOf(once, columns));
    }
  }
}
