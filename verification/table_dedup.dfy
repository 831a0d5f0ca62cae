/** Duplicate detection and removal on whole tables: `DataFrame.duplicated`
    and `DataFrame.drop_duplicates(names, keep='last')`, shared by the
    cleaning transforms of automate/classes/transform.py and
    etl/classes/transform.py. */
module TableDedup {
  import opened Wrappers
  import opened SortedUnique
  import opened Frame
  import opened Dedup

  /** A frame pandas calls empty: no rows or no columns. */
  predicate Empty(t: Table) {
    |t.rows| == 0 || |t.columns| == 0
  }

  /** The absent labels of `names`. */
  function UnknownOf(t: Table, names: seq<string>): set<string> {
    set c | c in names && c !in t.columns
  }

  /** `df.duplicated(names).sum() > 0` as pandas 1.x computes it: an empty
      frame flags nothing; otherwise labels that are not columns raise
      KeyError naming all of them, and an empty label list raises
      ValueError. */
  function AnyDuplicatedRows(t: Table, names: seq<string>): (r: Result<bool, FrameError>)
    requires t.Valid()
    ensures r.Failure? <==> !Empty(t) && (UnknownOf(t, names) != {} || |names| == 0)
    ensures r.Failure? && UnknownOf(t, names) != {} ==> r.error == UnknownLabels(UnknownOf(t, names))
    ensures r.Failure? && UnknownOf(t, names) == {} ==> r.error == EmptyLabels
    ensures r.Success? && !Empty(t) ==> HasColumns(t, names)
    ensures r.Success? ==> (r.value <==> !Empty(t) && !Distinct(KeysOf(t, names)))
  {
    if Empty(t) then Success(false)
    else if UnknownOf(t, names) != {} then Failure(UnknownLabels(UnknownOf(t, names)))
    else if |names| == 0 then Failure(EmptyLabels)
    else
      assert forall c :: c in names ==> c in t.columns by {
        assert forall c :: c in names && c !in t.columns ==> c in UnknownOf(t, names);
      }
      ValidHasColumns(t, names);
      AnyDuplicatedMeaning(KeysOf(t, names));
      Success(AnyDuplicated(KeysOf(t, names)))
  }

  /** `drop_duplicates(names, keep='last')`. */
  function DropLast(t: Table, names: seq<string>): (r: Table)
    requires HasColumns(t, names)
    ensures r.columns == t.columns && |r.rows| <= |t.rows|
    ensures t.Valid() ==> r.Valid()
  {
    KeepLastSpec(KeysOf(t, names));
    IncreasingAtMost(KeepLast(KeysOf(t, names)), |t.rows|);
    Table(t.columns, Pick(t.rows, KeepLast(KeysOf(t, names))))
  }

  /** The kept rows are the input rows, in their original order, that hold
      the last occurrence of their key. */
  lemma DropLastKeepsLast(t: Table, names: seq<string>)
    requires HasColumns(t, names)
    ensures var keys := KeysOf(t, names);
            var idx := KeepLast(keys);
            && Increasing(idx)
            && (forall k :: 0 <= k < |idx| ==> idx[k] < |t.rows|)
            && (forall i :: 0 <= i < |t.rows| ==> (i in idx <==> IsLast(keys, i)))
            && DropLast(t, names).rows == Pick(t.rows, idx)
  {
    KeepLastSpec(KeysOf(t, names));
  }

  /** Afterwards no key repeats, and the keys are the same set as before. */
  lemma DropLastKeys(t: Table, names: seq<string>)
    requires HasColumns(t, names)
    ensures HasColumns(DropLast(t, names), names)
    ensures Distinct(KeysOf(DropLast(t, names), names))
    ensures Elems(KeysOf(DropLast(t, names), names)) == Elems(KeysOf(t, names))
  {
    var keys := KeysOf(t, names);
    var idx := KeepLast(keys);
    KeepLastSpec(keys);
    KeepLastUnique(keys);
    var out := DropLast(t, names);
    assert HasColumns(out, names) by {
      forall i, c | 0 <= i < |out.rows| && c in names ensures c in out.rows[i] {
        assert out.rows[i] == t.rows[idx[i]];
      }
    }
    var outKeys := KeysOf(out, names);
    forall k | 0 <= k < |idx| ensures outKeys[k] == keys[idx[k]] {
      assert out.rows[k] == t.rows[idx[k]];
    }
    forall x | x in Elems(keys) ensures x in Elems(outKeys) {
      var i :| 0 <= i < |keys| && keys[i] == x;
      KeepLastCovers(keys, i);
      var k :| 0 <= k < |idx| && idx[k] < |keys| && keys[idx[k]] == x;
      assert outKeys[k] == x;
    }
  }

  /** As many rows remain as there are distinct keys. */
  lemma DropLastCount(t: Table, names: seq<string>)
    requires HasColumns(t, names)
    ensures |DropLast(t, names).rows| == |Elems(KeysOf(t, names))|
  {
    DropLastKeys(t, names);
    DistinctCard(KeysOf(DropLast(t, names), names));
  }

  /** Without repeated keys nothing is dropped. */
  lemma DropLastNoDuplicates(t: Table, names: seq<string>)
    requires HasColumns(t, names) && Distinct(KeysOf(t, names))
    ensures DropLast(t, names) == t
  {
    KeepLastDistinct(KeysOf(t, names));
    assert Pick(t.rows, Range(|t.rows|)) == t.rows;
  }

  /** `drop_duplicates(names)` with the default `keep='first'`. */
  function DropFirst(t: Table, names: seq<string>): (r: Table)
    requires HasColumns(t, names)
    ensures r.columns == t.columns && |r.rows| <= |t.rows|
    ensures t.Valid() ==> r.Valid()
  {
    KeepFirstSpec(KeysOf(t, names));
    IncreasingAtMost(KeepFirst(KeysOf(t, names)), |t.rows|);
    Table(t.columns, Pick(t.rows, KeepFirst(KeysOf(t, names))))
  }

  /** The kept rows are the input rows, in their original order, that hold
      the first occurrence of their key. */
  lemma DropFirstKeepsFirst(t: Table, names: seq<string>)
    requires HasColumns(t, names)
    ensures var keys := KeysOf(t, names);
            var idx := KeepFirst(keys);
            && Increasing(idx)
            && (forall k :: 0 <= k < |idx| ==> idx[k] < |t.rows|)
            && (forall i :: 0 <= i < |t.rows| ==> (i in idx <==> IsFirst(keys, i)))
            && DropFirst(t, names).rows == Pick(t.rows, idx)
  {
    KeepFirstSpec(KeysOf(t, names));
  }

  /** Afterwards no key repeats, and the keys are the same set as before. */
  lemma DropFirstKeys(t: Table, names: seq<string>)
    requires HasColumns(t, names)
    ensures HasColumns(DropFirst(t, names), names)
    ensures Distinct(KeysOf(DropFirst(t, names), names))
    ensures Elems(KeysOf(DropFirst(t, names), names)) == Elems(KeysOf(t, names))
  {
    var keys := KeysOf(t, names);
    var idx := KeepFirst(keys);
    KeepFirstSpec(keys);
    var out := DropFirst(t, names);
    assert HasColumns(out, names) by {
      forall i, c | 0 <= i < |out.rows| && c in names ensures c in out.rows[i] {
        assert out.rows[i] == t.rows[idx[i]];
      }
    }
    var outKeys := KeysOf(out, names);
    forall k | 0 <= k < |idx| ensures outKeys[k] == keys[idx[k]] {
      assert out.rows[k] == t.rows[idx[k]];
    }
    forall x | x in Elems(keys) ensures x in Elems(outKeys) {
      var i :| 0 <= i < |keys| && keys[i] == x;
      KeepFirstCovers(keys, i);
      var k :| 0 <= k < |idx| && idx[k] < |keys| && keys[idx[k]] == x;
      assert outKeys[k] == x;
    }
  }
}
