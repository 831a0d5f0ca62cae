/** `DataFrame.duplicated` / `drop_duplicates` over the sequence of row keys:
    which row positions survive when every key keeps only its last
    (`keep='last'`) or its first (`keep='first'`) row. Keys compare with
    `==`, as pandas' duplicate detection treats NaN as equal to NaN. */
module Dedup {
  import opened SortedUnique

  predicate Increasing(idx: seq<nat>) {
    forall a, b :: 0 <= a < b < |idx| ==> idx[a] < idx[b]
  }

  /** Row `i` holds the last occurrence of its key. */
  predicate IsLast<K(==)>(keys: seq<K>, i: nat) {
    forall j :: i < j < |keys| ==> keys[j] != keys[i]
  }

  /** Row `i` holds the first occurrence of its key. */
  predicate IsFirst<K(==)>(keys: seq<K>, i: nat)
    requires i < |keys|
  {
    forall j :: 0 <= j < i ==> keys[j] != keys[i]
  }

  /** The positions `0, 1, ..., n - 1`. */
  function Range(n: nat): (r: seq<nat>)
    ensures |r| == n && forall i :: 0 <= i < n ==> r[i] == i
  {
    seq(n, i requires 0 <= i < n => i)
  }

  /** The rows at positions `idx`, in that order. */
  function Pick<T>(xs: seq<T>, idx: seq<nat>): (r: seq<T>)
    requires forall k :: 0 <= k < |idx| ==> idx[k] < |xs|
    ensures |r| == |idx|
  {
    seq(|idx|, k requires 0 <= k < |idx| => xs[idx[k]])
  }

  /** The right-to-left scan of `duplicated(keep='last')` over the first `n`
      rows, having already seen the keys `seen`: the positions it keeps. */
  function LastScan<K(==)>(keys: seq<K>, n: nat, seen: set<K>): seq<nat>
    requires n <= |keys|
  {
    if n == 0 then []
    else if keys[n - 1] in seen then LastScan(keys, n - 1, seen)
    else LastScan(keys, n - 1, seen + {keys[n - 1]}) + [n - 1]
  }

  /** The positions `drop_duplicates(keep='last')` keeps. */
  function KeepLast<K(==)>(keys: seq<K>): seq<nat> {
    LastScan(keys, |keys|, {})
  }

  /** The scan keeps, in increasing order, exactly the last occurrences. */
  lemma LastScanSpec<K>(keys: seq<K>, n: nat, seen: set<K>)
    requires n <= |keys| && seen == Elems(keys[n..])
    ensures var r := LastScan(keys, n, seen);
            && Increasing(r)
            && (forall k :: 0 <= k < |r| ==> r[k] < n)
            && (forall i :: 0 <= i < n ==> (i in r <==> IsLast(keys, i)))
  {
    LastScanOrder(keys, n, seen);
    LastScanMembers(keys, n, seen);
  }

  /** The scan lists positions below `n` in increasing order. */
  lemma {:induction false} LastScanOrder<K>(keys: seq<K>, n: nat, seen: set<K>)
    requires n <= |keys|
    ensures var r := LastScan(keys, n, seen);
            Increasing(r) && forall k :: 0 <= k < |r| ==> r[k] < n
  {
    if n > 0 {
      var x := keys[n - 1];
      if x in seen {
        LastScanOrder(keys, n - 1, seen);
      } else {
        LastScanOrder(keys, n - 1, seen + {x});
      }
    }
  }

  /** The scan keeps a position below `n` iff it is the last of its key. */
  lemma {:induction false} LastScanMembers<K>(keys: seq<K>, n: nat, seen: set<K>)
    requires n <= |keys| && seen == Elems(keys[n..])
    ensures forall i :: 0 <= i < n ==> (i in LastScan(keys, n, seen) <==> IsLast(keys, i))
  {
    if n > 0 {
      var x := keys[n - 1];
      assert keys[n - 1..] == [x] + keys[n..];
      ElemsConcat([x], keys[n..]);
      LastScanOrder(keys, n - 1, if x in seen then seen else seen + {x});
      if x in seen {
        LastScanMembers(keys, n - 1, seen);
        var j :| n <= j < |keys| && keys[j] == x by {
          var k :| 0 <= k < |keys[n..]| && keys[n..][k] == x;
        }
        assert !IsLast(keys, n - 1);
      } else {
        LastScanMembers(keys, n - 1, seen + {x});
        forall j | n - 1 < j < |keys| ensures keys[j] != x {
          assert keys[j] == keys[n..][j - n];
        }
      }
    }
  }

  /** Survivors are in their original order, each the last row of its key. */
  lemma KeepLastSpec<K>(keys: seq<K>)
    ensures var r := KeepLast(keys);
            && Increasing(r)
            && (forall k :: 0 <= k < |r| ==> r[k] < |keys|)
            && (forall i :: 0 <= i < |keys| ==> (i in r <==> IsLast(keys, i)))
  {
    assert keys[|keys|..] == [];
    ElemsEmpty(keys[|keys|..]);
    LastScanSpec(keys, |keys|, {});
  }

  /** No two survivors share a key. */
  lemma KeepLastUnique<K>(keys: seq<K>)
    ensures var r := KeepLast(keys);
            forall a, b :: 0 <= a < b < |r| ==> r[a] < |keys| && r[b] < |keys| && keys[r[a]] != keys[r[b]]
  {
    KeepLastSpec(keys);
    var r := KeepLast(keys);
    forall a, b | 0 <= a < b < |r| ensures r[a] < |keys| && r[b] < |keys| && keys[r[a]] != keys[r[b]] {
      assert r[a] in r;
    }
  }

  /** Every key of the input has a last occurrence. */
  lemma {:induction false} LastOccurrence<K>(keys: seq<K>, i: nat) returns (j: nat)
    requires i < |keys|
    ensures i <= j < |keys| && keys[j] == keys[i] && IsLast(keys, j)
    decreases |keys| - i
  {
    if IsLast(keys, i) {
      j := i;
    } else {
      var k :| i < k < |keys| && keys[k] == keys[i];
      j := LastOccurrence(keys, k);
    }
  }

  /** No key is lost: each input key is the key of some survivor. */
  lemma KeepLastCovers<K>(keys: seq<K>, i: nat)
    requires i < |keys|
    ensures exists k :: 0 <= k < |KeepLast(keys)| && KeepLast(keys)[k] < |keys| && keys[KeepLast(keys)[k]] == keys[i]
  {
    KeepLastSpec(keys);
    var j := LastOccurrence(keys, i);
    assert j in KeepLast(keys);
  }

  /** When no key repeats the scan keeps every row. */
  lemma {:induction false} LastScanKeepsAll<K>(keys: seq<K>, n: nat, seen: set<K>)
    requires Distinct(keys) && n <= |keys| && seen == Elems(keys[n..])
    ensures LastScan(keys, n, seen) == Range(n)
  {
    if n > 0 {
      var x := keys[n - 1];
      assert keys[n - 1..] == [x] + keys[n..];
      ElemsConcat([x], keys[n..]);
      assert x !in seen;
      LastScanKeepsAll(keys, n - 1, seen + {x});
      assert Range(n - 1) + [n - 1] == Range(n);
    }
  }

  /** Without duplicate keys `drop_duplicates(keep='last')` changes nothing. */
  lemma KeepLastDistinct<K>(keys: seq<K>)
    requires Distinct(keys)
    ensures KeepLast(keys) == Range(|keys|)
  {
    assert keys[|keys|..] == [];
    ElemsEmpty(keys[|keys|..]);
    LastScanKeepsAll(keys, |keys|, {});
  }

  /** The left-to-right scan of `duplicated(keep='first')` from row `i` on,
      having already seen the keys `seen`: the positions it keeps. */
  function FirstScan<K(==)>(keys: seq<K>, i: nat, seen: set<K>): seq<nat>
    requires i <= |keys|
    decreases |keys| - i
  {
    if i == |keys| then []
    else if keys[i] in seen then FirstScan(keys, i + 1, seen)
    else [i] + FirstScan(keys, i + 1, seen + {keys[i]})
  }

  /** The positions `drop_duplicates(keep='first')` keeps. */
  function KeepFirst<K(==)>(keys: seq<K>): seq<nat> {
    FirstScan(keys, 0, {})
  }

  /** The scan keeps, in increasing order, exactly the first occurrences. */
  lemma {:induction false} FirstScanSpec<K>(keys: seq<K>, i: nat, seen: set<K>)
    requires i <= |keys| && seen == Elems(keys[..i])
    ensures var r := FirstScan(keys, i, seen);
            && Increasing(r)
            && (forall k :: 0 <= k < |r| ==> i <= r[k] < |keys|)
            && (forall j :: i <= j < |keys| ==> (j in r <==> IsFirst(keys, j)))
    decreases |keys| - i
  {
    if i < |keys| {
      var x := keys[i];
      assert keys[..i + 1] == keys[..i] + [x];
      ElemsConcat(keys[..i], [x]);
      if x in seen {
        FirstScanSpec(keys, i + 1, seen);
        var k :| 0 <= k < i && keys[k] == x by {
          var k :| 0 <= k < |keys[..i]| && keys[..i][k] == x;
        }
        assert !IsFirst(keys, i);
      } else {
        FirstScanSpec(keys, i + 1, seen + {x});
        forall j | 0 <= j < i ensures keys[j] != x {
          assert keys[j] == keys[..i][j];
        }
      }
    }
  }

  /** Survivors are in their original order, each the first row of its key,
      and no two share a key. */
  lemma KeepFirstSpec<K>(keys: seq<K>)
    ensures var r := KeepFirst(keys);
            && Increasing(r)
            && (forall k :: 0 <= k < |r| ==> r[k] < |keys|)
            && (forall i :: 0 <= i < |keys| ==> (i in r <==> IsFirst(keys, i)))
            && (forall a, b :: 0 <= a < b < |r| ==> keys[r[a]] != keys[r[b]])
  {
    assert keys[..0] == [];
    ElemsEmpty(keys[..0]);
    FirstScanSpec(keys, 0, {});
    var r := KeepFirst(keys);
    forall a, b | 0 <= a < b < |r| ensures keys[r[a]] != keys[r[b]] {
      assert r[b] in r;
    }
  }

  /** `duplicated().sum() > 0`: some row repeats the key of an earlier one. */
  predicate AnyDuplicated<K(==)>(keys: seq<K>) {
    |KeepFirst(keys)| < |keys|
  }

  /** `duplicated()` flags something exactly when a key repeats. */
  lemma AnyDuplicatedMeaning<K>(keys: seq<K>)
    ensures AnyDuplicated(keys) <==> !Distinct(keys)
  {
    KeepFirstSpec(keys);
    var r := KeepFirst(keys);
    if Distinct(keys) {
      forall i | 0 <= i < |keys| ensures i in r {
        assert IsFirst(keys, i);
      }
      IncreasingCoversAll(r, |keys|);
    } else {
      var a, b :| 0 <= a < b < |keys| && keys[a] == keys[b];
      assert !IsFirst(keys, b);
      IncreasingWithin(r, |keys|, b);
    }
  }

  /** Increasing positions below `n` that include all of them are `n` many. */
  lemma IncreasingCoversAll(r: seq<nat>, n: nat)
    requires Increasing(r) && (forall k :: 0 <= k < |r| ==> r[k] < n)
    requires forall i :: 0 <= i < n ==> i in r
    ensures |r| == n
  {
    DistinctCard(r);
    DistinctCard(Range(n));
    assert Elems(r) == Elems(Range(n)) by {
      forall i | i in Elems(Range(n)) ensures i in Elems(r) {
        var k :| 0 <= k < n && Range(n)[k] == i;
      }
      forall i | i in Elems(r) ensures i in Elems(Range(n)) {
        assert Range(n)[i] == i;
      }
    }
  }

  /** Increasing positions below `n` that miss `b` are fewer than `n`. */
  lemma IncreasingWithin(r: seq<nat>, n: nat, b: nat)
    requires Increasing(r) && (forall k :: 0 <= k < |r| ==> r[k] < n) && b < n && b !in r
    ensures |r| < n
  {
    DistinctCard(r);
    DistinctCard(Range(n));
    assert Range(n)[b] == b;
    assert Elems(r) <= Elems(Range(n)) - {b} by {
      forall i | i in Elems(r) ensures i in Elems(Range(n)) - {b} {
        assert Range(n)[i] == i;
      }
    }
    SubsetCardinality(Elems(r), Elems(Range(n)) - {b});
  }

  /** Increasing positions below `n` are at most `n` many. */
  lemma IncreasingAtMost(r: seq<nat>, n: nat)
    requires Increasing(r) && forall k :: 0 <= k < |r| ==> r[k] < n
    ensures |r| <= n
  {
    DistinctCard(r);
    DistinctCard(Range(n));
    assert Elems(r) <= Elems(Range(n)) by {
      forall i | i in Elems(r) ensures i in Elems(Range(n)) {
        assert Range(n)[i] == i;
      }
    }
    SubsetCardinality(Elems(r), Elems(Range(n)));
  }

  /** Every key of the input has a first occurrence. */
  lemma {:induction false} FirstOccurrence<K>(keys: seq<K>, i: nat) returns (j: nat)
    requires i < |keys|
    ensures j <= i && keys[j] == keys[i] && IsFirst(keys, j)
  {
    if IsFirst(keys, i) {
      j := i;
    } else {
      var k :| 0 <= k < i && keys[k] == keys[i];
      j := FirstOccurrence(keys, k);
    }
  }

  /** No key is lost: each input key is the key of some first occurrence. */
  lemma KeepFirstCovers<K>(keys: seq<K>, i: nat)
    requires i < |keys|
    ensures exists k :: 0 <= k < |KeepFirst(keys)| && KeepFirst(keys)[k] < |keys| && keys[KeepFirst(keys)[k]] == keys[i]
  {
    KeepFirstSpec(keys);
    var j := FirstOccurrence(keys, i);
    assert j in KeepFirst(keys);
  }

  /** The position of the first occurrence of `x`. */
  function FirstIndex<K(==)>(keys: seq<K>, x: K): (r: nat)
    requires x in keys
    ensures r < |keys| && keys[r] == x && IsFirst(keys, r)
  {
    if keys[0] == x then 0
    else
      var r := FirstIndex(keys[1..], x) + 1;
      assert forall j :: 1 <= j < r ==> keys[j] == keys[1..][j - 1];
      r
  }
}
