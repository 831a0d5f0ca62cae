/** Strictly ascending string sequences, and `Unique`, the model of numpy's
    `np.unique` on an array of ids: the distinct elements in ascending order. */
module SortedUnique {
  import opened LexOrder

  /** The elements of a sequence, as a set. */
  function Elems<T>(s: seq<T>): set<T> {
    set x | x in s
  }

  lemma ElemsConcat<T>(a: seq<T>, b: seq<T>)
    ensures Elems(a + b) == Elems(a) + Elems(b)
  {
  }

  lemma ElemsEmpty<T>(s: seq<T>)
    ensures Elems(s) == {} <==> s == []
  {
    if s != [] {
      assert s[0] in Elems(s);
    }
  }

  predicate StrictlySorted(s: seq<string>) {
    forall i, j :: 0 <= i < j < |s| ==> Less(s[i], s[j])
  }

  predicate Distinct<T(==)>(s: seq<T>) {
    forall i, j :: 0 <= i < j < |s| ==> s[i] != s[j]
  }

  /** Two duplicate-free sequences with no element in common concatenate
      to a duplicate-free one. */
  lemma DistinctConcat<T>(a: seq<T>, b: seq<T>)
    requires Distinct(a) && Distinct(b) && forall x :: x in a ==> x !in b
    ensures Distinct(a + b)
  {
    var ab := a + b;
    forall i, j | 0 <= i < j < |ab| ensures ab[i] != ab[j] {
      if j < |a| {
        assert ab[i] == a[i] && ab[j] == a[j];
      } else if i < |a| {
        assert ab[i] == a[i] && a[i] in a && ab[j] == b[j - |a|];
      } else {
        assert ab[i] == b[i - |a|] && ab[j] == b[j - |a|];
      }
    }
  }

  lemma SortedIsDistinct(s: seq<string>)
    requires StrictlySorted(s)
    ensures Distinct(s)
  {
    forall i, j | 0 <= i < j < |s|
      ensures s[i] != s[j]
    {
      if s[i] == s[j] {
        Irreflexive(s[i]);
      }
    }
  }

  /** Adds `x` to a strictly ascending sequence at its place in the order. */
  function Insert(s: seq<string>, x: string): seq<string> {
    if |s| == 0 then [x]
    else if x == s[0] then s
    else if Less(x, s[0]) then [x] + s
    else [s[0]] + Insert(s[1..], x)
  }

  /** Inserting keeps the sequence strictly ascending and adds exactly `x`. */
  lemma InsertSpec(s: seq<string>, x: string)
    requires StrictlySorted(s)
    ensures StrictlySorted(Insert(s, x))
    ensures Elems(Insert(s, x)) == Elems(s) + {x}
  {
    InsertElems(s, x);
    InsertSorted(s, x);
  }

  /** Inserting adds exactly `x` to the elements. */
  lemma {:induction false} InsertElems(s: seq<string>, x: string)
    ensures Elems(Insert(s, x)) == Elems(s) + {x}
  {
    if |s| == 0 {
    } else if x == s[0] {
      assert x in Elems(s);
    } else if Less(x, s[0]) {
      ElemsConcat([x], s);
    } else {
      InsertElems(s[1..], x);
      assert s == [s[0]] + s[1..];
      ElemsConcat([s[0]], s[1..]);
      ElemsConcat([s[0]], Insert(s[1..], x));
    }
  }

  /** Inserting into a strictly ascending sequence keeps it so. */
  lemma {:induction false} InsertSorted(s: seq<string>, x: string)
    requires StrictlySorted(s)
    ensures StrictlySorted(Insert(s, x))
  {
    if |s| == 0 {
    } else if x == s[0] {
    } else if Less(x, s[0]) {
      var r := [x] + s;
      forall i, j | 0 <= i < j < |r| ensures Less(r[i], r[j]) {
        if i == 0 && j > 1 { Transitive(x, s[0], s[j - 1]); }
      }
    } else {
      var rest := Insert(s[1..], x);
      InsertSorted(s[1..], x);
      InsertElems(s[1..], x);
      Total(x, s[0]);
      forall y | y in rest ensures Less(s[0], y) {
        assert y in Elems(rest);
        if y != x {
          assert y in Elems(s[1..]);
          var j :| 0 <= j < |s| - 1 && s[1..][j] == y;
          assert s[j + 1] == y;
        }
      }
      var r := [s[0]] + rest;
      forall i, j | 0 <= i < j < |r| ensures Less(r[i], r[j]) {
        if i == 0 {
          assert r[j] in rest;
        } else {
          assert r[i] == rest[i - 1] && r[j] == rest[j - 1];
        }
      }
    }
  }

  /** `np.unique`: the distinct elements of `xs` in ascending order. */
  function Unique(xs: seq<string>): seq<string> {
    if |xs| == 0 then [] else Insert(Unique(xs[1..]), xs[0])
  }

  /** What `np.unique` returns: a strictly ascending sequence holding exactly
      the elements of its input. */
  lemma {:induction false} UniqueSpec(xs: seq<string>)
    ensures StrictlySorted(Unique(xs))
    ensures Elems(Unique(xs)) == Elems(xs)
  {
    if |xs| > 0 {
      UniqueSpec(xs[1..]);
      InsertSpec(Unique(xs[1..]), xs[0]);
      assert xs == [xs[0]] + xs[1..];
      ElemsConcat([xs[0]], xs[1..]);
    }
  }

  /** A strictly ascending sequence is determined by its set of elements. */
  lemma {:induction false} SortedBySet(a: seq<string>, b: seq<string>)
    requires StrictlySorted(a) && StrictlySorted(b)
    requires Elems(a) == Elems(b)
    ensures a == b
    decreases |a|
  {
    if |a| == 0 {
      ElemsEmpty(a);
      ElemsEmpty(b);
    } else {
      assert a[0] in Elems(b);
      assert |b| > 0;
      assert b[0] in Elems(a);
      if a[0] != b[0] {
        var k :| 0 <= k < |b| && b[k] == a[0];
        var m :| 0 <= m < |a| && a[m] == b[0];
        assert Less(b[0], a[0]);
        assert Less(a[0], b[0]);
        Asymmetric(a[0], b[0]);
      }
      SortedIsDistinct(a);
      SortedIsDistinct(b);
      assert Elems(a[1..]) == Elems(a) - {a[0]} by {
        assert a == [a[0]] + a[1..];
      }
      assert Elems(b[1..]) == Elems(b) - {b[0]} by {
        assert b == [b[0]] + b[1..];
      }
      SortedBySet(a[1..], b[1..]);
      assert a == [a[0]] + a[1..] && b == [b[0]] + b[1..];
    }
  }

  /** `np.unique` depends on nothing but the set of its input's elements. */
  lemma UniqueBySet(xs: seq<string>, ys: seq<string>)
    requires Elems(xs) == Elems(ys)
    ensures Unique(xs) == Unique(ys)
  {
    UniqueSpec(xs);
    UniqueSpec(ys);
    SortedBySet(Unique(xs), Unique(ys));
  }

  /** The output of `np.unique` has one element per distinct input value. */
  lemma {:induction false} DistinctCard<T>(s: seq<T>)
    requires Distinct(s)
    ensures |Elems(s)| == |s|
  {
    if |s| > 0 {
      var t := s[..|s| - 1];
      assert s == t + [s[|s| - 1]];
      assert s[|s| - 1] !in Elems(t);
      ElemsConcat(t, [s[|s| - 1]]);
      assert Elems([s[|s| - 1]]) == {s[|s| - 1]};
      DistinctCard(t);
    }
  }

  lemma UniqueCard(xs: seq<string>)
    ensures |Unique(xs)| == |Elems(xs)|
  {
    UniqueSpec(xs);
    SortedIsDistinct(Unique(xs));
    DistinctCard(Unique(xs));
  }

  /** One merge of `np.unique(np.concatenate([extra, acc]))`: the result is
      the ascending pool of both inputs, and never shorter than `acc` when
      `acc` itself is strictly ascending. */
  lemma MergeStep(extra: seq<string>, acc: seq<string>)
    ensures StrictlySorted(Unique(extra + acc))
    ensures Elems(Unique(extra + acc)) == Elems(acc) + Elems(extra)
    ensures |Unique(extra + acc)| == |Elems(acc) + Elems(extra)|
    ensures StrictlySorted(acc) ==> |acc| <= |Unique(extra + acc)|
  {
    UniqueSpec(extra + acc);
    UniqueCard(extra + acc);
    ElemsConcat(extra, acc);
    if StrictlySorted(acc) {
      SortedIsDistinct(acc);
      DistinctCard(acc);
      SubsetCardinality(Elems(acc), Elems(acc) + Elems(extra));
    }
  }

  lemma SubsetCardinality<T>(a: set<T>, b: set<T>)
    requires a <= b
    ensures |a| <= |b|
  {
    assert b == a + (b - a);
  }

  /** A prefix of a strictly ascending sequence holds its smallest elements. */
  lemma PrefixHoldsSmallest(s: seq<string>, k: nat)
    requires StrictlySorted(s) && k <= |s|
    ensures forall y, x :: y in s[..k] && x in Elems(s) - Elems(s[..k]) ==> Less(y, x)
  {
    forall y, x | y in s[..k] && x in Elems(s) - Elems(s[..k])
      ensures Less(y, x)
    {
      var i :| 0 <= i < k && s[i] == y;
      var j :| 0 <= j < |s| && s[j] == x;
    }
  }
}
