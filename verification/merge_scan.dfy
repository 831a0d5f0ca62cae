/** The accumulate-and-stop loop of `course_course_recommendations` in
    automate/classes/model.py, over the list of id batches it merges (one
    batch per co-requesting user). Each step is
    `recs = np.unique(np.concatenate([new_recs, recs]))`, and the loop
    breaks as soon as more than `max_recs` ids are held. */
module MergeScan {
  import opened SortedUnique

  /** Every id of the first `k` batches. */
  function Pool(parts: seq<seq<string>>, k: nat): set<string>
    requires k <= |parts|
  {
    if k == 0 then {} else Pool(parts, k - 1) + Elems(parts[k - 1])
  }

  /** The accumulator after merging the first `k` batches. */
  function Merged(parts: seq<seq<string>>, k: nat): seq<string>
    requires k <= |parts|
  {
    if k == 0 then [] else Unique(parts[k - 1] + Merged(parts, k - 1))
  }

  /** The accumulator is the ascending, duplicate-free pool of the batches
      merged so far. */
  lemma {:induction false} MergedIsPool(parts: seq<seq<string>>, k: nat)
    requires k <= |parts|
    ensures StrictlySorted(Merged(parts, k))
    ensures Elems(Merged(parts, k)) == Pool(parts, k)
    ensures |Merged(parts, k)| == |Pool(parts, k)|
  {
    if k > 0 {
      var prev := Merged(parts, k - 1);
      MergedIsPool(parts, k - 1);
      MergeStep(parts[k - 1], prev);
      assert Merged(parts, k) == Unique(parts[k - 1] + prev);
    }
  }

  /** One merge can only add ids. */
  lemma MergeAdds(parts: seq<seq<string>>, k: nat)
    requires 0 < k <= |parts|
    ensures |Merged(parts, k - 1)| <= |Merged(parts, k)|
  {
    var prev := Merged(parts, k - 1);
    MergedIsPool(parts, k - 1);
    MergeStep(parts[k - 1], prev);
  }

  /** The accumulator never shrinks. */
  lemma {:induction false} MergedGrows(parts: seq<seq<string>>, j: nat, k: nat)
    requires j <= k <= |parts|
    ensures |Merged(parts, j)| <= |Merged(parts, k)|
    decreases k - j
  {
    if j < k {
      MergedGrows(parts, j, k - 1);
      MergeAdds(parts, k);
    }
  }

  /** The loop from batch `i` on, holding `acc`; it returns the final
      accumulator and the number of batches consumed. */
  function Scan(parts: seq<seq<string>>, i: nat, acc: seq<string>, maxRecs: nat): (seq<string>, nat)
    requires i <= |parts|
    decreases |parts| - i
  {
    if i == |parts| then (acc, i)
    else
      var next := Unique(parts[i] + acc);
      if |next| > maxRecs then (next, i + 1)
      else Scan(parts, i + 1, next, maxRecs)
  }

  /** The loop stops right after the first merge that leaves more than
      `maxRecs` ids, or when the batches run out; until then it holds
      exactly the merge of the batches consumed. */
  lemma {:induction false} ScanStops(parts: seq<seq<string>>, i: nat, acc: seq<string>, maxRecs: nat)
    requires i <= |parts|
    requires acc == Merged(parts, i) && |acc| <= maxRecs
    ensures var r := Scan(parts, i, acc, maxRecs);
            && i <= r.1 <= |parts|
            && r.0 == Merged(parts, r.1)
            && (r.1 == |parts| || |r.0| > maxRecs)
            && (r.1 > i ==> |Merged(parts, r.1 - 1)| <= maxRecs)
    decreases |parts| - i
  {
    if i < |parts| {
      var next := Unique(parts[i] + acc);
      assert next == Merged(parts, i + 1);
      if |next| <= maxRecs {
        ScanStops(parts, i + 1, next, maxRecs);
      }
    }
  }

  /** The loop from an empty accumulator: what it consumed, and that every
      accumulator before the stop held at most `maxRecs` ids. */
  lemma ScanFromStart(parts: seq<seq<string>>, maxRecs: nat)
    ensures var r := Scan(parts, 0, [], maxRecs);
            && r.1 <= |parts|
            && r.0 == Merged(parts, r.1)
            && (r.1 == |parts| || |r.0| > maxRecs)
            && (forall k :: 0 <= k < r.1 ==> |Merged(parts, k)| <= maxRecs)
  {
    ScanStops(parts, 0, [], maxRecs);
    var r := Scan(parts, 0, [], maxRecs);
    forall k | 0 <= k < r.1 ensures |Merged(parts, k)| <= maxRecs {
      MergedGrows(parts, k, r.1 - 1);
    }
  }
}
