/** The co-occurrence recommender of automate/classes/model.py: for a source
    course, merge the other courses of every user who asked about it, stop
    once more than `max_recs` ids are gathered, and keep the `max_recs`
    smallest ids. */
module Recommender {
  import opened Wrappers
  import opened LexOrder
  import opened SortedUnique
  import opened Interaction
  import opened MergeScan

  /** The `max_recs` default of `course_course_recommendations`. */
  const DefaultMaxRecs: nat := 10

  /** `.loc[:, course_id]` on a course that is not a matrix column raises. */
  datatype RecError = UnknownCourse(course: CourseId)

  /** One row of the course-course recommendations table. */
  datatype RecEdge = RecEdge(course: CourseId, recommended: CourseId)

  function ColumnIndex(courses: seq<CourseId>, course: CourseId): (j: nat)
    requires course in courses
    ensures j < |courses| && courses[j] == course
  {
    if courses[0] == course then 0 else 1 + ColumnIndex(courses[1..], course)
  }

  /** Users from row `i` on whose row has a 1 in column `j`, in row order. */
  function CoRequestersFrom(m: InteractionMatrix, j: nat, i: nat): (r: seq<UserId>)
    requires m.Valid() && j < |m.courses| && i <= |m.users|
    ensures forall u :: u in r <==> exists k :: i <= k < |m.users| && m.users[k] == u && m.cells[k][j] == 1
    ensures StrictlySorted(m.users) ==> StrictlySorted(r)
    decreases |m.users| - i
  {
    if i == |m.users| then []
    else
      var rest := CoRequestersFrom(m, j, i + 1);
      if m.cells[i][j] == 1 then
        assert StrictlySorted(m.users) ==> forall u :: u in rest ==> Less(m.users[i], u);
        [m.users[i]] + rest
      else rest
  }

  /** The users whose matrix row has a 1 in `course`'s column, in row order. */
  function CoRequesters(m: InteractionMatrix, course: CourseId): (r: seq<UserId>)
    requires m.Valid() && course in m.courses
    ensures forall u :: u in r <==> exists k :: 0 <= k < |m.users| && m.users[k] == u
                                     && m.cells[k][ColumnIndex(m.courses, course)] == 1
  {
    CoRequestersFrom(m, ColumnIndex(m.courses, course), 0)
  }

  /** On the matrix built from the leads, the co-requesters of a course are
      exactly the users with a lead on it. */
  lemma CoRequestersOfLeads(leads: seq<Lead>, course: CourseId, u: UserId)
    requires course in LeadsMatrix(leads).courses
    ensures u in CoRequesters(LeadsMatrix(leads), course) <==> Lead(u, course) in leads
  {
    var m := LeadsMatrix(leads);
    var j := ColumnIndex(m.courses, course);
    if Lead(u, course) in leads {
      assert u in Elems(m.users);
      var k :| 0 <= k < |m.users| && m.users[k] == u;
      assert m.cells[k][j] == 1;
    }
  }

  /** `user_courses[user_courses != course_id]`. */
  function Without(xs: seq<CourseId>, course: CourseId): (r: seq<CourseId>)
    ensures forall x :: x in r <==> x in xs && x != course
  {
    if |xs| == 0 then []
    else (if xs[0] == course then [] else [xs[0]]) + Without(xs[1..], course)
  }

  /** `new_recs` for one co-requester: the user's requested courses other
      than the source course. */
  function NewRecs(leads: seq<Lead>, user: UserId, course: CourseId): seq<CourseId> {
    Without(RequestedCourses(leads, user), course)
  }

  /** The `new_recs` batch of every user of `users`, in order. */
  function Batches(leads: seq<Lead>, course: CourseId, users: seq<UserId>): seq<seq<CourseId>> {
    seq(|users|, i requires 0 <= i < |users| => NewRecs(leads, users[i], course))
  }

  /** What the merged pool means: the courses other than the source course
      that one of the first `k` users asked about. */
  lemma {:induction false} PoolMeaning(leads: seq<Lead>, course: CourseId, users: seq<UserId>, k: nat)
    requires k <= |users|
    ensures forall x :: x in Pool(Batches(leads, course, users), k) <==>
              x != course && exists u :: u in users[..k] && Lead(u, x) in leads
  {
    var parts := Batches(leads, course, users);
    if k > 0 {
      PoolMeaning(leads, course, users, k - 1);
      assert users[..k] == users[..k - 1] + [users[k - 1]];
      assert parts[k - 1] == NewRecs(leads, users[k - 1], course);
      forall x | x != course && (exists u :: u in users[..k] && Lead(u, x) in leads)
        ensures x in Pool(parts, k)
      {
        var u :| u in users[..k] && Lead(u, x) in leads;
        if u != users[k - 1] {
          assert u in users[..k - 1];
        } else {
          assert x in parts[k - 1];
        }
      }
    }
  }

  /** Every course co-requested with `course`: asked about, other than
      `course`, by some user who also asked about `course`. */
  function CoRequestedPool(m: InteractionMatrix, leads: seq<Lead>, course: CourseId): set<CourseId>
    requires m.Valid() && course in m.courses
  {
    var users := CoRequesters(m, course);
    Pool(Batches(leads, course, users), |users|)
  }

  /** On the matrix built from the leads, the co-requested pool of a course
      is what the leads say it is. */
  lemma CoRequestedPoolOfLeads(leads: seq<Lead>, course: CourseId, x: CourseId)
    requires course in LeadsMatrix(leads).courses
    ensures x in CoRequestedPool(LeadsMatrix(leads), leads, course) <==>
              x != course && exists u :: Lead(u, course) in leads && Lead(u, x) in leads
  {
    var users := CoRequesters(LeadsMatrix(leads), course);
    PoolMeaning(leads, course, users, |users|);
    assert users[..|users|] == users;
    if x != course && exists u :: Lead(u, course) in leads && Lead(u, x) in leads {
      var u :| Lead(u, course) in leads && Lead(u, x) in leads;
      CoRequestersOfLeads(leads, course, u);
    }
    if x in CoRequestedPool(LeadsMatrix(leads), leads, course) {
      var u :| u in users && Lead(u, x) in leads;
      CoRequestersOfLeads(leads, course, u);
    }
  }

  /** The scan over the co-requesters of `course`, starting empty: the final
      accumulator and the number of co-requesters consumed. */
  function ScanAll(m: InteractionMatrix, leads: seq<Lead>, course: CourseId, maxRecs: nat): (seq<CourseId>, nat)
    requires m.Valid() && course in m.courses
  {
    Scan(Batches(leads, course, CoRequesters(m, course)), 0, [], maxRecs)
  }

  /** `course_course_recommendations`: the `maxRecs` smallest ids of the pool
      gathered before the scan stopped. */
  function Recommend(m: InteractionMatrix, leads: seq<Lead>, course: CourseId, maxRecs: nat): (r: Result<seq<CourseId>, RecError>)
    requires m.Valid()
    ensures r.Failure? <==> course !in m.courses
    ensures r.Success? ==>
              var pool := Elems(ScanAll(m, leads, course, maxRecs).0);
              var all := CoRequestedPool(m, leads, course);
              && |r.value| <= maxRecs
              && StrictlySorted(r.value)
              && course !in r.value
              && Elems(r.value) <= pool <= all
              && |r.value| == (if |pool| < maxRecs then |pool| else maxRecs)
              && (forall y, x :: y in r.value && x in pool - Elems(r.value) ==> Less(y, x))
              && (|all| <= maxRecs ==> Elems(r.value) == all)
  {
    if course !in m.courses then Failure(UnknownCourse(course))
    else
      var acc := ScanAll(m, leads, course, maxRecs).0;
      var k := if |acc| < maxRecs then |acc| else maxRecs;
      TruncationFacts(m, leads, course, maxRecs);
      Success(acc[..k])
  }

  /** What truncating the stopped scan's accumulator yields. */
  lemma TruncationFacts(m: InteractionMatrix, leads: seq<Lead>, course: CourseId, maxRecs: nat)
    requires m.Valid() && course in m.courses
    ensures var acc := ScanAll(m, leads, course, maxRecs).0;
            var pool := Elems(acc);
            var all := CoRequestedPool(m, leads, course);
            var k := if |acc| < maxRecs then |acc| else maxRecs;
            && StrictlySorted(acc)
            && |pool| == |acc|
            && course !in pool
            && pool <= all
            && (forall y, x :: y in acc[..k] && x in pool - Elems(acc[..k]) ==> Less(y, x))
            && (|all| <= maxRecs ==> acc[..k] == acc && pool == all)
  {
    var users := CoRequesters(m, course);
    var parts := Batches(leads, course, users);
    ScanFromStart(parts, maxRecs);
    var scan := Scan(parts, 0, [], maxRecs);
    var acc := scan.0;
    var all := Pool(parts, |parts|);
    var k := if |acc| < maxRecs then |acc| else maxRecs;
    MergedIsPool(parts, scan.1);
    MergedIsPool(parts, |parts|);
    PrefixHoldsSmallest(acc, k);
    SortedIsDistinct(acc);
    DistinctCard(acc);
    PoolMeaning(leads, course, users, |users|);
    PoolMeaning(leads, course, users, scan.1);
    assert Elems(acc) <= all by {
      forall x | x in Elems(acc) ensures x in all {
        var u :| u in users[..scan.1] && Lead(u, x) in leads;
      }
    }
    if |all| <= maxRecs {
      if scan.1 < |parts| {
        MergedGrows(parts, scan.1, |parts|);
      }
      assert acc[..k] == acc;
    }
  }

  /** The recommendations of a matrix column under the default cap. */
  function RecsOf(m: InteractionMatrix, leads: seq<Lead>, course: CourseId): seq<CourseId>
    requires m.Valid() && course in m.courses
  {
    Recommend(m, leads, course, DefaultMaxRecs).value
  }

  /** The rows `{course, recommended}` for one source course. */
  function EdgesOf(course: CourseId, recs: seq<CourseId>): seq<RecEdge> {
    seq(|recs|, i requires 0 <= i < |recs| => RecEdge(course, recs[i]))
  }

  /** `create_course_course_recommendations_df` from column `j` on. */
  function RunFrom(m: InteractionMatrix, leads: seq<Lead>, j: nat): seq<RecEdge>
    requires m.Valid() && j <= |m.courses|
    decreases |m.courses| - j
  {
    if j == |m.courses| then []
    else EdgesOf(m.courses[j], RecsOf(m, leads, m.courses[j])) + RunFrom(m, leads, j + 1)
  }

  /** `create_course_course_recommendations_df`: every column's
      recommendations, column by column. */
  function FullRun(m: InteractionMatrix, leads: seq<Lead>): (r: seq<RecEdge>)
    requires m.Valid()
    ensures forall e :: e in r <==> e.course in m.courses && e.recommended in RecsOf(m, leads, e.course)
    ensures forall e :: e in r ==> e.course != e.recommended
    ensures Distinct(r)
  {
    RunFromFacts(m, leads, 0);
    RunFrom(m, leads, 0)
  }

  /** The rows from column `j` on: exactly the recommendations of those
      columns, never a self-recommendation, never the same row twice (the
      table's primary key). */
  lemma RunFromFacts(m: InteractionMatrix, leads: seq<Lead>, j: nat)
    requires m.Valid() && j <= |m.courses|
    ensures forall e {:trigger e in RunFrom(m, leads, j)} :: e in RunFrom(m, leads, j) <==>
              e.course in m.courses[j..] && e.recommended in RecsOf(m, leads, e.course)
    ensures forall e {:trigger e in RunFrom(m, leads, j)} :: e in RunFrom(m, leads, j) ==> e.course != e.recommended
    ensures Distinct(RunFrom(m, leads, j))
  {
    RunFromMembers(m, leads, j);
    RunFromDistinct(m, leads, j);
    forall e | e in RunFrom(m, leads, j) ensures e.course != e.recommended {
      RecsOfFacts(m, leads, e.course);
    }
  }

  /** The rows from column `j` on are exactly the recommendations of those
      columns. */
  lemma {:induction false} RunFromMembers(m: InteractionMatrix, leads: seq<Lead>, j: nat)
    requires m.Valid() && j <= |m.courses|
    ensures forall e {:trigger e in RunFrom(m, leads, j)} :: e in RunFrom(m, leads, j) <==>
              e.course in m.courses[j..] && e.recommended in RecsOf(m, leads, e.course)
    decreases |m.courses| - j
  {
    if j < |m.courses| {
      var c, later := m.courses[j], m.courses[j + 1..];
      var head, rest := EdgesOf(c, RecsOf(m, leads, c)), RunFrom(m, leads, j + 1);
      RunFromMembers(m, leads, j + 1);
      EdgesOfFacts(c, RecsOf(m, leads, c));
      assert RunFrom(m, leads, j) == head + rest;
      assert m.courses[j..] == [c] + later;
      forall e: RecEdge ensures e in head + rest <==> e.course in [c] + later && e.recommended in RecsOf(m, leads, e.course) {
        assert e in head + rest <==> e in head || e in rest;
        assert e.course in [c] + later <==> e.course == c || e.course in later;
      }
    }
  }

  /** No row appears twice from column `j` on. */
  lemma {:induction false} RunFromDistinct(m: InteractionMatrix, leads: seq<Lead>, j: nat)
    requires m.Valid() && j <= |m.courses|
    ensures Distinct(RunFrom(m, leads, j))
    decreases |m.courses| - j
  {
    if j < |m.courses| {
      var c, later := m.courses[j], m.courses[j + 1..];
      var recs := RecsOf(m, leads, c);
      var rest := RunFrom(m, leads, j + 1);
      RunFromDistinct(m, leads, j + 1);
      RunFromMembers(m, leads, j + 1);
      RecsOfFacts(m, leads, c);
      DistinctTail(m.courses, j);
      EdgesDisjoint(c, recs, rest, later);
      DistinctConcat(EdgesOf(c, recs), rest);
      assert RunFrom(m, leads, j) == EdgesOf(c, recs) + rest;
    }
  }

  /** In a duplicate-free sequence, no element reappears after its position. */
  lemma DistinctTail(s: seq<CourseId>, j: nat)
    requires Distinct(s) && j < |s|
    ensures s[j] !in s[j + 1..]
  {
    forall i | j + 1 <= i < |s| ensures s[i] != s[j] {
    }
  }

  /** A course's rows share nothing with rows whose courses come later,
      and are distinct when its recommendations are. */
  lemma EdgesDisjoint(c: CourseId, recs: seq<CourseId>, rest: seq<RecEdge>, later: seq<CourseId>)
    requires Distinct(recs) && c !in later
    requires forall e {:trigger e in rest} :: e in rest ==> e.course in later
    ensures Distinct(EdgesOf(c, recs))
    ensures forall x :: x in EdgesOf(c, recs) ==> x !in rest
  {
    EdgesOfFacts(c, recs);
  }

  /** One course's recommendations: ascending, without duplicates, and never
      the course itself. */
  lemma RecsOfFacts(m: InteractionMatrix, leads: seq<Lead>, c: CourseId)
    requires m.Valid() && c in m.courses
    ensures c !in RecsOf(m, leads, c) && Distinct(RecsOf(m, leads, c))
  {
    SortedIsDistinct(RecsOf(m, leads, c));
  }

  /** One course's rows are the pairs of the course with each of its
      recommendations, each once when the recommendations are distinct. */
  lemma EdgesOfFacts(c: CourseId, recs: seq<CourseId>)
    ensures forall e :: e in EdgesOf(c, recs) <==> e.course == c && e.recommended in recs
    ensures Distinct(recs) ==> Distinct(EdgesOf(c, recs))
  {
    var head := EdgesOf(c, recs);
    forall e | e in head ensures e.course == c && e.recommended in recs {
      var i :| 0 <= i < |head| && head[i] == e;
    }
    forall e: RecEdge | e.course == c && e.recommended in recs ensures e in head {
      var i :| 0 <= i < |recs| && recs[i] == e.recommended;
      assert head[i] == e;
    }
  }

  /** Under the default cap no source course gets more than ten rows. */
  lemma RunCap(m: InteractionMatrix, leads: seq<Lead>, c: CourseId)
    requires m.Valid()
    ensures |set e | e in FullRun(m, leads) && e.course == c :: e.recommended| <= DefaultMaxRecs
  {
    var targets := set e | e in FullRun(m, leads) && e.course == c :: e.recommended;
    if c in m.courses {
      var recs := RecsOf(m, leads, c);
      forall x | x in recs ensures x in targets {
        assert RecEdge(c, x) in FullRun(m, leads);
      }
      assert targets == Elems(recs);
      SortedIsDistinct(recs);
      DistinctCard(recs);
    } else {
      assert targets == {};
    }
  }

  /** Two users asked about `cA`; one also about `cB`, the other about `cC`. */
  function TwoUserLeads(): seq<Lead> {
    [Lead("u1", "cA"), Lead("u1", "cB"), Lead("u2", "cA"), Lead("u2", "cC")]
  }

  /** In that example `cA` is a column of the matrix. */
  lemma TwoUserCourses(leads: seq<Lead>)
    requires leads == TwoUserLeads()
    ensures "cA" in LeadsMatrix(leads).courses
  {
    assert leads[0].course == "cA";
    assert "cA" in Elems(LeadsMatrix(leads).courses);
  }

  /** In that example, `cA` is co-requested with exactly `cB` and `cC`. */
  lemma TwoUserPool(leads: seq<Lead>)
    requires leads == TwoUserLeads()
    ensures "cA" in LeadsMatrix(leads).courses
    ensures CoRequestedPool(LeadsMatrix(leads), leads, "cA") == {"cB", "cC"}
  {
    var m := LeadsMatrix(leads);
    TwoUserCourses(leads);
    var all := CoRequestedPool(m, leads, "cA");
    forall x ensures x in all <==> x == "cB" || x == "cC" {
      TwoUserPoolMember(leads, x);
    }
  }

  /** One course at a time: `x` is co-requested with `cA` iff it is `cB` or `cC`. */
  lemma TwoUserPoolMember(leads: seq<Lead>, x: CourseId)
    requires leads == TwoUserLeads()
    ensures "cA" in LeadsMatrix(leads).courses
    ensures x in CoRequestedPool(LeadsMatrix(leads), leads, "cA") <==> x == "cB" || x == "cC"
  {
    TwoUserCourses(leads);
    CoRequestedPoolOfLeads(leads, "cA", x);
    TwoUserShared(leads, x);
  }

  /** In the example's leads, `cB` and `cC` are the courses other than `cA`
      that a requester of `cA` also asked about. */
  lemma TwoUserShared(leads: seq<Lead>, x: CourseId)
    requires leads == TwoUserLeads()
    ensures (x != "cA" && exists u :: Lead(u, "cA") in leads && Lead(u, x) in leads) <==> x == "cB" || x == "cC"
  {
    if x == "cB" {
      assert Lead("u1", "cA") in leads && Lead("u1", "cB") in leads;
    } else if x == "cC" {
      assert Lead("u2", "cA") in leads && Lead("u2", "cC") in leads;
    } else if x != "cA" {
      forall u ensures Lead(u, x) !in leads {
        assert forall k :: 0 <= k < |leads| ==> leads[k].course != x;
      }
    }
  }

  /** In that example `cA` is recommended `cB` and `cC`, in ascending order. */
  lemma TwoUserExample(leads: seq<Lead>)
    requires leads == TwoUserLeads()
    ensures Recommend(LeadsMatrix(leads), leads, "cA", DefaultMaxRecs) == Success(["cB", "cC"])
  {
    TwoUserPool(leads);
    var want := ["cB", "cC"];
    assert Less("cB", "cC") by {
      assert "cB"[0] == "cC"[0];
      assert "cB"[1..] == "B" && "cC"[1..] == "C";
    }
    assert Elems(want) == {"cB", "cC"} by {
      assert want[0] == "cB" && want[1] == "cC";
    }
    RecommendWholePool(LeadsMatrix(leads), leads, "cA", want);
  }

  /** When the whole co-requested pool fits under the cap, the
      recommendations are that pool in ascending order. */
  lemma RecommendWholePool(m: InteractionMatrix, leads: seq<Lead>, course: CourseId, want: seq<CourseId>)
    requires m.Valid() && course in m.courses
    requires StrictlySorted(want) && |want| <= DefaultMaxRecs
    requires CoRequestedPool(m, leads, course) == Elems(want)
    ensures Recommend(m, leads, course, DefaultMaxRecs) == Success(want)
  {
    var r := Recommend(m, leads, course, DefaultMaxRecs).value;
    SortedIsDistinct(want);
    DistinctCard(want);
    SortedBySet(r, want);
  }
}
