/** The user x course lead matrix of the recommendation engine and its
    per-user sparse compression (automate/classes/model.py), together with
    the per-user course lookup `requested_courses` shared with the notebooks
    (notebooks/common.py). */
module Interaction {
  import opened SortedUnique

  type UserId = string
  type CourseId = string

  /** One row of the `clean_leads` table as the model reads it: the user and
      the course the user asked about. Both ids are NOT NULL there. */
  datatype Lead = Lead(user: UserId, course: CourseId)

  type Bit = b: int | 0 <= b <= 1

  /** The dense interaction matrix: `cells[i][j] == 1` when user `users[i]`
      has at least one lead for course `courses[j]`. */
  datatype InteractionMatrix = InteractionMatrix(users: seq<UserId>, courses: seq<CourseId>, cells: seq<seq<Bit>>)
  {
    predicate Valid() {
      && |cells| == |users|
      && (forall i :: 0 <= i < |cells| ==> |cells[i]| == |courses|)
      && Distinct(users)
      && Distinct(courses)
    }
  }

  function LeadUsers(leads: seq<Lead>): (r: seq<UserId>)
    ensures |r| == |leads|
    ensures forall i :: 0 <= i < |leads| ==> r[i] == leads[i].user
  {
    seq(|leads|, i requires 0 <= i < |leads| => leads[i].user)
  }

  function LeadCourses(leads: seq<Lead>): (r: seq<CourseId>)
    ensures |r| == |leads|
    ensures forall i :: 0 <= i < |leads| ==> r[i] == leads[i].course
  {
    seq(|leads|, i requires 0 <= i < |leads| => leads[i].course)
  }

  /** `create_leads_user_item_matrix`: group the (user, course) pairs, mark
      each present pair with 1 and fill the rest with 0. pandas sorts the
      group keys, so rows and columns come out in ascending id order. */
  function LeadsMatrix(leads: seq<Lead>): (m: InteractionMatrix)
    ensures m.Valid()
    ensures StrictlySorted(m.users) && Elems(m.users) == (set l | l in leads :: l.user)
    ensures StrictlySorted(m.courses) && Elems(m.courses) == (set l | l in leads :: l.course)
    ensures forall i, j :: 0 <= i < |m.users| && 0 <= j < |m.courses| ==>
              (m.cells[i][j] == 1 <==> Lead(m.users[i], m.courses[j]) in leads)
  {
    var users := Unique(LeadUsers(leads));
    var courses := Unique(LeadCourses(leads));
    UniqueSpec(LeadUsers(leads));
    UniqueSpec(LeadCourses(leads));
    SortedIsDistinct(users);
    SortedIsDistinct(courses);
    assert Elems(LeadUsers(leads)) == (set l | l in leads :: l.user) by {
      forall u | u in (set l | l in leads :: l.user) ensures u in Elems(LeadUsers(leads)) {
        var l :| l in leads && l.user == u;
        var i :| 0 <= i < |leads| && leads[i] == l;
        assert LeadUsers(leads)[i] == u;
      }
    }
    assert Elems(LeadCourses(leads)) == (set l | l in leads :: l.course) by {
      forall c | c in (set l | l in leads :: l.course) ensures c in Elems(LeadCourses(leads)) {
        var l :| l in leads && l.course == c;
        var i :| 0 <= i < |leads| && leads[i] == l;
        assert LeadCourses(leads)[i] == c;
      }
    }
    InteractionMatrix(users, courses,
      seq(|users|, i requires 0 <= i < |users| =>
        seq(|courses|, j requires 0 <= j < |courses| =>
          if Lead(users[i], courses[j]) in leads then 1 else 0)))
  }

  lemma SubsetOfLeads(a: seq<Lead>, b: seq<Lead>)
    requires Elems(a) <= Elems(b)
    ensures Elems(LeadUsers(a)) <= Elems(LeadUsers(b))
    ensures Elems(LeadCourses(a)) <= Elems(LeadCourses(b))
  {
    forall i | 0 <= i < |a|
      ensures a[i].user in LeadUsers(b) && a[i].course in LeadCourses(b)
    {
      assert a[i] in Elems(a);
      var k :| 0 <= k < |b| && b[k] == a[i];
      assert LeadUsers(b)[k] == a[i].user;
      assert LeadCourses(b)[k] == a[i].course;
    }
  }

  /** Repeating a lead, or reordering the leads, leaves the matrix unchanged. */
  lemma LeadsMatrixIgnoresDuplicates(a: seq<Lead>, b: seq<Lead>)
    requires Elems(a) == Elems(b)
    ensures LeadsMatrix(a) == LeadsMatrix(b)
  {
    SubsetOfLeads(a, b);
    SubsetOfLeads(b, a);
    UniqueBySet(LeadUsers(a), LeadUsers(b));
    UniqueBySet(LeadCourses(a), LeadCourses(b));
    var ma, mb := LeadsMatrix(a), LeadsMatrix(b);
    assert ma.cells == mb.cells by {
      forall i | 0 <= i < |ma.cells| ensures ma.cells[i] == mb.cells[i] {
        forall j | 0 <= j < |ma.courses| ensures ma.cells[i][j] == mb.cells[i][j] {
          var l := Lead(ma.users[i], ma.courses[j]);
          assert l in a <==> l in Elems(a);
          assert l in b <==> l in Elems(b);
        }
      }
    }
  }

  /** One row of a `csr_matrix`: its width and the column indices of its
      nonzero entries (every stored value is 1). */
  datatype SparseRow = SparseRow(width: nat, indices: seq<nat>)

  /** The columns at or after `from` where `row` holds a 1, in column order. */
  function NonZero(row: seq<Bit>, from: nat): (r: seq<nat>)
    requires from <= |row|
    ensures forall k :: 0 <= k < |r| ==> from <= r[k] < |row| && row[r[k]] == 1
    ensures forall j :: from <= j < |row| && row[j] == 1 ==> j in r
    ensures forall a, b :: 0 <= a < b < |r| ==> r[a] < r[b]
    decreases |row| - from
  {
    if from == |row| then []
    else (if row[from] == 1 then [from] else []) + NonZero(row, from + 1)
  }

  /** The dense row a sparse row stands for. */
  function Densify(s: SparseRow): seq<Bit> {
    seq(s.width, j => if j in s.indices then 1 else 0)
  }

  function SparseRowOf(m: InteractionMatrix, i: nat): SparseRow
    requires m.Valid() && i < |m.users|
  {
    SparseRow(|m.courses|, NonZero(m.cells[i], 0))
  }

  /** The loop of `compress_leads_user_item_matrix` after its first `n` rows. */
  function CompressRows(m: InteractionMatrix, n: nat): map<UserId, SparseRow>
    requires m.Valid() && n <= |m.users|
  {
    if n == 0 then map[] else CompressRows(m, n - 1)[m.users[n - 1] := SparseRowOf(m, n - 1)]
  }

  /** After `n` rows the map holds one entry per user among them, that
      user's sparse row. */
  lemma {:induction false} CompressRowsFacts(m: InteractionMatrix, n: nat)
    requires m.Valid() && n <= |m.users|
    ensures CompressRows(m, n).Keys == Elems(m.users[..n])
    ensures forall i :: 0 <= i < n ==> CompressRows(m, n)[m.users[i]] == SparseRowOf(m, i)
  {
    if n > 0 {
      CompressRowsFacts(m, n - 1);
      var u := m.users[n - 1];
      assert m.users[..n] == m.users[..n - 1] + [u];
      ElemsConcat(m.users[..n - 1], [u]);
      assert Elems([u]) == {u};
      forall i | 0 <= i < n - 1 ensures CompressRows(m, n)[m.users[i]] == SparseRowOf(m, i) {
        assert m.users[i] != u;
      }
    }
  }

  /** `compress_leads_user_item_matrix`: one entry per matrix row, keyed by the
      row's user; each entry lists exactly the row's 1-columns, ascending, and
      densifies back to the row. */
  function Compress(m: InteractionMatrix): (r: map<UserId, SparseRow>)
    requires m.Valid()
    ensures r.Keys == Elems(m.users)
    ensures forall i :: 0 <= i < |m.users| ==>
              && r[m.users[i]].width == |m.courses|
              && (forall a, b :: 0 <= a < b < |r[m.users[i]].indices| ==>
                    r[m.users[i]].indices[a] < r[m.users[i]].indices[b])
              && Densify(r[m.users[i]]) == m.cells[i]
  {
    var r := CompressRows(m, |m.users|);
    CompressRowsFacts(m, |m.users|);
    assert m.users[..|m.users|] == m.users;
    forall i | 0 <= i < |m.users| ensures Densify(r[m.users[i]]) == m.cells[i] {
      var row := m.cells[i];
      var d := Densify(r[m.users[i]]);
      forall j | 0 <= j < |row| ensures d[j] == row[j] {
        if row[j] == 1 {
          assert j in NonZero(row, 0);
        }
      }
    }
    r
  }

  /** For a matrix built from leads, only users with a lead get a sparse entry. */
  lemma CompressKeysAreLeadUsers(leads: seq<Lead>, u: UserId)
    ensures u in Compress(LeadsMatrix(leads)) <==> exists l :: l in leads && l.user == u
  {
    var m := LeadsMatrix(leads);
    assert Compress(m).Keys == (set l | l in leads :: l.user);
  }

  /** A sparse entry names the courses of its matrix row's 1-columns. */
  lemma CompressRowCourses(m: InteractionMatrix, i: nat)
    requires m.Valid() && i < |m.users|
    ensures (set j | j in Compress(m)[m.users[i]].indices && j < |m.courses| :: m.courses[j])
            == (set j | 0 <= j < |m.courses| && m.cells[i][j] == 1 :: m.courses[j])
  {
    var row := Compress(m)[m.users[i]];
    assert row == SparseRowOf(m, i) by {
      CompressRowsFacts(m, |m.users|);
      assert m.users[..|m.users|] == m.users;
    }
    forall j | 0 <= j < |m.courses|
      ensures j in row.indices <==> m.cells[i][j] == 1
    {
      if m.cells[i][j] == 1 {
        assert j in NonZero(m.cells[i], 0);
      }
    }
  }

  /** In a matrix built from leads, the 1-columns of a user's row are that
      user's lead courses. */
  lemma RowCoursesAreLeadCourses(leads: seq<Lead>, m: InteractionMatrix, i: nat)
    requires m == LeadsMatrix(leads) && i < |m.users|
    ensures (set j | 0 <= j < |m.courses| && m.cells[i][j] == 1 :: m.courses[j])
            == (set l | l in leads && l.user == m.users[i] :: l.course)
  {
    var u := m.users[i];
    var left := set j | 0 <= j < |m.courses| && m.cells[i][j] == 1 :: m.courses[j];
    var right := set l | l in leads && l.user == u :: l.course;
    forall c | c in left ensures c in right {
      var j :| 0 <= j < |m.courses| && m.cells[i][j] == 1 && m.courses[j] == c;
      assert Lead(u, c) in leads;
    }
    forall c | c in right ensures c in left {
      var l :| l in leads && l.user == u && l.course == c;
      assert c in (set l | l in leads :: l.course);
      assert c in Elems(m.courses);
      var j :| 0 <= j < |m.courses| && m.courses[j] == c;
      assert m.cells[i][j] == 1;
    }
  }

  /** For a matrix built from leads, the sparse entry of a user names exactly
      the courses that user has a lead for. */
  lemma CompressRowMatchesLeads(leads: seq<Lead>, u: UserId)
    requires u in Compress(LeadsMatrix(leads))
    ensures var m := LeadsMatrix(leads);
            (set j | j in Compress(m)[u].indices && j < |m.courses| :: m.courses[j])
            == (set l | l in leads && l.user == u :: l.course)
  {
    var m := LeadsMatrix(leads);
    assert u in Elems(m.users);
    var i :| 0 <= i < |m.users| && m.users[i] == u;
    CompressRowCourses(m, i);
    RowCoursesAreLeadCourses(leads, m, i);
  }

  /** `requested_courses`: the course of every lead row of `user`, in row
      order, repeats included. */
  function RequestedCourses(leads: seq<Lead>, user: UserId): (r: seq<CourseId>)
    ensures forall c :: c in r <==> Lead(user, c) in leads
    ensures |r| <= |leads|
  {
    UpToMembers(leads, user, |leads|);
    assert leads[..|leads|] == leads;
    RequestedUpTo(leads, user, |leads|)
  }

  /** The lookup over the first `n` rows. */
  function RequestedUpTo(leads: seq<Lead>, user: UserId, n: nat): seq<CourseId>
    requires n <= |leads|
  {
    if n == 0 then []
    else RequestedUpTo(leads, user, n - 1) + (if leads[n - 1].user == user then [leads[n - 1].course] else [])
  }

  /** Over the first `n` rows, a course is returned iff the user has a row
      for it there. */
  lemma {:induction false} UpToMembers(leads: seq<Lead>, user: UserId, n: nat)
    requires n <= |leads|
    ensures forall c :: c in RequestedUpTo(leads, user, n) <==> Lead(user, c) in leads[..n]
    ensures |RequestedUpTo(leads, user, n)| <= n
  {
    if n > 0 {
      UpToMembers(leads, user, n - 1);
      assert leads[..n] == leads[..n - 1] + [leads[n - 1]];
    }
  }

  /** The lookup over the first `n` rows depends only on those rows. */
  lemma {:induction false} RequestedUpToAgree(s: seq<Lead>, t: seq<Lead>, user: UserId, n: nat)
    requires n <= |s| && n <= |t| && forall i :: 0 <= i < n ==> s[i] == t[i]
    ensures RequestedUpTo(s, user, n) == RequestedUpTo(t, user, n)
  {
    if n > 0 {
      RequestedUpToAgree(s, t, user, n - 1);
    }
  }

  /** Order preservation: the lookup over two consecutive stretches of rows is
      the lookup over the first followed by the lookup over the second. */
  lemma RequestedCoursesConcat(a: seq<Lead>, b: seq<Lead>, user: UserId)
    ensures RequestedCourses(a + b, user) == RequestedCourses(a, user) + RequestedCourses(b, user)
  {
    ConcatUpTo(a, b, user, |b|);
  }

  /** The lookup over `a` and the first `k` rows of `b`. */
  lemma {:induction false} ConcatUpTo(a: seq<Lead>, b: seq<Lead>, user: UserId, k: nat)
    requires k <= |b|
    ensures RequestedUpTo(a + b, user, |a| + k) == RequestedUpTo(a, user, |a|) + RequestedUpTo(b, user, k)
  {
    if k == 0 {
      RequestedUpToAgree(a + b, a, user, |a|);
    } else {
      ConcatUpTo(a, b, user, k - 1);
      assert (a + b)[|a| + k - 1] == b[k - 1];
    }
  }

  /** The positions, among the first `n`, of the rows of `user`. */
  function UserRows(leads: seq<Lead>, user: UserId, n: nat): set<nat>
    requires n <= |leads|
  {
    set i | 0 <= i < n && leads[i].user == user
  }

  /** No deduplication: one result per lead row of the user. */
  lemma RequestedCoursesCount(leads: seq<Lead>, user: UserId)
    ensures |RequestedCourses(leads, user)| == |UserRows(leads, user, |leads|)|
  {
    UpToCount(leads, user, |leads|);
  }

  /** Over the first `n` rows: one result per row of the user. */
  lemma {:induction false} UpToCount(leads: seq<Lead>, user: UserId, n: nat)
    requires n <= |leads|
    ensures |RequestedUpTo(leads, user, n)| == |UserRows(leads, user, n)|
  {
    if n > 0 {
      UpToCount(leads, user, n - 1);
      if leads[n - 1].user == user {
        assert UserRows(leads, user, n) == UserRows(leads, user, n - 1) + {n - 1};
      } else {
        assert UserRows(leads, user, n) == UserRows(leads, user, n - 1);
      }
    }
  }
}
