/** The courses-table steps of the `Transform` class in
    automate/classes/transform.py: dropping courses not in English together
    with their leads and reviews, counting a course's leads, numbering the
    categories, and keeping one row per course id. */
module Courses {
  import opened Wrappers
  import opened SortedUnique
  import opened Frame
  import opened Dedup
  import opened TableDedup

  const English: Value := Text("en")

  /** Every row has the `lang` and `id` cells. */
  predicate HasLangAndId(rows: seq<Row>) {
    forall i :: 0 <= i < |rows| ==> "lang" in rows[i] && "id" in rows[i]
  }

  /** `courses_df[courses_df['lang'] != 'en']['id']`: the ids of the courses
      not in English. NaN `!=` 'en' holds, so a course of unknown language
      counts as not English. */
  function NotEnglishIds(rows: seq<Row>): (r: seq<Value>)
    requires HasLangAndId(rows)
    ensures forall v :: v in r <==> exists i :: 0 <= i < |rows| && rows[i]["lang"] != English && rows[i]["id"] == v
  {
    if |rows| == 0 then []
    else
      var rest := NotEnglishIds(rows[1..]);
      assert forall i :: 1 <= i < |rows| ==> rows[i] == rows[1..][i - 1];
      (if rows[0]["lang"] != English then [rows[0]["id"]] else []) + rest
  }

  /** With every course in English nothing is listed for removal. */
  lemma {:induction false} NotEnglishIdsNone(rows: seq<Row>)
    requires HasLangAndId(rows) && forall i :: 0 <= i < |rows| ==> rows[i]["lang"] == English
    ensures NotEnglishIds(rows) == []
  {
    if |rows| > 0 {
      assert forall i :: 1 <= i < |rows| ==> rows[i] == rows[1..][i - 1];
      NotEnglishIdsNone(rows[1..]);
    }
  }

  /** The English courses, each without its `lang` cell: the rows the two
      `drop` calls leave. */
  function EnglishRows(rows: seq<Row>, keys: set<string>): (r: seq<Row>)
    requires "lang" in keys && forall i :: 0 <= i < |rows| ==> rows[i].Keys == keys
    ensures forall k :: 0 <= k < |r| ==> r[k].Keys == keys - {"lang"}
    ensures forall row :: row in r <==>
              exists i :: 0 <= i < |rows| && rows[i]["lang"] == English && row == rows[i] - {"lang"}
    ensures |r| <= |rows|
  {
    EnglishOnlyFacts(rows, keys);
    EnglishOnly(rows, keys)
  }

  /** The row filter behind `EnglishRows`, in table order. */
  function EnglishOnly(rows: seq<Row>, keys: set<string>): seq<Row>
    requires "lang" in keys && forall i :: 0 <= i < |rows| ==> rows[i].Keys == keys
  {
    if |rows| == 0 then []
    else (if rows[0]["lang"] == English then [rows[0] - {"lang"}] else []) + EnglishOnly(rows[1..], keys)
  }

  lemma {:induction false} EnglishOnlyFacts(rows: seq<Row>, keys: set<string>)
    requires "lang" in keys && forall i :: 0 <= i < |rows| ==> rows[i].Keys == keys
    ensures forall k :: 0 <= k < |EnglishOnly(rows, keys)| ==> EnglishOnly(rows, keys)[k].Keys == keys - {"lang"}
    ensures forall row :: row in EnglishOnly(rows, keys) <==>
              exists i :: 0 <= i < |rows| && rows[i]["lang"] == English && row == rows[i] - {"lang"}
    ensures |EnglishOnly(rows, keys)| <= |rows|
  {
    if |rows| > 0 {
      assert forall i :: 1 <= i < |rows| ==> rows[i] == rows[1..][i - 1];
      EnglishOnlyFacts(rows[1..], keys);
    }
  }

  /** `df[~df['course_id'].isin(ids)]`: the rows whose course is not among
      `ids`. `isin` matches NaN with NaN. */
  function Unreferenced(rows: seq<Row>, ids: seq<Value>): (r: seq<Row>)
    requires forall i :: 0 <= i < |rows| ==> "course_id" in rows[i]
    ensures forall row :: row in r <==> row in rows && "course_id" in row && row["course_id"] !in ids
    ensures |r| <= |rows|
  {
    KeptRowsMembers(rows, ids);
    KeptRows(rows, ids)
  }

  /** The row filter behind `Unreferenced`, in table order. */
  function KeptRows(rows: seq<Row>, ids: seq<Value>): seq<Row>
    requires forall i :: 0 <= i < |rows| ==> "course_id" in rows[i]
  {
    if |rows| == 0 then []
    else (if rows[0]["course_id"] !in ids then [rows[0]] else []) + KeptRows(rows[1..], ids)
  }

  lemma {:induction false} KeptRowsMembers(rows: seq<Row>, ids: seq<Value>)
    requires forall i :: 0 <= i < |rows| ==> "course_id" in rows[i]
    ensures forall row :: row in KeptRows(rows, ids) <==> row in rows && "course_id" in row && row["course_id"] !in ids
    ensures |KeptRows(rows, ids)| <= |rows|
  {
    if |rows| > 0 {
      assert forall i :: 1 <= i < |rows| ==> rows[i] == rows[1..][i - 1];
      KeptRowsMembers(rows[1..], ids);
      assert rows == [rows[0]] + rows[1..];
    }
  }

  /** Keeping the English rows distributes over concatenation, so every
      English row is kept once and in table order. */
  lemma EnglishRowsConcat(a: seq<Row>, b: seq<Row>, keys: set<string>)
    requires "lang" in keys
    requires forall i :: 0 <= i < |a| ==> a[i].Keys == keys
    requires forall i :: 0 <= i < |b| ==> b[i].Keys == keys
    ensures EnglishRows(a + b, keys) == EnglishRows(a, keys) + EnglishRows(b, keys)
  {
    EnglishOnlyConcat(a, b, keys);
  }

  lemma {:induction false} EnglishOnlyConcat(a: seq<Row>, b: seq<Row>, keys: set<string>)
    requires "lang" in keys
    requires forall i :: 0 <= i < |a| ==> a[i].Keys == keys
    requires forall i :: 0 <= i < |b| ==> b[i].Keys == keys
    ensures EnglishOnly(a + b, keys) == EnglishOnly(a, keys) + EnglishOnly(b, keys)
  {
    if |a| == 0 {
      assert a + b == b;
    } else {
      assert (a + b)[0] == a[0];
      assert (a + b)[1..] == a[1..] + b;
      EnglishOnlyConcat(a[1..], b, keys);
    }
  }

  /** With only English rows, each row is kept, minus its `lang` cell. */
  lemma {:induction false} EnglishRowsAll(rows: seq<Row>, keys: set<string>)
    requires "lang" in keys && forall i :: 0 <= i < |rows| ==> rows[i].Keys == keys
    requires forall i :: 0 <= i < |rows| ==> rows[i]["lang"] == English
    ensures |EnglishRows(rows, keys)| == |rows|
    ensures forall k :: 0 <= k < |rows| ==> EnglishRows(rows, keys)[k] == rows[k] - {"lang"}
  {
    if |rows| > 0 {
      var rest := rows[1..];
      assert forall i :: 1 <= i < |rows| ==> rows[i] == rest[i - 1];
      EnglishRowsAll(rest, keys);
    }
  }

  /** The positions of the English rows among the first `n`. */
  function EnglishPositions(rows: seq<Row>, n: nat): set<nat>
    requires n <= |rows| && forall i :: 0 <= i < |rows| ==> "lang" in rows[i]
  {
    set i | 0 <= i < n && rows[i]["lang"] == English
  }

  /** Extending the prefix by one row adds that row's position when it is English. */
  lemma EnglishPositionsStep(rows: seq<Row>, n: nat)
    requires 0 < n <= |rows| && forall i :: 0 <= i < |rows| ==> "lang" in rows[i]
    ensures |EnglishPositions(rows, n)| ==
            |EnglishPositions(rows, n - 1)| + (if rows[n - 1]["lang"] == English then 1 else 0)
  {
    if rows[n - 1]["lang"] == English {
      assert EnglishPositions(rows, n) == EnglishPositions(rows, n - 1) + {n - 1};
    } else {
      assert EnglishPositions(rows, n) == EnglishPositions(rows, n - 1);
    }
  }

  lemma {:induction false} EnglishRowsPrefixCount(rows: seq<Row>, keys: set<string>, n: nat)
    requires "lang" in keys && forall i :: 0 <= i < |rows| ==> rows[i].Keys == keys
    requires n <= |rows|
    ensures |EnglishRows(rows[..n], keys)| == |EnglishPositions(rows, n)|
  {
    if n > 0 {
      var front, x := rows[..n - 1], rows[n - 1];
      EnglishRowsPrefixCount(rows, keys, n - 1);
      assert rows[..n] == front + [x];
      EnglishOnlyConcat(front, [x], keys);
      assert [x][1..] == [];
      EnglishPositionsStep(rows, n);
    }
  }

  /** As many rows are kept as there are English courses. */
  lemma EnglishRowsCount(rows: seq<Row>, keys: set<string>)
    requires "lang" in keys && forall i :: 0 <= i < |rows| ==> rows[i].Keys == keys
    ensures |EnglishRows(rows, keys)| == |EnglishPositions(rows, |rows|)|
  {
    EnglishRowsPrefixCount(rows, keys, |rows|);
    assert rows[..|rows|] == rows;
  }

  /** Dropping the rows of the listed courses distributes over
      concatenation, so every other row is kept once and in table order. */
  lemma UnreferencedConcat(a: seq<Row>, b: seq<Row>, ids: seq<Value>)
    requires forall i :: 0 <= i < |a| ==> "course_id" in a[i]
    requires forall i :: 0 <= i < |b| ==> "course_id" in b[i]
    ensures Unreferenced(a + b, ids) == Unreferenced(a, ids) + Unreferenced(b, ids)
  {
    KeptRowsConcat(a, b, ids);
  }

  lemma {:induction false} KeptRowsConcat(a: seq<Row>, b: seq<Row>, ids: seq<Value>)
    requires forall i :: 0 <= i < |a| ==> "course_id" in a[i]
    requires forall i :: 0 <= i < |b| ==> "course_id" in b[i]
    ensures KeptRows(a + b, ids) == KeptRows(a, ids) + KeptRows(b, ids)
  {
    if |a| == 0 {
      assert a + b == b;
    } else {
      assert (a + b)[0] == a[0];
      assert (a + b)[1..] == a[1..] + b;
      KeptRowsConcat(a[1..], b, ids);
    }
  }

  /** When no row names a listed course, the table comes back unchanged. */
  lemma UnreferencedKeepsAll(rows: seq<Row>, ids: seq<Value>)
    requires forall i :: 0 <= i < |rows| ==> "course_id" in rows[i] && rows[i]["course_id"] !in ids
    ensures Unreferenced(rows, ids) == rows
  {
    KeptRowsKeepsAll(rows, ids);
  }

  lemma {:induction false} KeptRowsKeepsAll(rows: seq<Row>, ids: seq<Value>)
    requires forall i :: 0 <= i < |rows| ==> "course_id" in rows[i] && rows[i]["course_id"] !in ids
    ensures KeptRows(rows, ids) == rows
  {
    if |rows| > 0 {
      KeptRowsKeepsAll(rows[1..], ids);
    }
  }

  /** A filtered table keeps the columns and stays valid. */
  lemma FilteredValid(t: Table, rows: seq<Row>)
    requires t.Valid() && forall row :: row in rows ==> row in t.rows
    ensures Table(t.columns, rows).Valid()
  {
    forall k | 0 <= k < |rows| ensures rows[k].Keys == Elems(t.columns) {
      assert rows[k] in t.rows;
    }
  }

  /** Some course not in English has id `v`. */
  predicate RemovedCourse(courses: Table, v: Value)
    requires courses.Valid() && "lang" in courses.columns && "id" in courses.columns
  {
    exists i :: 0 <= i < |courses.rows| && courses.rows[i]["lang"] != English && courses.rows[i]["id"] == v
  }

  /** `remove_not_in_english_courses`, returning the new courses, leads and
      reviews tables. Without a `lang` column nothing changes. Otherwise the
      courses not in English and the `lang` column go, and so do the reviews
      and then the leads of those courses; selecting an absent `course_id`
      or `id` column raises KeyError in that order. */
  function RemoveNotInEnglish(courses: Table, leads: Table, reviews: Table): (r: Result<(Table, Table, Table), FrameError>)
    requires courses.Valid() && leads.Valid() && reviews.Valid()
    ensures "lang" !in courses.columns ==> r == Success((courses, leads, reviews))
    ensures "lang" in courses.columns ==>
              (r.Failure? <==> "course_id" !in reviews.columns || "id" !in courses.columns || "course_id" !in leads.columns)
    ensures "lang" in courses.columns && "course_id" !in reviews.columns ==> r == Failure(KeyError("course_id"))
    ensures "lang" in courses.columns && "course_id" in reviews.columns && "id" !in courses.columns ==>
              r == Failure(KeyError("id"))
    ensures "lang" in courses.columns && r.Success? ==>
              var (c, l, v) := r.value;
              && c.Valid() && l.Valid() && v.Valid()
              && c.columns == Remove(courses.columns, "lang")
              && l.columns == leads.columns && v.columns == reviews.columns
              && (forall row :: row in c.rows <==>
                    exists i :: 0 <= i < |courses.rows| && courses.rows[i]["lang"] == English && row == courses.rows[i] - {"lang"})
              && (forall row :: row in l.rows <==>
                    row in leads.rows && "course_id" in row && !RemovedCourse(courses, row["course_id"]))
              && (forall row :: row in v.rows <==>
                    row in reviews.rows && "course_id" in row && !RemovedCourse(courses, row["course_id"]))
  {
    if "lang" !in courses.columns then Success((courses, leads, reviews))
    else if "course_id" !in reviews.columns then Failure(KeyError("course_id"))
    else if "id" !in courses.columns then Failure(KeyError("id"))
    else if "course_id" !in leads.columns then Failure(KeyError("course_id"))
    else
      ValidHasColumns(courses, ["lang", "id"]);
      ValidHasColumns(leads, ["course_id"]);
      ValidHasColumns(reviews, ["course_id"]);
      var removed := NotEnglishIds(courses.rows);
      var c := Table(Remove(courses.columns, "lang"), EnglishRows(courses.rows, Elems(courses.columns)));
      var v := Table(reviews.columns, Unreferenced(reviews.rows, removed));
      var l := Table(leads.columns, Unreferenced(leads.rows, removed));
      assert Elems(c.columns) == Elems(courses.columns) - {"lang"};
      FilteredValid(leads, l.rows);
      FilteredValid(reviews, v.rows);
      Success((c, l, v))
  }

  /** After the removal no lead or review refers to a course that was not
      in English, and every other lead and review is kept. */
  lemma RemoveNotInEnglishNoDangling(courses: Table, leads: Table, reviews: Table, i: nat)
    requires courses.Valid() && leads.Valid() && reviews.Valid()
    requires "lang" in courses.columns && "id" in courses.columns
    requires RemoveNotInEnglish(courses, leads, reviews).Success?
    requires i < |courses.rows| && courses.rows[i]["lang"] != English
    ensures var (_, l, v) := RemoveNotInEnglish(courses, leads, reviews).value;
            && (forall row :: row in l.rows ==> row["course_id"] != courses.rows[i]["id"])
            && (forall row :: row in v.rows ==> row["course_id"] != courses.rows[i]["id"])
  {
  }

  /** The three tables come out of the row filters above, so each keeps
      its surviving rows once and in their original order, and the courses
      table keeps one row per English course. */
  lemma RemoveNotInEnglishRows(courses: Table, leads: Table, reviews: Table)
    requires courses.Valid() && leads.Valid() && reviews.Valid()
    requires "lang" in courses.columns
    requires RemoveNotInEnglish(courses, leads, reviews).Success?
    ensures HasLangAndId(courses.rows)
    ensures forall i :: 0 <= i < |leads.rows| ==> "course_id" in leads.rows[i]
    ensures forall i :: 0 <= i < |reviews.rows| ==> "course_id" in reviews.rows[i]
    ensures var (c, l, v) := RemoveNotInEnglish(courses, leads, reviews).value;
            var removed := NotEnglishIds(courses.rows);
            && c.rows == EnglishRows(courses.rows, Elems(courses.columns))
            && |c.rows| == |EnglishPositions(courses.rows, |courses.rows|)|
            && l.rows == Unreferenced(leads.rows, removed)
            && v.rows == Unreferenced(reviews.rows, removed)
  {
    ValidHasColumns(courses, ["lang", "id"]);
    ValidHasColumns(leads, ["course_id"]);
    ValidHasColumns(reviews, ["course_id"]);
    EnglishRowsCount(courses.rows, Elems(courses.columns));
  }

  /** When every course is in English only the `lang` column goes: the
      courses keep their rows in order, and leads and reviews are unchanged. */
  lemma RemoveNotInEnglishAllEnglish(courses: Table, leads: Table, reviews: Table)
    requires courses.Valid() && leads.Valid() && reviews.Valid()
    requires "lang" in courses.columns
    requires forall i :: 0 <= i < |courses.rows| ==> courses.rows[i]["lang"] == English
    requires RemoveNotInEnglish(courses, leads, reviews).Success?
    ensures var (c, l, v) := RemoveNotInEnglish(courses, leads, reviews).value;
            && |c.rows| == |courses.rows|
            && (forall k :: 0 <= k < |c.rows| ==> c.rows[k] == courses.rows[k] - {"lang"})
            && l == leads && v == reviews
  {
    RemoveNotInEnglishRows(courses, leads, reviews);
    var rows := courses.rows;
    NotEnglishIdsNone(rows);
    UnreferencedKeepsAll(leads.rows, []);
    UnreferencedKeepsAll(reviews.rows, []);
    EnglishRowsAll(rows, Elems(courses.columns));
  }

  /** A lead of `course`: the course matches (never NaN) and the user is set. */
  function LeadOf(course: Value): Row -> bool {
    row => "course_id" in row && "user_id" in row && PdEq(row["course_id"], course) && row["user_id"] != Null
  }

  /** The positions of `course`'s leads with a user. */
  function LeadRows(leads: Table, course: Value): set<nat>
    requires leads.Valid() && "course_id" in leads.columns && "user_id" in leads.columns
  {
    ValidHasColumns(leads, ["course_id", "user_id"]);
    set i | 0 <= i < |leads.rows| && PdEq(leads.rows[i]["course_id"], course) && leads.rows[i]["user_id"] != Null
  }

  /** `number_of_leads` over `leads_df.groupby('course_id').count()['user_id']`:
      the number of rows of `course` with a user. Grouping drops NaN keys,
      so NaN and a course without rows fall to the `KeyError` branch and
      count 0. A missing `course_id` or `user_id` column raises. */
  function NumberOfLeads(leads: Table, course: Value): (r: Result<nat, FrameError>)
    requires leads.Valid()
    ensures "course_id" !in leads.columns ==> r == Failure(KeyError("course_id"))
    ensures "course_id" in leads.columns && "user_id" !in leads.columns ==> r == Failure(KeyError("user_id"))
    ensures r.Success? <==> "course_id" in leads.columns && "user_id" in leads.columns
    ensures r.Success? ==> r.value == |LeadRows(leads, course)| && r.value <= |leads.rows|
  {
    if "course_id" !in leads.columns then Failure(KeyError("course_id"))
    else if "user_id" !in leads.columns then Failure(KeyError("user_id"))
    else
      ValidHasColumns(leads, ["course_id", "user_id"]);
      var grouped := exists i :: 0 <= i < |leads.rows| && PdEq(leads.rows[i]["course_id"], course);
      CountWhereIsWhere(leads.rows, LeadOf(course), |leads.rows|);
      assert Where(leads.rows, LeadOf(course), |leads.rows|) == LeadRows(leads, course);
      if !grouped then
        assert LeadRows(leads, course) == {};
        Success(0)
      else Success(CountWhere(leads.rows, LeadOf(course), |leads.rows|))
  }

  /** NaN and a course no lead names both count 0 leads. */
  lemma NumberOfLeadsNone(leads: Table, course: Value)
    requires leads.Valid() && "course_id" in leads.columns && "user_id" in leads.columns
    requires course == Null || forall i :: 0 <= i < |leads.rows| ==> leads.rows[i]["course_id"] != course
    ensures NumberOfLeads(leads, course) == Success(0)
  {
    assert LeadRows(leads, course) == {};
  }

  /** One row of the categories table. */
  datatype Category = Category(id: nat, name: Value)

  /** `Series.unique()`: each value once, in order of first appearance; NaN
      is kept, once. */
  function UniqueValues(vs: seq<Value>): seq<Value> {
    KeepFirstSpec(vs);
    Pick(vs, KeepFirst(vs))
  }

  /** `unique()` lists every value exactly once, in order of first
      appearance. */
  lemma UniqueValuesSpec(vs: seq<Value>)
    ensures Distinct(UniqueValues(vs))
    ensures Elems(UniqueValues(vs)) == Elems(vs)
    ensures var u := UniqueValues(vs);
            forall a, b :: 0 <= a < b < |u| ==> u[a] in vs && u[b] in vs && FirstIndex(vs, u[a]) < FirstIndex(vs, u[b])
  {
    var idx := KeepFirst(vs);
    var u := UniqueValues(vs);
    KeepFirstSpec(vs);
    assert forall k :: 0 <= k < |u| ==> u[k] == vs[idx[k]];
    forall x | x in Elems(vs) ensures x in Elems(u) {
      var i :| 0 <= i < |vs| && vs[i] == x;
      KeepFirstCovers(vs, i);
      var k :| 0 <= k < |idx| && idx[k] < |vs| && vs[idx[k]] == x;
      assert u[k] == x;
    }
    forall k | 0 <= k < |u| ensures u[k] in vs && FirstIndex(vs, u[k]) == idx[k] {
      assert idx[k] in idx;
    }
  }

  /** The `category` cell of every course. */
  function CategoryColumn(courses: Table): (r: seq<Value>)
    requires forall i :: 0 <= i < |courses.rows| ==> "category" in courses.rows[i]
    ensures |r| == |courses.rows| && forall i :: 0 <= i < |r| ==> r[i] == courses.rows[i]["category"]
  {
    seq(|courses.rows|, i requires 0 <= i < |courses.rows| => courses.rows[i]["category"])
  }

  /** `category_id`: the id of the first category whose name `==` the
      given one, taken with `.values[0]`; no category matches NaN, which
      raises IndexError. */
  function CategoryId(cats: seq<Category>, name: Value): (r: Result<nat, FrameError>)
    ensures r.Success? <==> exists k :: 0 <= k < |cats| && PdEq(cats[k].name, name)
    ensures r.Failure? ==> r.error == IndexError
    ensures r.Success? ==> exists k :: 0 <= k < |cats| && PdEq(cats[k].name, name) && cats[k].id == r.value
  {
    if |cats| == 0 then Failure(IndexError)
    else if PdEq(cats[0].name, name) then Success(cats[0].id)
    else
      assert forall k :: 1 <= k < |cats| ==> cats[k] == cats[1..][k - 1];
      CategoryId(cats[1..], name)
  }

  /** A course row with its category name replaced by the category's id. */
  function Relabel(row: Row, id: nat): Row {
    (row - {"category"})["category_id" := Num(id as real)]
  }

  /** The columns after adding `category_id` (kept in place when it exists)
      and dropping `category`. */
  function CategorisedColumns(columns: seq<string>): (r: seq<string>)
    ensures Elems(r) == Elems(columns) - {"category"} + {"category_id"}
    ensures Distinct(columns) ==> Distinct(r)
  {
    var kept := Remove(columns, "category");
    if "category_id" in columns then kept
    else
      ElemsConcat(kept, ["category_id"]);
      kept + ["category_id"]
  }

  /** `apply(category_id)` over the courses, then `drop('category')`; the
      first course whose category has no id raises. */
  function AssignIds(rows: seq<Row>, cats: seq<Category>): (r: Result<seq<Row>, FrameError>)
    requires forall i :: 0 <= i < |rows| ==> "category" in rows[i]
    ensures r.Success? <==> forall i :: 0 <= i < |rows| ==> CategoryId(cats, rows[i]["category"]).Success?
    ensures r.Failure? ==> r.error == IndexError
    ensures r.Success? ==>
              |r.value| == |rows|
              && (forall i :: 0 <= i < |rows| ==> r.value[i] == Relabel(rows[i], CategoryId(cats, rows[i]["category"]).value))
              && (forall i :: 0 <= i < |rows| ==> r.value[i].Keys == rows[i].Keys - {"category"} + {"category_id"})
  {
    if |rows| == 0 then Success([])
    else
      match CategoryId(cats, rows[0]["category"])
      case Failure(e) => Failure(e)
      case Success(id) =>
        assert forall i :: 1 <= i < |rows| ==> rows[i] == rows[1..][i - 1];
        match AssignIds(rows[1..], cats)
        case Failure(e) => Failure(e)
        case Success(rest) => Success([Relabel(rows[0], id)] + rest)
  }

  /** The categories numbered from 1 in order of first appearance. */
  function Numbered(names: seq<Value>): (r: seq<Category>)
    ensures |r| == |names| && forall k :: 0 <= k < |r| ==> r[k].name == names[k]
  {
    seq(|names|, k requires 0 <= k < |names| => Category(k + 1, names[k]))
  }

  /** Every value other than NaN has an id among the numbered categories,
      and NaN has none. */
  lemma EveryCategoryNumbered(vs: seq<Value>)
    ensures forall i :: 0 <= i < |vs| ==> (CategoryId(Numbered(UniqueValues(vs)), vs[i]).Success? <==> vs[i] != Null)
  {
    UniqueValuesSpec(vs);
    var cats := Numbered(UniqueValues(vs));
    forall i | 0 <= i < |vs| && vs[i] != Null ensures CategoryId(cats, vs[i]).Success? {
      assert vs[i] in Elems(UniqueValues(vs));
      var k :| 0 <= k < |UniqueValues(vs)| && UniqueValues(vs)[k] == vs[i];
      assert PdEq(cats[k].name, vs[i]);
    }
  }

  /** Relabelled rows fit the categorised columns. */
  lemma RelabelledValid(courses: Table, rows: seq<Row>)
    requires courses.Valid() && "category" in courses.columns && |rows| == |courses.rows|
    requires forall i :: 0 <= i < |rows| ==> rows[i].Keys == courses.rows[i].Keys - {"category"} + {"category_id"}
    ensures Table(CategorisedColumns(courses.columns), rows).Valid()
  {
    forall i | 0 <= i < |rows| ensures rows[i].Keys == Elems(CategorisedColumns(courses.columns)) {
      assert courses.rows[i].Keys == Elems(courses.columns);
    }
  }

  /** `create_categories_df`: the categories table, and the courses with a
      `category_id` in place of the `category` name. A course without a
      category (NaN) makes the lookup raise. */
  function CreateCategories(courses: Table): (r: Result<(seq<Category>, Table), FrameError>)
    requires courses.Valid()
    ensures "category" !in courses.columns ==> r == Failure(KeyError("category"))
    ensures "category" in courses.columns ==>
              (r.Failure? <==> exists i :: 0 <= i < |courses.rows| && courses.rows[i]["category"] == Null)
    ensures "category" in courses.columns && r.Failure? ==> r.error == IndexError
    ensures r.Success? ==>
              && r.value.1.Valid()
              && r.value.1.columns == CategorisedColumns(courses.columns)
              && |r.value.1.rows| == |courses.rows|
  {
    if "category" !in courses.columns then Failure(KeyError("category"))
    else
      assert forall i :: 0 <= i < |courses.rows| ==> courses.rows[i].Keys == Elems(courses.columns);
      var vs := CategoryColumn(courses);
      var cats := Numbered(UniqueValues(vs));
      EveryCategoryNumbered(vs);
      match AssignIds(courses.rows, cats)
      case Failure(e) => Failure(e)
      case Success(rows) =>
        var out := Table(CategorisedColumns(courses.columns), rows);
        RelabelledValid(courses, rows);
        Success((cats, out))
  }

  /** The names of the categories, in table order. */
  function Names(cats: seq<Category>): (r: seq<Value>)
    ensures |r| == |cats| && forall k :: 0 <= k < |cats| ==> r[k] == cats[k].name
  {
    seq(|cats|, k requires 0 <= k < |cats| => cats[k].name)
  }

  /** The categories table numbers the distinct course categories 1, 2, ...
      in order of first appearance: its names are exactly the courses'
      categories, none twice. */
  lemma CategoriesNumbered(courses: Table)
    requires courses.Valid() && "category" in courses.columns && CreateCategories(courses).Success?
    ensures forall i :: 0 <= i < |courses.rows| ==> "category" in courses.rows[i]
    ensures var cats := CreateCategories(courses).value.0;
            var vs := CategoryColumn(courses);
            && (forall k :: 0 <= k < |cats| ==> cats[k].id == k + 1)
            && Distinct(Names(cats))
            && Elems(Names(cats)) == Elems(vs)
            && (forall a, b :: 0 <= a < b < |cats| ==>
                  cats[a].name in vs && cats[b].name in vs && FirstIndex(vs, cats[a].name) < FirstIndex(vs, cats[b].name))
  {
    assert forall i :: 0 <= i < |courses.rows| ==> courses.rows[i].Keys == Elems(courses.columns);
    var vs := CategoryColumn(courses);
    var cats := CreateCategories(courses).value.0;
    assert cats == Numbered(UniqueValues(vs));
    assert Names(cats) == UniqueValues(vs);
    UniqueValuesSpec(vs);
  }

  /** Each course's new `category_id` is the id of its own category, its
      category name is gone, and its other cells are kept. */
  lemma CategoryIdRoundTrip(courses: Table, i: nat)
    requires courses.Valid() && "category" in courses.columns && CreateCategories(courses).Success?
    requires i < |courses.rows|
    ensures var (cats, out) := CreateCategories(courses).value;
            && "category" !in out.rows[i] && "category_id" in out.rows[i]
            && (exists k :: 0 <= k < |cats| && out.rows[i]["category_id"] == Num(cats[k].id as real)
                             && cats[k].name == courses.rows[i]["category"])
            && (forall c :: c in courses.rows[i] && c != "category" && c != "category_id" ==>
                  out.rows[i][c] == courses.rows[i][c])
  {
    assert forall j :: 0 <= j < |courses.rows| ==> courses.rows[j].Keys == Elems(courses.columns);
    var (cats, out) := CreateCategories(courses).value;
    var name := courses.rows[i]["category"];
    assert out.rows == AssignIds(courses.rows, cats).value;
    var id := CategoryId(cats, name).value;
    assert out.rows[i] == Relabel(courses.rows[i], id);
    var k :| 0 <= k < |cats| && PdEq(cats[k].name, name) && cats[k].id == id;
    RelabelFacts(courses.rows[i], id);
  }

  /** Relabelling drops the name, stores the id and keeps every other cell. */
  lemma RelabelFacts(row: Row, id: nat)
    ensures "category" !in Relabel(row, id) && Relabel(row, id)["category_id"] == Num(id as real)
    ensures forall c :: c in row && c != "category" && c != "category_id" ==> Relabel(row, id)[c] == row[c]
  {
  }

  /** `courses_df.drop_duplicates('id')` with the default `keep='first'`: an
      empty frame comes back as it is, and a missing `id` column raises
      KeyError. */
  function DistinctCourseIds(courses: Table): (r: Result<Table, FrameError>)
    requires courses.Valid()
    ensures r.Failure? <==> !Empty(courses) && "id" !in courses.columns
    ensures r.Failure? ==> r.error == UnknownLabels({"id"})
    ensures r.Success? ==> r.value.Valid() && r.value.columns == courses.columns
    ensures r.Success? && Empty(courses) ==> r.value == courses
    ensures r.Success? && !Empty(courses) ==> r.value == DropFirst(courses, ["id"])
  {
    if Empty(courses) then Success(courses)
    else if "id" !in courses.columns then
      assert UnknownOf(courses, ["id"]) == {"id"};
      Failure(UnknownLabels({"id"}))
    else
      ValidHasColumns(courses, ["id"]);
      Success(DropFirst(courses, ["id"]))
  }

  /** Afterwards no two courses share an id, no id is lost, and each kept
      course is the first row of its id. */
  lemma DistinctCourseIdsUnique(courses: Table)
    requires courses.Valid() && "id" in courses.columns
    ensures var out := DistinctCourseIds(courses).value;
            && (forall k :: 0 <= k < |out.rows| ==> "id" in out.rows[k])
            && (forall a, b :: 0 <= a < b < |out.rows| ==> out.rows[a]["id"] != out.rows[b]["id"])
            && (forall i :: 0 <= i < |courses.rows| ==>
                  exists k :: 0 <= k < |out.rows| && out.rows[k]["id"] == courses.rows[i]["id"])
  {
    var out := DistinctCourseIds(courses).value;
    assert forall k :: 0 <= k < |out.rows| ==> out.rows[k].Keys == Elems(courses.columns);
    assert forall i :: 0 <= i < |courses.rows| ==> courses.rows[i].Keys == Elems(courses.columns);
    if !Empty(courses) {
      ValidHasColumns(courses, ["id"]);
      DropFirstKeys(courses, ["id"]);
      var keys := KeysOf(courses, ["id"]);
      var outKeys := KeysOf(out, ["id"]);
      assert forall k :: 0 <= k < |out.rows| ==> outKeys[k] == [out.rows[k]["id"]];
      assert forall i :: 0 <= i < |courses.rows| ==> keys[i] == [courses.rows[i]["id"]];
      forall a, b | 0 <= a < b < |out.rows| ensures out.rows[a]["id"] != out.rows[b]["id"] {
        assert outKeys[a] != outKeys[b];
      }
      forall i | 0 <= i < |courses.rows| ensures exists k :: 0 <= k < |out.rows| && out.rows[k]["id"] == courses.rows[i]["id"] {
        assert keys[i] in Elems(outKeys);
        var k :| 0 <= k < |outKeys| && outKeys[k] == keys[i];
        assert out.rows[k]["id"] == outKeys[k][0];
      }
    }
  }
}
