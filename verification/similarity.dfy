/** The content-similarity side of automate/classes/model.py: the text each
    course contributes, the sample of courses fed to the similarity
    pipeline, and the loop that turns the similarity matrix into
    `(a_course_id, another_course_id, similarity)` rows. The matrix itself
    comes from an external text package and is an input here. */
module ContentSimilarity {
  import opened Wrappers
  import opened SortedUnique
  import opened Interaction

  /** The columns of a `courses` row the content is built from. */
  datatype CourseText = CourseText(id: CourseId, title: Option<string>, description: Option<string>)

  /** `title.str.cat(description, sep='. ')`: NaN when either part is. */
  function Content(c: CourseText): (r: Option<string>)
    ensures r.Some? <==> c.title.Some? && c.description.Some?
  {
    if c.title.Some? && c.description.Some? then Some(c.title.value + ". " + c.description.value)
    else None
  }

  /** How many leading courses `create_course_content_similarity_matrix`
      keeps: all of them when `sample_len` is falsy (None or 0), otherwise
      `head(sample_len)`, which drops the last `-sample_len` when negative. */
  function SampleSize(n: nat, sampleLen: Option<int>): (k: nat)
    ensures k <= n
    ensures sampleLen.None? || sampleLen.value == 0 ==> k == n
    ensures sampleLen.Some? && sampleLen.value > 0 ==> k == n || k == sampleLen.value
    ensures sampleLen.Some? && sampleLen.value > 0 ==> (k == n <==> n <= sampleLen.value)
    ensures sampleLen.Some? && sampleLen.value < 0 ==> k == n + sampleLen.value || (k == 0 && n <= -sampleLen.value)
  {
    if sampleLen.None? || sampleLen.value == 0 then n
    else if sampleLen.value > 0 then (if sampleLen.value < n then sampleLen.value else n)
    else if n + sampleLen.value > 0 then n + sampleLen.value
    else 0
  }

  /** The texts handed to the similarity pipeline: the content of the
      leading courses, in table order. */
  function Corpus(courses: seq<CourseText>, sampleLen: Option<int>): (r: seq<Option<string>>)
    ensures |r| == SampleSize(|courses|, sampleLen)
    ensures forall i :: 0 <= i < |r| ==> r[i] == Content(courses[i])
  {
    var k := SampleSize(|courses|, sampleLen);
    seq(k, i requires 0 <= i < k => Content(courses[i]))
  }

  /** Cuts a content string after a title of `titleLen` characters and the
      `". "` separator; `None` when the separator is not there. */
  function SplitContent(s: string, titleLen: nat): Option<(string, string)> {
    if titleLen + 2 <= |s| && s[titleLen..titleLen + 2] == ". " then Some((s[..titleLen], s[titleLen + 2..]))
    else None
  }

  /** The content loses nothing: knowing the title's length, the title and
      the description come back out of it. */
  lemma ContentRoundTrip(c: CourseText)
    requires c.title.Some? && c.description.Some?
    ensures Content(c).Some?
    ensures SplitContent(Content(c).value, |c.title.value|) == Some((c.title.value, c.description.value))
  {
    var t, d := c.title.value, c.description.value;
    var s := Content(c).value;
    assert s == t + ". " + d;
    assert s[..|t|] == t;
    assert s[|t|..|t| + 2] == ". ";
    assert s[|t| + 2..] == d;
  }

  /** A negative `head` is the positive `head` of what is left once the
      tail is dropped, and nothing when the tail covers every course. */
  lemma SampleSizeNegative(n: nat, sampleLen: int)
    requires sampleLen < 0
    ensures n + sampleLen > 0 ==> SampleSize(n, Some(sampleLen)) == SampleSize(n, Some(n + sampleLen))
    ensures n + sampleLen <= 0 ==> SampleSize(n, Some(sampleLen)) == 0
  {
  }

  /** A larger positive `sample_len` never keeps fewer courses. */
  lemma SampleSizeMonotone(n: nat, a: int, b: int)
    requires 0 < a <= b
    ensures SampleSize(n, Some(a)) <= SampleSize(n, Some(b))
  {
  }

  /** Sampling keeps a prefix: the corpus of a sample is the full corpus
      cut after `SampleSize` entries, and also the corpus of the leading
      courses alone. */
  lemma CorpusIsPrefix(courses: seq<CourseText>, sampleLen: Option<int>)
    ensures var k := SampleSize(|courses|, sampleLen);
            && Corpus(courses, sampleLen) == Corpus(courses, None)[..k]
            && Corpus(courses, sampleLen) == Corpus(courses[..k], None)
  {
  }

  /** A square matrix of pairwise similarities. */
  predicate Square(sim: seq<seq<real>>) {
    forall i :: 0 <= i < |sim| ==> |sim[i]| == |sim|
  }

  /** The pair `(i, j)` of the matrix makes a row: off the diagonal and not
      below the threshold (the loop skips `similarity < min_similarity`). */
  predicate Qualifies(sim: seq<seq<real>>, minSim: real, p: (nat, nat)) {
    p.0 < |sim| && p.1 < |sim| && p.1 < |sim[p.0]| && p.0 != p.1 && !(sim[p.0][p.1] < minSim)
  }

  /** Row-major order of matrix positions. */
  predicate Before(p: (nat, nat), q: (nat, nat)) {
    p.0 < q.0 || (p.0 == q.0 && p.1 < q.1)
  }

  /** Every listed position qualifies. */
  predicate AllQualify(sim: seq<seq<real>>, minSim: real, ps: seq<(nat, nat)>) {
    forall k :: 0 <= k < |ps| ==> ps[k].0 < |sim| && ps[k].1 < |sim| && Qualifies(sim, minSim, ps[k])
  }

  /** Positions listed in strictly increasing row-major order. */
  predicate RowMajor(ps: seq<(nat, nat)>) {
    forall a, b :: 0 <= a < b < |ps| ==> Before(ps[a], ps[b])
  }

  /** The positions the nested loop emits, from row `i`, column `j` on. */
  function PairsFrom(sim: seq<seq<real>>, minSim: real, i: nat, j: nat): seq<(nat, nat)>
    requires Square(sim) && i <= |sim| && j <= |sim|
    decreases |sim| - i, |sim| - j
  {
    if i == |sim| then []
    else if j == |sim| then PairsFrom(sim, minSim, i + 1, 0)
    else (if Qualifies(sim, minSim, (i, j)) then [(i, j)] else []) + PairsFrom(sim, minSim, i, j + 1)
  }

  /** The loop emits exactly the qualifying positions not before `(i, j)`. */
  lemma {:induction false} PairsFromMeaning(sim: seq<seq<real>>, minSim: real, i: nat, j: nat)
    requires Square(sim) && i <= |sim| && j <= |sim|
    ensures forall p {:trigger p in PairsFrom(sim, minSim, i, j)} :: p in PairsFrom(sim, minSim, i, j) <==> Qualifies(sim, minSim, p) && !Before(p, (i, j))
    decreases |sim| - i, |sim| - j
  {
    if i == |sim| {
    } else if j == |sim| {
      PairsFromMeaning(sim, minSim, i + 1, 0);
    } else {
      PairsFromMeaning(sim, minSim, i, j + 1);
    }
  }

  /** Every position the loop emits qualifies. */
  lemma PairsFromQualify(sim: seq<seq<real>>, minSim: real, i: nat, j: nat)
    requires Square(sim) && i <= |sim| && j <= |sim|
    ensures AllQualify(sim, minSim, PairsFrom(sim, minSim, i, j))
  {
    var ps := PairsFrom(sim, minSim, i, j);
    PairsFromMeaning(sim, minSim, i, j);
    forall k | 0 <= k < |ps| ensures ps[k].0 < |sim| && ps[k].1 < |sim| && Qualifies(sim, minSim, ps[k]) {
      assert ps[k] in ps;
    }
  }

  /** Nothing the loop emits from `(i, j)` on lies before `(i, j)`. */
  lemma {:induction false} PairsFromAfter(sim: seq<seq<real>>, minSim: real, i: nat, j: nat)
    requires Square(sim) && i <= |sim| && j <= |sim|
    ensures forall p {:trigger p in PairsFrom(sim, minSim, i, j)} :: p in PairsFrom(sim, minSim, i, j) ==> !Before(p, (i, j))
    decreases |sim| - i, |sim| - j
  {
    if i == |sim| {
    } else if j == |sim| {
      PairsFromAfter(sim, minSim, i + 1, 0);
    } else {
      PairsFromAfter(sim, minSim, i, j + 1);
    }
  }

  /** The loop emits positions in strictly increasing row-major order, so
      each qualifying position exactly once. */
  lemma {:induction false} PairsFromRowMajor(sim: seq<seq<real>>, minSim: real, i: nat, j: nat)
    requires Square(sim) && i <= |sim| && j <= |sim|
    ensures RowMajor(PairsFrom(sim, minSim, i, j))
    decreases |sim| - i, |sim| - j
  {
    if i == |sim| {
    } else if j == |sim| {
      PairsFromRowMajor(sim, minSim, i + 1, 0);
      assert PairsFrom(sim, minSim, i, j) == PairsFrom(sim, minSim, i + 1, 0);
    } else {
      var rest := PairsFrom(sim, minSim, i, j + 1);
      PairsFromRowMajor(sim, minSim, i, j + 1);
      PairsFromAfter(sim, minSim, i, j + 1);
      if Qualifies(sim, minSim, (i, j)) {
        assert PairsFrom(sim, minSim, i, j) == [(i, j)] + rest;
        ConsRowMajor((i, j), rest);
      } else {
        assert PairsFrom(sim, minSim, i, j) == rest;
      }
    }
  }

  /** A position before every listed one can lead a row-major list. */
  lemma ConsRowMajor(p: (nat, nat), ps: seq<(nat, nat)>)
    requires RowMajor(ps) && forall q :: q in ps ==> !Before(q, p) && q != p
    ensures RowMajor([p] + ps)
  {
    var qs := [p] + ps;
    forall a, b | 0 <= a < b < |qs| ensures Before(qs[a], qs[b]) {
      assert qs[b] == ps[b - 1];
      if a > 0 {
        assert qs[a] == ps[a - 1];
      } else {
        assert ps[b - 1] in ps;
      }
    }
  }

  /** The positions whose similarity is at least `hi`. */
  function AtLeast(sim: seq<seq<real>>, ps: seq<(nat, nat)>, hi: real): seq<(nat, nat)> {
    if |ps| == 0 then []
    else (if Qualifies(sim, hi, ps[0]) then [ps[0]] else []) + AtLeast(sim, ps[1..], hi)
  }

  /** Raising the threshold from `lo` to `hi` keeps exactly the rows of the
      `lo` table whose similarity reaches `hi`, in the same order. */
  lemma {:induction false} PairsFromThreshold(sim: seq<seq<real>>, lo: real, hi: real, i: nat, j: nat)
    requires Square(sim) && i <= |sim| && j <= |sim| && lo <= hi
    ensures PairsFrom(sim, hi, i, j) == AtLeast(sim, PairsFrom(sim, lo, i, j), hi)
    decreases |sim| - i, |sim| - j
  {
    if i == |sim| {
    } else if j == |sim| {
      PairsFromThreshold(sim, lo, hi, i + 1, 0);
      assert PairsFrom(sim, hi, i, j) == PairsFrom(sim, hi, i + 1, 0);
      assert PairsFrom(sim, lo, i, j) == PairsFrom(sim, lo, i + 1, 0);
    } else {
      PairsFromThreshold(sim, lo, hi, i, j + 1);
      var rest := PairsFrom(sim, lo, i, j + 1);
      var kept := AtLeast(sim, rest, hi);
      if Qualifies(sim, lo, (i, j)) {
        assert PairsFrom(sim, lo, i, j) == [(i, j)] + rest;
        assert ([(i, j)] + rest)[1..] == rest;
        assert AtLeast(sim, [(i, j)] + rest, hi) ==
               (if Qualifies(sim, hi, (i, j)) then [(i, j)] else []) + kept;
      } else {
        assert !Qualifies(sim, hi, (i, j));
        assert PairsFrom(sim, lo, i, j) == rest;
      }
    }
  }

  /** One row of the content-similarity table. */
  datatype SimilarityRow = SimilarityRow(a: CourseId, another: CourseId, similarity: real)

  /** The row the loop appends for position `p`. */
  function RowAt(ids: seq<CourseId>, sim: seq<seq<real>>, p: (nat, nat)): SimilarityRow
    requires p.0 < |ids| && p.1 < |ids| && p.0 < |sim| && p.1 < |sim[p.0]|
  {
    SimilarityRow(ids[p.0], ids[p.1], sim[p.0][p.1])
  }

  /** The rows the loop appends for the positions `ps`, in order. */
  function RowsAt(ids: seq<CourseId>, sim: seq<seq<real>>, minSim: real, ps: seq<(nat, nat)>): seq<SimilarityRow>
    requires Square(sim) && |sim| <= |ids| && AllQualify(sim, minSim, ps)
  {
    seq(|ps|, k requires 0 <= k < |ps| => RowAt(ids, sim, ps[k]))
  }

  /** `create_course_content_similarity_df`: the rows for every off-diagonal
      position whose similarity is not below `minSim`, in row-major order.
      `ids` are the `id` column of the courses table, whose first `|sim|`
      rows were sampled. */
  function SimilarityTable(ids: seq<CourseId>, sim: seq<seq<real>>, minSim: real): (r: seq<SimilarityRow>)
    requires Square(sim) && |sim| <= |ids|
    ensures forall e :: e in r <==>
              exists i, j :: 0 <= i < |sim| && 0 <= j < |sim| && i != j && !(sim[i][j] < minSim)
                             && e == SimilarityRow(ids[i], ids[j], sim[i][j])
    ensures Distinct(ids) ==> forall e :: e in r ==> e.a != e.another
    ensures Distinct(ids) ==> forall a, b :: 0 <= a < b < |r| ==> (r[a].a, r[a].another) != (r[b].a, r[b].another)
  {
    var ps := PairsFrom(sim, minSim, 0, 0);
    PairsFromMeaning(sim, minSim, 0, 0);
    PairsFromQualify(sim, minSim, 0, 0);
    PairsFromRowMajor(sim, minSim, 0, 0);
    var r := RowsAt(ids, sim, minSim, ps);
    TableRows(ids, sim, minSim, ps, r);
    if Distinct(ids) then
      TableKeys(ids, sim, minSim, ps, r);
      r
    else r
  }

  /** The rows are exactly those of the qualifying positions. */
  lemma TableRows(ids: seq<CourseId>, sim: seq<seq<real>>, minSim: real, ps: seq<(nat, nat)>, r: seq<SimilarityRow>)
    requires Square(sim) && |sim| <= |ids|
    requires AllQualify(sim, minSim, ps)
    requires forall p :: p in ps <==> Qualifies(sim, minSim, p)
    requires r == RowsAt(ids, sim, minSim, ps)
    ensures forall e :: e in r <==>
              exists i, j :: 0 <= i < |sim| && 0 <= j < |sim| && i != j && !(sim[i][j] < minSim)
                             && e == SimilarityRow(ids[i], ids[j], sim[i][j])
  {
    forall e | e in r
      ensures exists i, j :: 0 <= i < |sim| && 0 <= j < |sim| && i != j && !(sim[i][j] < minSim)
                             && e == SimilarityRow(ids[i], ids[j], sim[i][j])
    {
      var k :| 0 <= k < |r| && r[k] == e;
      assert r[k] == RowAt(ids, sim, ps[k]);
    }
    forall i, j | 0 <= i < |sim| && 0 <= j < |sim| && i != j && !(sim[i][j] < minSim)
      ensures SimilarityRow(ids[i], ids[j], sim[i][j]) in r
    {
      assert Qualifies(sim, minSim, (i, j));
      var k :| 0 <= k < |ps| && ps[k] == (i, j);
      assert r[k] == SimilarityRow(ids[i], ids[j], sim[i][j]);
    }
  }

  /** With unique course ids no row pairs a course with itself and no
      `(a_course_id, another_course_id)` key repeats. */
  lemma TableKeys(ids: seq<CourseId>, sim: seq<seq<real>>, minSim: real, ps: seq<(nat, nat)>, r: seq<SimilarityRow>)
    requires Square(sim) && |sim| <= |ids| && Distinct(ids)
    requires AllQualify(sim, minSim, ps)
    requires RowMajor(ps)
    requires r == RowsAt(ids, sim, minSim, ps)
    ensures forall e :: e in r ==> e.a != e.another
    ensures forall a, b :: 0 <= a < b < |r| ==> (r[a].a, r[a].another) != (r[b].a, r[b].another)
  {
    forall e | e in r ensures e.a != e.another {
      var k :| 0 <= k < |r| && r[k] == e;
      assert r[k] == RowAt(ids, sim, ps[k]);
    }
    forall a, b | 0 <= a < b < |r| ensures (r[a].a, r[a].another) != (r[b].a, r[b].another) {
      assert r[a] == RowAt(ids, sim, ps[a]) && r[b] == RowAt(ids, sim, ps[b]);
      assert Before(ps[a], ps[b]);
    }
  }


  /** The `id` column of the courses table. */
  function CourseIds(courses: seq<CourseText>): seq<CourseId> {
    seq(|courses|, i requires 0 <= i < |courses| => courses[i].id)
  }

  /** The loop labels matrix row `i` with the id in row `i` of the whole
      courses table. With a matrix built from the sampled corpus, that is
      the course whose text is entry `i` of the corpus, because the sample
      is a prefix: every row of the table pairs two sampled courses with
      the score of their texts. */
  lemma SampledTableNamesSampledCourses(courses: seq<CourseText>, sampleLen: Option<int>, sim: seq<seq<real>>, minSim: real)
    requires Square(sim) && |sim| == SampleSize(|courses|, sampleLen)
    ensures var corpus := Corpus(courses, sampleLen);
            forall e :: e in SimilarityTable(CourseIds(courses), sim, minSim) ==>
              exists i, j :: 0 <= i < |corpus| && 0 <= j < |corpus| && i != j
                             && e.a == courses[i].id && e.another == courses[j].id
                             && e.similarity == sim[i][j]
                             && corpus[i] == Content(courses[i]) && corpus[j] == Content(courses[j])
  {
    var corpus := Corpus(courses, sampleLen);
    var ids := CourseIds(courses);
    forall e | e in SimilarityTable(ids, sim, minSim)
      ensures exists i, j :: 0 <= i < |corpus| && 0 <= j < |corpus| && i != j
                             && e.a == courses[i].id && e.another == courses[j].id
                             && e.similarity == sim[i][j]
                             && corpus[i] == Content(courses[i]) && corpus[j] == Content(courses[j])
    {
      var i, j :| 0 <= i < |sim| && 0 <= j < |sim| && i != j && !(sim[i][j] < minSim)
                  && e == SimilarityRow(ids[i], ids[j], sim[i][j]);
      assert corpus[i] == Content(courses[i]) && corpus[j] == Content(courses[j]);
    }
  }
}
