# Course recommender core, modelled in Dafny

This project models the batch core of a course recommender built on
pandas. It covers three parts:

- **Lead-based recommendations.** Leads are (user, course) contact
  requests. They become a user × course 0/1 interaction matrix and a
  per-user sparse map. A course is recommended the other courses requested
  by users who also requested it. The scan stops early, and ids pass
  through `np.unique` at every merge. A full run yields the
  course → recommended-course edge list. A separate filter turns a
  precomputed content-similarity matrix into similarity edges.
- **Record cleaning.** This covers:
  - duplicate removal (last row per key) with a count;
  - null replacement with a count;
  - the column-existence guard;
  - removal of non-English courses and of the leads and reviews that
    reference them;
  - lead counts per course;
  - category numbering;
  - one row per course id.
- **Rating aggregation.** Review counts, mean ratings, the corpus mean and
  the IMDB-style weighted rating.

Modelling choices:

- Ids are strings. `np.unique` and pandas' group sorting are ascending
  code-point order (`LexOrder.Less`).
- Ratings are exact `real`s. NaN is `None`.
- A DataFrame is a `Frame.Table`: named columns, and rows that map column
  names to `Null | Text | Num` cells.
- pandas `==` never matches NaN (`Frame.PdEq`). `duplicated`, `isin` and
  `unique` do treat NaN as one value, so the model compares cells with
  Dafny `==` there.
- Exceptions are `Failure` values of `Result`.
- A fill replacement is an `Option<Value>`: `None` is Python's `None`,
  which `fillna` refuses, and `Some(Null)` is a NaN replacement, which it
  accepts as a fill that changes nothing.

Modules, in dependency order:

- `Wrappers`: Option/Result.
- `LexOrder`: string order.
- `SortedUnique`: `np.unique`.
- `Interaction`: lead matrix, sparse map, `requested_courses`.
- `MergeScan`: the merge-and-stop loop, over any sequence of batches.
- `Recommender`.
- `ContentSimilarity`.
- `Ratings`.
- `Frame`: tables and the column guard.
- `Dedup`: keep-last/keep-first position scans.
- `TableDedup`: `duplicated`/`drop_duplicates` on tables.
- `Cleaning`: leads/reviews cleaning.
- `Courses`: courses-table steps.
- `EtlCleaning`: the ETL stage's duplicate removal.

Two behaviours worth knowing:

- Duplicate removal keeps the last row in table order (`keep='last'`).
  The extraction sorts by `created_on` descending
  (etl/classes/extract.py:19), so the oldest row survives.
- `average_rating` is undefined for a course with no reviews, and also
  when every rating is NaN, because `mean()` skips NaN.

## Model

| member | source | states |
|---|---|---|
| SortedUnique.UniqueSpec | automate/classes/model.py:179 | `np.unique` of any id list is strictly ascending and holds exactly the ids of its input |
| SortedUnique.MergeStep | automate/classes/model.py:179 | merging a new batch into the ascending accumulator yields the ascending union, never shorter than the accumulator |
| Interaction.LeadsMatrix | automate/classes/model.py:132-142 | rows are exactly the distinct lead users and columns exactly the distinct lead courses, both ascending and duplicate-free; cell (u, c) is 1 iff some lead pairs u with c |
| Interaction.LeadsMatrixIgnoresDuplicates | automate/classes/model.py:136-142 | two lead lists holding the same pairs, duplicates or order aside, build the same matrix |
| Interaction.Compress | automate/classes/model.py:144-149 | one sparse entry per matrix row, keyed by that row's user, and each entry densifies back to that row |
| Interaction.CompressRowCourses | automate/classes/model.py:146-149 | the column indices stored for a user name exactly the courses of that user's 1-cells |
| Interaction.CompressKeysAreLeadUsers | automate/classes/model.py:144-149 | for a matrix built from leads, a user has a sparse entry iff the user has a lead |
| Interaction.RowCoursesAreLeadCourses | automate/classes/model.py:136-142 | a user's 1-columns are exactly that user's lead courses |
| Interaction.CompressRowMatchesLeads | automate/classes/model.py:144-149 | a user's sparse entry names exactly the courses the user has leads for |
| Interaction.RequestedCourses | automate/classes/model.py:155-163 | a course is returned iff the user has a lead row for it; the result is no longer than the lead table |
| Interaction.RequestedCoursesConcat | notebooks/common.py:12 | the lookup keeps row order: over two consecutive stretches of rows it is the first stretch's result followed by the second's |
| Interaction.RequestedCoursesCount | notebooks/common.py:5-12 | no deduplication: one result per lead row of the user, so a user without leads gets an empty array |
| MergeScan.MergedIsPool | automate/classes/model.py:175-179 | after k merges the accumulator is the ascending, duplicate-free set of ids of the first k batches |
| MergeScan.MergedGrows | automate/classes/model.py:179 | the accumulator never shrinks from one merge to a later one |
| MergeScan.ScanStops | automate/classes/model.py:175-182 | the loop stops right after the first merge that leaves more than `max_recs` ids, or after the last batch, and returns the accumulator at that point |
| MergeScan.ScanFromStart | automate/classes/model.py:173-182 | from an empty accumulator, every accumulator before the stop held at most `max_recs` ids, and the stop happens only when the limit is exceeded or the batches run out |
| Recommender.CoRequesters | automate/classes/model.py:172 | the users returned are exactly those whose matrix row has 1 in the course's column |
| Recommender.CoRequestersOfLeads | automate/classes/model.py:172 | on a matrix built from leads, a user is a co-requester of a course iff the user has a lead on it |
| Recommender.PoolMeaning | automate/classes/model.py:175-179 | the ids gathered from the first k co-requesters are the courses, other than the source, that one of those users requested |
| Recommender.CoRequestedPoolOfLeads | automate/classes/model.py:172-179 | the full co-requested pool is the set of courses x ≠ c for which some user requested both c and x |
| Recommender.Recommend | automate/classes/model.py:165-184 | fails iff the course is not a matrix column; otherwise at most `max_recs` ids, strictly ascending, never the source course, all from the pool gathered before the stop; exactly min(pool size, `max_recs`) ids, the smallest of that pool; equal to the whole co-requested pool when it has at most `max_recs` ids |
| Recommender.TruncationFacts | automate/classes/model.py:181-184 | the stopped accumulator is ascending and its prefix of `max_recs` holds its smallest ids; if the whole pool fits, nothing is cut |
| Recommender.FullRun | automate/classes/model.py:186-194 | emits an edge (c, r) iff c is a matrix column and r is among c's recommendations under the default cap; no self edges; no edge twice |
| Recommender.RunFromFacts | automate/classes/model.py:189-192 | the same three facts for the columns from j on |
| Recommender.RunCap | automate/classes/model.py:165-194 | no source course gets more than 10 recommended courses in the full run |
| Recommender.RecommendWholePool | automate/classes/model.py:172-184 | when the whole co-requested pool fits under the cap, the recommendations are exactly that pool in ascending order |
| Recommender.TwoUserPool | automate/classes/model.py:172-179 | with leads (u1,cA),(u1,cB),(u2,cA),(u2,cC), cA's co-requested pool is {cB, cC} |
| Recommender.TwoUserExample | automate/classes/model.py:165-184 | in that example cA is recommended exactly [cB, cC] |
| ContentSimilarity.Content | automate/classes/model.py:61 | a course's text is NaN iff its title or its description is NaN (the layout is stated by `ContentRoundTrip`) |
| ContentSimilarity.ContentRoundTrip | automate/classes/model.py:61 | when both parts are present, cutting the content after the title and the `". "` separator gives back the title and the description |
| ContentSimilarity.SampleSize | automate/classes/model.py:63-66 | no or zero `sample_len` keeps all courses; a positive one keeps min(n, `sample_len`); a negative one drops that many from the end (`head`) |
| ContentSimilarity.SampleSizeNegative | automate/classes/model.py:66 | a negative `sample_len` keeps as many courses as the positive `head` of n + `sample_len`, and none when that is not positive |
| ContentSimilarity.SampleSizeMonotone | automate/classes/model.py:66 | a larger positive `sample_len` never keeps fewer courses |
| ContentSimilarity.Corpus | automate/classes/model.py:61-66 | the corpus is the content of the first `SampleSize` courses, in order |
| ContentSimilarity.CorpusIsPrefix | automate/classes/model.py:61-66 | the sampled corpus is the full corpus cut after `SampleSize` entries, and equals the corpus of the leading courses alone |
| ContentSimilarity.PairsFromMeaning | automate/classes/model.py:90-104 | the loop emits a matrix position iff it is off the diagonal and its score is not below the threshold |
| ContentSimilarity.PairsFromRowMajor | automate/classes/model.py:90-93 | positions come out in strictly increasing row-major order, so each exactly once |
| ContentSimilarity.PairsFromThreshold | automate/classes/model.py:97-98 | with a higher threshold the output is the lower threshold's output filtered to scores at or above the higher one, so it is a subset in the same order |
| ContentSimilarity.SimilarityTable | automate/classes/model.py:90-104 | a row (a, b, s) appears iff some off-diagonal position (i, j) with score s ≥ threshold has ids a, b; with unique ids there is no self row and no (a, b) pair twice |
| ContentSimilarity.SampledTableNamesSampledCourses | automate/classes/model.py:86-106 | with a matrix the size of the sample, labelling matrix rows by the positions of the whole courses table is right: each table row pairs two distinct sampled courses, whose texts are the corpus entries at those positions, with their score |
| Ratings.RatingsOf | automate/classes/rating_functions.py:13 | the ratings selected are exactly those of the course's rows |
| Ratings.RatingsOfConcat | automate/classes/rating_functions.py:13 | the selection distributes over concatenation, so every matching row contributes its rating once and in row order |
| Ratings.RatingsOfCount | automate/classes/rating_functions.py:13-30 | the course contributes one rating per review row, exactly `num_reviews` of them |
| Ratings.Mean | automate/classes/rating_functions.py:18 | `mean()` is undefined iff every value is NaN |
| Ratings.AverageRating | automate/classes/rating_functions.py:6-18 | undefined iff every rating of the course is NaN, which includes a course without reviews |
| Ratings.AverageRatingWithin | automate/classes/rating_functions.py:6-18 | a defined average lies between the lowest and highest rating the course received |
| Ratings.AverageRatingUndefinedIffNoReviews | automate/classes/rating_functions.py:13-18 | when no rating is NaN, the average is undefined iff the course has zero reviews |
| Ratings.NumReviews | automate/classes/rating_functions.py:21-30 | the count is the number of review rows whose course is the argument |
| Ratings.CountFromIsRows | automate/classes/rating_functions.py:28-30 | the running row count equals the number of matching positions |
| Ratings.DropUndefined | automate/classes/rating_functions.py:39 | every kept entry is defined and the defined values are those of the input |
| Ratings.AllAvgRating | automate/classes/rating_functions.py:33-41 | the corpus mean is the mean of the defined averages and is undefined iff no course has one |
| Ratings.WeightedRating | automate/classes/rating_functions.py:44-61 | NaN when v = 0 and R is NaN; otherwise raises ZeroDivisionError iff v + m is 0, and is NaN iff R or C is NaN; never raises for a positive m |
| Ratings.WeightedRatingBetween | automate/classes/rating_functions.py:59-61 | with m ≥ 0 and v + m > 0 the weighted rating lies between R and C; it equals R when m = 0 and C when v = 0 |
| Frame.Missing | automate/classes/transform.py:282 | the names reported are exactly the subset names that are not columns |
| Frame.Guard | automate/classes/transform.py:269-283 | fails iff a non-`None` subset names an absent column, a single string counting as a one-element list; the error lists exactly the absent names |
| Frame.CountWhereIsWhere | automate/classes/transform.py:66 | a boolean mask's `sum()` is the number of matching rows |
| Dedup.LastScanSpec | automate/classes/transform.py:55 | the right-to-left scan keeps, in increasing order, exactly the positions that hold the last occurrence of their key |
| Dedup.KeepLastSpec | automate/classes/transform.py:55 | `keep='last'` survivors are in original order, each the last row of its key |
| Dedup.KeepLastUnique | automate/classes/transform.py:55 | no two survivors share a key |
| Dedup.KeepLastCovers | automate/classes/transform.py:55 | every input key is the key of some survivor |
| Dedup.KeepLastDistinct | automate/classes/transform.py:54-55 | without repeated keys every position survives |
| Dedup.FirstScanSpec | automate/classes/transform.py:134 | the left-to-right scan keeps, in increasing order, exactly the first occurrences |
| Dedup.KeepFirstSpec | automate/classes/transform.py:134 | `keep='first'` survivors are in original order, each the first row of its key, no key twice |
| Dedup.KeepFirstCovers | automate/classes/transform.py:134 | every input key is the key of some first-occurrence survivor |
| Dedup.AnyDuplicatedMeaning | automate/classes/transform.py:54 | `duplicated().sum() > 0` iff some key repeats |
| TableDedup.AnyDuplicatedRows | automate/classes/transform.py:54 | an empty frame flags nothing; otherwise absent labels raise KeyError naming all of them, an empty label list raises, and the answer is "some key repeats" |
| TableDedup.DropLastKeepsLast | automate/classes/transform.py:55 | the kept rows are the input rows, in order, that hold the last occurrence of their key |
| TableDedup.DropLastKeys | etl/classes/transform.py:25 | afterwards no key repeats and the set of keys is unchanged |
| TableDedup.DropLastCount | automate/classes/transform.py:24-27 | as many rows remain as there are distinct keys |
| TableDedup.DropLastNoDuplicates | etl/classes/transform.py:24-27 | without repeated keys the table is unchanged |
| TableDedup.DropFirstKeepsFirst | automate/classes/transform.py:134 | the kept rows are the input rows, in order, that hold the first occurrence of their key |
| TableDedup.DropFirstKeys | automate/classes/transform.py:134 | afterwards no key repeats and the set of keys is unchanged |
| Cleaning.RemoveDuplicates | automate/classes/transform.py:42-57 | fails iff the guard fails (same error) or a non-empty frame is given an empty subset; `None` judges all columns; the result keeps the columns and is what dropping duplicates yields, whether or not `duplicated` flagged anything |
| Cleaning.RemoveDuplicatedRows | automate/classes/transform.py:18-39 | the count returned is the number of rows minus the number of distinct keys, so never negative, and 0 for an empty frame |
| Cleaning.RemoveDuplicatedRowsTwice | automate/classes/transform.py:18-57 | a second call with the same subset succeeds, changes nothing and returns 0 |
| Cleaning.ReplaceNulls | automate/classes/transform.py:85-99 | an absent column fails the guard naming it; a `None` replacement raises; otherwise every NaN of the column becomes the replacement and every other cell, in that column or elsewhere, is unchanged |
| Cleaning.ReplaceNullsNaNUnchanged | automate/classes/transform.py:97 | a NaN replacement is a legal fill that returns the frame unchanged |
| Cleaning.ReplaceNullsIdempotent | automate/classes/transform.py:97 | after a fill with a non-NaN value the column holds no NaN, and a second fill with the same replacement changes nothing |
| Cleaning.ReplaceNullValues | automate/classes/transform.py:59-83 | an absent column raises KeyError before the guard; a `None` replacement raises; the count is the number of NaN cells of the column before the fill, which is the number of rows the fill changed, except that a NaN replacement changes nothing and still reports every NaN cell |
| Courses.NotEnglishIds | automate/classes/transform.py:188 | the ids collected are exactly those of courses whose language is not 'en', NaN included |
| Courses.EnglishRows | automate/classes/transform.py:191-194 | the remaining rows are exactly the English courses without their `lang` cell |
| Courses.Unreferenced | automate/classes/transform.py:197-198 | a row is kept iff its course id is not among the removed ids, NaN matching NaN |
| Courses.EnglishRowsConcat | automate/classes/transform.py:191-194 | keeping the English rows distributes over concatenation, so each English row is kept once and in table order |
| Courses.EnglishRowsCount | automate/classes/transform.py:191-194 | exactly as many rows remain as there are English courses |
| Courses.UnreferencedConcat | automate/classes/transform.py:197-198 | dropping the removed courses' rows distributes over concatenation, so each kept row appears once and in table order |
| Courses.UnreferencedKeepsAll | automate/classes/transform.py:197-198 | when no row names a removed course, the table is unchanged |
| Courses.RemoveNotInEnglish | automate/classes/transform.py:180-200 | no `lang` column means nothing changes; otherwise it fails iff a needed column is absent, in source order; on success the `lang` column is gone, the courses are exactly the English ones, and a lead or review is kept iff no non-English course has its course id |
| Courses.RemoveNotInEnglishNoDangling | automate/classes/transform.py:197-198 | no remaining lead or review references a removed course |
| Courses.RemoveNotInEnglishRows | automate/classes/transform.py:180-200 | the three tables are the order-preserving row filters, and the courses table keeps one row per English course |
| Courses.RemoveNotInEnglishAllEnglish | automate/classes/transform.py:180-200 | with every course in English only the `lang` column goes: courses keep their rows in order, and leads and reviews are unchanged |
| Courses.NumberOfLeads | automate/classes/transform.py:221-234 | missing `course_id` or `user_id` columns raise; otherwise the count is the number of rows of the course with a user |
| Courses.NumberOfLeadsNone | automate/classes/transform.py:229-232 | NaN and a course no lead names both count 0 |
| Courses.UniqueValuesSpec | automate/classes/transform.py:244 | `unique()` lists every value exactly once, in order of first appearance |
| Courses.CategoryId | automate/classes/transform.py:253-259 | succeeds iff some category's name equals the given one (never NaN), returning that category's id; otherwise raises IndexError |
| Courses.CreateCategories | automate/classes/transform.py:238-266 | a missing `category` column raises KeyError; it fails iff some course has a NaN category; on success the courses keep their count, `category` is replaced by `category_id`, and the table stays well formed |
| Courses.CategoriesNumbered | automate/classes/transform.py:244-250 | category ids are 1..k; the names are exactly the courses' categories, none twice, in order of first appearance |
| Courses.CategoryIdRoundTrip | automate/classes/transform.py:253-264 | each course's `category_id` is the id of its own category; the name cell is gone and every other cell is kept |
| Courses.DistinctCourseIds | automate/classes/transform.py:134 | an empty frame comes back unchanged; a missing `id` column raises; otherwise the first row of each id is kept |
| Courses.DistinctCourseIdsUnique | automate/classes/transform.py:134 | afterwards no two courses share an id and no id is lost |
| EtlCleaning.RemoveDuplicates | etl/classes/transform.py:22-27 | unknown labels raise KeyError naming all of them, except on an empty frame; the result keeps the columns and is what dropping duplicates (keep last) yields |
| EtlCleaning.RemoveDuplicatedRows | etl/classes/transform.py:9-20 | the count is the number of rows minus the number of distinct keys |
| EtlCleaning.RemoveDuplicatedRowsTwice | etl/classes/transform.py:23-27 | a second removal on the result succeeds, changes nothing and removes 0 rows |

## Left out

- Text normalisation, vectorisation and cosine similarity (the sklearn
  pipeline) are foreign code. The similarity matrix is an input of
  `ContentSimilarity.SimilarityTable`, aligned with the course ids.
- Text cleaning (`clean_text`) and language detection (`LangDetector`)
  are foreign code. The `lang` cell is given data.
- Database access, loading and saving, SQL DDL, the pickle dump of the
  sparse map and the similarity save that returns before doing anything
  are I/O. So are the pipeline drivers, console output and credential
  checks.
- The outer merge in `create_courses_df` and the text-cleaning steps after
  it are not modelled. Only the `drop_duplicates('id')` step that
  guarantees unique ids is.
- `change_column_type` (dynamic `astype`) and the `int8` storage dtype of
  the sparse matrix are not modelled.
- IEEE-754 rounding, infinities and NaN arithmetic are not modelled.
  Ratings are exact reals, and every NaN outcome is `None`. The one
  division by zero the code can meet, a zero `v + m` in
  `weighted_rating`, raises on Python numbers and is modelled as a
  failure.
- Recommender.Recommend: `max_recs` is a natural number. Python's negative
  slice `recs[:-k]` is not modelled.
- ContentSimilarity.SimilarityTable: scores are exact reals. A NaN score,
  which `similarity < min_similarity` would let through, is not
  modelled.
- Recommender.Recommend: leads are (user, course) pairs of non-null ids,
  as the leads table declares them NOT NULL. NaN ids in the leads are not
  modelled.
- Cleaning.RemoveDuplicates: of pandas' own behaviour, only the cases the
  code can reach are modelled: the empty-frame shortcut, absent labels
  and an empty label list. The exact text of the guard's error message
  is not.
- The state the transforms assign before raising is not modelled. For
  example, `remove_not_in_english_courses` has already dropped the
  courses when it raises on a missing `course_id`. A failing step returns
  only its error.
