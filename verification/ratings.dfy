/** The rating helpers of automate/classes/rating_functions.py. Ratings are
    reals; pandas' NaN is `None`. `mean()` skips NaN and is NaN when nothing
    is left. */
module Ratings {
  import opened Wrappers
  import opened Interaction

  /** One row of the reviews table. */
  datatype Review = Review(course: CourseId, rating: Option<real>)

  /** The ratings of `course`'s rows, in row order (`df[df['course_id'] == course_id]['rating']`). */
  function RatingsOf(reviews: seq<Review>, course: CourseId): (r: seq<Option<real>>)
    ensures forall x :: x in r <==> exists i :: 0 <= i < |reviews| && reviews[i].course == course && reviews[i].rating == x
    ensures forall i :: 0 <= i < |reviews| && reviews[i].course == course ==> reviews[i].rating in r
  {
    if |reviews| == 0 then []
    else
      var rest := RatingsOf(reviews[1..], course);
      assert forall i :: 1 <= i < |reviews| ==> reviews[i] == reviews[1..][i - 1];
      (if reviews[0].course == course then [reviews[0].rating] else []) + rest
  }

  /** The defined values of a column, in order (NaN dropped). */
  function Present(xs: seq<Option<real>>): (r: seq<real>)
    ensures forall x :: x in r <==> Some(x) in xs
    ensures |r| == 0 <==> forall i :: 0 <= i < |xs| ==> xs[i].None?
  {
    if |xs| == 0 then []
    else (if xs[0].Some? then [xs[0].value] else []) + Present(xs[1..])
  }

  function Sum(xs: seq<real>): real {
    if |xs| == 0 then 0.0 else xs[0] + Sum(xs[1..])
  }

  /** pandas `Series.mean()`: the mean of the defined values, NaN when there
      are none. */
  function Mean(xs: seq<Option<real>>): (r: Option<real>)
    ensures r.None? <==> forall i :: 0 <= i < |xs| ==> xs[i].None?
  {
    var p := Present(xs);
    if |p| == 0 then None else Some(Sum(p) / |p| as real)
  }

  /** A sum of values within `[lo, hi]` lies within `[n * lo, n * hi]`. */
  lemma {:induction false} SumWithin(xs: seq<real>, lo: real, hi: real)
    requires forall x :: x in xs ==> lo <= x <= hi
    ensures |xs| as real * lo <= Sum(xs) <= |xs| as real * hi
  {
    if |xs| > 0 {
      var rest := xs[1..];
      assert xs[0] in xs;
      assert forall x :: x in rest ==> x in xs;
      SumWithin(rest, lo, hi);
      OneMore(|xs| as real, |rest| as real, lo);
      OneMore(|xs| as real, |rest| as real, hi);
    }
  }

  /** `(k + 1) * a` is `k * a + a`. */
  lemma OneMore(n: real, k: real, a: real)
    requires n == k + 1.0
    ensures n * a == k * a + a
  {
  }

  /** The mean of values within `[lo, hi]` lies within `[lo, hi]`. */
  lemma MeanWithin(xs: seq<Option<real>>, lo: real, hi: real)
    requires forall x :: Some(x) in xs ==> lo <= x <= hi
    ensures Mean(xs).Some? ==> lo <= Mean(xs).value <= hi
  {
    var p := Present(xs);
    if |p| > 0 {
      AverageWithin(p, lo, hi);
    }
  }

  /** The average of a non-empty list within `[lo, hi]` lies within `[lo, hi]`. */
  lemma AverageWithin(p: seq<real>, lo: real, hi: real)
    requires |p| > 0 && forall x :: x in p ==> lo <= x <= hi
    ensures lo <= Sum(p) / |p| as real <= hi
  {
    SumWithin(p, lo, hi);
    DivWithin(Sum(p), |p| as real, lo, hi);
  }

  /** Dividing a total within `[n * lo, n * hi]` by `n` lands in `[lo, hi]`. */
  lemma DivWithin(total: real, n: real, lo: real, hi: real)
    requires n > 0.0 && n * lo <= total <= n * hi
    ensures lo <= total / n <= hi
  {
    var q := total / n;
    assert total == q * n;
    assert (q - lo) * n == total - n * lo;
    assert (hi - q) * n == n * hi - total;
  }

  /** `average_rating`: NaN for a course without rows, otherwise the mean of
      its ratings. */
  function AverageRating(reviews: seq<Review>, course: CourseId): (r: Option<real>)
    ensures r.None? <==> forall i :: 0 <= i < |reviews| && reviews[i].course == course ==> reviews[i].rating.None?
  {
    var rows := RatingsOf(reviews, course);
    if |rows| == 0 then None else Mean(rows)
  }

  /** An average rating lies between the lowest and highest rating given to
      the course, so it keeps the 1..5 scale of the reviews. */
  lemma AverageRatingWithin(reviews: seq<Review>, course: CourseId, lo: real, hi: real)
    requires forall i :: 0 <= i < |reviews| && reviews[i].course == course && reviews[i].rating.Some? ==>
               lo <= reviews[i].rating.value <= hi
    ensures AverageRating(reviews, course).Some? ==> lo <= AverageRating(reviews, course).value <= hi
  {
    var rows := RatingsOf(reviews, course);
    forall x | Some(x) in rows ensures lo <= x <= hi {
      var i :| 0 <= i < |reviews| && reviews[i].course == course && reviews[i].rating == Some(x);
    }
    MeanWithin(rows, lo, hi);
  }

  /** The positions of `course`'s rows among the first `n` rows. */
  function RowsOf(reviews: seq<Review>, course: CourseId, n: nat): set<nat>
    requires n <= |reviews|
  {
    set i | 0 <= i < n && reviews[i].course == course
  }

  /** `num_reviews` over the first `n` rows. */
  function CountFrom(reviews: seq<Review>, course: CourseId, n: nat): nat
    requires n <= |reviews|
  {
    if n == 0 then 0
    else CountFrom(reviews, course, n - 1) + (if reviews[n - 1].course == course then 1 else 0)
  }

  /** `num_reviews`: the number of rows of `course`. */
  function NumReviews(reviews: seq<Review>, course: CourseId): (r: nat)
    ensures r == |RowsOf(reviews, course, |reviews|)|
    ensures r <= |reviews|
  {
    CountFromIsRows(reviews, course, |reviews|);
    CountFrom(reviews, course, |reviews|)
  }

  /** The running count is the number of matching positions. */
  lemma {:induction false} CountFromIsRows(reviews: seq<Review>, course: CourseId, n: nat)
    requires n <= |reviews|
    ensures CountFrom(reviews, course, n) == |RowsOf(reviews, course, n)|
    ensures CountFrom(reviews, course, n) <= n
  {
    if n > 0 {
      CountFromIsRows(reviews, course, n - 1);
      var before := RowsOf(reviews, course, n - 1);
      if reviews[n - 1].course == course {
        assert RowsOf(reviews, course, n) == before + {n - 1};
      } else {
        assert RowsOf(reviews, course, n) == before;
      }
    }
  }

  /** Selecting a course's ratings distributes over concatenation, so the
      selection keeps every matching row once and in row order. */
  lemma {:induction false} RatingsOfConcat(a: seq<Review>, b: seq<Review>, course: CourseId)
    ensures RatingsOf(a + b, course) == RatingsOf(a, course) + RatingsOf(b, course)
  {
    if |a| == 0 {
      assert a + b == b;
    } else {
      assert (a + b)[0] == a[0];
      assert (a + b)[1..] == a[1..] + b;
      RatingsOfConcat(a[1..], b, course);
    }
  }

  /** The ratings selected from the first `n` rows are as many as those
      rows' matches. */
  lemma {:induction false} RatingsOfPrefixCount(reviews: seq<Review>, course: CourseId, n: nat)
    requires n <= |reviews|
    ensures |RatingsOf(reviews[..n], course)| == CountFrom(reviews, course, n)
  {
    if n > 0 {
      RatingsOfPrefixCount(reviews, course, n - 1);
      assert reviews[..n] == reviews[..n - 1] + [reviews[n - 1]];
      RatingsOfConcat(reviews[..n - 1], [reviews[n - 1]], course);
      assert [reviews[n - 1]][1..] == [];
    }
  }

  /** A course contributes one rating (defined or NaN) per review row, so
      the mean weighs each rating by how often it was given. */
  lemma RatingsOfCount(reviews: seq<Review>, course: CourseId)
    ensures |RatingsOf(reviews, course)| == NumReviews(reviews, course)
  {
    RatingsOfPrefixCount(reviews, course, |reviews|);
    assert reviews[..|reviews|] == reviews;
  }

  /** When no rating is NaN, a course's average is undefined exactly when
      it has no reviews. */
  lemma AverageRatingUndefinedIffNoReviews(reviews: seq<Review>, course: CourseId)
    requires forall i :: 0 <= i < |reviews| ==> reviews[i].rating.Some?
    ensures AverageRating(reviews, course).None? <==> NumReviews(reviews, course) == 0
  {
    if NumReviews(reviews, course) != 0 {
      var i :| i in RowsOf(reviews, course, |reviews|);
      assert reviews[i].course == course && reviews[i].rating.Some?;
    } else {
      assert forall i :: 0 <= i < |reviews| && reviews[i].course == course ==> i in RowsOf(reviews, course, |reviews|);
    }
  }

  /** `df[~df['avg_rating'].isnull()]['avg_rating']`: the defined entries. */
  function DropUndefined(xs: seq<Option<real>>): (r: seq<Option<real>>)
    ensures forall i :: 0 <= i < |r| ==> r[i].Some?
    ensures Present(r) == Present(xs)
  {
    if |xs| == 0 then []
    else
      var rest := DropUndefined(xs[1..]);
      if xs[0].Some? then
        assert ([xs[0]] + rest)[1..] == rest;
        [xs[0]] + rest
      else rest
  }

  /** `all_avg_rating` (C): the mean of the defined average ratings; NaN
      when no course has one. */
  function AllAvgRating(avgRatings: seq<Option<real>>): (r: Option<real>)
    ensures r.None? <==> forall i :: 0 <= i < |avgRatings| ==> avgRatings[i].None?
    ensures r == Mean(avgRatings)
  {
    Mean(DropUndefined(avgRatings))
  }

  /** The exception `weighted_rating` can raise. */
  datatype RatingError = ZeroDivision

  /** `weighted_rating` (the IMDB formula): `v * R / (v + m) + m * C / (v + m)`
      for `v` reviews of mean `R`, global mean `C` and threshold `m`. A
      course without reviews and without a mean is NaN. Otherwise the row
      handed over by `apply(axis=1)` holds Python numbers, so a zero `v + m`
      raises ZeroDivisionError even when `R` or `C` is NaN; with a non-zero
      `v + m` a NaN `R` or `C` makes the result NaN. */
  function WeightedRating(v: nat, R: Option<real>, C: Option<real>, m: int): (r: Result<Option<real>, RatingError>)
    ensures r.Failure? <==> v + m == 0 && !(v == 0 && R.None?)
    ensures r.Success? ==> (r.value.None? <==> R.None? || C.None?)
    ensures m > 0 ==> r.Success?
  {
    if v == 0 && R.None? then Success(None)
    else if v + m == 0 then Failure(ZeroDivision)
    else if R.None? || C.None? then Success(None)
    else Success(Some((v as real * R.value / (v + m) as real) + (m as real * C.value / (v + m) as real)))
  }

  /** With a non-negative threshold the weighted rating lies between the
      course's own mean and the global mean, and it is the own mean when
      the threshold is 0 and the global mean when there are no reviews. */
  lemma WeightedRatingBetween(v: nat, R: real, C: real, m: nat)
    requires v + m > 0
    ensures var w := WeightedRating(v, Some(R), Some(C), m).value.value;
            && (R <= C ==> R <= w <= C)
            && (C <= R ==> C <= w <= R)
            && (m == 0 ==> w == R)
            && (v == 0 ==> w == C)
  {
    var n, vr, mr := (v + m) as real, v as real, m as real;
    var w := WeightedRating(v, Some(R), Some(C), m).value.value;
    assert w == vr * R / n + mr * C / n;
    Offsets(vr, mr, R, C, n);
    ProductSign(mr, C - R);
    ProductSign(vr, R - C);
    QuotientSign(w - R, n, mr * (C - R));
    QuotientSign(w - C, n, vr * (R - C));
  }

  /** How far the weighted mean of `R` and `C` lies from each of them,
      scaled by the total weight. */
  lemma Offsets(vr: real, mr: real, R: real, C: real, n: real)
    requires n > 0.0 && n == vr + mr
    ensures (vr * R / n + mr * C / n - R) * n == mr * (C - R)
    ensures (vr * R / n + mr * C / n - C) * n == vr * (R - C)
  {
    var a, b := vr * R / n, mr * C / n;
    assert a * n == vr * R;
    assert b * n == mr * C;
    assert (a + b - R) * n == a * n + b * n - R * n;
    assert (a + b - C) * n == a * n + b * n - C * n;
  }

  /** The sign of a product with a non-negative factor. */
  lemma ProductSign(a: real, b: real)
    requires a >= 0.0
    ensures b >= 0.0 ==> a * b >= 0.0
    ensures b <= 0.0 ==> a * b <= 0.0
    ensures a == 0.0 ==> a * b == 0.0
  {
  }

  /** `x` has the sign of `x * n` when `n` is positive. */
  lemma QuotientSign(x: real, n: real, p: real)
    requires n > 0.0 && x * n == p
    ensures p >= 0.0 ==> x >= 0.0
    ensures p <= 0.0 ==> x <= 0.0
  {
  }
}
