/** The derived rating of a recipe, recomputed from its reviews on every read: the three
    read handlers all apply `reviews.reduce((sum, r) => sum + r.rating, 0) / reviews.length`
    when there is a review and `0` otherwise. */
module Ratings {

  /** `ratings.reduce((sum, r) => sum + r, 0)`, folding from the left. */
  function Sum(rs: seq<int>): int {
    if rs == [] then 0 else Sum(rs[..|rs| - 1]) + rs[|rs| - 1]
  }

  /** The average rating: `0` for no review, otherwise the exact mean of the ratings. */
  function AverageRating(rs: seq<int>): (avg: real)
    ensures rs == [] ==> avg == 0.0
    ensures rs != [] ==> avg * (|rs| as real) == Sum(rs) as real
  {
    if rs == [] then 0.0 else Sum(rs) as real / |rs| as real
  }

  predicate InStars(rs: seq<int>) {
    forall i :: 0 <= i < |rs| ==> 1 <= rs[i] <= 5
  }

  lemma {:induction false} SumAppend(a: seq<int>, b: seq<int>)
    ensures Sum(a + b) == Sum(a) + Sum(b)
  {
    if b == [] {
      assert a + b == a;
    } else {
      assert (a + b)[..|a + b| - 1] == a + b[..|b| - 1];
      SumAppend(a, b[..|b| - 1]);
    }
  }

  lemma {:induction false} SumBounds(rs: seq<int>)
    requires InStars(rs)
    ensures |rs| <= Sum(rs) <= 5 * |rs|
  {
    if rs != [] {
      SumBounds(rs[..|rs| - 1]);
    }
  }

  /** With at least one review, every rating being 1 to 5 stars puts the average in the
      same range. */
  lemma AverageInStars(rs: seq<int>)
    requires rs != [] && InStars(rs)
    ensures 1.0 <= AverageRating(rs) <= 5.0
  {
    SumBounds(rs);
    QuotientBounds(Sum(rs) as real, |rs| as real);
  }

  lemma QuotientBounds(total: real, n: real)
    requires n > 0.0 && n <= total <= 5.0 * n
    ensures 1.0 <= total / n <= 5.0
  {
  }

  /** The sum, and so the average, does not depend on the order of the reviews. */
  lemma {:induction false} SumPermutation(a: seq<int>, b: seq<int>)
    requires multiset(a) == multiset(b)
    ensures Sum(a) == Sum(b)
  {
    if a != [] {
      var x := a[|a| - 1];
      assert a == a[..|a| - 1] + [x];
      assert x in multiset(b);
      var k :| 0 <= k < |b| && b[k] == x;
      var b' := b[..k] + b[k + 1..];
      assert b == b[..k] + [x] + b[k + 1..];
      assert multiset(a) == multiset(a[..|a| - 1]) + multiset{x};
      assert multiset(b) == multiset(b[..k]) + multiset{x} + multiset(b[k + 1..]);
      assert multiset(b') == multiset(b[..k]) + multiset(b[k + 1..]);
      assert multiset(a[..|a| - 1]) == multiset(a) - multiset{x};
      assert multiset(b') == multiset(b) - multiset{x};
      SumPermutation(a[..|a| - 1], b');
      SumAppend(b[..k] + [x], b[k + 1..]);
      SumAppend(b[..k], [x]);
      SumAppend(b[..k], b[k + 1..]);
    }
  }

  lemma AveragePermutation(a: seq<int>, b: seq<int>)
    requires multiset(a) == multiset(b)
    ensures AverageRating(a) == AverageRating(b)
  {
    SumPermutation(a, b);
    assert |a| == |multiset(a)| == |multiset(b)| == |b|;
  }

  /** A new review of `x` stars moves the total by exactly `x` and the count by one. */
  lemma AverageAfterReview(rs: seq<int>, x: int)
    ensures AverageRating(rs + [x]) == (Sum(rs) + x) as real / ((|rs| + 1) as real)
  {
    var ext := rs + [x];
    assert ext[..|ext| - 1] == rs;
    var total, count := Sum(ext), |ext|;
    assert total == Sum(rs) + x && count == |rs| + 1;
    assert AverageRating(ext) == total as real / count as real;
    assert total as real == (Sum(rs) + x) as real && count as real == (|rs| + 1) as real;
  }

  /** Reviews of 5, 3 and 4 stars average 4. */
  lemma AverageOfFiveThreeFour()
    ensures AverageRating([5, 3, 4]) == 4.0
  {
    assert [5, 3, 4][..2] == [5, 3];
    assert [5, 3][..1] == [5];
    assert [5][..0] == [];
  }
}
