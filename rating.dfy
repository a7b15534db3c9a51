/** `TitleReadSerializer.get_rating` and the listing order `['-rating', 'name']`. */
module Rating {
  import opened Models

  function Sum(s: seq<nat>): nat
  {
    if s == [] then 0 else Sum(s[..|s| - 1]) + s[|s| - 1]
  }

  /** The rating the read serializer shows: 0 for no reviews, otherwise the mean of the
      scores truncated toward zero (for non-negative sums this is natural division). */
  function MeanRating(scores: seq<nat>): nat
  {
    if |scores| == 0 then 0 else Sum(scores) / |scores|
  }

  /** The loop of `get_rating`: accumulate `sum` and `count`, then divide. */
  method GetRating(scores: seq<nat>) returns (rating: nat)
    ensures rating == MeanRating(scores)
  {
    var sum: nat := 0;
    var count: nat := 0;
    for i := 0 to |scores|
      invariant sum == Sum(scores[..i])
      invariant count == i
    {
      assert scores[..i + 1][..i] == scores[..i];
      sum := sum + scores[i];
      count := count + 1;
    }
    assert scores[..|scores|] == scores;
    if count == 0 {
      return 0;
    }
    rating := sum / count;
  }

  lemma NoReviewsRateZero()
    ensures MeanRating([]) == 0
  {
  }

  lemma {:induction false} SumBounds(s: seq<nat>, lo: nat, hi: nat)
    requires forall i :: 0 <= i < |s| ==> lo <= s[i] <= hi
    ensures lo * |s| <= Sum(s) <= hi * |s|
  {
    if s != [] {
      var init := s[..|s| - 1];
      assert forall i :: 0 <= i < |init| ==> init[i] == s[i];
      SumBounds(init, lo, hi);
      assert Sum(s) == Sum(init) + s[|s| - 1];
      assert lo * |s| == lo * |init| + lo;
      assert hi * |s| == hi * |init| + hi;
    }
  }

  /** A non-empty rating lies within any bounds every score lies within; in particular
      between the smallest and the largest score. */
  lemma RatingWithinBounds(scores: seq<nat>, lo: nat, hi: nat)
    requires |scores| > 0
    requires forall i :: 0 <= i < |scores| ==> lo <= scores[i] <= hi
    ensures lo <= MeanRating(scores) <= hi
  {
    SumBounds(scores, lo, hi);
    DivWithin(Sum(scores), |scores|, lo, hi);
  }

  lemma DivWithin(s: nat, n: nat, lo: nat, hi: nat)
    requires n > 0 && lo * n <= s <= hi * n
    ensures lo <= s / n <= hi
  {
    var q := s / n;
    assert s == q * n + s % n && s % n < n;
    assert (q + 1) * n == q * n + n;
    assert (hi + 1) * n == hi * n + n;
    MulMonotone(q + 1, lo, n);
    MulMonotone(hi + 1, q, n);
  }

  lemma MulMonotone(a: nat, b: nat, n: nat)
    ensures a <= b ==> a * n <= b * n
  {
  }

  /** With review scores constrained to 1..10, a rating is 0 (no reviews) or in 1..10. */
  lemma RatingOfValidScores(scores: seq<nat>)
    requires forall i :: 0 <= i < |scores| ==> ValidScore(scores[i])
    ensures |scores| == 0 ==> MeanRating(scores) == 0
    ensures |scores| > 0 ==> ValidScore(MeanRating(scores))
  {
    if |scores| > 0 {
      RatingWithinBounds(scores, MinScore, MaxScore);
    }
  }

  lemma RatingExamples()
    ensures MeanRating([8, 9, 10]) == 9
    ensures MeanRating([5, 6]) == 5
  {
    assert Sum([8, 9, 10]) == 27 by {
      assert [8, 9, 10][..2] == [8, 9];
      assert [8, 9][..1] == [8];
      assert [8][..0] == [];
    }
    assert Sum([5, 6]) == 11 by {
      assert [5, 6][..1] == [5];
      assert [5][..0] == [];
    }
  }

  /** Code-point lexicographic order on names. */
  predicate LexLess(a: string, b: string)
  {
    if |a| == 0 then |b| > 0
    else if |b| == 0 then false
    else a[0] < b[0] || (a[0] == b[0] && LexLess(a[1..], b[1..]))
  }

  /** A title as the intended listing order ranks it: its computed rating and its name. */
  datatype Ranked = Ranked(rating: nat, name: string)

  /** The order `ordering = ['-rating', 'name']` names: higher rating first, then name
      ascending. It is the intended order; the queryset has no `rating` to sort by, so
      the code never applies it to the computed rating. */
  predicate ListedBefore(a: Ranked, b: Ranked)
  {
    a.rating > b.rating || (a.rating == b.rating && LexLess(a.name, b.name))
  }

  lemma {:induction false} LexLessIrreflexive(a: string)
    ensures !LexLess(a, a)
  {
    if |a| > 0 {
      LexLessIrreflexive(a[1..]);
    }
  }

  lemma {:induction false} LexLessTransitive(a: string, b: string, c: string)
    requires LexLess(a, b) && LexLess(b, c)
    ensures LexLess(a, c)
  {
    if |a| > 0 && |b| > 0 && |c| > 0 && a[0] == b[0] && b[0] == c[0] {
      LexLessTransitive(a[1..], b[1..], c[1..]);
    }
  }

  /** The listing order is a strict order, so the sort it drives is well defined. */
  lemma ListedBeforeStrictOrder(a: Ranked, b: Ranked, c: Ranked)
    ensures !ListedBefore(a, a)
    ensures ListedBefore(a, b) && ListedBefore(b, c) ==> ListedBefore(a, c)
  {
    LexLessIrreflexive(a.name);
    if ListedBefore(a, b) && ListedBefore(b, c) && a.rating == b.rating && b.rating == c.rating {
      LexLessTransitive(a.name, b.name, c.name);
    }
  }

  /** Titles A (7), B (9), C (7) list as B, A, C. */
  lemma ListingExample()
    ensures ListedBefore(Ranked(9, "B"), Ranked(7, "A"))
    ensures ListedBefore(Ranked(7, "A"), Ranked(7, "C"))
  {
  }
}
