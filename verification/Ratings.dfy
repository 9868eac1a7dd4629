/** The rating breakdown of a product: one grouped count instead of six queries,
    and percentages rounded per star. */
module Ratings {
  import opened Rounding

  datatype Review = Review(rating: nat, isApproved: bool)
  datatype Line = Line(star: nat, count: nat, pct: int)

  predicate IsStar(n: nat) { 1 <= n <= 5 }

  // The count the page used to query for each star.
  function CountOf(reviews: seq<Review>, star: nat): nat {
    if reviews == [] then 0
    else CountOf(reviews[1..], star) + if reviews[0].isApproved && reviews[0].rating == star then 1 else 0
  }

  function Approved(reviews: seq<Review>): nat {
    if reviews == [] then 0 else Approved(reviews[1..]) + if reviews[0].isApproved then 1 else 0
  }

  function Sum(counts: map<nat, nat>, keys: seq<nat>): nat {
    if keys == [] then 0
    else Sum(counts, keys[1..]) + if keys[0] in counts then counts[keys[0]] else 0
  }

  function Percent(count: nat, total: nat): int {
    if total == 0 then 0 else Round((count * 100) as real / total as real)
  }

  // GROUP BY rating: one row per rating that occurs, in first-seen order.
  method GroupByRating(reviews: seq<Review>) returns (counts: map<nat, nat>, ratings: seq<nat>)
    ensures forall r :: r in counts <==> r in ratings
    ensures forall i, j :: 0 <= i < j < |ratings| ==> ratings[i] != ratings[j]
    ensures forall star :: CountOf(reviews, star) == if star in counts then counts[star] else 0
    ensures Sum(counts, ratings) == Approved(reviews)
  {
    counts, ratings := map[], [];
    var i := |reviews|;
    assert reviews[i..] == [];
    while i > 0
      invariant 0 <= i <= |reviews|
      invariant forall r :: r in counts <==> r in ratings
      invariant forall j, k :: 0 <= j < k < |ratings| ==> ratings[j] != ratings[k]
      invariant forall star :: CountOf(reviews[i..], star) == if star in counts then counts[star] else 0
      invariant Sum(counts, ratings) == Approved(reviews[i..])
    {
      i := i - 1;
      var review := reviews[i];
      assert reviews[i..][1..] == reviews[i + 1..];
      if review.isApproved {
        if review.rating in counts {
          SumOfUpdate(counts, ratings, review.rating);
          counts := counts[review.rating := counts[review.rating] + 1];
        } else {
          SumOfOther(counts, ratings, review.rating, 1);
          counts := counts[review.rating := 1];
          ratings := [review.rating] + ratings;
        }
      }
    }
    assert reviews[0..] == reviews;
  }

  method RatingBreakdown(reviews: seq<Review>) returns (lines: seq<Line>, reviewCount: nat)
    ensures reviewCount == Approved(reviews) && |lines| == 5
    ensures forall i :: 0 <= i < 5 ==>
              lines[i] == Line(5 - i, CountOf(reviews, 5 - i), Percent(CountOf(reviews, 5 - i), Approved(reviews)))
  {
    var counts, ratings := GroupByRating(reviews);
    reviewCount := 0;
    for i := 0 to |ratings|
      invariant reviewCount + Sum(counts, ratings[i..]) == Sum(counts, ratings)
    {
      reviewCount := reviewCount + counts[ratings[i]];
      assert ratings[i..][1..] == ratings[i + 1..];
    }
    lines := [];
    for star := 5 downto 0
      invariant |lines| == 5 - star
      invariant forall i :: 0 <= i < 5 - star ==>
                  lines[i] == Line(5 - i, CountOf(reviews, 5 - i), Percent(CountOf(reviews, 5 - i), Approved(reviews)))
    {
      var count := if star + 1 in counts then counts[star + 1] else 0;
      lines := lines + [Line(star + 1, count, Percent(count, reviewCount))];
    }
  }

  lemma {:induction false} SumOfOther(counts: map<nat, nat>, keys: seq<nat>, key: nat, n: nat)
    requires key !in keys
    ensures Sum(counts[key := n], keys) == Sum(counts, keys)
  {
    if keys != [] { SumOfOther(counts, keys[1..], key, n); }
  }

  lemma {:induction false} SumOfUpdate(counts: map<nat, nat>, keys: seq<nat>, key: nat)
    requires key in counts && key in keys && forall i, j :: 0 <= i < j < |keys| ==> keys[i] != keys[j]
    ensures Sum(counts[key := counts[key] + 1], keys) == Sum(counts, keys) + 1
  {
    if keys[0] == key {
      SumOfOther(counts, keys[1..], key, counts[key] + 1);
    } else {
      SumOfUpdate(counts, keys[1..], key);
    }
  }

  function RatedAt(reviews: seq<Review>, star: nat): set<int> {
    set i | 0 <= i < |reviews| && reviews[i].isApproved && reviews[i].rating == star
  }

  function ApprovedAt(reviews: seq<Review>): set<int> {
    set i | 0 <= i < |reviews| && reviews[i].isApproved
  }

  /** The count of a star is the number of approved reviews with that rating. */
  lemma {:induction false} CountIsOfReviews(reviews: seq<Review>, star: nat)
    ensures CountOf(reviews, star) == |RatedAt(reviews, star)|
  {
    if reviews != [] {
      var n, front, last := |reviews| - 1, reviews[..|reviews| - 1], reviews[|reviews| - 1];
      CountIsOfReviews(front, star);
      assert reviews == front + [last];
      CountAppend(front, last, star);
      var before := RatedAt(front, star);
      assert n !in before;
      assert RatedAt(reviews, star) == if last.isApproved && last.rating == star then before + {n} else before;
    }
  }

  lemma {:induction false} ApprovedIsOfReviews(reviews: seq<Review>)
    ensures Approved(reviews) == |ApprovedAt(reviews)|
  {
    if reviews != [] {
      var n, front, last := |reviews| - 1, reviews[..|reviews| - 1], reviews[|reviews| - 1];
      ApprovedIsOfReviews(front);
      assert reviews == front + [last];
      CountAppend(front, last, 0);
      var before := ApprovedAt(front);
      assert n !in before;
      assert ApprovedAt(reviews) == if last.isApproved then before + {n} else before;
    }
  }

  lemma {:induction false} CountAppend(front: seq<Review>, last: Review, star: nat)
    ensures CountOf(front + [last], star) == CountOf(front, star) + if last.isApproved && last.rating == star then 1 else 0
    ensures Approved(front + [last]) == Approved(front) + if last.isApproved then 1 else 0
  {
    if front != [] {
      assert (front + [last])[1..] == front[1..] + [last];
      CountAppend(front[1..], last, star);
    } else {
      assert [last][1..] == [];
    }
  }

  /** A share is the nearest whole percentage, the even one of two as near. */
  lemma ShareIsNearest(count: nat, total: nat)
    requires total > 0
    ensures var off := 2 * (100 * count - Percent(count, total) * total);
            Abs(off) <= total && (Abs(off) == total ==> Percent(count, total) % 2 == 0)
  {
    var p, x := Percent(count, total), (count * 100) as real / total as real;
    assert x * total as real == (count * 100) as real;
    GapOf(count * 100, total, x, p);
    HalfGap(count * 100 - p * total, x - p as real, total);
  }

  lemma HalfGap(gap: int, part: real, unit: nat)
    requires unit > 0 && -0.5 <= part <= 0.5 && gap as real == part * unit as real
    ensures 2 * Abs(gap) <= unit
    ensures 2 * Abs(gap) == unit ==> part == 0.5 || part == -0.5
  {
    WithinHalf(gap, part, unit);
    if 2 * gap == unit {
      assert (part - 0.5) * unit as real == 0.0;
    } else if 2 * gap + unit == 0 {
      assert (part + 0.5) * unit as real == 0.0;
    }
  }

  function Stars(reviews: seq<Review>): nat {
    CountOf(reviews, 1) + CountOf(reviews, 2) + CountOf(reviews, 3) + CountOf(reviews, 4) + CountOf(reviews, 5)
  }

  function Strays(reviews: seq<Review>): nat {
    if reviews == [] then 0
    else Strays(reviews[1..]) + if reviews[0].isApproved && !IsStar(reviews[0].rating) then 1 else 0
  }

  /** The five counts add up to the number of approved reviews exactly when no
      approved review has a rating outside 1 to 5. */
  lemma {:induction false} StarsAddUp(reviews: seq<Review>)
    ensures Stars(reviews) + Strays(reviews) == Approved(reviews)
    ensures Strays(reviews) == 0 <==> forall r :: r in reviews && r.isApproved ==> IsStar(r.rating)
  {
    if reviews != [] {
      StarsAddUp(reviews[1..]);
      assert reviews == [reviews[0]] + reviews[1..];
    }
  }

  function PercentSum(reviews: seq<Review>): int {
    var n := Approved(reviews);
    Percent(CountOf(reviews, 1), n) + Percent(CountOf(reviews, 2), n) + Percent(CountOf(reviews, 3), n)
    + Percent(CountOf(reviews, 4), n) + Percent(CountOf(reviews, 5), n)
  }

  lemma SharesAddUp(a: nat, b: nat, c: nat, d: nat, e: nat, n: nat)
    requires n > 0 && a + b + c + d + e == n
    ensures 98 <= Percent(a, n) + Percent(b, n) + Percent(c, n) + Percent(d, n) + Percent(e, n) <= 102
  {
    var x := n as real;
    var pa, pb, pc, pd, pe := (a * 100) as real / x, (b * 100) as real / x, (c * 100) as real / x, (d * 100) as real / x, (e * 100) as real / x;
    assert (pa + pb + pc + pd + pe) * x == (n * 100) as real;
    assert pa + pb + pc + pd + pe == 100.0;
  }

  /** With at least one approved review, all within 1 to 5 stars, the percentages
      shown add up to between 98 and 102. */
  lemma PercentagesNearlyAddUp(reviews: seq<Review>)
    requires Approved(reviews) > 0 && forall r :: r in reviews && r.isApproved ==> IsStar(r.rating)
    ensures 98 <= PercentSum(reviews) <= 102
  {
    StarsAddUp(reviews);
    SharesAddUp(CountOf(reviews, 1), CountOf(reviews, 2), CountOf(reviews, 3), CountOf(reviews, 4), CountOf(reviews, 5), Approved(reviews));
  }

  // `n` approved reviews with `star` stars, and then `rest`.
  function More(star: nat, n: nat, rest: seq<Review>): seq<Review> {
    if n == 0 then rest else [Review(star, true)] + More(star, n - 1, rest)
  }

  lemma {:induction false} MoreCounts(star: nat, n: nat, rest: seq<Review>)
    ensures Approved(More(star, n, rest)) == n + Approved(rest)
    ensures forall s :: CountOf(More(star, n, rest), s) == CountOf(rest, s) + if s == star then n else 0
  {
    if n > 0 {
      MoreCounts(star, n - 1, rest);
    }
  }

  // One to four stars `few` times each, five stars `many` times.
  function Skewed(few: nat, many: nat): seq<Review> {
    More(1, few, More(2, few, More(3, few, More(4, few, More(5, many, [])))))
  }

  lemma SkewedCounts(few: nat, many: nat)
    ensures Approved(Skewed(few, many)) == 4 * few + many
    ensures PercentSum(Skewed(few, many)) == 4 * Percent(few, 4 * few + many) + Percent(many, 4 * few + many)
  {
    MoreCounts(5, many, []);
    MoreCounts(4, few, More(5, many, []));
    MoreCounts(3, few, More(4, few, More(5, many, [])));
    MoreCounts(2, few, More(3, few, More(4, few, More(5, many, []))));
    MoreCounts(1, few, More(2, few, More(3, few, More(4, few, More(5, many, [])))));
  }

  lemma SharesOf125()
    ensures 4 * Percent(2, 125) + Percent(117, 125) == 102
    ensures 4 * Percent(3, 125) + Percent(113, 125) == 98
  {
    assert (2 * 100) as real / 125.0 == 1.6 && (117 * 100) as real / 125.0 == 93.6;
    assert (3 * 100) as real / 125.0 == 2.4 && (113 * 100) as real / 125.0 == 90.4;
    assert 1.6.Floor == 1 && 93.6.Floor == 93 && 2.4.Floor == 2 && 90.4.Floor == 90;
  }

  // Both bounds are reached by 125 reviews.
  lemma BoundsAreTight()
    ensures PercentSum(Skewed(2, 117)) == 102
    ensures PercentSum(Skewed(3, 113)) == 98
  {
    SkewedCounts(2, 117);
    SkewedCounts(3, 113);
    SharesOf125();
  }
}
