/**
 * The five-star widget: how a 0-10 rating is drawn as filled stars, and the
 * rating a click on a star reports.
 */
module StarRating {
  import opened Wrappers

  /** The widget always draws this many stars. */
  const StarCount := 5

  /** `stars`: half the rating rounded up, clamped to 0..5. */
  function FilledStars(rating: int): (stars: int)
    ensures 0 <= stars <= StarCount
    ensures rating <= 0 ==> stars == 0
    ensures rating > 2 * StarCount - 2 ==> stars == StarCount
    ensures 0 < rating <= 2 * StarCount - 2 ==> 2 * stars - 2 < rating <= 2 * stars
  {
    // Math.ceil(rating / 2) on an integer rating; `/` here rounds down
    var half := (rating + 1) / 2;
    if half < 0 then 0 else if half > StarCount then StarCount else half
  }

  /** Star `index` (0-based) is drawn filled. */
  predicate StarFilled(index: int, rating: int)
  {
    index < FilledStars(rating)
  }

  /** The fill of the five stars, left to right. */
  function Stars(rating: int): (r: seq<bool>)
    ensures |r| == StarCount
    ensures forall k :: 0 <= k < StarCount ==> r[k] == StarFilled(k, rating)
  {
    seq(StarCount, k => StarFilled(k, rating))
  }

  /** The filled stars are a prefix: FilledStars(rating) filled ones, then empty ones. */
  lemma StarsArePrefix(rating: int)
    ensures Stars(rating) == seq(FilledStars(rating), _ => true) + seq(StarCount - FilledStars(rating), _ => false)
  {
    var n := FilledStars(rating);
    var expected := seq(n, _ => true) + seq(StarCount - n, _ => false);
    forall k | 0 <= k < StarCount ensures Stars(rating)[k] == expected[k] {
      if k < n {
        assert expected[k] == true;
      } else {
        assert expected[k] == seq(StarCount - n, _ => false)[k - n];
      }
    }
  }

  /** The rating reported by a click on star `index`. */
  function ClickRating(index: int): (r: int)
    requires 0 <= index < StarCount
    ensures r in {2, 4, 6, 8, 10}
    ensures FilledStars(r) == index + 1
  {
    (index + 1) * 2
  }

  /** A rating the widget can report is drawn back with exactly the stars up to the clicked one filled. */
  lemma ClickRoundTrip(index: int)
    requires 0 <= index < StarCount
    ensures forall k :: 0 <= k < StarCount ==> (StarFilled(k, ClickRating(index)) <==> k <= index)
  {
  }

  /** Every even rating 2..10 is reported by exactly one star. */
  lemma ClickRatingOnto(rating: int)
    requires rating in {2, 4, 6, 8, 10}
    ensures 0 <= rating / 2 - 1 < StarCount && ClickRating(rating / 2 - 1) == rating
    ensures forall k :: 0 <= k < StarCount && ClickRating(k) == rating ==> k == rating / 2 - 1
  {
  }

  /** `onClick`: nothing is reported when the widget is read-only or has no `onRate` handler. */
  function OnClick(index: int, readonly: bool, hasOnRate: bool): (r: Option<int>)
    requires 0 <= index < StarCount
    ensures r.Some? <==> !readonly && hasOnRate
    ensures r.Some? ==> r.value in {2, 4, 6, 8, 10} && FilledStars(r.value) == index + 1
  {
    if !readonly && hasOnRate then Some(ClickRating(index)) else None
  }

  /** More rating never fills fewer stars. */
  lemma FilledStarsMonotonic(a: int, b: int)
    requires a <= b
    ensures FilledStars(a) <= FilledStars(b)
  {
  }
}
