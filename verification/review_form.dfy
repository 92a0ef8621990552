/**
 * The review form: its rating, comment and hover state, the five star
 * values it offers, and the check and clean-up done on submit.
 */
module ReviewForm {
  import opened Wrappers
  import opened Text
  import opened Entities
  import StarRating

  /** The ratings the form's stars set, left to right. */
  const StarValues: seq<int> := [2, 4, 6, 8, 10]

  /** The form's stars set the same ratings as clicks on the star widget. */
  lemma StarValuesAreClickRatings()
    ensures |StarValues| == StarRating.StarCount
    ensures forall k :: 0 <= k < |StarValues| ==> StarValues[k] == StarRating.ClickRating(k)
  {
  }

  /** The review being edited, as the page passes it in. */
  datatype InitialData = InitialData(rating: Option<int>, comment: Option<string>)

  /**
   * The comment sent on submit: the trimmed text, or null when nothing but
   * whitespace was typed.
   */
  function SubmittedComment(comment: string): (r: Option<string>)
    ensures r.None? <==> forall k :: 0 <= k < |comment| ==> IsWhitespace(comment[k])
    ensures r.Some? ==> r.value == Trim(comment) && r.value != []
    ensures r.Some? ==> !IsWhitespace(r.value[0]) && !IsWhitespace(r.value[|r.value| - 1])
  {
    TrimEmptyIffBlank(comment);
    TrimSpec(comment);
    var t := Trim(comment);
    if t == [] then None else Some(t)
  }

  /** The rating the stars show: the hovered star's value while hovering, else the chosen rating. */
  function DisplayedRating(hoveredRating: int, rating: int): (r: int)
    ensures hoveredRating != 0 ==> r == hoveredRating
    ensures hoveredRating == 0 ==> r == rating
  {
    if hoveredRating != 0 then hoveredRating else rating
  }

  /**
   * When not hovering, the form lights the stars worth at most the rating:
   * half the rating rounded down, where the star widget rounds up. The two
   * agree on even ratings and differ by one star on odd ratings below 10.
   */
  lemma HighlightVersusStarWidget(rating: int, k: int)
    requires 0 <= k < |StarValues|
    ensures StarValues[k] <= DisplayedRating(0, rating) <==> k < rating / 2
    ensures rating % 2 == 0 ==> (StarValues[k] <= DisplayedRating(0, rating) <==> StarRating.StarFilled(k, rating))
    ensures 0 < rating < 10 && rating % 2 == 1 && k == rating / 2 ==>
      StarRating.StarFilled(k, rating) && !(StarValues[k] <= DisplayedRating(0, rating))
  {
  }

  /** The form's state hooks. */
  class FormState {
    var rating: int
    var comment: string
    var hoveredRating: int

    /** `useState(initialData?.rating || 0)`, `useState(initialData?.comment || '')`, `useState(0)`. */
    constructor (initialData: Option<InitialData>)
      ensures rating == (if initialData.Some? && initialData.value.rating.Some? then initialData.value.rating.value else 0)
      ensures comment == (if initialData.Some? && initialData.value.comment.Some? then initialData.value.comment.value else "")
      ensures hoveredRating == 0
    {
      rating := if initialData.Some? && initialData.value.rating.Some? then initialData.value.rating.value else 0;
      comment := if initialData.Some? && initialData.value.comment.Some? then initialData.value.comment.value else "";
      hoveredRating := 0;
    }

    /** `handleStarClick`: the clicked value becomes the rating. */
    method HandleStarClick(value: int)
      modifies this
      ensures rating == value && comment == old(comment) && hoveredRating == old(hoveredRating)
    {
      rating := value;
    }

    /** Hovering a star previews its value. */
    method MouseEnter(value: int)
      modifies this
      ensures hoveredRating == value && rating == old(rating) && comment == old(comment)
    {
      hoveredRating := value;
    }

    /** Leaving a star ends the preview. */
    method MouseLeave()
      modifies this
      ensures hoveredRating == 0 && rating == old(rating) && comment == old(comment)
    {
      hoveredRating := 0;
    }

    /** Typing in the comment box. */
    method ChangeComment(text: string)
      modifies this
      ensures comment == text && rating == old(rating) && hoveredRating == old(hoveredRating)
    {
      comment := text;
    }

    /** Star `value` is drawn lit. */
    predicate Highlighted(value: int)
      reads this
    {
      value <= DisplayedRating(hoveredRating, rating)
    }

    /**
     * `handleSubmit`: with no rating chosen nothing is submitted; otherwise
     * the request carries the rating and the cleaned-up comment.
     */
    method HandleSubmit() returns (r: Option<ReviewRequest>)
      ensures r.None? <==> rating == 0
      ensures r.Some? ==> r.value.rating == rating && r.value.rating != 0
      ensures r.Some? ==> r.value.comment == SubmittedComment(comment)
    {
      if rating == 0 {
        return None;
      }
      r := Some(ReviewRequest(rating, SubmittedComment(comment)));
    }
  }

  /** Clicking any of the form's stars makes the form submittable. */
  method ClickThenSubmit(form: FormState, k: int) returns (r: Option<ReviewRequest>)
    requires 0 <= k < |StarValues|
    modifies form
    ensures r.Some? && r.value.rating == StarValues[k]
    ensures r.value.comment == SubmittedComment(old(form.comment))
  {
    form.HandleStarClick(StarValues[k]);
    r := form.HandleSubmit();
  }
}
