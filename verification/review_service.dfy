/**
 * The review service: one review per user and movie, edits and deletions
 * only by the review's owner, and the two listings.
 */
module ReviewService {
  import opened Wrappers
  import Seqs
  import opened Text
  import opened Entities
  import opened Store

  /** `mapToResponse`: the review with its owner's name and its movie's title and image. */
  function ReviewToResponse(users: seq<User>, movies: seq<MovieRow>, x: Review): (r: ReviewResponse)
    requires UserById(users, x.userId).Some?
    ensures r.id == x.id && r.userId == x.userId && r.movieId == x.movieId
    ensures r.rating == x.rating && r.comment == x.comment
    ensures r.createdAt == x.createdAt && r.updatedAt == x.updatedAt
    ensures exists u :: u in users && u.id == x.userId && r.username == u.username
    ensures r.movieTitle.Some? <==> exists m :: m in movies && m.id == x.movieId
  {
    var owner := UserById(users, x.userId).value;
    var movie := MovieById(movies, x.movieId);
    ReviewResponse(x.id, x.userId, owner.username, x.movieId,
                   if movie.Some? then Some(movie.value.details.title) else None,
                   if movie.Some? then movie.value.details.imageUrl else None,
                   x.rating, x.comment, x.createdAt, x.updatedAt)
  }

  /**
   * With movie ids unique, as the primary key makes them, the joined title
   * and image are those of the review's movie; a review whose movie is gone
   * has neither.
   */
  lemma ResponseJoinsMovie(users: seq<User>, movies: seq<MovieRow>, x: Review)
    requires UserById(users, x.userId).Some?
    ensures Seqs.Ascending(movies, MovieKey) ==> forall m :: m in movies && m.id == x.movieId ==>
      && ReviewToResponse(users, movies, x).movieTitle == Some(m.details.title)
      && ReviewToResponse(users, movies, x).movieImageUrl == m.details.imageUrl
    ensures (forall m :: m in movies ==> m.id != x.movieId) ==>
      ReviewToResponse(users, movies, x).movieTitle == None && ReviewToResponse(users, movies, x).movieImageUrl == None
  {
    if Seqs.Ascending(movies, MovieKey) {
      forall m | m in movies && m.id == x.movieId
        ensures ReviewToResponse(users, movies, x).movieTitle == Some(m.details.title)
        ensures ReviewToResponse(users, movies, x).movieImageUrl == m.details.imageUrl
      {
        var found := MovieById(movies, x.movieId).value;
        var i :| 0 <= i < |movies| && movies[i] == m;
        var j :| 0 <= j < |movies| && movies[j] == found;
        assert i == j;
      }
    }
  }

  /** Each review mapped to its response, in order. */
  function ToResponses(users: seq<User>, movies: seq<MovieRow>, reviews: seq<Review>): (r: seq<ReviewResponse>)
    requires forall x :: x in reviews ==> UserById(users, x.userId).Some?
    ensures |r| == |reviews|
    ensures forall i :: 0 <= i < |r| ==> r[i] == ReviewToResponse(users, movies, reviews[i])
  {
    seq(|reviews|, i requires 0 <= i < |reviews| => ReviewToResponse(users, movies, reviews[i]))
  }

  /** The ids of a list of responses. */
  function ResponseIds(r: seq<ReviewResponse>): set<int>
  {
    set i | 0 <= i < |r| :: r[i].id
  }

  lemma ToResponsesIds(users: seq<User>, movies: seq<MovieRow>, reviews: seq<Review>)
    requires forall x :: x in reviews ==> UserById(users, x.userId).Some?
    ensures ResponseIds(ToResponses(users, movies, reviews)) == set x | x in reviews :: x.id
  {
    var r := ToResponses(users, movies, reviews);
    forall id | id in ResponseIds(r) ensures id in set x | x in reviews :: x.id {
      var i :| 0 <= i < |r| && r[i].id == id;
      assert reviews[i] in reviews;
    }
    forall id | id in set x | x in reviews :: x.id ensures id in ResponseIds(r) {
      var x :| x in reviews && x.id == id;
      var i :| 0 <= i < |reviews| && reviews[i] == x;
      assert r[i].id == id;
    }
  }

  lemma SameIds(own: seq<Review>, reviews: seq<Review>, p: Review -> bool)
    requires forall x :: x in own <==> x in reviews && p(x)
    ensures (set x | x in own :: x.id) == set x | x in reviews && p(x) :: x.id
  {
  }

  /** The responses of a selection of the reviews carry exactly the selected ids. */
  lemma SelectionIds(users: seq<User>, movies: seq<MovieRow>, own: seq<Review>, reviews: seq<Review>, p: Review -> bool)
    requires forall x :: x in own <==> x in reviews && p(x)
    requires forall x :: x in own ==> UserById(users, x.userId).Some?
    ensures ResponseIds(ToResponses(users, movies, own)) == set x | x in reviews && p(x) :: x.id
  {
    ToResponsesIds(users, movies, own);
    SameIds(own, reviews, p);
  }

  /** `getMovieReviews`: the responses of exactly the stored reviews of that movie. */
  function GetMovieReviews(db: Database, movieId: int): (r: seq<ReviewResponse>)
    reads db
    requires db.Valid()
    ensures forall i :: 0 <= i < |r| ==> r[i].movieId == movieId
    ensures |r| == |ReviewsOf(db.reviews, movieId)|
    ensures forall i :: 0 <= i < |r| ==>
      ReviewsOf(db.reviews, movieId)[i] in db.reviews
      && r[i] == ReviewToResponse(db.users, db.movies, ReviewsOf(db.reviews, movieId)[i])
  {
    var own := ReviewsOf(db.reviews, movieId);
    assert forall i :: 0 <= i < |own| ==> own[i] in own;
    ToResponses(db.users, db.movies, own)
  }

  /** `getUserReviews`: NotFound for an unknown username, otherwise exactly that user's reviews. */
  function GetUserReviews(db: Database, username: string): (r: Result<seq<ReviewResponse>>)
    reads db
    requires db.Valid()
    ensures r.Failure? <==> UserByUsername(db.users, username).None?
    ensures r.Failure? ==> r.error == NotFound("User not found")
    ensures r.Success? ==> var u := UserByUsername(db.users, username).value;
      && (forall i :: 0 <= i < |r.value| ==> r.value[i].userId == u.id)
      && |r.value| == |ReviewsBy(db.reviews, u.id)|
      && (forall i :: 0 <= i < |r.value| ==>
            ReviewsBy(db.reviews, u.id)[i] in db.reviews
            && r.value[i] == ReviewToResponse(db.users, db.movies, ReviewsBy(db.reviews, u.id)[i]))
  {
    match UserByUsername(db.users, username)
    case None => Failure(NotFound("User not found"))
    case Some(u) =>
      var own := ReviewsBy(db.reviews, u.id);
      assert forall i :: 0 <= i < |own| ==> own[i] in own;
      Success(ToResponses(db.users, db.movies, own))
  }

  /**
   * Both listings carry exactly the ids of the selected stored reviews: those
   * of the movie, and those of the named user.
   */
  lemma ListingIds(db: Database, movieId: int, username: string)
    requires db.Valid()
    ensures ResponseIds(GetMovieReviews(db, movieId)) == set x | x in db.reviews && x.movieId == movieId :: x.id
    ensures GetUserReviews(db, username).Success? ==>
      var u := UserByUsername(db.users, username).value;
      ResponseIds(GetUserReviews(db, username).value) == set x | x in db.reviews && x.userId == u.id :: x.id
  {
    var own := ReviewsOf(db.reviews, movieId);
    assert GetMovieReviews(db, movieId) == ToResponses(db.users, db.movies, own);
    SelectionIds(db.users, db.movies, own, db.reviews, (x: Review) => x.movieId == movieId);
    if GetUserReviews(db, username).Success? {
      var u := UserByUsername(db.users, username).value;
      var mine := ReviewsBy(db.reviews, u.id);
      assert GetUserReviews(db, username).value == ToResponses(db.users, db.movies, mine);
      SelectionIds(db.users, db.movies, mine, db.reviews, (x: Review) => x.userId == u.id);
    }
  }

  /** The username of the user who owns a stored review. */
  function OwnerName(db: Database, x: Review): string
    reads db
    requires db.Valid() && x in db.reviews
  {
    UserById(db.users, x.userId).value.username
  }

  /**
   * `addReview`: NotFound for an unknown user (checked first) or movie,
   * BadRequest when the user already reviewed the movie (nothing changes
   * then); otherwise exactly one review with the request's rating and comment
   * is added, so each (user, movie) pair keeps at most one review.
   */
  method AddReview(db: Database, movieId: int, request: ReviewRequest, username: string, now: Timestamp)
    returns (r: Result<ReviewResponse>)
    requires db.Valid()
    modifies db
    ensures db.Valid()
    ensures db.users == old(db.users) && db.movies == old(db.movies) && db.watchlist == old(db.watchlist)
    ensures UserByUsername(old(db.users), username).None? ==>
      r == Failure(NotFound("User not found")) && db.reviews == old(db.reviews)
    ensures UserByUsername(old(db.users), username).Some? && MovieById(old(db.movies), movieId).None? ==>
      r == Failure(NotFound(MovieNotFoundMessage(movieId))) && db.reviews == old(db.reviews)
    ensures UserByUsername(old(db.users), username).Some? && MovieById(old(db.movies), movieId).Some?
            && ReviewExists(old(db.reviews), UserByUsername(old(db.users), username).value.id, movieId) ==>
      r == Failure(BadRequest("You have already reviewed this movie")) && db.reviews == old(db.reviews)
    ensures UserByUsername(old(db.users), username).Some? && MovieById(old(db.movies), movieId).Some?
            && !ReviewExists(old(db.reviews), UserByUsername(old(db.users), username).value.id, movieId) ==>
      && |db.reviews| == |old(db.reviews)| + 1
      && db.reviews[..|old(db.reviews)|] == old(db.reviews)
      && var x := db.reviews[|old(db.reviews)|];
      && (forall y :: y in old(db.reviews) ==> y.id != x.id)
      && x.userId == UserByUsername(old(db.users), username).value.id && x.movieId == movieId
      && x.rating == request.rating && x.comment == request.comment
      && x.createdAt == now && x.updatedAt == now
      && r == Success(ReviewToResponse(db.users, db.movies, x))
  {
    var user := UserByUsername(db.users, username);
    if user.None? {
      return Failure(NotFound("User not found"));
    }
    var movie := MovieById(db.movies, movieId);
    if movie.None? {
      return Failure(NotFound(MovieNotFoundMessage(movieId)));
    }
    if ReviewExists(db.reviews, user.value.id, movieId) {
      return Failure(BadRequest("You have already reviewed this movie"));
    }
    var x := Review(db.nextReviewId, user.value.id, movieId, request.rating, request.comment, now, now);
    assert movie.value.id < db.nextMovieId && UserById(db.users, x.userId).Some?;
    AppendReviewKeepsValid(db.reviews, db.nextReviewId, db.users, db.nextMovieId, x);
    db.nextReviewId := db.nextReviewId + 1;
    db.reviews := db.reviews + [x];
    assert db.reviews[..|old(db.reviews)|] == old(db.reviews);
    r := Success(ReviewToResponse(db.users, db.movies, x));
  }

  /**
   * `updateReview`: NotFound for an unknown id, Forbidden when the caller
   * does not own the review (nothing changes in either case); otherwise only
   * the rating, the comment and `updatedAt` of that review change.
   */
  method UpdateReview(db: Database, reviewId: int, request: ReviewRequest, username: string, now: Timestamp)
    returns (r: Result<ReviewResponse>)
    requires db.Valid()
    modifies db
    ensures db.Valid()
    ensures db.users == old(db.users) && db.movies == old(db.movies) && db.watchlist == old(db.watchlist)
    ensures ReviewIndex(old(db.reviews), reviewId).None? ==>
      r == Failure(NotFound("Review not found with id: " + IntToString(reviewId))) && db.reviews == old(db.reviews)
    ensures ReviewIndex(old(db.reviews), reviewId).Some? ==>
      var i := ReviewIndex(old(db.reviews), reviewId).value;
      var before := old(db.reviews)[i];
      if old(OwnerName(db, before)) != username then
        r == Failure(Forbidden("You can only edit your own reviews")) && db.reviews == old(db.reviews)
      else
        var after := before.(rating := request.rating, comment := request.comment, updatedAt := now);
        && db.reviews == old(db.reviews)[i := after]
        && r == Success(ReviewToResponse(db.users, db.movies, after))
  {
    var found := ReviewIndex(db.reviews, reviewId);
    if found.None? {
      return Failure(NotFound("Review not found with id: " + IntToString(reviewId)));
    }
    var i := found.value;
    var before := db.reviews[i];
    if OwnerName(db, before) != username {
      return Failure(Forbidden("You can only edit your own reviews"));
    }
    var after := before.(rating := request.rating, comment := request.comment, updatedAt := now);
    Seqs.AscendingUpdate(db.reviews, i, after, ReviewKey);
    db.reviews := db.reviews[i := after];
    r := Success(ReviewToResponse(db.users, db.movies, after));
  }

  /**
   * `deleteReview`: the same NotFound and Forbidden checks as an update;
   * on success exactly that review is removed.
   */
  method DeleteReview(db: Database, reviewId: int, username: string) returns (r: Result<()>)
    requires db.Valid()
    modifies db
    ensures db.Valid()
    ensures db.users == old(db.users) && db.movies == old(db.movies) && db.watchlist == old(db.watchlist)
    ensures ReviewIndex(old(db.reviews), reviewId).None? ==>
      r == Failure(NotFound("Review not found with id: " + IntToString(reviewId))) && db.reviews == old(db.reviews)
    ensures ReviewIndex(old(db.reviews), reviewId).Some? ==>
      var i := ReviewIndex(old(db.reviews), reviewId).value;
      if old(OwnerName(db, db.reviews[i])) != username then
        r == Failure(Forbidden("You can only delete your own reviews")) && db.reviews == old(db.reviews)
      else
        && r == Success(())
        && db.reviews == old(db.reviews)[..i] + old(db.reviews)[i + 1..]
        && (forall x :: x in db.reviews <==> x in old(db.reviews) && x.id != reviewId)
  {
    var found := ReviewIndex(db.reviews, reviewId);
    if found.None? {
      return Failure(NotFound("Review not found with id: " + IntToString(reviewId)));
    }
    var i := found.value;
    if OwnerName(db, db.reviews[i]) != username {
      return Failure(Forbidden("You can only delete your own reviews"));
    }
    Seqs.AscendingRemove(db.reviews, i, ReviewKey);
    db.reviews := db.reviews[..i] + db.reviews[i + 1..];
    r := Success(());
  }
}
