/**
 * The catalogue service: create, read, update and delete movies, the
 * response projection with its review aggregates, and the optional sort.
 */
module MovieService {
  import opened Wrappers
  import Seqs
  import opened Text
  import opened Entities
  import opened Store
  import MovieRepository

  /** The entity's own fields copied into a response; the aggregates are left null. */
  function EntityFields(m: MovieRow): (r: MovieResponse)
    ensures r.id == m.id && r.details == m.details && r.movieType == m.movieType
    ensures r.createdBy == m.createdBy && r.createdAt == m.createdAt && r.updatedAt == m.updatedAt
    ensures r.averageRating == None && r.reviewCount == None
  {
    MovieResponse(m.id, m.details, m.movieType, m.createdBy, m.createdAt, m.updatedAt, None, None)
  }

  function Ratings(reviews: seq<Review>): (r: seq<int>)
    ensures |r| == |reviews|
    ensures forall i :: 0 <= i < |reviews| ==> r[i] == reviews[i].rating
  {
    seq(|reviews|, i requires 0 <= i < |reviews| => reviews[i].rating)
  }

  function Sum(xs: seq<int>): int
  {
    if xs == [] then 0 else xs[0] + Sum(xs[1..])
  }

  /** `IntStream.average()`, exact, and null when there is nothing to average. */
  function Average(xs: seq<int>): (r: Option<real>)
    ensures r.None? <==> xs == []
    ensures r.Some? ==> r.value * |xs| as real == Sum(xs) as real
  {
    if xs == [] then None else Some(Sum(xs) as real / |xs| as real)
  }

  lemma {:induction false} SumBounds(xs: seq<int>, lo: int, hi: int)
    requires forall i :: 0 <= i < |xs| ==> lo <= xs[i] <= hi
    ensures lo * |xs| <= Sum(xs) <= hi * |xs|
  {
    if xs != [] {
      SumBounds(xs[1..], lo, hi);
    }
  }

  /** The mean of values in [lo, hi] is in [lo, hi]. */
  lemma AverageWithinBounds(xs: seq<int>, lo: int, hi: int)
    requires xs != []
    requires forall i :: 0 <= i < |xs| ==> lo <= xs[i] <= hi
    ensures lo as real <= Average(xs).value <= hi as real
  {
    SumBounds(xs, lo, hi);
    var n := |xs|;
    assert (lo * n) as real == (lo as real) * (n as real);
    assert (hi * n) as real == (hi as real) * (n as real);
    MeanBetween(Sum(xs) as real, n as real, lo as real, hi as real);
  }

  /** A total between lo·n and hi·n, shared among n > 0, gives a mean between lo and hi. */
  lemma MeanBetween(total: real, n: real, lo: real, hi: real)
    requires n > 0.0 && lo * n <= total <= hi * n
    ensures lo <= total / n <= hi
  {
    var q := total / n;
    assert q * n == total;
    assert (q - lo) * n >= 0.0;
    assert (hi - q) * n >= 0.0;
  }

  lemma {:induction false} SumSnoc(xs: seq<int>, x: int)
    ensures Sum(xs + [x]) == Sum(xs) + x
  {
    if xs == [] {
      assert xs + [x] == [x];
    } else {
      assert (xs + [x])[1..] == xs[1..] + [x];
      SumSnoc(xs[1..], x);
    }
  }

  /**
   * `mapToResponse`: the entity's fields, the number of reviews of the movie,
   * and their average rating (null when there are none).
   */
  function MapToResponse(m: MovieRow, reviews: seq<Review>): (r: MovieResponse)
    ensures r == EntityFields(m).(averageRating := r.averageRating, reviewCount := r.reviewCount)
    ensures r.reviewCount == Some(|ReviewsOf(reviews, m.id)|)
    ensures r.averageRating.None? <==> forall x :: x in reviews ==> x.movieId != m.id
    ensures r.averageRating.Some? ==>
      r.averageRating.value * |ReviewsOf(reviews, m.id)| as real == Sum(Ratings(ReviewsOf(reviews, m.id))) as real
  {
    var own := ReviewsOf(reviews, m.id);
    assert own != [] ==> own[0] in own;
    EntityFields(m).(averageRating := Average(Ratings(own)), reviewCount := Some(|own|))
  }

  /** When every rating of the movie lies in [lo, hi], so does its average. */
  lemma AverageRatingWithinBounds(m: MovieRow, reviews: seq<Review>, lo: int, hi: int)
    requires forall x :: x in reviews && x.movieId == m.id ==> lo <= x.rating <= hi
    ensures MapToResponse(m, reviews).averageRating.Some? ==>
      lo as real <= MapToResponse(m, reviews).averageRating.value <= hi as real
  {
    var own := ReviewsOf(reviews, m.id);
    if own != [] {
      forall i | 0 <= i < |own| ensures lo <= Ratings(own)[i] <= hi {
        assert own[i] in own;
      }
      AverageWithinBounds(Ratings(own), lo, hi);
    }
  }

  /**
   * A new review of the movie raises the review count by one and the average
   * becomes the old rating total plus the new rating over the new count.
   */
  lemma AddingReviewUpdatesAggregates(m: MovieRow, reviews: seq<Review>, x: Review)
    requires x.movieId == m.id
    ensures MapToResponse(m, reviews + [x]).reviewCount.value == MapToResponse(m, reviews).reviewCount.value + 1
    ensures MapToResponse(m, reviews + [x]).averageRating ==
      Some((Sum(Ratings(ReviewsOf(reviews, m.id))) + x.rating) as real / (|ReviewsOf(reviews, m.id)| + 1) as real)
  {
    var p := (y: Review) => y.movieId == m.id;
    Seqs.FilterSnoc(reviews, x, p);
    var own := ReviewsOf(reviews, m.id);
    var own' := ReviewsOf(reviews + [x], m.id);
    assert own' == own + [x];
    assert Ratings(own') == Ratings(own) + [x.rating];
    SumSnoc(Ratings(own), x.rating);
    var before, after := MapToResponse(m, reviews), MapToResponse(m, reviews + [x]);
    assert before.reviewCount == Some(|own|) && after.reviewCount == Some(|own'|);
    assert after.averageRating == Average(Ratings(own'));
  }

  /** The three sort keys `sortMovies` recognises. */
  datatype SortKey = ByRating | ByReviews | ByImdb

  /** The sort parameter, compared after lower-casing; null or anything else means no sort. */
  function ParseSort(sort: Option<string>): (r: Option<SortKey>)
    ensures r == Some(ByRating) <==> sort.Some? && Lower(sort.value) == "rating"
    ensures r == Some(ByReviews) <==> sort.Some? && Lower(sort.value) == "reviews"
    ensures r == Some(ByImdb) <==> sort.Some? && Lower(sort.value) == "imdb"
  {
    if sort.None? then None
    else
      var s := Lower(sort.value);
      if s == "rating" then Some(ByRating)
      else if s == "reviews" then Some(ByReviews)
      else if s == "imdb" then Some(ByImdb)
      else None
  }

  /** The value a response is sorted on. */
  function KeyOf(r: MovieResponse, k: SortKey): Option<real>
  {
    match k
    case ByRating => r.averageRating
    case ByReviews => if r.reviewCount.Some? then Some(r.reviewCount.value as real) else None
    case ByImdb => r.details.imdbRating
  }

  /**
   * `Comparator.nullsLast(Comparator.reverseOrder())`: key `a` may stand
   * before key `b` (a larger value first, a null after every value).
   */
  predicate AtLeast(a: Option<real>, b: Option<real>)
  {
    b.None? || (a.Some? && a.value >= b.value)
  }

  /** Non-increasing on the key, with every null key after every non-null one. */
  ghost predicate SortedBy(s: seq<MovieResponse>, k: SortKey)
  {
    forall i, j :: 0 <= i < j < |s| ==> AtLeast(KeyOf(s[i], k), KeyOf(s[j], k))
  }

  /** The key order is total. */
  lemma AtLeastTotal(a: Option<real>, b: Option<real>)
    ensures AtLeast(a, b) || AtLeast(b, a)
  {
  }

  /** A head whose key is at least every key of a sorted tail keeps the sequence sorted. */
  lemma ConsSorted(h: MovieResponse, t: seq<MovieResponse>, k: SortKey)
    requires SortedBy(t, k)
    requires forall y :: y in t ==> AtLeast(KeyOf(h, k), KeyOf(y, k))
    ensures SortedBy([h] + t, k)
  {
    var s := [h] + t;
    forall i, j | 0 <= i < j < |s| ensures AtLeast(KeyOf(s[i], k), KeyOf(s[j], k)) {
      if i == 0 {
        assert s[j] == t[j - 1];
      } else {
        assert s[i] == t[i - 1] && s[j] == t[j - 1];
      }
    }
  }

  /** Places `x` before the first element whose key it is at least, so it precedes its equals. */
  function Insert(x: MovieResponse, s: seq<MovieResponse>, k: SortKey): (r: seq<MovieResponse>)
    requires SortedBy(s, k)
    ensures SortedBy(r, k)
    ensures forall y :: y in r <==> y == x || y in s
    ensures multiset(r) == multiset(s) + multiset{x}
    decreases |s|
  {
    if s == [] then [x]
    else if AtLeast(KeyOf(x, k), KeyOf(s[0], k)) then
      assert forall y :: y in s ==> AtLeast(KeyOf(s[0], k), KeyOf(y, k)) by {
        forall y | y in s ensures AtLeast(KeyOf(s[0], k), KeyOf(y, k)) {
          var j :| 0 <= j < |s| && s[j] == y;
        }
      }
      ConsSorted(x, s, k);
      [x] + s
    else
      var rest := Insert(x, s[1..], k);
      AtLeastTotal(KeyOf(x, k), KeyOf(s[0], k));
      assert forall y :: y in s[1..] ==> AtLeast(KeyOf(s[0], k), KeyOf(y, k)) by {
        forall y | y in s[1..] ensures AtLeast(KeyOf(s[0], k), KeyOf(y, k)) {
          var j :| 0 <= j < |s[1..]| && s[1..][j] == y;
          assert s[j + 1] == y;
        }
      }
      ConsSorted(s[0], rest, k);
      assert s == [s[0]] + s[1..];
      [s[0]] + rest
  }

  /** The stable sort `Stream.sorted` performs: insertion from the back keeps equal keys in input order. */
  function SortBy(s: seq<MovieResponse>, k: SortKey): (r: seq<MovieResponse>)
    ensures SortedBy(r, k)
    ensures multiset(r) == multiset(s)
    decreases |s|
  {
    if s == [] then []
    else
      assert s == [s[0]] + s[1..];
      Insert(s[0], SortBy(s[1..], k), k)
  }

  /** The responses whose key is `v`, in order. */
  function WithKey(s: seq<MovieResponse>, k: SortKey, v: Option<real>): seq<MovieResponse>
  {
    Seqs.Filter(s, (x: MovieResponse) => KeyOf(x, k) == v)
  }

  lemma {:induction false} WithKeyCons(x: MovieResponse, s: seq<MovieResponse>, k: SortKey, v: Option<real>)
    ensures WithKey([x] + s, k, v) == (if KeyOf(x, k) == v then [x] else []) + WithKey(s, k, v)
  {
    assert ([x] + s)[1..] == s;
  }

  lemma {:induction false} InsertWithKey(x: MovieResponse, s: seq<MovieResponse>, k: SortKey, v: Option<real>)
    requires SortedBy(s, k)
    ensures WithKey(Insert(x, s, k), k, v) == (if KeyOf(x, k) == v then [x] else []) + WithKey(s, k, v)
    decreases |s|
  {
    if s == [] {
      WithKeyCons(x, [], k, v);
    } else if AtLeast(KeyOf(x, k), KeyOf(s[0], k)) {
      WithKeyCons(x, s, k, v);
    } else {
      InsertWithKey(x, s[1..], k, v);
      WithKeyCons(s[0], Insert(x, s[1..], k), k, v);
      WithKeyCons(s[0], s[1..], k, v);
      assert s == [s[0]] + s[1..];
    }
  }

  /** The sort is stable: the responses sharing any one key value keep their input order. */
  lemma {:induction false} SortByStable(s: seq<MovieResponse>, k: SortKey, v: Option<real>)
    ensures WithKey(SortBy(s, k), k, v) == WithKey(s, k, v)
    decreases |s|
  {
    if s != [] {
      SortByStable(s[1..], k, v);
      InsertWithKey(s[0], SortBy(s[1..], k), k, v);
      WithKeyCons(s[0], s[1..], k, v);
      assert s == [s[0]] + s[1..];
    }
  }

  /** `sortMovies`: unchanged without a recognised key, otherwise a sorted permutation. */
  function SortMovies(movies: seq<MovieResponse>, sort: Option<string>): (r: seq<MovieResponse>)
    ensures ParseSort(sort).None? ==> r == movies
    ensures ParseSort(sort).Some? ==> SortedBy(r, ParseSort(sort).value)
    ensures multiset(r) == multiset(movies)
  {
    match ParseSort(sort)
    case None => movies
    case Some(k) => SortBy(movies, k)
  }

  /** Sorting never reorders two responses with equal keys. */
  lemma SortMoviesStable(movies: seq<MovieResponse>, sort: Option<string>, v: Option<real>)
    requires ParseSort(sort).Some?
    ensures WithKey(SortMovies(movies, sort), ParseSort(sort).value, v) == WithKey(movies, ParseSort(sort).value, v)
  {
    SortByStable(movies, ParseSort(sort).value, v);
  }

  /** Each movie mapped to its response, in order. */
  function ToResponses(movies: seq<MovieRow>, reviews: seq<Review>): (r: seq<MovieResponse>)
    ensures |r| == |movies|
    ensures forall i :: 0 <= i < |movies| ==> r[i] == MapToResponse(movies[i], reviews)
  {
    seq(|movies|, i requires 0 <= i < |movies| => MapToResponse(movies[i], reviews))
  }

  /** `getMovie`. */
  function GetMovie(db: Database, id: int): (r: Result<MovieResponse>)
    reads db
    ensures r.Failure? <==> forall m :: m in db.movies ==> m.id != id
    ensures r.Failure? ==> r.error == NotFound(MovieNotFoundMessage(id))
    ensures r.Success? ==> r.value.id == id && exists m :: m in db.movies && m.id == id && r.value == MapToResponse(m, db.reviews)
  {
    match MovieById(db.movies, id)
    case None => Failure(NotFound(MovieNotFoundMessage(id)))
    case Some(m) => Success(MapToResponse(m, db.reviews))
  }

  /**
   * `getAllMovies`: one response per stored movie, in table order, each
   * carrying that movie's fields, its own review count and its exact average.
   */
  function GetAllMovies(db: Database): (r: seq<MovieResponse>)
    reads db
    ensures |r| == |db.movies|
    ensures forall i :: 0 <= i < |r| ==>
      && r[i].id == db.movies[i].id && r[i].details == db.movies[i].details
      && r[i].movieType == db.movies[i].movieType && r[i].createdBy == db.movies[i].createdBy
      && r[i].reviewCount == Some(|ReviewsOf(db.reviews, db.movies[i].id)|)
      && (r[i].averageRating.None? <==> ReviewsOf(db.reviews, db.movies[i].id) == [])
      && r[i] == MapToResponse(db.movies[i], db.reviews)
  {
    ToResponses(db.movies, db.reviews)
  }

  /**
   * `getAllMoviesSorted`: the same responses as `getAllMovies`, reordered by
   * the sort key when it is recognised and left in table order otherwise.
   */
  function GetAllMoviesSorted(db: Database, sort: Option<string>): (r: seq<MovieResponse>)
    reads db
    ensures multiset(r) == multiset(GetAllMovies(db))
    ensures ParseSort(sort).None? ==> r == GetAllMovies(db)
    ensures ParseSort(sort).Some? ==> SortedBy(r, ParseSort(sort).value)
  {
    SortMovies(GetAllMovies(db), sort)
  }

  /** `getMoviesByType`: the responses of exactly the movies of that type, sorted when asked. */
  function GetMoviesByType(db: Database, t: MovieType, sort: Option<string>): (r: seq<MovieResponse>)
    reads db
    ensures forall x :: x in r <==> exists m :: m in db.movies && m.movieType == t && x == MapToResponse(m, db.reviews)
    ensures multiset(r) == multiset(ToResponses(MovieRepository.FindByType(db.movies, t), db.reviews))
    ensures ParseSort(sort).None? ==> r == ToResponses(MovieRepository.FindByType(db.movies, t), db.reviews)
    ensures ParseSort(sort).Some? ==> SortedBy(r, ParseSort(sort).value)
  {
    var own := MovieRepository.FindByType(db.movies, t);
    var all := ToResponses(own, db.reviews);
    var r := SortMovies(all, sort);
    assert forall x :: x in r <==> x in all by {
      forall x ensures x in r <==> x in all {
        assert x in r <==> x in multiset(r);
      }
    }
    forall x | x in all ensures exists m :: m in db.movies && m.movieType == t && x == MapToResponse(m, db.reviews) {
      var i :| 0 <= i < |all| && all[i] == x;
      assert own[i] in own;
    }
    forall m | m in db.movies && m.movieType == t ensures MapToResponse(m, db.reviews) in all {
      var i :| 0 <= i < |own| && own[i] == m;
      assert all[i] == MapToResponse(m, db.reviews);
    }
    r
  }

  /** `searchMovies`: the responses of the movies the keyword search returns, unsorted. */
  function SearchMovies(db: Database, keyword: string): (r: seq<MovieResponse>)
    reads db
    ensures |r| == |MovieRepository.SearchMovies(db.movies, keyword)|
    ensures forall i :: 0 <= i < |r| ==>
      (MovieRepository.MatchesKeyword(MovieRepository.SearchMovies(db.movies, keyword)[i], keyword)
       && r[i] == MapToResponse(MovieRepository.SearchMovies(db.movies, keyword)[i], db.reviews))
  {
    var found := MovieRepository.SearchMovies(db.movies, keyword);
    assert forall i :: 0 <= i < |found| ==> found[i] in found;
    ToResponses(found, db.reviews)
  }

  /** The type a create request stores: the request's, or MOVIE when it has none. */
  function RequestedType(request: MovieRequest): MovieType
  {
    if request.movieType.Some? then request.movieType.value else MOVIE
  }

  /**
   * `createMovie`: stores one new movie with the request's fields, the
   * requested type or MOVIE, the acting username as `createdBy`, and the
   * persist hook's two clock readings as `createdAt` and `updatedAt`; the new
   * id was never issued before, so no review refers to it yet.
   */
  method CreateMovie(db: Database, request: MovieRequest, username: string, first: Timestamp, second: Timestamp)
    returns (r: MovieResponse)
    requires db.Valid()
    modifies db
    ensures db.Valid()
    ensures |db.movies| == |old(db.movies)| + 1 && db.movies[..|old(db.movies)|] == old(db.movies)
    ensures var row := db.movies[|old(db.movies)|];
      && (forall m :: m in old(db.movies) ==> m.id != row.id)
      && row.details == request.details
      && row.movieType == RequestedType(request)
      && row.createdBy == Some(username)
      && row.createdAt == first && row.updatedAt == second
      && r == MapToResponse(row, db.reviews)
    ensures r.reviewCount == Some(0) && r.averageRating == None
    ensures db.users == old(db.users) && db.reviews == old(db.reviews) && db.watchlist == old(db.watchlist)
  {
    var movie := new Movie();
    movie.details := request.details;
    movie.movieType := RequestedType(request);
    movie.createdBy := Some(username);
    // movieRepository.save: the @PrePersist hook runs, then the identity column is filled
    movie.OnCreate(first, second);
    movie.id := Some(db.nextMovieId);
    db.nextMovieId := db.nextMovieId + 1;
    var row := movie.Row();
    Seqs.AscendingSnoc(db.movies, row, MovieKey);
    db.movies := db.movies + [row];
    assert db.movies[..|old(db.movies)|] == old(db.movies);
    r := MapToResponse(row, db.reviews);
  }

  /**
   * `updateMovie`: an unknown id fails with NotFound and changes nothing.
   * Otherwise the request's fields overwrite the stored ones (nulls included),
   * the type changes only when the request names one, `createdBy` and
   * `createdAt` stay, `updatedAt` becomes `now`, and no other row changes.
   */
  method UpdateMovie(db: Database, id: int, request: MovieRequest, now: Timestamp) returns (r: Result<MovieResponse>)
    requires db.Valid()
    modifies db
    ensures db.Valid()
    ensures db.users == old(db.users) && db.reviews == old(db.reviews) && db.watchlist == old(db.watchlist)
    ensures MovieIndex(old(db.movies), id).None? ==>
      r == Failure(NotFound(MovieNotFoundMessage(id))) && db.movies == old(db.movies)
    ensures MovieIndex(old(db.movies), id).Some? ==>
      var i := MovieIndex(old(db.movies), id).value;
      var before := old(db.movies)[i];
      var after := MovieRow(id, request.details,
                            if request.movieType.Some? then request.movieType.value else before.movieType,
                            before.createdBy, before.createdAt, now);
      && db.movies == old(db.movies)[i := after]
      && r == Success(MapToResponse(after, db.reviews))
  {
    var found := MovieIndex(db.movies, id);
    if found.None? {
      return Failure(NotFound(MovieNotFoundMessage(id)));
    }
    var i := found.value;
    var movie := new Movie.Load(db.movies[i]);
    movie.details := request.details;
    if request.movieType.Some? {
      movie.movieType := request.movieType.value;
    }
    // movieRepository.save: the @PreUpdate hook runs; created_at is not an updatable column
    movie.OnUpdate(now);
    var row := movie.Row().(createdAt := db.movies[i].createdAt);
    Seqs.AscendingUpdate(db.movies, i, row, MovieKey);
    db.movies := db.movies[i := row];
    r := Success(MapToResponse(row, db.reviews));
  }

  /**
   * `deleteMovie`: an unknown id fails with NotFound and changes nothing;
   * otherwise exactly the movie with that id is removed. Reviews and
   * watchlist rows that refer to it are left as they are.
   */
  method DeleteMovie(db: Database, id: int) returns (r: Result<()>)
    requires db.Valid()
    modifies db
    ensures db.Valid()
    ensures db.users == old(db.users) && db.reviews == old(db.reviews) && db.watchlist == old(db.watchlist)
    ensures MovieIndex(old(db.movies), id).None? ==>
      r == Failure(NotFound(MovieNotFoundMessage(id))) && db.movies == old(db.movies)
    ensures MovieIndex(old(db.movies), id).Some? ==>
      var i := MovieIndex(old(db.movies), id).value;
      && r == Success(())
      && db.movies == old(db.movies)[..i] + old(db.movies)[i + 1..]
      && (forall m :: m in db.movies <==> m in old(db.movies) && m.id != id)
  {
    var found := MovieIndex(db.movies, id);
    if found.None? {
      return Failure(NotFound(MovieNotFoundMessage(id)));
    }
    var i := found.value;
    Seqs.AscendingRemove(db.movies, i, MovieKey);
    db.movies := db.movies[..i] + db.movies[i + 1..];
    r := Success(());
  }
}
