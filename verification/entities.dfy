/**
 * The persisted entities (Movie, User, Review, Watchlist), the request and
 * response records the services exchange, and the two entity classes whose
 * JPA lifecycle hooks stamp timestamps.
 */
module Entities {
  import opened Wrappers

  /** A `LocalDateTime`; the clock is read by the caller and passed in. */
  type Timestamp = int

  datatype MovieType = MOVIE | TV_SERIES

  datatype Role = USER | ADMIN

  /** A stored user; `password` holds the encoded credential. */
  datatype User = User(id: int, username: string, email: string, password: string, role: Role)

  /**
   * The movie fields a request carries and an update overwrites wholesale,
   * nulls included. `title` is a non-null column and a required request field.
   */
  datatype MovieDetails = MovieDetails(
    title: string,
    description: Option<string>,
    releaseYear: Option<int>,
    genre: Option<string>,
    director: Option<string>,
    imageUrl: Option<string>,
    actors: Option<string>,
    seasons: Option<int>,
    episodes: Option<int>,
    imdbId: Option<string>,
    imdbRating: Option<real>)

  /** A row of the `movies` table: `type` and `created_at` are non-null columns. */
  datatype MovieRow = MovieRow(
    id: int,
    details: MovieDetails,
    movieType: MovieType,
    createdBy: Option<string>,
    createdAt: Timestamp,
    updatedAt: Timestamp)

  /** A row of the reviews table; `userId` and `movieId` stand for the owning relations. */
  datatype Review = Review(
    id: int,
    userId: int,
    movieId: int,
    rating: int,
    comment: Option<string>,
    createdAt: Timestamp,
    updatedAt: Timestamp)

  /** A row of the `watchlist` table: `user_id`, `movie_id` and `added_at` are non-null columns. */
  datatype WatchlistRow = WatchlistRow(id: int, userId: int, movieId: int, addedAt: Timestamp)

  /** The body of a create or update request; `movieType` may be absent. */
  datatype MovieRequest = MovieRequest(details: MovieDetails, movieType: Option<MovieType>)

  datatype ReviewRequest = ReviewRequest(rating: int, comment: Option<string>)

  datatype RegisterRequest = RegisterRequest(username: string, email: string, password: string)

  /** A movie as the API returns it; the two aggregates are null when not computed. */
  datatype MovieResponse = MovieResponse(
    id: int,
    details: MovieDetails,
    movieType: MovieType,
    createdBy: Option<string>,
    createdAt: Timestamp,
    updatedAt: Timestamp,
    averageRating: Option<real>,
    reviewCount: Option<int>)

  /** A review with its owner's name and its movie's title and image joined in. */
  datatype ReviewResponse = ReviewResponse(
    id: int,
    userId: int,
    username: string,
    movieId: int,
    movieTitle: Option<string>,
    movieImageUrl: Option<string>,
    rating: int,
    comment: Option<string>,
    createdAt: Timestamp,
    updatedAt: Timestamp)

  /** A watchlist entry with the movie embedded (absent when the movie row is gone). */
  datatype WatchlistResponse = WatchlistResponse(id: int, movie: Option<MovieResponse>, addedAt: Timestamp)

  /** Registration's reply without the signed token. */
  datatype AuthResponse = AuthResponse(userId: int, username: string, email: string)

  /** The details of an entity that has not been filled in yet (its title is the empty string). */
  const BlankDetails := MovieDetails("", None, None, None, None, None, None, None, None, None, None)

  /**
   * The Movie entity. Its id and timestamps are null until it is persisted;
   * the lifecycle hooks fill the timestamps in.
   */
  class Movie {
    var id: Option<int>
    var details: MovieDetails
    var movieType: MovieType
    var createdBy: Option<string>
    var createdAt: Option<Timestamp>
    var updatedAt: Option<Timestamp>

    /** A new entity: `type` defaults to MOVIE, everything else is unset. */
    constructor ()
      ensures movieType == MOVIE
      ensures id == None && details == BlankDetails && createdBy == None
      ensures createdAt == None && updatedAt == None
    {
      id := None;
      details := BlankDetails;
      movieType := MOVIE;
      createdBy := None;
      createdAt := None;
      updatedAt := None;
    }

    /** The managed entity the repository hands back for a stored row. */
    constructor Load(row: MovieRow)
      ensures Persisted() && Row() == row
    {
      id := Some(row.id);
      details := row.details;
      movieType := row.movieType;
      createdBy := row.createdBy;
      createdAt := Some(row.createdAt);
      updatedAt := Some(row.updatedAt);
    }

    /**
     * `@PrePersist`: the clock is read twice, once for `createdAt` and once
     * for `updatedAt`; nothing else changes.
     */
    method OnCreate(first: Timestamp, second: Timestamp)
      modifies this
      ensures createdAt == Some(first) && updatedAt == Some(second)
      ensures id == old(id) && details == old(details) && movieType == old(movieType)
      ensures createdBy == old(createdBy)
    {
      createdAt := Some(first);
      updatedAt := Some(second);
    }

    /** `@PreUpdate`: only `updatedAt` is refreshed. */
    method OnUpdate(now: Timestamp)
      modifies this
      ensures updatedAt == Some(now)
      ensures id == old(id) && details == old(details) && movieType == old(movieType)
      ensures createdBy == old(createdBy) && createdAt == old(createdAt)
    {
      updatedAt := Some(now);
    }

    /** The entity has an id and both timestamps, so it can be written as a row. */
    predicate Persisted()
      reads this
    {
      id.Some? && createdAt.Some? && updatedAt.Some?
    }

    function Row(): MovieRow
      reads this
      requires Persisted()
    {
      MovieRow(id.value, details, movieType, createdBy, createdAt.value, updatedAt.value)
    }
  }

  /** The Watchlist entity: a (user, movie) link whose `addedAt` is stamped when it is persisted. */
  class Watchlist {
    var id: Option<int>
    var userId: int
    var movieId: int
    var addedAt: Option<Timestamp>

    /** `new Watchlist()` followed by `setUser` and `setMovie`. */
    constructor (userId: int, movieId: int)
      ensures this.userId == userId && this.movieId == movieId
      ensures id == None && addedAt == None
    {
      id := None;
      this.userId := userId;
      this.movieId := movieId;
      addedAt := None;
    }

    /** `@PrePersist`: stamps `addedAt`; nothing else changes. */
    method OnCreate(now: Timestamp)
      modifies this
      ensures addedAt == Some(now)
      ensures id == old(id) && userId == old(userId) && movieId == old(movieId)
    {
      addedAt := Some(now);
    }
  }
}
