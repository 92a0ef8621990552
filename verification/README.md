# MediaHub film register: a Dafny model of the services and the client logic

MediaHub is a film and TV-series catalogue. It has a Spring back end and a React front end. Users register, add and edit movies, write one review per movie, and keep a personal watchlist. This project models the core of that system in Dafny and proves what the code promises:

- **The four services.** These are the movie catalogue, reviews, the watchlist and registration. They are modelled as methods and functions over one `Store.Database` object. Its tables are sequences of rows, kept in identity order, with one counter per identity column. The source's `findAll` and derived queries have no `ORDER BY`, so this fixes an order that the database does not promise.
- **The search queries** of the movie repository.
- **The persistence hooks** of the `Movie` and `Watchlist` entities.
- **Three pieces of client logic:**
  - the five-star widget;
  - the review form's state and submit check;
  - the home page's search filter, genre list and watchlist id set.

The model is laid out as follows:

- `wrappers.dfy`: `Option`, the three error kinds (`NotFound`, `BadRequest`, `Forbidden`) carrying the exact messages the services raise, and `Result`.
- `seqs.dfy`: `Filter`, subsequences, first-occurrence order and `Distinct`. The `stream().filter`, `WHERE` and `new Set` pipelines are built from these.
- `text.dfy`: lower-casing, substring search, JavaScript `trim` and decimal rendering of ids.
- `entities.dfy`: the rows, requests and responses, and the `Movie` and `Watchlist` entity classes with their `@PrePersist`/`@PreUpdate` hooks.
- `store.dfy`: the tables, the repository look-ups and the integrity rules. Each service method is proved to preserve those rules (`Database.Valid`):
  - ids ascending and never reused;
  - unique usernames and emails;
  - one review and one watchlist entry per (user, movie) pair;
  - every review and entry owned by a stored user.
- `movie_repository.dfy`, `movie_service.dfy`, `review_service.dfy`, `watchlist_service.dfy`, `auth_service.dfy`: the back end.
- `star_rating.dfy`, `review_form.dfy`, `home.dfy`: the front end.

Modelling choices:

- **Inputs as parameters.** The clock readings and the password encoder (`encode`) are parameters. A movie's persist hook reads the clock twice, so creating a movie takes two readings. The acting user is passed by username, as the controllers pass it.
- **Case folding.** SQL `LOWER`, the `UPPER(…) = UPPER(?)` comparison of Spring Data's `IgnoreCase` finders, Java's locale-dependent `String.toLowerCase` on the sort key, and JavaScript `toLowerCase` are all modelled as ASCII lower-casing.
- **Exact averages.** A movie's average rating is the exact mean as a `real`.
- **Deleted movies.** Deleting a movie leaves its reviews and watchlist entries in place, because the service does not cascade. A review or entry whose movie is gone gets a null movie title, image or embedded movie.
- **Review timestamps.** The `Review` entity class is not part of this model. The review methods stamp `createdAt`/`updatedAt` with `now` on insert and `updatedAt` on edit, as its hooks do for the other entities.

Source paths below are relative to the repository root.

## Model

| member | source | states |
|---|---|---|
| Entities.Movie.constructor | src/main/java/com/example/filmregister/entity/Movie.java:40-42 | A new movie has type MOVIE and no id, fields or timestamps yet |
| Entities.Movie.Load | src/main/java/com/example/filmregister/entity/Movie.java:15-61 | The managed entity loaded from a stored row reads back as exactly that row |
| Entities.Movie.OnCreate | src/main/java/com/example/filmregister/entity/Movie.java:63-67 | `@PrePersist` sets createdAt from the first clock reading and updatedAt from the second, and changes nothing else |
| Entities.Movie.OnUpdate | src/main/java/com/example/filmregister/entity/Movie.java:69-72 | `@PreUpdate` sets only updatedAt; createdAt and every other field keep their value |
| Entities.Watchlist.constructor | src/main/java/com/example/filmregister/service/WatchlistService.java:40-42 | A new entry links the given user and movie and has no id or addedAt yet |
| Entities.Watchlist.OnCreate | src/main/java/com/example/filmregister/entity/Watchlist.java:34-37 | `@PrePersist` sets addedAt and leaves id, user and movie alone |
| WatchlistService.SaveEntry | src/main/java/com/example/filmregister/service/WatchlistService.java:40-44 | Saving a new entry yields a row with the issued id, the user, the movie and addedAt stamped with the clock |
| Store.UserByUsername | src/main/java/com/example/filmregister/service/ReviewService.java:31-32 | Finds a user with that username, and finds none exactly when no user has it |
| Store.UserById | src/main/java/com/example/filmregister/service/ReviewService.java:99-100 | Finds the user with that id, and finds none exactly when no user has it |
| Store.MovieById | src/main/java/com/example/filmregister/service/MovieService.java:48-49 | Finds the movie with that id, and finds none exactly when no movie has it |
| Store.ReviewsOf | src/main/java/com/example/filmregister/service/MovieService.java:145 | A review is selected iff it is stored and is about that movie |
| Store.ReviewsBy | src/main/java/com/example/filmregister/service/ReviewService.java:91 | A review is selected iff it is stored and was written by that user |
| Store.EntriesOf | src/main/java/com/example/filmregister/service/WatchlistService.java:65 | An entry is selected iff it is stored and belongs to that user |
| Store.SelectionsKeepOrderAndCount | src/main/java/com/example/filmregister/service/ReviewService.java:81-91 | The three look-ups keep table order, and each selected row appears as often as it is stored |
| Store.ReviewIndex | src/main/java/com/example/filmregister/service/ReviewService.java:53-54 | `findById` on reviews: the position of a review with that id, and none exactly when no review has it |
| Store.EmailTaken | src/main/java/com/example/filmregister/service/AuthService.java:35 | `existsByEmail`: some stored user has that email |
| Store.ReviewExists | src/main/java/com/example/filmregister/service/ReviewService.java:37 | `existsByUserIdAndMovieId` on reviews: some stored review has that user and movie |
| Store.EntryExists | src/main/java/com/example/filmregister/service/WatchlistService.java:36 | `existsByUserIdAndMovieId` on the watchlist: some stored entry has that user and movie |
| Store.Database.Valid | src/main/java/com/example/filmregister/entity/Watchlist.java:11-13 | The table invariants: ids ascending and below their counters, unique usernames and emails, one review and one watchlist entry per (user, movie) pair, every review and entry owned by a stored user |
| Store.Database.constructor | src/main/java/com/example/filmregister/entity/Watchlist.java:11-13 | An empty database satisfies the table invariants |
| Store.WithoutEntry | src/main/java/com/example/filmregister/service/WatchlistService.java:57 | Delete-by-pair keeps exactly the entries of other (user, movie) pairs |
| Store.AddThenRemoveRestores | src/main/java/com/example/filmregister/service/WatchlistService.java:44-57 | Adding an entry for an unlisted pair and then deleting that pair gives back the original table |
| Store.AppendReviewKeepsValid | src/main/java/com/example/filmregister/service/ReviewService.java:37-47 | A review with the next id, by a stored user, about an existing movie, for a pair not yet reviewed, keeps ids ascending and fresh and one review per pair |
| Store.AppendEntryKeepsValid | src/main/java/com/example/filmregister/service/WatchlistService.java:36-44 | An entry with the next id, of a stored user and an existing movie, for an unlisted pair, keeps ids ascending and fresh and one entry per pair |
| Store.AppendKeepsOneEntryPerPair | src/main/java/com/example/filmregister/entity/Watchlist.java:11-13 | Appending an entry for an unlisted pair keeps the (user_id, movie_id) constraint |
| Store.FilterKeepsOneEntryPerPair | src/main/java/com/example/filmregister/entity/Watchlist.java:11-13 | Deleting any entries keeps the (user_id, movie_id) constraint |
| Store.AppendKeepsUsersUnique | src/main/java/com/example/filmregister/service/AuthService.java:31-45 | Appending a user whose username and email are both unused keeps both unique, and every existing user is still found by id |
| Text.Lower | src/main/java/com/example/filmregister/repository/MovieRepository.java:17-20 | Lower-casing keeps the length and lower-cases each character |
| Text.LowerIdempotent | src/main/java/com/example/filmregister/repository/MovieRepository.java:17-20 | Lower-casing twice is lower-casing once |
| Text.ContainsEmptyAndSelf | src/main/java/com/example/filmregister/repository/MovieRepository.java:17 | Every text contains the empty keyword and itself |
| Text.Trim | frontend/src/components/reviews/ReviewForm.jsx:17 | The trimmed text is no longer than the input and, when non-empty, neither starts nor ends with whitespace |
| Text.TrimStart | frontend/src/components/reviews/ReviewForm.jsx:17 | A suffix of the input whose cut-off part is all whitespace and which does not start with whitespace |
| Text.TrimEnd | frontend/src/components/reviews/ReviewForm.jsx:17 | A prefix of the input whose cut-off part is all whitespace and which does not end with whitespace |
| Text.TrimIsBlock | frontend/src/components/reviews/ReviewForm.jsx:17 | The trimmed text is the block of the input starting at the trim offset |
| Text.TrimCutsTrailingWhitespace | frontend/src/components/reviews/ReviewForm.jsx:17 | Everything cut off after that block is whitespace |
| Text.TrimSpec | frontend/src/components/reviews/ReviewForm.jsx:17 | `trim` returns a contiguous block of its input, everything cut off is whitespace, and neither end of the result is whitespace |
| Text.TrimEmptyIffBlank | frontend/src/components/reviews/ReviewForm.jsx:17 | `trim` gives the empty string exactly when the input is all whitespace |
| Text.NatToString | src/main/java/com/example/filmregister/service/MovieService.java:49 | The digits of an id: at least one, no leading zero, and reading them back gives the number |
| Text.IntToString | src/main/java/com/example/filmregister/service/MovieService.java:49 | `"…" + id`: a minus sign exactly for negative ids, then digits that read back as the magnitude |
| MovieRepository.LikeIgnoreCase | src/main/java/com/example/filmregister/repository/MovieRepository.java:17-20 | A null column never matches a `LIKE` pattern |
| MovieRepository.SearchMovies | src/main/java/com/example/filmregister/repository/MovieRepository.java:16-21 | A movie is returned iff the lower-cased keyword occurs in its lower-cased title, description, director or genre; the result is an order-preserving selection of the table |
| MovieRepository.SearchEmptyKeywordReturnsAll | src/main/java/com/example/filmregister/repository/MovieRepository.java:16-21 | The empty keyword returns the whole table, since every title contains it |
| MovieRepository.SearchIgnoresKeywordCase | src/main/java/com/example/filmregister/repository/MovieRepository.java:17-20 | A keyword and its lower-cased form return the same movies |
| MovieRepository.FindByType | src/main/java/com/example/filmregister/repository/MovieRepository.java:26 | Exactly the movies of that type, in table order |
| MovieRepository.FindByGenreIgnoreCase | src/main/java/com/example/filmregister/repository/MovieRepository.java:23 | Exactly the movies whose genre equals the argument ignoring case; a movie without a genre never matches |
| MovieRepository.FindByDirectorIgnoreCase | src/main/java/com/example/filmregister/repository/MovieRepository.java:24 | Exactly the movies whose director equals the argument ignoring case; a movie without a director never matches |
| MovieRepository.FindByReleaseYear | src/main/java/com/example/filmregister/repository/MovieRepository.java:25 | Exactly the movies released in that year |
| MovieService.EntityFields | src/main/java/com/example/filmregister/service/WatchlistService.java:72-88 | The entity's own fields copied into a response, with both review aggregates null |
| MovieService.Ratings | src/main/java/com/example/filmregister/service/MovieService.java:149 | The ratings of the reviews, one per review, in order |
| MovieService.Average | src/main/java/com/example/filmregister/service/MovieService.java:146-152 | The average is null exactly for no ratings; otherwise it times the count equals the sum |
| MovieService.AverageWithinBounds | src/main/java/com/example/filmregister/service/MovieService.java:148-151 | The mean of ratings in [lo, hi] lies in [lo, hi] |
| MovieService.SumSnoc | src/main/java/com/example/filmregister/service/MovieService.java:148-151 | The sum over one more rating is the old sum plus that rating |
| MovieService.MapToResponse | src/main/java/com/example/filmregister/service/MovieService.java:143-175 | Copies the movie's fields; reviewCount is the number of reviews of that movie; averageRating is null iff it has none, else their exact mean |
| MovieService.AverageRatingWithinBounds | src/main/java/com/example/filmregister/service/MovieService.java:146-152 | If every review of the movie rates within [lo, hi], so does its average |
| MovieService.AddingReviewUpdatesAggregates | src/main/java/com/example/filmregister/service/MovieService.java:145-172 | One more review of the movie raises reviewCount by one and moves the average to (old sum + rating) / (old count + 1) |
| MovieService.ParseSort | src/main/java/com/example/filmregister/service/MovieService.java:80-101 | "rating", "reviews" and "imdb", in any letter case, select their key; anything else, or no sort, selects none |
| MovieService.AtLeast | src/main/java/com/example/filmregister/service/MovieService.java:87-88 | `nullsLast(reverseOrder())`: a null key comes after every key, otherwise larger keys come first |
| MovieService.AtLeastTotal | src/main/java/com/example/filmregister/service/MovieService.java:87-88 | Descending order with nulls last compares every two keys |
| MovieService.Insert | src/main/java/com/example/filmregister/service/MovieService.java:86-89 | Inserting into a sorted list keeps it sorted, descending with nulls last, and adds exactly that element |
| MovieService.SortBy | src/main/java/com/example/filmregister/service/MovieService.java:86-98 | The result is sorted descending by the key with nulls last, and is a permutation of the input |
| MovieService.SortByStable | src/main/java/com/example/filmregister/service/MovieService.java:86-98 | Movies with equal keys keep their relative order |
| MovieService.SortMovies | src/main/java/com/example/filmregister/service/MovieService.java:79-103 | Unchanged for no or unknown sort; otherwise sorted by the chosen key; always a permutation of the input |
| MovieService.SortMoviesStable | src/main/java/com/example/filmregister/service/MovieService.java:84-98 | A recognised sort keeps the relative order of movies with equal keys |
| MovieService.ToResponses | src/main/java/com/example/filmregister/service/MovieService.java:55-57 | One projection per movie, in order |
| MovieService.GetMovie | src/main/java/com/example/filmregister/service/MovieService.java:47-51 | NotFound "Movie not found with id: <id>" iff no movie has the id; otherwise that movie's projection |
| MovieService.GetAllMovies | src/main/java/com/example/filmregister/service/MovieService.java:54-58 | One response per stored movie, in table order, with its fields and its own review count and average |
| MovieService.GetAllMoviesSorted | src/main/java/com/example/filmregister/service/MovieService.java:71-77 | A permutation of all responses, sorted when the key is recognised and in table order otherwise |
| MovieService.GetMoviesByType | src/main/java/com/example/filmregister/service/MovieService.java:61-68 | Exactly the projections of the movies of that type: a permutation of them, in table order when unsorted and sorted when the key is recognised |
| MovieService.SearchMovies | src/main/java/com/example/filmregister/service/MovieService.java:106-110 | The projections of the keyword search's result, in its order |
| MovieService.CreateMovie | src/main/java/com/example/filmregister/service/MovieService.java:26-44 | Appends exactly one movie with a fresh id, the request's fields, the requested type or MOVIE, createdBy the caller, and createdAt and updatedAt from the persist hook's two clock readings; it has no reviews yet; other tables are untouched |
| MovieService.UpdateMovie | src/main/java/com/example/filmregister/service/MovieService.java:113-134 | NotFound and no change for an unknown id; otherwise only that movie changes: every field from the request, type only when given, createdBy and createdAt kept, updatedAt now |
| MovieService.DeleteMovie | src/main/java/com/example/filmregister/service/MovieService.java:137-141 | NotFound and no change for an unknown id; otherwise exactly that movie is removed and the others keep their order |
| ReviewService.ReviewToResponse | src/main/java/com/example/filmregister/service/ReviewService.java:96-109 | The review's fields with its author's id and username; the movie title is present iff a movie with that id is stored |
| ReviewService.ResponseJoinsMovie | src/main/java/com/example/filmregister/service/ReviewService.java:96-109 | The title and image are those of the review's movie row; both are null when the movie is gone |
| ReviewService.ToResponses | src/main/java/com/example/filmregister/service/ReviewService.java:81-83 | One response per review, in order |
| ReviewService.ToResponsesIds | src/main/java/com/example/filmregister/service/ReviewService.java:81-83 | The responses carry exactly the reviews' ids |
| ReviewService.GetMovieReviews | src/main/java/com/example/filmregister/service/ReviewService.java:79-84 | One response per stored review of that movie, in table order, each the full response of that review |
| ReviewService.GetUserReviews | src/main/java/com/example/filmregister/service/ReviewService.java:86-94 | NotFound "User not found" iff the username is unknown; otherwise one response per review of that user, in table order, each the full response of that review |
| ReviewService.ListingIds | src/main/java/com/example/filmregister/service/ReviewService.java:79-94 | Both listings carry exactly the ids of the selected stored reviews |
| ReviewService.AddReview | src/main/java/com/example/filmregister/service/ReviewService.java:29-49 | Unknown user, then unknown movie, give NotFound; a second review of the same movie gives BadRequest; otherwise exactly one review is appended with a fresh id, the rating and comment, and both timestamps now; the one-review-per-pair rule holds afterwards |
| ReviewService.UpdateReview | src/main/java/com/example/filmregister/service/ReviewService.java:51-65 | NotFound for an unknown id, Forbidden for another user's review, neither changing anything; otherwise only that review's rating, comment and updatedAt change |
| ReviewService.DeleteReview | src/main/java/com/example/filmregister/service/ReviewService.java:67-77 | NotFound for an unknown id, Forbidden for another user's review; otherwise exactly that review is removed |
| WatchlistService.EntryToResponse | src/main/java/com/example/filmregister/service/WatchlistService.java:70-95 | The entry's id and addedAt; the embedded movie is present iff the movie exists, has that movie's id, and has null aggregates |
| WatchlistService.ResponseEmbedsMovie | src/main/java/com/example/filmregister/service/WatchlistService.java:70-95 | The embedded movie carries every field of the entry's movie row |
| WatchlistService.ToResponses | src/main/java/com/example/filmregister/service/WatchlistService.java:65-67 | One response per entry, in order |
| WatchlistService.GetWatchlist | src/main/java/com/example/filmregister/service/WatchlistService.java:60-68 | NotFound iff the username is unknown; otherwise responses for exactly the caller's entries, in table order |
| WatchlistService.AddToWatchlist | src/main/java/com/example/filmregister/service/WatchlistService.java:28-46 | Unknown user, then unknown movie, give NotFound; an already listed pair gives BadRequest; otherwise exactly one entry with a fresh id and addedAt now is appended; the pair stays unique |
| WatchlistService.RemoveFromWatchlist | src/main/java/com/example/filmregister/service/WatchlistService.java:48-58 | NotFound for an unknown user or an unlisted pair, whether or not the movie exists; otherwise exactly that pair's entry is deleted and the rest keep their order |
| AuthService.Register | src/main/java/com/example/filmregister/service/AuthService.java:30-55 | A taken username, then a taken email, give BadRequest and no change; otherwise one USER is appended with a fresh id and the encoded password, and the reply carries its id, username and email; usernames and emails stay unique |
| StarRating.FilledStars | frontend/src/components/common/StarRating.jsx:4 | Always 0..5; half the rating rounded up, clamped: 0 for ratings at or below 0 and 5 above 8 |
| StarRating.Stars | frontend/src/components/common/StarRating.jsx:8-14 | Five stars, star k lit iff k is below the filled count |
| StarRating.StarsArePrefix | frontend/src/components/common/StarRating.jsx:8-14 | The lit stars are the leftmost ones |
| StarRating.ClickRating | frontend/src/components/common/StarRating.jsx:16 | A click on star k reports a rating in {2,4,6,8,10}, and that rating is drawn with exactly k+1 stars |
| StarRating.ClickRoundTrip | frontend/src/components/common/StarRating.jsx:4-16 | Drawing the rating a click reports lights exactly the clicked star and the ones to its left |
| StarRating.ClickRatingOnto | frontend/src/components/common/StarRating.jsx:16 | Each of 2, 4, 6, 8, 10 is reported by exactly one star |
| StarRating.OnClick | frontend/src/components/common/StarRating.jsx:16 | Nothing is reported when read-only or without a handler; otherwise the clicked star's rating |
| StarRating.FilledStarsMonotonic | frontend/src/components/common/StarRating.jsx:4 | A higher rating never lights fewer stars |
| ReviewForm.StarValuesAreClickRatings | frontend/src/components/reviews/ReviewForm.jsx:35 | The form offers exactly the five ratings the star widget reports |
| ReviewForm.SubmittedComment | frontend/src/components/reviews/ReviewForm.jsx:17 | Null iff the comment is all whitespace; otherwise the trimmed comment, non-empty and without whitespace at either end |
| ReviewForm.DisplayedRating | frontend/src/components/reviews/ReviewForm.jsx:39 | The hovered value while hovering, the chosen rating otherwise |
| ReviewForm.HighlightVersusStarWidget | frontend/src/components/reviews/ReviewForm.jsx:39 | Not hovering, the form lights half the rating rounded down: the same as the widget for even ratings, one fewer star for odd ratings below 10 |
| ReviewForm.FormState.constructor | frontend/src/components/reviews/ReviewForm.jsx:7-9 | Starts from the edited review's rating and comment, or 0 and empty, and no hover |
| ReviewForm.FormState.HandleStarClick | frontend/src/components/reviews/ReviewForm.jsx:20-22 | Sets the rating and nothing else |
| ReviewForm.FormState.MouseEnter | frontend/src/components/reviews/ReviewForm.jsx:44 | Sets the hover preview and nothing else |
| ReviewForm.FormState.MouseLeave | frontend/src/components/reviews/ReviewForm.jsx:45 | Clears the hover preview and nothing else |
| ReviewForm.FormState.ChangeComment | frontend/src/components/reviews/ReviewForm.jsx:58 | Sets the comment and nothing else |
| ReviewForm.FormState.Highlighted | frontend/src/components/reviews/ReviewForm.jsx:39 | A star value is lit iff it is at most the hovered value, or the chosen rating when nothing is hovered |
| ReviewForm.FormState.HandleSubmit | frontend/src/components/reviews/ReviewForm.jsx:11-18 | Nothing is submitted iff the rating is 0; otherwise the rating and the trimmed comment, or null when it is blank |
| ReviewForm.ClickThenSubmit | frontend/src/components/reviews/ReviewForm.jsx:11-22 | After a click on any of the form's stars, submitting sends that star's rating |
| Home.MatchesQuery | frontend/src/pages/Home.jsx:80-86 | The query occurs, ignoring case, in the title, the description or the director; a missing description or director does not match |
| Home.FilterMovies | frontend/src/pages/Home.jsx:77-94 | An empty query and no genre keep the list; the result is an order-preserving selection; a movie is kept iff it matches the query ignoring case in title, description or director (not genre) and has exactly the selected genre |
| Home.DirectorSearchExample | frontend/src/pages/Home.jsx:80-86 | The query "nolan" keeps a movie directed by "Christopher Nolan" |
| Home.GenreColumn | frontend/src/pages/Home.jsx:108 | The fetched movies' genres, one per movie, in order |
| Home.GenreColumnMembership | frontend/src/pages/Home.jsx:108 | A genre is in the column iff some fetched movie has it |
| Seqs.FilterCount | frontend/src/pages/Home.jsx:80-91 | A filter keeps each selected element as often as it occurs, and no other |
| Seqs.Distinct | frontend/src/pages/Home.jsx:108 | `[...new Set(xs)]`: the same elements, none twice, in order of first occurrence |
| Seqs.FilterDistinctFirstOccurrence | frontend/src/pages/Home.jsx:108 | Filtering the distinct elements keeps them in order of first occurrence |
| Home.PresentGenres | frontend/src/pages/Home.jsx:108 | The distinct non-null, non-empty genres of the fetched movies, in order of first occurrence |
| Home.Genres | frontend/src/pages/Home.jsx:108 | A genre is listed iff it is non-empty and some fetched movie has it; no genre is listed twice; the order is that of first occurrence |
| Home.HomePage.constructor | frontend/src/pages/Home.jsx:13-20 | Nothing fetched, no query, no genre, nothing watchlisted |
| Home.HomePage.ApplyFilters | frontend/src/pages/Home.jsx:39-41 | The filtered list becomes the filter of the current movies, query and genre; nothing else changes |
| Home.HomePage.HandleWatchlistChange | frontend/src/pages/Home.jsx:96-106 | The id is added or removed as reported; every other id keeps its membership |

## Left out

- Controllers, the security configuration, `AuthService.login`, and the token and auto-login step of `register` are HTTP wiring and foreign calls. `AuthResponse` carries no token. Password hashing is the `encode` parameter.
- Data initializers (seed data written at start-up) are bootstrap I/O.
- Transactions and concurrency are not modelled. Each service method is atomic, so the race between the duplicate-review check and the insert cannot occur in the model.
- Hibernate flush timing is not modelled. `@PreUpdate` runs on every update in the model, even when no field changed. In the source it runs at flush, after `mapToResponse` has read the entity, so the `updateMovie` response (and, if the `Review` entity has the same hook, the `updateReview` response) may carry the previous `updatedAt`; the model's response carries the new one.
- Floating point is not modelled. `imdbRating` and `averageRating` are exact `real`s, and `Double` rounding and display formatting are out.
- MovieRepository.SearchMovies: `%` and `_` inside the keyword are matched literally, not as `LIKE` wildcards.
- Text.Lower: Unicode and locale-dependent case folding is reduced to ASCII lower-casing, for SQL `LOWER`, the `UPPER` comparison of the `IgnoreCase` finders, Java `String.toLowerCase` and JavaScript `toLowerCase`.
- Text.TrimStart: the whitespace set is space, tab, the line breaks, form feed, vertical tab, U+00A0, U+FEFF, U+2028 and U+2029. The other Unicode space separators that JavaScript also trims are not included.
- StarRating.FilledStars: the rating is an integer, as both callers pass review ratings. Fractional ratings are not modelled.
- The `Review` entity class is not part of this model. Its timestamps are stamped by the review methods with the `now` parameter.
- Deleting a movie leaves its reviews and watchlist entries in the tables. A foreign-key rejection by the database at delete time is not modelled.
- `fetchMovies`, `fetchWatchlist` and the other client requests are network I/O. The page's fetched list is a field that the model takes as given.
