/**
 * The relational store the services work on: the users, movies, reviews and
 * watchlist tables, the repository look-ups the services call, and the
 * integrity rules the tables keep.
 */
module Store {
  import opened Wrappers
  import Seqs
  import opened Entities
  import Text

  function UserKey(u: User): int { u.id }
  function MovieKey(m: MovieRow): int { m.id }
  function ReviewKey(r: Review): int { r.id }
  function EntryKey(w: WatchlistRow): int { w.id }

  /** No two users share a username. */
  ghost predicate UniqueUsernames(users: seq<User>)
  {
    forall i, j :: 0 <= i < j < |users| ==> users[i].username != users[j].username
  }

  /** No two users share an email. */
  ghost predicate UniqueEmails(users: seq<User>)
  {
    forall i, j :: 0 <= i < j < |users| ==> users[i].email != users[j].email
  }

  /** At most one review per (user, movie) pair. */
  ghost predicate OneReviewPerPair(reviews: seq<Review>)
  {
    forall i, j :: 0 <= i < j < |reviews| ==>
      !(reviews[i].userId == reviews[j].userId && reviews[i].movieId == reviews[j].movieId)
  }

  /** The unique constraint on (user_id, movie_id) of the `watchlist` table. */
  ghost predicate OneEntryPerPair(watchlist: seq<WatchlistRow>)
  {
    forall i, j :: 0 <= i < j < |watchlist| ==>
      !(watchlist[i].userId == watchlist[j].userId && watchlist[i].movieId == watchlist[j].movieId)
  }

  /** `UserRepository.findByUsername`. */
  function UserByUsername(users: seq<User>, username: string): (r: Option<User>)
    ensures r.Some? ==> r.value in users && r.value.username == username
    ensures r.None? <==> forall u :: u in users ==> u.username != username
  {
    match Seqs.IndexWhere(users, (u: User) => u.username == username)
    case Some(i) => Some(users[i])
    case None => None
  }

  /** The user a review or a watchlist entry belongs to. */
  function UserById(users: seq<User>, id: int): (r: Option<User>)
    ensures r.Some? ==> r.value in users && r.value.id == id
    ensures r.None? <==> forall u :: u in users ==> u.id != id
  {
    match Seqs.IndexWhere(users, (u: User) => u.id == id)
    case Some(i) => Some(users[i])
    case None => None
  }

  /** `UserRepository.existsByEmail`. */
  predicate EmailTaken(users: seq<User>, email: string)
  {
    exists u :: u in users && u.email == email
  }

  /** Where `MovieRepository.findById` finds its row. */
  function MovieIndex(movies: seq<MovieRow>, id: int): (r: Option<nat>)
    ensures r.Some? ==> r.value < |movies| && movies[r.value].id == id
    ensures r.None? <==> forall m :: m in movies ==> m.id != id
  {
    Seqs.IndexWhere(movies, (m: MovieRow) => m.id == id)
  }

  /** `MovieRepository.findById`. */
  function MovieById(movies: seq<MovieRow>, id: int): (r: Option<MovieRow>)
    ensures r.Some? ==> r.value in movies && r.value.id == id
    ensures r.None? <==> forall m :: m in movies ==> m.id != id
  {
    match MovieIndex(movies, id)
    case Some(i) => Some(movies[i])
    case None => None
  }

  /** The message of the NotFound error for an unknown movie id. */
  function MovieNotFoundMessage(id: int): string
  {
    "Movie not found with id: " + Text.IntToString(id)
  }

  /** `ReviewRepository.findByMovieId`. */
  function ReviewsOf(reviews: seq<Review>, movieId: int): (r: seq<Review>)
    ensures forall x :: x in r <==> x in reviews && x.movieId == movieId
  {
    Seqs.Filter(reviews, (x: Review) => x.movieId == movieId)
  }

  /** `ReviewRepository.findByUserId`. */
  function ReviewsBy(reviews: seq<Review>, userId: int): (r: seq<Review>)
    ensures forall x :: x in r <==> x in reviews && x.userId == userId
  {
    Seqs.Filter(reviews, (x: Review) => x.userId == userId)
  }

  /** `WatchlistRepository.findByUserId`. */
  function EntriesOf(watchlist: seq<WatchlistRow>, userId: int): (r: seq<WatchlistRow>)
    ensures forall w :: w in r <==> w in watchlist && w.userId == userId
  {
    Seqs.Filter(watchlist, (w: WatchlistRow) => w.userId == userId)
  }

  /**
   * The look-ups by movie and by user are selections of the table: they keep
   * the table order and return each selected row as often as it is stored.
   */
  lemma SelectionsKeepOrderAndCount(reviews: seq<Review>, watchlist: seq<WatchlistRow>, movieId: int, userId: int)
    ensures Seqs.IsSubsequence(ReviewsOf(reviews, movieId), reviews)
    ensures forall x :: multiset(ReviewsOf(reviews, movieId))[x] == if x.movieId == movieId then multiset(reviews)[x] else 0
    ensures Seqs.IsSubsequence(ReviewsBy(reviews, userId), reviews)
    ensures forall x :: multiset(ReviewsBy(reviews, userId))[x] == if x.userId == userId then multiset(reviews)[x] else 0
    ensures Seqs.IsSubsequence(EntriesOf(watchlist, userId), watchlist)
    ensures forall w :: multiset(EntriesOf(watchlist, userId))[w] == if w.userId == userId then multiset(watchlist)[w] else 0
  {
    Seqs.FilterCount(reviews, (x: Review) => x.movieId == movieId);
    Seqs.FilterCount(reviews, (x: Review) => x.userId == userId);
    Seqs.FilterCount(watchlist, (w: WatchlistRow) => w.userId == userId);
  }

  /** Where `ReviewRepository.findById` finds its row. */
  function ReviewIndex(reviews: seq<Review>, id: int): (r: Option<nat>)
    ensures r.Some? ==> r.value < |reviews| && reviews[r.value].id == id
    ensures r.None? <==> forall x :: x in reviews ==> x.id != id
  {
    Seqs.IndexWhere(reviews, (x: Review) => x.id == id)
  }

  /** `ReviewRepository.existsByUserIdAndMovieId`. */
  predicate ReviewExists(reviews: seq<Review>, userId: int, movieId: int)
  {
    exists x :: x in reviews && x.userId == userId && x.movieId == movieId
  }

  /** `WatchlistRepository.existsByUserIdAndMovieId`. */
  predicate EntryExists(watchlist: seq<WatchlistRow>, userId: int, movieId: int)
  {
    exists w :: w in watchlist && w.userId == userId && w.movieId == movieId
  }

  /** The rows `WatchlistRepository.deleteByUserIdAndMovieId` leaves behind. */
  function WithoutEntry(watchlist: seq<WatchlistRow>, userId: int, movieId: int): (r: seq<WatchlistRow>)
    ensures forall w :: w in r <==> w in watchlist && !(w.userId == userId && w.movieId == movieId)
    ensures Seqs.IsSubsequence(r, watchlist)
  {
    Seqs.Filter(watchlist, (w: WatchlistRow) => !(w.userId == userId && w.movieId == movieId))
  }

  /**
   * Adding an entry for a pair that was absent and then deleting that pair
   * gives back the original table.
   */
  lemma {:induction false} AddThenRemoveRestores(watchlist: seq<WatchlistRow>, entry: WatchlistRow)
    requires !EntryExists(watchlist, entry.userId, entry.movieId)
    ensures WithoutEntry(watchlist + [entry], entry.userId, entry.movieId) == watchlist
  {
    var p := (w: WatchlistRow) => !(w.userId == entry.userId && w.movieId == entry.movieId);
    Seqs.FilterSnoc(watchlist, entry, p);
    Seqs.FilterAll(watchlist, p);
  }

  /** The users table: ids ascending below the counter; usernames and emails unique. */
  ghost predicate UsersValid(users: seq<User>, nextId: int)
  {
    && Seqs.Ascending(users, UserKey) && (forall u :: u in users ==> u.id < nextId)
    && UniqueUsernames(users) && UniqueEmails(users)
  }

  /** The movies table: ids ascending below the counter. */
  ghost predicate MoviesValid(movies: seq<MovieRow>, nextId: int)
  {
    Seqs.Ascending(movies, MovieKey) && (forall m :: m in movies ==> m.id < nextId)
  }

  /**
   * The reviews table: ids ascending below the counter, one review per
   * (user, movie) pair, each by a stored user about an issued movie id.
   */
  ghost predicate ReviewsValid(reviews: seq<Review>, nextId: int, users: seq<User>, nextMovieId: int)
  {
    && Seqs.Ascending(reviews, ReviewKey) && (forall x :: x in reviews ==> x.id < nextId)
    && OneReviewPerPair(reviews)
    && (forall x :: x in reviews ==> UserById(users, x.userId).Some? && x.movieId < nextMovieId)
  }

  /**
   * The watchlist table: ids ascending below the counter, one entry per
   * (user, movie) pair, each of a stored user and an issued movie id.
   */
  ghost predicate WatchlistValid(watchlist: seq<WatchlistRow>, nextId: int, users: seq<User>, nextMovieId: int)
  {
    && Seqs.Ascending(watchlist, EntryKey) && (forall w :: w in watchlist ==> w.id < nextId)
    && OneEntryPerPair(watchlist)
    && (forall w :: w in watchlist ==> UserById(users, w.userId).Some? && w.movieId < nextMovieId)
  }

  /**
   * Appending a review with the next id, by a stored user, about an issued
   * movie, for a pair not yet reviewed, keeps the reviews table valid.
   */
  lemma AppendReviewKeepsValid(reviews: seq<Review>, nextId: int, users: seq<User>, nextMovieId: int, x: Review)
    requires ReviewsValid(reviews, nextId, users, nextMovieId)
    requires x.id == nextId && UserById(users, x.userId).Some? && x.movieId < nextMovieId
    requires !ReviewExists(reviews, x.userId, x.movieId)
    ensures ReviewsValid(reviews + [x], nextId + 1, users, nextMovieId)
    ensures forall y :: y in reviews ==> y.id != x.id
  {
    Seqs.AscendingSnoc(reviews, x, ReviewKey);
    var rs := reviews + [x];
    forall i, j | 0 <= i < j < |rs| ensures !(rs[i].userId == rs[j].userId && rs[i].movieId == rs[j].movieId) {
      if j == |reviews| {
        assert rs[i] == reviews[i] && reviews[i] in reviews;
      } else {
        assert rs[i] == reviews[i] && rs[j] == reviews[j];
      }
    }
  }

  /**
   * Appending an entry with the next id, of a stored user and an issued
   * movie, for an unlisted pair, keeps the watchlist table valid.
   */
  lemma AppendEntryKeepsValid(watchlist: seq<WatchlistRow>, nextId: int, users: seq<User>, nextMovieId: int, w: WatchlistRow)
    requires WatchlistValid(watchlist, nextId, users, nextMovieId)
    requires w.id == nextId && UserById(users, w.userId).Some? && w.movieId < nextMovieId
    requires !EntryExists(watchlist, w.userId, w.movieId)
    ensures WatchlistValid(watchlist + [w], nextId + 1, users, nextMovieId)
    ensures forall v :: v in watchlist ==> v.id != w.id
  {
    Seqs.AscendingSnoc(watchlist, w, EntryKey);
    AppendKeepsOneEntryPerPair(watchlist, w);
  }

  /** Appending an entry for an unlisted pair keeps the pair unique. */
  lemma AppendKeepsOneEntryPerPair(watchlist: seq<WatchlistRow>, entry: WatchlistRow)
    requires OneEntryPerPair(watchlist) && !EntryExists(watchlist, entry.userId, entry.movieId)
    ensures OneEntryPerPair(watchlist + [entry])
  {
    var ws := watchlist + [entry];
    forall i, j | 0 <= i < j < |ws| ensures !(ws[i].userId == ws[j].userId && ws[i].movieId == ws[j].movieId) {
      if j == |watchlist| {
        assert ws[i] == watchlist[i] && watchlist[i] in watchlist;
      } else {
        assert ws[i] == watchlist[i] && ws[j] == watchlist[j];
      }
    }
  }

  /**
   * Appending a user whose username and email are both unused keeps them
   * unique, and every user found by id before is still found.
   */
  lemma AppendKeepsUsersUnique(users: seq<User>, user: User)
    requires UniqueUsernames(users) && UniqueEmails(users)
    requires UserByUsername(users, user.username).None? && !EmailTaken(users, user.email)
    ensures UniqueUsernames(users + [user]) && UniqueEmails(users + [user])
    ensures forall id :: UserById(users, id).Some? ==> UserById(users + [user], id).Some?
  {
    var us := users + [user];
    forall i, j | 0 <= i < j < |us| ensures us[i].username != us[j].username && us[i].email != us[j].email {
      assert us[i] == users[i] && users[i] in users;
      if j < |users| {
        assert us[j] == users[j];
      }
    }
    forall id | UserById(users, id).Some? ensures UserById(us, id).Some? {
      assert UserById(users, id).value in us;
    }
  }

  /** Deleting rows keeps the (user, movie) uniqueness of the watchlist. */
  lemma FilterKeepsOneEntryPerPair(watchlist: seq<WatchlistRow>, p: WatchlistRow -> bool)
    requires OneEntryPerPair(watchlist)
    ensures OneEntryPerPair(Seqs.Filter(watchlist, p))
  {
    var rel := (a: WatchlistRow, b: WatchlistRow) => !(a.userId == b.userId && a.movieId == b.movieId);
    assert Seqs.Pairwise(watchlist, rel);
    Seqs.FilterPairwise(watchlist, p, rel);
    var r := Seqs.Filter(watchlist, p);
    assert forall i, j :: 0 <= i < j < |r| ==> rel(r[i], r[j]);
  }

  /** The tables and the counters that generate their ids. */
  class Database {
    var users: seq<User>
    var movies: seq<MovieRow>
    var reviews: seq<Review>
    var watchlist: seq<WatchlistRow>
    var nextUserId: int
    var nextMovieId: int
    var nextReviewId: int
    var nextWatchlistId: int

    /**
     * Ids are generated in increasing order and never reused; usernames and
     * emails are unique; a (user, movie) pair has at most one review and at
     * most one watchlist entry; every review and entry belongs to a stored
     * user (users are never deleted) and refers to a movie id that was issued.
     */
    ghost predicate Valid()
      reads this
    {
      && UsersValid(users, nextUserId)
      && MoviesValid(movies, nextMovieId)
      && ReviewsValid(reviews, nextReviewId, users, nextMovieId)
      && WatchlistValid(watchlist, nextWatchlistId, users, nextMovieId)
    }

    /** An empty database whose identity columns start at 1. */
    constructor ()
      ensures Valid()
      ensures users == [] && movies == [] && reviews == [] && watchlist == []
    {
      users, movies, reviews, watchlist := [], [], [], [];
      nextUserId, nextMovieId, nextReviewId, nextWatchlistId := 1, 1, 1, 1;
    }
  }
}
