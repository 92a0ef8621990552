/**
 * The watchlist service: add and remove a (user, movie) pair, and list a
 * user's entries with the movie embedded.
 */
module WatchlistService {
  import opened Wrappers
  import Seqs
  import opened Entities
  import opened Store
  import MovieService

  /**
   * `mapToResponse`: the entry with its movie's own fields embedded; this
   * projection never computes the review aggregates, so both stay null.
   */
  function EntryToResponse(movies: seq<MovieRow>, w: WatchlistRow): (r: WatchlistResponse)
    ensures r.id == w.id && r.addedAt == w.addedAt
    ensures r.movie.Some? <==> exists m :: m in movies && m.id == w.movieId
    ensures r.movie.Some? ==> r.movie.value.id == w.movieId
    ensures r.movie.Some? ==> r.movie.value.averageRating == None && r.movie.value.reviewCount == None
  {
    match MovieById(movies, w.movieId)
    case None => WatchlistResponse(w.id, None, w.addedAt)
    case Some(m) => WatchlistResponse(w.id, Some(MovieService.EntityFields(m)), w.addedAt)
  }

  /**
   * With movie ids unique, as the primary key makes them, the embedded movie
   * carries every field of the entry's movie row and no aggregates.
   */
  lemma ResponseEmbedsMovie(movies: seq<MovieRow>, w: WatchlistRow)
    ensures Seqs.Ascending(movies, MovieKey) ==> forall m :: m in movies && m.id == w.movieId ==>
      EntryToResponse(movies, w).movie == Some(MovieService.EntityFields(m))
  {
    if Seqs.Ascending(movies, MovieKey) {
      forall m | m in movies && m.id == w.movieId
        ensures EntryToResponse(movies, w).movie == Some(MovieService.EntityFields(m))
      {
        var found := MovieById(movies, w.movieId).value;
        var i :| 0 <= i < |movies| && movies[i] == m;
        var j :| 0 <= j < |movies| && movies[j] == found;
        assert i == j;
      }
    }
  }

  /** Each entry mapped to its response, in order. */
  function ToResponses(movies: seq<MovieRow>, entries: seq<WatchlistRow>): (r: seq<WatchlistResponse>)
    ensures |r| == |entries|
    ensures forall i :: 0 <= i < |r| ==> r[i] == EntryToResponse(movies, entries[i])
  {
    seq(|entries|, i requires 0 <= i < |entries| => EntryToResponse(movies, entries[i]))
  }

  /**
   * `getWatchlist`: NotFound for an unknown username, otherwise the
   * responses of exactly the caller's entries, in table order.
   */
  function GetWatchlist(db: Database, username: string): (r: Result<seq<WatchlistResponse>>)
    reads db
    ensures r.Failure? <==> UserByUsername(db.users, username).None?
    ensures r.Failure? ==> r.error == NotFound("User not found")
    ensures r.Success? ==> var u := UserByUsername(db.users, username).value;
      && |r.value| == |EntriesOf(db.watchlist, u.id)|
      && (forall i :: 0 <= i < |r.value| ==>
            EntriesOf(db.watchlist, u.id)[i].userId == u.id
            && r.value[i] == EntryToResponse(db.movies, EntriesOf(db.watchlist, u.id)[i]))
      && (forall w :: w in db.watchlist && w.userId == u.id ==>
            exists i :: 0 <= i < |r.value| && r.value[i].id == w.id)
  {
    match UserByUsername(db.users, username)
    case None => Failure(NotFound("User not found"))
    case Some(u) =>
      var own := EntriesOf(db.watchlist, u.id);
      assert forall i :: 0 <= i < |own| ==> own[i] in own;
      var r := ToResponses(db.movies, own);
      assert forall w :: w in db.watchlist && w.userId == u.id ==> exists i :: 0 <= i < |r| && r[i].id == w.id by {
        forall w | w in db.watchlist && w.userId == u.id ensures exists i :: 0 <= i < |r| && r[i].id == w.id {
          var i :| 0 <= i < |own| && own[i] == w;
          assert r[i].id == w.id;
        }
      }
      Success(r)
  }

  /**
   * The new `Watchlist` entity going through `save`: the `@PrePersist` hook
   * stamps `addedAt`, then the identity column is filled with `id`.
   */
  method SaveEntry(id: int, userId: int, movieId: int, now: Timestamp) returns (w: WatchlistRow)
    ensures w.id == id && w.userId == userId && w.movieId == movieId
    ensures w.addedAt == now
  {
    var entity := new Watchlist(userId, movieId);
    entity.OnCreate(now);
    entity.id := Some(id);
    w := WatchlistRow(entity.id.value, entity.userId, entity.movieId, entity.addedAt.value);
  }

  /**
   * `addToWatchlist`: NotFound for an unknown user (checked first) or movie,
   * BadRequest when the pair is already listed (nothing changes then);
   * otherwise exactly one entry for the pair is added, stamped with `now`.
   */
  method AddToWatchlist(db: Database, movieId: int, username: string, now: Timestamp) returns (r: Result<WatchlistResponse>)
    requires db.Valid()
    modifies db
    ensures db.Valid()
    ensures db.users == old(db.users) && db.movies == old(db.movies) && db.reviews == old(db.reviews)
    ensures UserByUsername(old(db.users), username).None? ==>
      r == Failure(NotFound("User not found")) && db.watchlist == old(db.watchlist)
    ensures UserByUsername(old(db.users), username).Some? && MovieById(old(db.movies), movieId).None? ==>
      r == Failure(NotFound(MovieNotFoundMessage(movieId))) && db.watchlist == old(db.watchlist)
    ensures UserByUsername(old(db.users), username).Some? && MovieById(old(db.movies), movieId).Some?
            && EntryExists(old(db.watchlist), UserByUsername(old(db.users), username).value.id, movieId) ==>
      r == Failure(BadRequest("Movie already in your watchlist")) && db.watchlist == old(db.watchlist)
    ensures UserByUsername(old(db.users), username).Some? && MovieById(old(db.movies), movieId).Some?
            && !EntryExists(old(db.watchlist), UserByUsername(old(db.users), username).value.id, movieId) ==>
      && |db.watchlist| == |old(db.watchlist)| + 1
      && db.watchlist[..|old(db.watchlist)|] == old(db.watchlist)
      && var w := db.watchlist[|old(db.watchlist)|];
      && (forall v :: v in old(db.watchlist) ==> v.id != w.id)
      && w.userId == UserByUsername(old(db.users), username).value.id && w.movieId == movieId
      && w.addedAt == now
      && r == Success(EntryToResponse(db.movies, w))
  {
    var user := UserByUsername(db.users, username);
    if user.None? {
      return Failure(NotFound("User not found"));
    }
    var movie := MovieById(db.movies, movieId);
    if movie.None? {
      return Failure(NotFound(MovieNotFoundMessage(movieId)));
    }
    if EntryExists(db.watchlist, user.value.id, movieId) {
      return Failure(BadRequest("Movie already in your watchlist"));
    }
    var w := SaveEntry(db.nextWatchlistId, user.value.id, movieId, now);
    assert movie.value.id < db.nextMovieId && UserById(db.users, w.userId).Some?;
    AppendEntryKeepsValid(db.watchlist, db.nextWatchlistId, db.users, db.nextMovieId, w);
    db.nextWatchlistId := db.nextWatchlistId + 1;
    ghost var before := db.watchlist;
    db.watchlist := db.watchlist + [w];
    assert db.watchlist[..|before|] == before;
    r := Success(EntryToResponse(db.movies, w));
  }

  /**
   * `removeFromWatchlist`: NotFound for an unknown user, NotFound when the
   * pair is not listed (whether or not the movie exists); otherwise the
   * pair's entry is deleted and every other entry stays, in order.
   */
  method RemoveFromWatchlist(db: Database, movieId: int, username: string) returns (r: Result<()>)
    requires db.Valid()
    modifies db
    ensures db.Valid()
    ensures db.users == old(db.users) && db.movies == old(db.movies) && db.reviews == old(db.reviews)
    ensures UserByUsername(old(db.users), username).None? ==>
      r == Failure(NotFound("User not found")) && db.watchlist == old(db.watchlist)
    ensures UserByUsername(old(db.users), username).Some?
            && !EntryExists(old(db.watchlist), UserByUsername(old(db.users), username).value.id, movieId) ==>
      r == Failure(NotFound("Movie not found in your watchlist")) && db.watchlist == old(db.watchlist)
    ensures UserByUsername(old(db.users), username).Some?
            && EntryExists(old(db.watchlist), UserByUsername(old(db.users), username).value.id, movieId) ==>
      && r == Success(())
      && db.watchlist == WithoutEntry(old(db.watchlist), UserByUsername(old(db.users), username).value.id, movieId)
      && Seqs.IsSubsequence(db.watchlist, old(db.watchlist))
      && (forall w :: w in db.watchlist <==>
            w in old(db.watchlist) && !(w.userId == UserByUsername(old(db.users), username).value.id && w.movieId == movieId))
  {
    var user := UserByUsername(db.users, username);
    if user.None? {
      return Failure(NotFound("User not found"));
    }
    if !EntryExists(db.watchlist, user.value.id, movieId) {
      return Failure(NotFound("Movie not found in your watchlist"));
    }
    var p := (w: WatchlistRow) => !(w.userId == user.value.id && w.movieId == movieId);
    Seqs.FilterAscending(db.watchlist, p, EntryKey);
    FilterKeepsOneEntryPerPair(db.watchlist, p);
    db.watchlist := WithoutEntry(db.watchlist, user.value.id, movieId);
    r := Success(());
  }
}
