/**
 * The home page's client-side logic: the search box and genre filter over
 * the fetched movies, the genre options, and the set of watchlisted ids.
 */
module Home {
  import opened Wrappers
  import Seqs
  import opened Text
  import opened Entities

  /**
   * The search box condition: the query occurs, ignoring case, in the
   * title, the description or the director. The genre is not searched, and
   * a missing description or director does not match.
   */
  predicate MatchesQuery(m: MovieResponse, query: string)
  {
    || ContainsIgnoreCase(m.details.title, query)
    || (m.details.description.Some? && ContainsIgnoreCase(m.details.description.value, query))
    || (m.details.director.Some? && ContainsIgnoreCase(m.details.director.value, query))
  }

  /** The genre filter: exact, case-sensitive equality; a movie without a genre never matches. */
  predicate HasGenre(m: MovieResponse, genre: string)
  {
    m.details.genre == Some(genre)
  }

  /**
   * `filterMovies`: an empty query or an empty genre (both falsy) disables
   * its filter; the kept movies stay in fetched order.
   */
  function FilterMovies(movies: seq<MovieResponse>, query: string, genre: string): (r: seq<MovieResponse>)
    ensures query == "" && genre == "" ==> r == movies
    ensures Seqs.IsSubsequence(r, movies)
    ensures forall m :: m in r <==>
      && m in movies
      && (query == "" || MatchesQuery(m, query))
      && (genre == "" || HasGenre(m, genre))
  {
    var byQuery := if query != "" then Seqs.Filter(movies, (m: MovieResponse) => MatchesQuery(m, query)) else movies;
    Seqs.SubsequenceReflexive(movies);
    if genre != "" then
      var r := Seqs.Filter(byQuery, (m: MovieResponse) => HasGenre(m, genre));
      Seqs.SubsequenceTransitive(r, byQuery, movies);
      r
    else byQuery
  }

  /** Searching "nolan" finds a movie directed by "Christopher Nolan" whatever the title. */
  lemma DirectorSearchExample(m: MovieResponse)
    requires m.details.director == Some("Christopher Nolan")
    ensures FilterMovies([m], "nolan", "") == [m]
  {
    assert OccursAt(Lower("Christopher Nolan"), Lower("nolan"), 12);
    assert MatchesQuery(m, "nolan");
  }

  /** The genre column of the fetched movies, in order. */
  function GenreColumn(movies: seq<MovieResponse>): (r: seq<Option<string>>)
    ensures |r| == |movies|
    ensures forall i :: 0 <= i < |movies| ==> r[i] == movies[i].details.genre
  {
    seq(|movies|, i requires 0 <= i < |movies| => movies[i].details.genre)
  }

  /** A genre occurs in the column exactly when some fetched movie has it. */
  lemma GenreColumnMembership(movies: seq<MovieResponse>, g: string)
    ensures Some(g) in GenreColumn(movies) <==> exists m :: m in movies && m.details.genre == Some(g)
  {
    var column := GenreColumn(movies);
    if exists m :: m in movies && m.details.genre == Some(g) {
      var m :| m in movies && m.details.genre == Some(g);
      var i :| 0 <= i < |movies| && movies[i] == m;
      assert column[i] == Some(g);
    }
    if Some(g) in column {
      var i :| 0 <= i < |column| && column[i] == Some(g);
      assert movies[i] in movies;
    }
  }

  /** JavaScript truthiness of a genre: neither null nor empty. */
  predicate IsGenre(g: Option<string>)
  {
    g.Some? && g.value != ""
  }

  /** The genre strings of a list of present genres. */
  function Unwrap(genres: seq<Option<string>>): (r: seq<string>)
    requires forall i :: 0 <= i < |genres| ==> genres[i].Some?
    ensures |r| == |genres|
    ensures forall i :: 0 <= i < |r| ==> genres[i] == Some(r[i])
    ensures forall g :: g in r <==> Some(g) in genres
  {
    var r := seq(|genres|, i requires 0 <= i < |genres| && genres[i].Some? => genres[i].value);
    assert forall i :: 0 <= i < |r| ==> genres[i] == Some(r[i]);
    r
  }

  /**
   * The distinct entries of the genre column with nulls and empty strings
   * dropped, in order of first occurrence.
   */
  function PresentGenres(movies: seq<MovieResponse>): (kept: seq<Option<string>>)
    ensures forall i :: 0 <= i < |kept| ==> IsGenre(kept[i])
    ensures forall g :: Some(g) in kept <==> g != "" && exists m :: m in movies && m.details.genre == Some(g)
    ensures forall i, j :: 0 <= i < j < |kept| ==>
      kept[i] in GenreColumn(movies) && kept[j] in GenreColumn(movies)
      && Seqs.FirstIndexOf(GenreColumn(movies), kept[i]) < Seqs.FirstIndexOf(GenreColumn(movies), kept[j])
  {
    var column := GenreColumn(movies);
    var kept := Seqs.Filter(Seqs.Distinct(column), IsGenre);
    assert forall i :: 0 <= i < |kept| ==> IsGenre(kept[i]) by {
      forall i | 0 <= i < |kept| ensures IsGenre(kept[i]) {
        assert kept[i] in kept;
      }
    }
    forall g ensures Some(g) in kept <==> g != "" && exists m :: m in movies && m.details.genre == Some(g) {
      GenreColumnMembership(movies, g);
    }
    Seqs.FilterDistinctFirstOccurrence(column, IsGenre);
    kept
  }

  /**
   * `genres`: the distinct genres of the fetched movies, then nulls and empty
   * strings dropped; each genre appears once, in order of first occurrence.
   */
  function Genres(movies: seq<MovieResponse>): (r: seq<string>)
    ensures forall g :: g in r <==> g != "" && exists m :: m in movies && m.details.genre == Some(g)
    ensures forall i, j :: 0 <= i < j < |r| ==> r[i] != r[j]
    ensures forall i, j :: 0 <= i < j < |r| ==>
      Some(r[i]) in GenreColumn(movies) && Some(r[j]) in GenreColumn(movies)
      && Seqs.FirstIndexOf(GenreColumn(movies), Some(r[i])) < Seqs.FirstIndexOf(GenreColumn(movies), Some(r[j]))
  {
    var kept := PresentGenres(movies);
    var r := Unwrap(kept);
    assert forall i :: 0 <= i < |r| ==> kept[i] == Some(r[i]);
    r
  }

  /** The page's state hooks. */
  class HomePage {
    var movies: seq<MovieResponse>
    var filteredMovies: seq<MovieResponse>
    var searchQuery: string
    var selectedGenre: string
    var watchlistMovieIds: set<int>

    /** The initial state: nothing fetched, no query, no genre, nothing watchlisted. */
    constructor ()
      ensures movies == [] && filteredMovies == [] && searchQuery == "" && selectedGenre == ""
      ensures watchlistMovieIds == {}
    {
      movies, filteredMovies := [], [];
      searchQuery, selectedGenre := "", "";
      watchlistMovieIds := {};
    }

    /** The effect that re-runs `filterMovies` when the query, the genre or the movies change. */
    method ApplyFilters()
      modifies this
      ensures filteredMovies == FilterMovies(movies, searchQuery, selectedGenre)
      ensures movies == old(movies) && searchQuery == old(searchQuery) && selectedGenre == old(selectedGenre)
      ensures watchlistMovieIds == old(watchlistMovieIds)
    {
      filteredMovies := FilterMovies(movies, searchQuery, selectedGenre);
    }

    /**
     * `handleWatchlistChange`: the id is added or removed as reported, and
     * every other id keeps its membership.
     */
    method HandleWatchlistChange(movieId: int, isAdded: bool)
      modifies this
      ensures isAdded ==> movieId in watchlistMovieIds
      ensures !isAdded ==> movieId !in watchlistMovieIds
      ensures forall id :: id != movieId ==> (id in watchlistMovieIds <==> id in old(watchlistMovieIds))
      ensures movies == old(movies) && filteredMovies == old(filteredMovies)
      ensures searchQuery == old(searchQuery) && selectedGenre == old(selectedGenre)
    {
      var next := watchlistMovieIds;
      if isAdded {
        next := next + {movieId};
      } else {
        next := next - {movieId};
      }
      watchlistMovieIds := next;
    }
  }
}
