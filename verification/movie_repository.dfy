/**
 * The movie queries: the keyword search and the derived finders, as filters
 * over the movies table in table order. `LIKE` wildcards inside the keyword
 * are not interpreted: the keyword is matched as plain text.
 */
module MovieRepository {
  import opened Wrappers
  import Seqs
  import opened Text
  import opened Entities

  /** `LOWER(column) LIKE LOWER(CONCAT('%', keyword, '%'))`; a null column never matches. */
  predicate LikeIgnoreCase(column: Option<string>, keyword: string)
    ensures LikeIgnoreCase(column, keyword) ==> column.Some?
  {
    column.Some? && ContainsIgnoreCase(column.value, keyword)
  }

  /** The search condition: the keyword occurs in the title, description, director or genre. */
  predicate MatchesKeyword(m: MovieRow, keyword: string)
  {
    || LikeIgnoreCase(Some(m.details.title), keyword)
    || LikeIgnoreCase(m.details.description, keyword)
    || LikeIgnoreCase(m.details.director, keyword)
    || LikeIgnoreCase(m.details.genre, keyword)
  }

  /** `searchMovies(keyword)`. */
  function SearchMovies(movies: seq<MovieRow>, keyword: string): (r: seq<MovieRow>)
    ensures forall m :: m in r <==> m in movies && MatchesKeyword(m, keyword)
    ensures Seqs.IsSubsequence(r, movies)
  {
    Seqs.Filter(movies, (m: MovieRow) => MatchesKeyword(m, keyword))
  }

  /** An empty keyword matches every movie, since every title contains it. */
  lemma SearchEmptyKeywordReturnsAll(movies: seq<MovieRow>)
    ensures SearchMovies(movies, "") == movies
  {
    forall m | m in movies ensures MatchesKeyword(m, "") {
      ContainsEmptyAndSelf(Lower(m.details.title));
    }
    Seqs.FilterAll(movies, (m: MovieRow) => MatchesKeyword(m, ""));
  }

  /** Searching for a keyword or for its lower-cased form gives the same rows. */
  lemma SearchIgnoresKeywordCase(movies: seq<MovieRow>, keyword: string)
    ensures SearchMovies(movies, Lower(keyword)) == SearchMovies(movies, keyword)
  {
    LowerIdempotent(keyword);
    Seqs.FilterCongruent(movies, (m: MovieRow) => MatchesKeyword(m, Lower(keyword)),
                                 (m: MovieRow) => MatchesKeyword(m, keyword));
  }

  /** `findByType`. */
  function FindByType(movies: seq<MovieRow>, t: MovieType): (r: seq<MovieRow>)
    ensures forall m :: m in r <==> m in movies && m.movieType == t
    ensures Seqs.IsSubsequence(r, movies)
  {
    Seqs.Filter(movies, (m: MovieRow) => m.movieType == t)
  }

  /** `findByGenreIgnoreCase`: whole-string equality up to case; a null genre never matches. */
  function FindByGenreIgnoreCase(movies: seq<MovieRow>, genre: string): (r: seq<MovieRow>)
    ensures forall m :: m in r <==> m in movies && m.details.genre.Some? && EqualsIgnoreCase(m.details.genre.value, genre)
    ensures Seqs.IsSubsequence(r, movies)
  {
    Seqs.Filter(movies, (m: MovieRow) => m.details.genre.Some? && EqualsIgnoreCase(m.details.genre.value, genre))
  }

  /** `findByDirectorIgnoreCase`: whole-string equality up to case; a null director never matches. */
  function FindByDirectorIgnoreCase(movies: seq<MovieRow>, director: string): (r: seq<MovieRow>)
    ensures forall m :: m in r <==> m in movies && m.details.director.Some? && EqualsIgnoreCase(m.details.director.value, director)
    ensures Seqs.IsSubsequence(r, movies)
  {
    Seqs.Filter(movies, (m: MovieRow) => m.details.director.Some? && EqualsIgnoreCase(m.details.director.value, director))
  }

  /** `findByReleaseYear`: a null year never matches. */
  function FindByReleaseYear(movies: seq<MovieRow>, year: int): (r: seq<MovieRow>)
    ensures forall m :: m in r <==> m in movies && m.details.releaseYear == Some(year)
    ensures Seqs.IsSubsequence(r, movies)
  {
    Seqs.Filter(movies, (m: MovieRow) => m.details.releaseYear == Some(year))
  }
}
