/**
 * The in-memory movie catalog: the primary load-order sequence of movies, the
 * id index derived from it, and the four read-only queries over them
 * (all movies, one movie by id, filtered search, distinct sorted genres).
 */
module Catalog {
  import opened Wrappers
  import opened Text
  import opened Ordering

  /** One catalog record. `imdbRating` is carried along but never inspected. */
  datatype Movie = Movie(
    id: int,
    movieName: string,
    director: string,
    year: int,
    genre: string,
    description: string,
    duration: int,
    imdbRating: real)

  // ---------------------------------------------------------------------
  // The three filters of a search. `None` is a Java `null` argument.
  // ---------------------------------------------------------------------

  /** A text filter is off when its pattern is null or trims to nothing. */
  predicate TextFilterOff(pattern: Option<string>) {
    pattern.None? || IsBlank(pattern.value)
  }

  /** The id filter is off when the id is null or not positive. */
  predicate IdFilterOff(id: Option<int>) {
    id.None? || id.value <= 0
  }

  /** Case-insensitive substring match of a field against a lower-cased, trimmed pattern. */
  predicate MatchesText(field: string, pattern: Option<string>) {
    TextFilterOff(pattern) || Contains(Lower(field), Normalize(pattern.value))
  }

  predicate MatchesName(movie: Movie, name: Option<string>) {
    MatchesText(movie.movieName, name)
  }

  predicate MatchesId(movie: Movie, id: Option<int>) {
    IdFilterOff(id) || movie.id == id.value
  }

  predicate MatchesGenre(movie: Movie, genre: Option<string>) {
    MatchesText(movie.genre, genre)
  }

  /** All three filters at once: the AND that the chained stream filters compute. */
  predicate Matches(movie: Movie, name: Option<string>, id: Option<int>, genre: Option<string>) {
    MatchesName(movie, name) && MatchesId(movie, id) && MatchesGenre(movie, genre)
  }

  /**
   * Two patterns that differ only in letter case and surrounding white space
   * select the same movies.
   */
  lemma MatchesTextNormalized(field: string, p: string, q: string)
    requires Normalize(p) == Normalize(q)
    ensures MatchesText(field, Some(p)) == MatchesText(field, Some(q))
  {
    BlankIffNormalizedEmpty(p);
    BlankIffNormalizedEmpty(q);
  }

  /** A text filter that is on matches exactly the fields containing its normalised pattern. */
  lemma MatchesTextContains(field: string, p: string)
    requires !IsBlank(p)
    ensures MatchesText(field, Some(p)) <==> exists i :: OccursAt(Lower(field), Normalize(p), i)
    ensures MatchesText(field, Some(p)) ==> |Normalize(p)| <= |field|
  {
    if MatchesText(field, Some(p)) {
      var i :| OccursAt(Lower(field), Normalize(p), i);
    }
  }

  // ---------------------------------------------------------------------
  // Stream `filter`: the order-preserving selection of the elements that
  // satisfy a predicate.
  // ---------------------------------------------------------------------

  function Filter(s: seq<Movie>, p: Movie -> bool): (r: seq<Movie>)
    ensures |r| <= |s|
    ensures forall m :: m in r <==> m in s && p(m)
  {
    if s == [] then []
    else (if p(s[0]) then [s[0]] else []) + Filter(s[1..], p)
  }

  /** Filtering a concatenation filters each part and keeps them in order. */
  lemma {:induction false} FilterAppend(a: seq<Movie>, b: seq<Movie>, p: Movie -> bool)
    ensures Filter(a + b, p) == Filter(a, p) + Filter(b, p)
  {
    if a == [] {
      assert a + b == b;
    } else {
      assert (a + b)[1..] == a[1..] + b;
      FilterAppend(a[1..], b, p);
    }
  }

  /** A filter every element passes gives back the whole sequence, in order. */
  lemma {:induction false} FilterKeepsAll(s: seq<Movie>, p: Movie -> bool)
    requires forall i :: 0 <= i < |s| ==> p(s[i])
    ensures Filter(s, p) == s
  {
    if s != [] {
      FilterKeepsAll(s[1..], p);
    }
  }

  /** The conjunction of two predicates. */
  function Both(p: Movie -> bool, q: Movie -> bool): Movie -> bool {
    m => p(m) && q(m)
  }

  /** Two filters in a row select what one filter on their conjunction selects. */
  lemma {:induction false} FilterFuse(s: seq<Movie>, p: Movie -> bool, q: Movie -> bool)
    ensures Filter(Filter(s, p), q) == Filter(s, Both(p, q))
  {
    if s != [] {
      FilterFuse(s[1..], p, q);
      var t := Filter(s, p);
      if p(s[0]) {
        assert t == [s[0]] + Filter(s[1..], p);
        assert t[0] == s[0] && t[1..] == Filter(s[1..], p);
      } else {
        assert t == Filter(s[1..], p);
      }
    }
  }

  /** Filters whose predicates agree on every element select the same subsequence. */
  lemma {:induction false} FilterCongruent(s: seq<Movie>, p: Movie -> bool, q: Movie -> bool)
    requires forall i :: 0 <= i < |s| ==> p(s[i]) == q(s[i])
    ensures Filter(s, p) == Filter(s, q)
  {
    if s != [] {
      FilterCongruent(s[1..], p, q);
    }
  }

  // ---------------------------------------------------------------------
  // The id index built by the constructor: `put` for each movie in load
  // order, so a later movie with the same id replaces an earlier one.
  // ---------------------------------------------------------------------

  /** The ids occurring in a sequence of movies. */
  function Ids(ms: seq<Movie>): set<int> {
    set m | m in ms :: m.id
  }

  /** No two movies share an id. */
  predicate UniqueIds(ms: seq<Movie>) {
    forall i, j :: 0 <= i < j < |ms| ==> ms[i].id != ms[j].id
  }

  /** The map after `put(m.id, m)` for every `m` of `ms`, in order. */
  function Index(ms: seq<Movie>): (r: map<int, Movie>)
    ensures r.Keys == Ids(ms)
    ensures forall k :: k in r ==> r[k] in ms && r[k].id == k
  {
    if ms == [] then map[]
    else
      var init, last := ms[..|ms| - 1], ms[|ms| - 1];
      assert ms == init + [last];
      assert Ids(ms) == Ids(init) + {last.id};
      Index(init)[last.id := last]
  }

  /** The entry for an id is the LAST movie in load order that carries it. */
  lemma {:induction false} IndexLastWins(ms: seq<Movie>, j: int)
    requires 0 <= j < |ms|
    requires forall k :: j < k < |ms| ==> ms[k].id != ms[j].id
    ensures ms[j].id in Index(ms) && Index(ms)[ms[j].id] == ms[j]
  {
    if j < |ms| - 1 {
      var init := ms[..|ms| - 1];
      IndexLastWins(init, j);
    }
  }

  /** With unique ids, every movie is the index entry for its own id. */
  lemma IndexOfUnique(ms: seq<Movie>, j: int)
    requires UniqueIds(ms)
    requires 0 <= j < |ms|
    ensures Index(ms)[ms[j].id] == ms[j]
  {
    IndexLastWins(ms, j);
  }

  /** A filter nothing passes selects nothing. */
  lemma {:induction false} FilterNone(s: seq<Movie>, p: Movie -> bool)
    requires forall i :: 0 <= i < |s| ==> !p(s[i])
    ensures Filter(s, p) == []
  {
    if s != [] {
      FilterNone(s[1..], p);
    }
  }

  /** With unique ids, filtering on a movie's own positive id leaves exactly that movie. */
  lemma {:induction false} FilterByUniqueId(ms: seq<Movie>, j: int)
    requires UniqueIds(ms)
    requires 0 <= j < |ms| && ms[j].id > 0
    ensures Filter(ms, m => MatchesId(m, Some(ms[j].id))) == [ms[j]]
  {
    var k := ms[j].id;
    var p := m => MatchesId(m, Some(k));
    if j == 0 {
      FilterNone(ms[1..], p);
    } else {
      FilterByUniqueId(ms[1..], j - 1);
    }
  }

  // ---------------------------------------------------------------------
  // Genre facet: `map(getGenre).distinct().sorted()`.
  // ---------------------------------------------------------------------

  /** The genre column of the catalog, in load order (`map(Movie::getGenre)`). */
  function GenreColumn(ms: seq<Movie>): (r: seq<string>)
    ensures |r| == |ms|
    ensures forall i :: 0 <= i < |ms| ==> r[i] == ms[i].genre
  {
    seq(|ms|, i requires 0 <= i < |ms| => ms[i].genre)
  }

  /** `distinct().sorted()`: each value once, in increasing order. */
  function SortedDistinct(gs: seq<string>): (r: seq<string>)
    ensures StrictlySorted(r)
    ensures Elems(r) == Elems(gs)
  {
    if gs == [] then []
    else
      var init := gs[..|gs| - 1];
      assert gs == init + [gs[|gs| - 1]];
      assert Elems(gs) == Elems(init) + {gs[|gs| - 1]};
      Insert(SortedDistinct(init), gs[|gs| - 1])
  }

  // ---------------------------------------------------------------------
  // The service.
  // ---------------------------------------------------------------------

  /**
   * The catalog service. Both fields are fixed by the constructor and never
   * written again, so every query is a function of them.
   */
  class MovieService {
    /** Primary sequence, in load order. */
    const movies: seq<Movie>
    /** Id index derived from `movies`. */
    const movieMap: map<int, Movie>

    /** The index is exactly the one `put`-ing every movie in load order produces. */
    predicate Valid() {
      movieMap == Index(movies)
    }

    /** Takes the already loaded movies and indexes them by id, one `put` at a time. */
    constructor (loaded: seq<Movie>)
      ensures movies == loaded
      ensures Valid()
    {
      var index: map<int, Movie> := map[];
      var i := 0;
      while i < |loaded|
        invariant 0 <= i <= |loaded|
        invariant index == Index(loaded[..i])
      {
        assert loaded[..i + 1][..i] == loaded[..i];
        index := index[loaded[i].id := loaded[i]];
        i := i + 1;
      }
      assert loaded[..|loaded|] == loaded;
      movies := loaded;
      movieMap := index;
    }

    /** Every movie, in load order. */
    function GetAllMovies(): seq<Movie> {
      movies
    }

    /** Look-up by id; a null or non-positive id is refused before the index is consulted. */
    function GetMovieById(id: Option<int>): (r: Option<Movie>)
      requires Valid()
      ensures IdFilterOff(id) ==> r == None
      ensures !IdFilterOff(id) ==> (r.Some? <==> id.value in Ids(movies))
      ensures r.Some? ==> r.value in movies && r.value.id == id.value
    {
      if id.None? || id.value <= 0 then None
      else if id.value in movieMap then Some(movieMap[id.value])
      else None
    }

    /** With unique ids, looking up a movie's own (positive) id finds that movie. */
    lemma GetMovieByIdFinds(j: int)
      requires Valid() && UniqueIds(movies)
      requires 0 <= j < |movies| && movies[j].id > 0
      ensures GetMovieById(Some(movies[j].id)) == Some(movies[j])
    {
      IndexOfUnique(movies, j);
    }

    /** With a repeated id, look-up finds the last movie in load order that has it. */
    lemma GetMovieByIdLastWins(j: int)
      requires Valid()
      requires 0 <= j < |movies| && movies[j].id > 0
      requires forall k :: j < k < |movies| ==> movies[k].id != movies[j].id
      ensures GetMovieById(Some(movies[j].id)) == Some(movies[j])
    {
      IndexLastWins(movies, j);
    }

    /** With unique ids, a search on a positive id alone returns what look-up by that id finds. */
    lemma SearchByIdIsLookup(k: int)
      requires Valid() && UniqueIds(movies) && k > 0
      ensures SearchMovies(None, Some(k), None) == match GetMovieById(Some(k)) case Some(m) => [m] case None => []
    {
      SearchIsOneFilter(None, Some(k), None);
      var byId := m => MatchesId(m, Some(k));
      FilterCongruent(movies, m => Matches(m, None, Some(k), None), byId);
      if j :| 0 <= j < |movies| && movies[j].id == k {
        IndexOfUnique(movies, j);
        FilterByUniqueId(movies, j);
      } else {
        FilterNone(movies, byId);
      }
    }

    /** The three filters applied one after the other to the movies, as the stream pipeline does. */
    function SearchMovies(name: Option<string>, id: Option<int>, genre: Option<string>): (r: seq<Movie>)
      ensures forall m :: m in r <==> m in movies && Matches(m, name, id, genre)
      ensures TextFilterOff(name) && IdFilterOff(id) && TextFilterOff(genre) ==> r == movies
      ensures !IdFilterOff(id) ==> forall m :: m in r ==> m.id == id.value
    {
      var byName := Filter(movies, m => MatchesName(m, name));
      var byId := Filter(byName, m => MatchesId(m, id));
      var r := Filter(byId, m => MatchesGenre(m, genre));
      if TextFilterOff(name) && IdFilterOff(id) && TextFilterOff(genre) then
        FilterKeepsAll(movies, m => MatchesName(m, name));
        FilterKeepsAll(byName, m => MatchesId(m, id));
        FilterKeepsAll(byId, m => MatchesGenre(m, genre));
        r
      else
        r
    }

    /** The chained filters select, in load order, exactly the movies passing all three. */
    lemma SearchIsOneFilter(name: Option<string>, id: Option<int>, genre: Option<string>)
      ensures SearchMovies(name, id, genre) == Filter(movies, m => Matches(m, name, id, genre))
    {
      var pn := m => MatchesName(m, name);
      var pi := m => MatchesId(m, id);
      var pg := m => MatchesGenre(m, genre);
      FilterFuse(movies, pn, pi);
      FilterFuse(movies, Both(pn, pi), pg);
      FilterCongruent(movies, Both(Both(pn, pi), pg), m => Matches(m, name, id, genre));
    }

    /** Name patterns that agree after lower-casing and trimming give the same search results. */
    lemma SearchNameNormalized(p: string, q: string, id: Option<int>, genre: Option<string>)
      requires Normalize(p) == Normalize(q)
      ensures SearchMovies(Some(p), id, genre) == SearchMovies(Some(q), id, genre)
    {
      forall i | 0 <= i < |movies| ensures MatchesName(movies[i], Some(p)) == MatchesName(movies[i], Some(q)) {
        MatchesTextNormalized(movies[i].movieName, p, q);
      }
      FilterCongruent(movies, m => MatchesName(m, Some(p)), m => MatchesName(m, Some(q)));
    }

    /** Genre patterns that agree after lower-casing and trimming give the same search results. */
    lemma SearchGenreNormalized(name: Option<string>, id: Option<int>, p: string, q: string)
      requires Normalize(p) == Normalize(q)
      ensures SearchMovies(name, id, Some(p)) == SearchMovies(name, id, Some(q))
    {
      var byId := Filter(Filter(movies, m => MatchesName(m, name)), m => MatchesId(m, id));
      forall i | 0 <= i < |byId| ensures MatchesGenre(byId[i], Some(p)) == MatchesGenre(byId[i], Some(q)) {
        MatchesTextNormalized(byId[i].genre, p, q);
      }
      FilterCongruent(byId, m => MatchesGenre(m, Some(p)), m => MatchesGenre(m, Some(q)));
    }

    /** The distinct genre values, sorted; compound values such as "Crime/Drama" are not split. */
    function GetAllGenres(): (r: seq<string>)
      ensures StrictlySorted(r)
      ensures forall g :: g in r <==> exists m :: m in movies && m.genre == g
    {
      var r := SortedDistinct(GenreColumn(movies));
      assert Elems(r) == Elems(GenreColumn(movies));
      forall g ensures g in r <==> exists m :: m in movies && m.genre == g {
        if g in r {
          assert g in Elems(GenreColumn(movies));
        }
        if m :| m in movies && m.genre == g {
          var i :| 0 <= i < |movies| && movies[i] == m;
          assert GenreColumn(movies)[i] == g;
          assert g in Elems(r);
        }
      }
      r
    }

    /**
     * The genre list is the only strictly sorted list of exactly the catalog's
     * genre values, so any `distinct().sorted()` yields the same list.
     */
    lemma GetAllGenresDetermined(t: seq<string>)
      requires StrictlySorted(t)
      requires forall g :: g in t <==> exists m :: m in movies && m.genre == g
      ensures t == GetAllGenres()
    {
      StrictlySortedUnique(t, GetAllGenres());
    }
  }
}
