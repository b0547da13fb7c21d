# Movie catalog service: a Dafny model

This project models `MovieService`, the in-memory movie catalog of the
`qdevmovies` sample application. It covers the catalog's state and its four
read-only queries:

- **State.** The service holds a primary list of movies in load order. It also
  holds an id → movie index that the constructor builds with one `put` per
  movie, in a loop.
- **`getAllMovies`** returns the list.
- **`getMovieById`** refuses a null or non-positive id. Otherwise it looks the
  id up in the index.
- **`searchMovies`** chains three stream filters: name, id and genre. Each
  filter is switched off by a null or blank pattern, or by a null or
  non-positive id. The name and genre filters match when the lower-cased
  field contains the lower-cased, trimmed pattern.
- **`getAllGenres`** maps each movie to its genre, then applies `distinct()`
  and `sorted()`.

Files:

- `wrappers.dfy`: `Option`, which stands for a Java `null` argument and for an
  `Optional` result.
- `text.dfy`: `toLowerCase` (ASCII letters only), `trim` (strips every
  character up to U+0020 at both ends), `contains`, and how they interact.
- `ordering.dfy`: the `String.compareTo` order, strictly sorted sequences, and
  insertion into them.
- `catalog.dfy`: `Movie`, the three matchers, stream `filter`, the id index,
  the genre list, and the class `MovieService`.
- `scenarios.dfy`: an example catalog of three movies, with the names and
  genres the service's tests query, and what each of those queries returns on
  it. It is an example, not the tests' data file.

`MovieService.movies` and `MovieService.movieMap` are `final` in Java and are
never written after the constructor. The model makes them `const` fields of
the class. The constructor fills the index in a `while` loop whose invariant
ties the partial map to `Index` of the prefix already visited. The queries are
functions of the two constants. So no query can change the catalog, and two
identical calls give identical results. This follows from the types and needs
no lemma. `GetAllMovies` returns `movies` itself, and the constructor's
contract says that `movies` is the loaded sequence in load order.

## Model

| member | source | states |
|---|---|---|
| `Catalog.MovieService.constructor` | src/main/java/com/amazonaws/samples/qdevmovies/movies/MovieService.java:25-31 | the primary sequence is the loaded one, in order, and the index is exactly what putting every movie in load order yields |
| `Catalog.MovieService.GetAllMovies` | src/main/java/com/amazonaws/samples/qdevmovies/movies/MovieService.java:63-65 | returns the primary sequence; it carries no contract of its own, and its promise, that this is the loaded list in load order, rests on the constructor's `ensures movies == loaded` and on `movies` being a constant |
| `Catalog.Index` | src/main/java/com/amazonaws/samples/qdevmovies/movies/MovieService.java:27-30 | the index's keys are exactly the ids in the list, and each entry is a movie of the list carrying that id |
| `Catalog.IndexLastWins` | src/main/java/com/amazonaws/samples/qdevmovies/movies/MovieService.java:27-30 | for a repeated id the index holds the last movie in load order with that id, because `put` overwrites |
| `Catalog.IndexOfUnique` | src/main/java/com/amazonaws/samples/qdevmovies/movies/MovieService.java:27-30 | with unique ids every movie is the index entry for its own id |
| `Catalog.MovieService.GetMovieById` | src/main/java/com/amazonaws/samples/qdevmovies/movies/MovieService.java:67-72 | a null, zero or negative id gives empty whatever the catalog holds; a positive id gives a movie iff some movie has it, and the movie returned is in the list and has that id |
| `Catalog.MovieService.GetMovieByIdFinds` | src/main/java/com/amazonaws/samples/qdevmovies/movies/MovieService.java:71 | with unique ids, looking up any movie's positive id returns that movie |
| `Catalog.MovieService.GetMovieByIdLastWins` | src/main/java/com/amazonaws/samples/qdevmovies/movies/MovieService.java:25-31 | with duplicate ids, look-up returns the last movie in load order that has the id |
| `Catalog.MovieService.SearchMovies` | src/main/java/com/amazonaws/samples/qdevmovies/movies/MovieService.java:83-100 | a movie is in the result iff it is in the catalog and passes all three filters; with every filter off the result is the whole list in load order; with a positive id every result has that id |
| `Catalog.MovieService.SearchIsOneFilter` | src/main/java/com/amazonaws/samples/qdevmovies/movies/MovieService.java:87-91 | the three chained filters equal one order-preserving filter on the conjunction of the matchers |
| `Catalog.MovieService.SearchByIdIsLookup` | src/main/java/com/amazonaws/samples/qdevmovies/movies/MovieService.java:121-126 | with unique ids, a search on a positive id alone returns exactly the movie that look-up by that id finds, or nothing |
| `Catalog.MovieService.SearchNameNormalized` | src/main/java/com/amazonaws/samples/qdevmovies/movies/MovieService.java:114-119 | name patterns equal after lower-casing and trimming give identical searches |
| `Catalog.MovieService.SearchGenreNormalized` | src/main/java/com/amazonaws/samples/qdevmovies/movies/MovieService.java:128-133 | genre patterns equal after lower-casing and trimming give identical searches |
| `Catalog.MovieService.GetAllGenres` | src/main/java/com/amazonaws/samples/qdevmovies/movies/MovieService.java:106-112 | the genre list is strictly increasing, so sorted and duplicate-free, and holds exactly the genre values of the movies, unsplit |
| `Catalog.MovieService.GetAllGenresDetermined` | src/main/java/com/amazonaws/samples/qdevmovies/movies/MovieService.java:109-110 | any strictly sorted list of exactly those genre values equals the genre list, so `distinct().sorted()` has one possible outcome |
| `Catalog.TextFilterOff` | src/main/java/com/amazonaws/samples/qdevmovies/movies/MovieService.java:115 | a name or genre filter is off exactly when its pattern is null or trims to the empty string |
| `Catalog.IdFilterOff` | src/main/java/com/amazonaws/samples/qdevmovies/movies/MovieService.java:122 | the id filter is off exactly when the id is null, zero or negative |
| `Catalog.MatchesText` | src/main/java/com/amazonaws/samples/qdevmovies/movies/MovieService.java:114-119 | a text filter that is off accepts every movie; otherwise it accepts a field iff the lower-cased field contains the lower-cased, trimmed pattern |
| `Catalog.MatchesName` | src/main/java/com/amazonaws/samples/qdevmovies/movies/MovieService.java:114-119 | the name filter is the text filter applied to the movie's name |
| `Catalog.MatchesId` | src/main/java/com/amazonaws/samples/qdevmovies/movies/MovieService.java:121-126 | the id filter accepts every movie when off, and otherwise exactly the movies whose id equals the given one |
| `Catalog.MatchesGenre` | src/main/java/com/amazonaws/samples/qdevmovies/movies/MovieService.java:128-133 | the genre filter is the text filter applied to the movie's genre |
| `Catalog.Matches` | src/main/java/com/amazonaws/samples/qdevmovies/movies/MovieService.java:87-91 | a movie passes a search iff it passes all three filters |
| `Catalog.MatchesTextNormalized` | src/main/java/com/amazonaws/samples/qdevmovies/movies/MovieService.java:114-133 | a text filter depends on its pattern only through the lower-cased, trimmed pattern, blankness included |
| `Catalog.MatchesTextContains` | src/main/java/com/amazonaws/samples/qdevmovies/movies/MovieService.java:118 | a non-blank pattern matches iff its normalised form occurs at some index of the lower-cased field, which is then at least as long |
| `Catalog.Filter` | src/main/java/com/amazonaws/samples/qdevmovies/movies/MovieService.java:87-91 | a stream filter keeps exactly the elements satisfying the predicate and never lengthens the list |
| `Catalog.FilterAppend` | src/main/java/com/amazonaws/samples/qdevmovies/movies/MovieService.java:87-91 | filtering distributes over concatenation, so the selected movies keep their relative load order |
| `Catalog.FilterKeepsAll` | src/main/java/com/amazonaws/samples/qdevmovies/movies/MovieService.java:87-91 | a filter every movie passes returns the list unchanged |
| `Catalog.FilterFuse` | src/main/java/com/amazonaws/samples/qdevmovies/movies/MovieService.java:88-90 | two chained filters select the same list as one filter on the conjunction |
| `Catalog.FilterByUniqueId` | src/main/java/com/amazonaws/samples/qdevmovies/movies/MovieService.java:121-126 | with unique ids, the id filter on a movie's positive id leaves exactly that one movie |
| `Catalog.SortedDistinct` | src/main/java/com/amazonaws/samples/qdevmovies/movies/MovieService.java:109-110 | `distinct().sorted()` yields a strictly increasing list with exactly the input's values |
| `Ordering.Insert` | src/main/java/com/amazonaws/samples/qdevmovies/movies/MovieService.java:109-110 | inserting into a strictly sorted list keeps it strictly sorted and adds exactly the one value |
| `Ordering.StrictlySortedUnique` | src/main/java/com/amazonaws/samples/qdevmovies/movies/MovieService.java:109-110 | two strictly sorted lists with the same values are equal |
| `Ordering.StrictlySortedDistinct` | src/main/java/com/amazonaws/samples/qdevmovies/movies/MovieService.java:109 | a strictly sorted list holds no value twice |
| `Ordering.Less` | src/main/java/com/amazonaws/samples/qdevmovies/movies/MovieService.java:110 | `a.compareTo(b) < 0`: the first differing character decides, and a proper prefix sorts first |
| `Ordering.LessIrreflexive` | src/main/java/com/amazonaws/samples/qdevmovies/movies/MovieService.java:110 | no string sorts before itself under `compareTo` |
| `Ordering.LessTransitive` | src/main/java/com/amazonaws/samples/qdevmovies/movies/MovieService.java:110 | the `compareTo` order is transitive |
| `Ordering.LessTotal` | src/main/java/com/amazonaws/samples/qdevmovies/movies/MovieService.java:110 | of two different strings one sorts before the other |
| `Text.LowerMeaning` | src/main/java/com/amazonaws/samples/qdevmovies/movies/MovieService.java:118 | the lower-cased string holds no upper-case ASCII letter, and every character that is not one is kept in place |
| `Text.LowerIdempotent` | src/main/java/com/amazonaws/samples/qdevmovies/movies/MovieService.java:118 | lower-casing an already lower-cased string changes nothing |
| `Text.LowerIgnoresCase` | src/main/java/com/amazonaws/samples/qdevmovies/movies/MovieService.java:118 | two strings of equal length that differ only in the case of ASCII letters lower-case to the same string |
| `Text.Trim` | src/main/java/com/amazonaws/samples/qdevmovies/movies/MovieService.java:115 | the trimmed string is a slice of the input with only characters up to U+0020 cut off on either side; it neither starts nor ends with such a character, and it is empty iff every character is one |
| `Text.Contains` | src/main/java/com/amazonaws/samples/qdevmovies/movies/MovieService.java:118 | `contains` holds iff the pattern occurs at some index of the text |
| `Text.TrimLowerCommute` | src/main/java/com/amazonaws/samples/qdevmovies/movies/MovieService.java:115-118 | trimming then lower-casing equals lower-casing then trimming |
| `Text.BlankIffNormalizedEmpty` | src/main/java/com/amazonaws/samples/qdevmovies/movies/MovieService.java:115-118 | the blank test on the raw pattern agrees with emptiness of the lower-cased, trimmed pattern used for matching |
| `Text.NormalizeIdempotent` | src/main/java/com/amazonaws/samples/qdevmovies/movies/MovieService.java:118 | normalising a pattern twice gives the same result as once |
| `Text.TrimPadded` | src/main/java/com/amazonaws/samples/qdevmovies/movies/MovieService.java:118 | trimming strips exactly the white space around a word |
| `Text.NormalizePadded` | src/main/java/com/amazonaws/samples/qdevmovies/movies/MovieService.java:118 | a padded pattern normalises to its lower-cased word |
| `Scenarios.PrisonPatternsAgree` | src/test/java/com/amazonaws/samples/qdevmovies/movies/MovieServiceTest.java:93-98 | "PRISON", "Prison" and "  Prison  " all normalise to "prison" |
| `Scenarios.ExampleSearchByName` | src/test/java/com/amazonaws/samples/qdevmovies/movies/MovieServiceTest.java:86-91 | on the example catalog, "Prison" and "  Prison  " each find exactly "The Prison Escape" |
| `Scenarios.ExampleSearchById` | src/test/java/com/amazonaws/samples/qdevmovies/movies/MovieServiceTest.java:174-179 | on the example catalog, id 2 alone finds exactly "The Family Boss"; "Prison" together with id 2 finds nothing |
| `Scenarios.ExampleSearchByGenre` | src/test/java/com/amazonaws/samples/qdevmovies/movies/MovieServiceTest.java:137-145 | on the example catalog, "Crime" finds both crime movies, "The Family Boss" then "The Silent Witness", in load order |
| `Scenarios.ExampleSearchAllFilters` | src/test/java/com/amazonaws/samples/qdevmovies/movies/MovieServiceTest.java:163-172 | on the example catalog, "Family Boss", id 2 and "Crime" together find exactly "The Family Boss" |
| `Scenarios.ExampleGenres` | src/test/java/com/amazonaws/samples/qdevmovies/movies/MovieServiceTest.java:188-207 | the genre list of the example catalog is exactly ["Action/Crime", "Crime/Drama", "Drama"]: sorted, without duplicates, and holding the three genres the test expects |

## Left out

- `loadMoviesFromJson` (MovieService.java:33-61) reads a classpath resource and parses it with the org.json library. Both are I/O and a foreign parser. The constructor takes the already parsed sequence instead and accepts any sequence. The list is created before the `try` and returned after the `catch` (MovieService.java:34, 57-60). So a missing resource (line 37) or a document that does not parse as an array (line 42) gives the empty list. A missing or mistyped field in element i gives the i movies already added, a prefix of the document's movies. Both outcomes are sequences the constructor accepts.
- Logging through log4j is left out. It has no effect on any result.
- `Text.Lower`: lower-cases ASCII letters only. Java's `toLowerCase` follows locale-dependent Unicode case mapping, which the model does not reproduce.
- `Ordering.Less`: compares Dafny characters, which are Unicode scalar values. Java's `compareTo` compares UTF-16 code units. The two orders differ only between supplementary characters and U+E000–U+FFFF.
- `Catalog.Movie`: `id` is an unbounded integer rather than a 64-bit `long`. Ids are only compared, so no arithmetic can overflow.
- `Catalog.Movie`: `imdbRating` is a Java `double`. The model carries it as a `real` that no operation inspects.
- `Catalog.MatchesId`: `movie.getId() == id` (MovieService.java:125) is modelled as equality of integer values. `Movie.java` is not part of this model. If `getId()` returned a boxed `Long`, Java would compare references instead.
- `Catalog.MovieService.GetAllMovies`: returns the sequence as a value. Java returns the internal mutable `List`, which a caller could change. The model does not capture that aliasing.
- `MoviesController.java` is left out. It is Spring MVC plumbing: request binding, view attributes and HTTP status codes.
- The timing test (MovieServiceTest.java:209-223) measures wall-clock time and cannot be stated as a proof obligation.
