/**
 * A small example catalog of three movies, and what each query the service's
 * tests ask gives on it.
 */
module Scenarios {
  import opened Wrappers
  import opened Text
  import opened Ordering
  import opened Catalog

  function PrisonEscape(): Movie {
    Movie(1, "The Prison Escape", "", 0, "Drama", "", 0, 0.0)
  }

  function FamilyBoss(): Movie {
    Movie(2, "The Family Boss", "", 0, "Action/Crime", "", 0, 0.0)
  }

  function SilentWitness(): Movie {
    Movie(3, "The Silent Witness", "", 0, "Crime/Drama", "", 0, 0.0)
  }

  /** The example catalog, in load order. */
  function Example(): seq<Movie> {
    [PrisonEscape(), FamilyBoss(), SilentWitness()]
  }

  /** A word without surrounding white space is not blank and normalises to its lower-case form. */
  lemma WordPattern(word: string)
    requires word != [] && !IsTrimChar(word[0]) && !IsTrimChar(word[|word| - 1])
    ensures Normalize(word) == Lower(word) && !IsBlank(word)
  {
    assert [] + word + [] == word;
    NormalizePadded([], word, []);
    BlankIffNormalizedEmpty(word);
  }

  /** A field whose lower-cased form holds `word` at index `at` matches `word`. */
  lemma FieldContains(field: string, lowered: string, word: string, at: int)
    requires Lower(field) == lowered && OccursAt(lowered, word, at)
    ensures Contains(Lower(field), word)
  {
  }

  /** A field whose lower-cased form lacks a character of `word` does not match `word`. */
  lemma FieldLacks(field: string, lowered: string, word: string, c: char)
    requires Lower(field) == lowered && c in word && c !in lowered
    ensures !Contains(Lower(field), word)
  {
    if Contains(lowered, word) {
      ContainsChars(lowered, word, c);
    }
  }

  lemma UpperPrison()
    ensures Normalize("PRISON") == "prison" && !IsBlank("PRISON")
  {
    WordPattern("PRISON");
    assert Lower("PRISON") == "prison";
  }

  lemma MixedPrison()
    ensures Normalize("Prison") == "prison" && !IsBlank("Prison")
  {
    WordPattern("Prison");
    assert Lower("Prison") == "prison";
  }

  lemma PaddedPrison()
    ensures Normalize("  Prison  ") == "prison"
  {
    MixedPrison();
    assert "  " + "Prison" + "  " == "  Prison  ";
    NormalizePadded("  ", "Prison", "  ");
  }

  /** Upper case, mixed case and padded forms of one pattern normalise alike. */
  lemma PrisonPatternsAgree()
    ensures Normalize("PRISON") == "prison"
    ensures Normalize("Prison") == "prison"
    ensures Normalize("  Prison  ") == "prison"
  {
    UpperPrison();
    MixedPrison();
    PaddedPrison();
  }

  lemma CrimePattern()
    ensures Normalize("Crime") == "crime" && !IsBlank("Crime")
  {
    WordPattern("Crime");
    assert Lower("Crime") == "crime";
  }

  lemma FamilyBossPattern()
    ensures Normalize("Family Boss") == "family boss" && !IsBlank("Family Boss")
  {
    WordPattern("Family Boss");
    assert Lower("Family Boss") == "family boss";
  }

  /** Filtering a three-movie catalog, written out. */
  lemma FilterTriple(a: Movie, b: Movie, c: Movie, p: Movie -> bool)
    ensures Filter([a, b, c], p) ==
      (if p(a) then [a] else []) + (if p(b) then [b] else []) + (if p(c) then [c] else [])
  {
    var x, y, z := (if p(a) then [a] else []), (if p(b) then [b] else []), (if p(c) then [c] else []);
    assert [c][1..] == [];
    assert Filter([c], p) == z;
    assert [b, c][1..] == [c];
    assert Filter([b, c], p) == y + z;
    assert [a, b, c][1..] == [b, c];
    assert Filter([a, b, c], p) == x + (y + z);
  }

  /** Which movies the name pattern "Prison" selects. */
  lemma PrisonMatches()
    ensures MatchesName(PrisonEscape(), Some("Prison"))
    ensures !MatchesName(FamilyBoss(), Some("Prison"))
    ensures !MatchesName(SilentWitness(), Some("Prison"))
  {
    MixedPrison();
    PrisonInPrisonEscape();
    PrisonNotInFamilyBoss();
    PrisonNotInSilentWitness();
  }

  lemma PrisonNotInFamilyBoss()
    ensures !Contains(Lower("The Family Boss"), "prison")
  {
    assert Lower("The Family Boss") == "the family boss";
    FieldLacks("The Family Boss", "the family boss", "prison", 'p');
  }

  lemma PrisonNotInSilentWitness()
    ensures !Contains(Lower("The Silent Witness"), "prison")
  {
    assert Lower("The Silent Witness") == "the silent witness";
    FieldLacks("The Silent Witness", "the silent witness", "prison", 'p');
  }

  lemma PrisonInPrisonEscape()
    ensures Contains(Lower("The Prison Escape"), "prison")
  {
    assert Lower("The Prison Escape") == "the prison escape";
    FieldContains("The Prison Escape", "the prison escape", "prison", 4);
  }

  /** Which movies the genre pattern "Crime" selects. */
  lemma CrimeMatches()
    ensures !MatchesGenre(PrisonEscape(), Some("Crime"))
    ensures MatchesGenre(FamilyBoss(), Some("Crime"))
    ensures MatchesGenre(SilentWitness(), Some("Crime"))
  {
    CrimePattern();
    CrimeNotInDrama();
    CrimeInActionCrime();
    CrimeInCrimeDrama();
  }

  lemma CrimeNotInDrama()
    ensures !Contains(Lower("Drama"), "crime")
  {
    assert Lower("Drama") == "drama";
    FieldLacks("Drama", "drama", "crime", 'c');
  }

  lemma CrimeInActionCrime()
    ensures Contains(Lower("Action/Crime"), "crime")
  {
    assert Lower("Action/Crime") == "action/crime";
    FieldContains("Action/Crime", "action/crime", "crime", 7);
  }

  lemma CrimeInCrimeDrama()
    ensures Contains(Lower("Crime/Drama"), "crime")
  {
    assert Lower("Crime/Drama") == "crime/drama";
    FieldContains("Crime/Drama", "crime/drama", "crime", 0);
  }

  lemma FamilyBossMatches()
    ensures MatchesName(FamilyBoss(), Some("Family Boss"))
  {
    FamilyBossPattern();
    FamilyBossInFamilyBoss();
  }

  lemma FamilyBossInFamilyBoss()
    ensures Contains(Lower("The Family Boss"), "family boss")
  {
    assert Lower("The Family Boss") == "the family boss";
    FieldContains("The Family Boss", "the family boss", "family boss", 4);
  }

  /** "Prison" and "  Prison  " each find exactly "The Prison Escape". */
  lemma ExampleSearchByName(svc: MovieService)
    requires svc.movies == Example()
    ensures svc.SearchMovies(Some("Prison"), None, None) == [PrisonEscape()]
    ensures svc.SearchMovies(Some("  Prison  "), None, None) == [PrisonEscape()]
  {
    PrisonMatches();
    svc.SearchIsOneFilter(Some("Prison"), None, None);
    FilterTriple(PrisonEscape(), FamilyBoss(), SilentWitness(), m => Matches(m, Some("Prison"), None, None));
    PrisonPatternsAgree();
    svc.SearchNameNormalized("  Prison  ", "Prison", None, None);
  }

  /** Id 2 alone finds exactly "The Family Boss"; "Prison" together with id 2 finds nothing. */
  lemma ExampleSearchById(svc: MovieService)
    requires svc.movies == Example()
    ensures svc.SearchMovies(None, Some(2), None) == [FamilyBoss()]
    ensures svc.SearchMovies(Some("Prison"), Some(2), None) == []
  {
    PrisonMatches();
    svc.SearchIsOneFilter(None, Some(2), None);
    FilterTriple(PrisonEscape(), FamilyBoss(), SilentWitness(), m => Matches(m, None, Some(2), None));
    svc.SearchIsOneFilter(Some("Prison"), Some(2), None);
    FilterTriple(PrisonEscape(), FamilyBoss(), SilentWitness(), m => Matches(m, Some("Prison"), Some(2), None));
  }

  /** "Crime" finds both crime movies, in load order. */
  lemma ExampleSearchByGenre(svc: MovieService)
    requires svc.movies == Example()
    ensures svc.SearchMovies(None, None, Some("Crime")) == [FamilyBoss(), SilentWitness()]
  {
    CrimeMatches();
    svc.SearchIsOneFilter(None, None, Some("Crime"));
    FilterTriple(PrisonEscape(), FamilyBoss(), SilentWitness(), m => Matches(m, None, None, Some("Crime")));
  }

  /** "Family Boss", id 2 and "Crime" together find exactly "The Family Boss". */
  lemma ExampleSearchAllFilters(svc: MovieService)
    requires svc.movies == Example()
    ensures svc.SearchMovies(Some("Family Boss"), Some(2), Some("Crime")) == [FamilyBoss()]
  {
    CrimeMatches();
    FamilyBossMatches();
    svc.SearchIsOneFilter(Some("Family Boss"), Some(2), Some("Crime"));
    FilterTriple(PrisonEscape(), FamilyBoss(), SilentWitness(),
      m => Matches(m, Some("Family Boss"), Some(2), Some("Crime")));
  }

  /** The genre list of the example catalog, sorted and without duplicates. */
  lemma ExampleGenres(svc: MovieService)
    requires svc.movies == Example()
    ensures svc.GetAllGenres() == ["Action/Crime", "Crime/Drama", "Drama"]
  {
    assert Less("Action/Crime", "Crime/Drama");
    assert Less("Crime/Drama", "Drama");
    assert Less("Action/Crime", "Drama");
    var t := ["Action/Crime", "Crime/Drama", "Drama"];
    forall g ensures g in t <==> exists m :: m in svc.movies && m.genre == g {
      if g == "Drama" {
        assert PrisonEscape() in svc.movies;
      }
      if g == "Action/Crime" {
        assert FamilyBoss() in svc.movies;
      }
      if g == "Crime/Drama" {
        assert SilentWitness() in svc.movies;
      }
    }
    svc.GetAllGenresDetermined(t);
  }
}
