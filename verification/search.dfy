/** The search button's click handler: trim the input, warn on an empty
    query, otherwise filter the catalog and list what was found. */
module Search {
  import opened Text
  import opened Sequences
  import opened Movies

  /** What a click on the search button leads to: the warning dialog, or a
      list of found movies (an empty list shows the "no results" notice). */
  datatype Outcome = EmptyQueryWarning | Shown(found: seq<Movie>)

  /** The click handler, given the catalog loaded so far (empty until the
      document arrives) and the raw text of the search input. */
  function OnSearchClick(catalog: seq<Movie>, input: string, join: GenreJoin): (o: Outcome)
    ensures o.EmptyQueryWarning? <==> forall i :: 0 <= i < |input| ==> IsTrimmable(input[i])
    ensures o.Shown? ==>
      var q := Trim(input);
      && q != []
      && (exists a :: TrimmedAt(input, q, a))
      && o.found == Filter(catalog, q, join)
  {
    var query := Trim(input);
    if query == [] then EmptyQueryWarning else Shown(Filter(catalog, query, join))
  }

  /** What the handler lists is picked out of the catalog in order, and a
      movie is listed exactly when it is in the catalog and the lowered,
      trimmed query occurs in one of its four searched texts. */
  lemma ShownMovies(catalog: seq<Movie>, input: string, join: GenreJoin)
    requires OnSearchClick(catalog, input, join).Shown?
    ensures var found := OnSearchClick(catalog, input, join).found;
      && IsSubsequence(found, catalog)
      && forall m :: m in found <==> m in catalog && Matches(join, m, Lower(Trim(input)))
  {
    FilterIsSubsequence(catalog, Trim(input), join);
    FilterMembership(catalog, Trim(input), join);
  }

  /** Blanks around the input do not change the outcome. */
  lemma OnSearchClickIgnoresBlanks(catalog: seq<Movie>, input: string, join: GenreJoin)
    ensures OnSearchClick(catalog, Trim(input), join) == OnSearchClick(catalog, input, join)
  {
    TrimIdempotent(input);
  }

  /** The letter case of the input does not change the outcome. */
  lemma OnSearchClickIgnoresCase(catalog: seq<Movie>, input: string, join: GenreJoin)
    ensures OnSearchClick(catalog, Lower(input), join) == OnSearchClick(catalog, input, join)
  {
    var q := Trim(input);
    TrimLower(input);
    assert |Lower(q)| == |q|;
    FilterIgnoresQueryCase(catalog, q, join);
  }

  /** When every movie matches the trimmed query, the whole catalog is
      listed. */
  lemma ShowsAllWhenAllMatch(catalog: seq<Movie>, input: string, join: GenreJoin)
    requires Trim(input) != []
    requires forall k :: 0 <= k < |catalog| ==> Matches(join, catalog[k], Lower(Trim(input)))
    ensures OnSearchClick(catalog, input, join) == Shown(catalog)
  {
    KeepAll(catalog, m => Matches(join, m, Lower(Trim(input))));
  }

  /** Before the catalog has arrived it is still the empty array, and a
      search lists nothing. */
  lemma SearchBeforeLoad(input: string, join: GenreJoin)
    requires Trim(input) != []
    ensures OnSearchClick([], input, join) == Shown([])
  {
  }

  /** When no movie matches the trimmed query, nothing is listed and the
      "no results" notice shows. */
  lemma ShowsNoneWhenNoneMatch(catalog: seq<Movie>, input: string, join: GenreJoin)
    requires Trim(input) != []
    requires forall k :: 0 <= k < |catalog| ==> !Matches(join, catalog[k], Lower(Trim(input)))
    ensures OnSearchClick(catalog, input, join) == Shown([])
  {
    KeepNone(catalog, m => Matches(join, m, Lower(Trim(input))));
  }

  /** A one-movie catalog searched for a blank-free query that is its title
      up to letter case lists that movie. */
  lemma FoundByTitle(m: Movie, input: string, join: GenreJoin)
    requires input != [] && Trim(input) == input
    requires Lower(m.title) == Lower(input)
    ensures OnSearchClick([m], input, join) == Shown([m])
  {
    var lq := Lower(input);
    ContainsPart([], lq, []);
    assert [] + lq + [] == lq;
    assert Matches(join, m, lq);
    FilterSingleton(m, input, join);
  }

  /** Searching a catalog holding only "Heat" for "heat" finds the movie. */
  lemma HeatFound(heat: Movie, join: GenreJoin)
    requires heat.title == "Heat"
    ensures OnSearchClick([heat], "heat", join) == Shown([heat])
  {
    HeatQueryText();
    FoundByTitle(heat, "heat", join);
  }

  /** The texts involved in searching for "heat". */
  lemma HeatQueryText()
    ensures Trim("heat") == "heat" && Lower("heat") == "heat" && Lower("Heat") == "heat"
  {
    assert "heat"[0] == 'h' && "heat"[3] == 't';
    TrimUntrimmed("heat");
    LowerHeat();
  }

  lemma LowerHeat()
    ensures Lower("heat") == "heat" && Lower("Heat") == "heat"
  {
  }

  /** Searching a catalog holding only "Heat" for "xyz" finds nothing,
      so the list shows the "no results" notice. */
  lemma HeatNotFound(heat: Movie, join: GenreJoin)
    requires heat.title == "Heat" && heat.tagline == "A Los Angeles crime saga"
    requires heat.overview == "..." && heat.genres == [Genre("Crime")]
    ensures OnSearchClick([heat], "xyz", join) == Shown([])
  {
    XyzQueryText();
    HeatMissesXyz(heat, join);
    FilterSingleton(heat, "xyz", join);
  }

  /** The "Heat" record does not match "xyz". */
  lemma HeatMissesXyz(heat: Movie, join: GenreJoin)
    requires heat.title == "Heat" && heat.tagline == "A Los Angeles crime saga"
    requires heat.overview == "..." && heat.genres == [Genre("Crime")]
    ensures !Matches(join, heat, "xyz")
  {
    HeatTextsHaveNoX();
    assert heat.genres[0].name == "Crime";
    MissesXyz(join, heat);
  }

  /** The texts involved in searching for "xyz". */
  lemma XyzQueryText()
    ensures Trim("xyz") == "xyz" && Lower("xyz") == "xyz"
  {
    assert "xyz"[0] == 'x' && "xyz"[2] == 'z';
    TrimUntrimmed("xyz");
  }

  /** The texts of the "Heat" record hold no 'x' or 'X'. */
  lemma HeatTextsHaveNoX()
    ensures 'x' !in "Heat" && 'X' !in "Heat"
    ensures 'x' !in "A Los Angeles crime saga" && 'X' !in "A Los Angeles crime saga"
    ensures 'x' !in "..." && 'X' !in "..."
    ensures 'x' !in "Crime" && 'X' !in "Crime"
  {
  }

  /** A movie none of whose searched texts holds an 'x' or 'X' does not
      match "xyz", whichever way its genres are joined. */
  lemma MissesXyz(join: GenreJoin, m: Movie)
    requires 'x' !in m.title && 'X' !in m.title
    requires 'x' !in m.tagline && 'X' !in m.tagline
    requires 'x' !in m.overview && 'X' !in m.overview
    requires forall k :: 0 <= k < |m.genres| ==> 'x' !in m.genres[k].name && 'X' !in m.genres[k].name
    ensures !Matches(join, m, "xyz")
  {
    NotContainsX(m.title);
    NotContainsX(m.tagline);
    NotContainsX(m.overview);
    var g := GenreText(join, m.genres);
    var parts := GenreParts(join, m.genres);
    forall k | 0 <= k < |parts|
      ensures 'x' !in parts[k] && 'X' !in parts[k]
    {
    }
    JoinWithoutChar(parts, GenreSeparator, 'x');
    JoinWithoutChar(parts, GenreSeparator, 'X');
    NotContainsX(g);
  }

  /** A blank search only warns. */
  lemma BlankSearchWarns(catalog: seq<Movie>, join: GenreJoin)
    ensures OnSearchClick(catalog, " \t ", join) == EmptyQueryWarning
    ensures OnSearchClick(catalog, "", join) == EmptyQueryWarning
  {
  }

  /** A lowered text with no 'x' or 'X' does not contain "xyz". */
  lemma NotContainsX(s: string)
    requires 'x' !in s && 'X' !in s
    ensures !Contains(Lower(s), "xyz")
  {
    assert "xyz"[0] == 'x';
    LowerLacksLetter(s, "xyz", 'X');
  }
}
