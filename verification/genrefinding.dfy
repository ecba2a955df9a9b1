/** The filter joins the genre objects rather than their names (line 27 of
    the script), so a genre name is never searched, while the text
    "object" matches every movie that has a genre. `GenreJoin.ObjectStrings`
    models the join as written and `GenreJoin.GenreNames` the intended one;
    this module shows the discrepancy and proves the intended property. */
module GenreFinding {
  import opened Text
  import opened Movies

  /** As written, a search for "drama" misses every movie whose title,
      tagline and overview lack the letter d, whatever its genres are. */
  lemma AsWrittenMissesGenreName(m: Movie)
    requires 'd' !in m.title && 'D' !in m.title
    requires 'd' !in m.tagline && 'D' !in m.tagline
    requires 'd' !in m.overview && 'D' !in m.overview
    ensures !Matches(ObjectStrings, m, "drama")
  {
    NoSmallD(m.title);
    NoSmallD(m.tagline);
    NoSmallD(m.overview);
    var parts := GenreParts(ObjectStrings, m.genres);
    ObjectTextLacksD();
    forall k | 0 <= k < |parts|
      ensures 'd' !in parts[k] && 'D' !in parts[k]
    {
    }
    JoinWithoutChar(parts, GenreSeparator, 'd');
    JoinWithoutChar(parts, GenreSeparator, 'D');
    NoSmallD(GenreText(ObjectStrings, m.genres));
  }

  /** As written, the genre names play no part in matching: replacing a
      movie's genres by any others of the same number changes no match. */
  lemma AsWrittenIgnoresNames(m: Movie, g: seq<Genre>, q: string)
    requires |g| == |m.genres|
    ensures Matches(ObjectStrings, m, q) == Matches(ObjectStrings, m.(genres := g), q)
  {
    assert GenreParts(ObjectStrings, g) == GenreParts(ObjectStrings, m.genres);
  }

  /** As written, the query "object" matches every movie with at least one
      genre, whatever its texts say. */
  lemma AsWrittenObjectMatchesAnyGenre(m: Movie)
    requires |m.genres| > 0
    ensures Matches(ObjectStrings, m, "object")
  {
    var g := GenreText(ObjectStrings, m.genres);
    var parts := GenreParts(ObjectStrings, m.genres);
    JoinContainsPart(parts, GenreSeparator, 0);
    assert parts[0] == ObjectText;
    ObjectTextHoldsObject();
    ContainsTransitive(g, ObjectText, "object");
    ContainsLower(g, "object");
    LowerObject();
  }

  /** With the intended join, a movie is found whenever the lowered query
      occurs in the lowered name of one of its genres. */
  lemma GenreNameIsSearched(m: Movie, k: int, lq: string)
    requires 0 <= k < |m.genres|
    requires Contains(Lower(m.genres[k].name), lq)
    ensures Matches(GenreNames, m, lq)
  {
    var parts := GenreParts(GenreNames, m.genres);
    assert parts[k] == m.genres[k].name;
    JoinContainsPart(parts, GenreSeparator, k);
    ContainsLower(GenreText(GenreNames, m.genres), parts[k]);
    ContainsTransitive(Lower(GenreText(GenreNames, m.genres)), Lower(parts[k]), lq);
  }

  /** "Up", a drama with no other text: as written, searching its catalog
      for "drama" finds nothing; with the intended join it finds the movie. */
  lemma DramaExample(m: Movie)
    requires m.title == "Up" && m.tagline == [] && m.overview == []
    requires m.genres == [Genre("Drama")]
    ensures Filter([m], "drama", ObjectStrings) == []
    ensures Filter([m], "drama", GenreNames) == [m]
  {
    UpLacksD();
    AsWrittenMissesGenreName(m);
    LowerDrama();
    ContainsItself("drama");
    GenreNameIsSearched(m, 0, "drama");
    FilterSingleton(m, "drama", ObjectStrings);
    FilterSingleton(m, "drama", GenreNames);
  }

  /** A text with no 'd' or 'D' does not contain "drama" once lowered. */
  lemma NoSmallD(s: string)
    requires 'd' !in s && 'D' !in s
    ensures !Contains(Lower(s), "drama")
  {
    assert "drama"[0] == 'd';
    LowerLacksLetter(s, "drama", 'D');
  }

  lemma ObjectTextLacksD()
    ensures 'd' !in ObjectText && 'D' !in ObjectText
    ensures 'd' !in GenreSeparator && 'D' !in GenreSeparator
  {
  }

  lemma UpLacksD()
    ensures 'd' !in "Up" && 'D' !in "Up"
  {
  }

  lemma ObjectTextHoldsObject()
    ensures Contains(ObjectText, "object")
  {
    var a, x, b := ObjectText[..1], ObjectText[1..7], ObjectText[7..];
    assert x == "object";
    assert a + x + b == ObjectText;
    ContainsPart(a, x, b);
  }

  lemma LowerObject()
    ensures Lower("object") == "object"
  {
  }

  lemma LowerDrama()
    ensures Lower("drama") == "drama" && Lower("Drama") == "drama"
  {
  }

  lemma ContainsItself(s: string)
    ensures Contains(s, s)
  {
    ContainsPart([], s, []);
    assert [] + s + [] == s;
  }
}
