/** The movie records of the catalog and the search filter over them
    (`filtrarPeliculas`). */
module Movies {
  import opened Wrappers
  import opened Text
  import opened Sequences

  /** One entry of a movie's `genres` array, an object `{name}`. */
  datatype Genre = Genre(name: string)

  /** A movie record as it comes from the catalog document. The optional
      date, runtime, budget and revenue are `None` when absent; the vote
      average is a real number, not a double. */
  datatype Movie = Movie(
    title: string,
    tagline: string,
    overview: string,
    genres: seq<Genre>,
    voteAverage: real,
    releaseDate: Option<string>,
    runtime: Option<int>,
    budget: Option<int>,
    revenue: Option<int>)

  /** How the genre array becomes the text the filter searches.
      `ObjectStrings` is what `genres.join(", ")` does on an array of
      objects: each object turns into "[object Object]". `GenreNames` joins
      the genre names instead, the evidently intended behaviour. */
  datatype GenreJoin = ObjectStrings | GenreNames

  /** The default string conversion of a plain object. */
  const ObjectText: string := "[object Object]"

  /** The separator the filter joins genres with. */
  const GenreSeparator: string := ", "

  function GenreParts(join: GenreJoin, genres: seq<Genre>): (parts: seq<string>)
    ensures |parts| == |genres|
  {
    match join
    case ObjectStrings => seq(|genres|, _ => ObjectText)
    case GenreNames => seq(|genres|, k requires 0 <= k < |genres| => genres[k].name)
  }

  /** The genre text the filter searches. Joined by name it holds every
      genre's name; joined as objects it holds "[object Object]" as soon as
      there is a genre. */
  function GenreText(join: GenreJoin, genres: seq<Genre>): (r: string)
    ensures join.GenreNames? ==> forall k :: 0 <= k < |genres| ==> Contains(r, genres[k].name)
    ensures join.ObjectStrings? && genres != [] ==> Contains(r, ObjectText)
  {
    GenrePartsOccur(join, genres);
    assert join.GenreNames? ==>
      forall k :: 0 <= k < |genres| ==> GenreParts(join, genres)[k] == genres[k].name;
    Join(GenreParts(join, genres), GenreSeparator)
  }

  /** Each genre's part occurs in the joined genre text. */
  lemma GenrePartsOccur(join: GenreJoin, genres: seq<Genre>)
    ensures forall k :: 0 <= k < |genres| ==>
      Contains(Join(GenreParts(join, genres), GenreSeparator), GenreParts(join, genres)[k])
  {
    var parts := GenreParts(join, genres);
    forall k | 0 <= k < |genres|
      ensures Contains(Join(parts, GenreSeparator), parts[k])
    {
      JoinContainsPart(parts, GenreSeparator, k);
    }
  }

  /** The callback given to `Array.filter`, for an already lowered query:
      the query occurs in the lowered title, genre text, tagline or
      overview. */
  predicate Matches(join: GenreJoin, m: Movie, lq: string)
    ensures lq == [] ==> Matches(join, m, lq)
    ensures Matches(join, m, lq) ==>
      || |lq| <= |m.title| || |lq| <= |GenreText(join, m.genres)|
      || |lq| <= |m.tagline| || |lq| <= |m.overview|
  {
    || Contains(Lower(m.title), lq)
    || Contains(Lower(GenreText(join, m.genres)), lq)
    || Contains(Lower(m.tagline), lq)
    || Contains(Lower(m.overview), lq)
  }

  /** `Array.filter` with `Matches` for an already lowered query. */
  function Select(join: GenreJoin, ms: seq<Movie>, lq: string): seq<Movie> {
    Keep(ms, m => Matches(join, m, lq))
  }

  /** `filtrarPeliculas(datos, query)`: the query is lowered once, then the
      catalog is filtered. */
  function Filter(ms: seq<Movie>, query: string, join: GenreJoin): (r: seq<Movie>)
    ensures |r| <= |ms|
  {
    Select(join, ms, Lower(query))
  }

  /** A movie is in the filter's result exactly when it is in the catalog
      and the lowered query occurs in one of its four searched texts. */
  lemma FilterMembership(ms: seq<Movie>, query: string, join: GenreJoin)
    ensures forall m :: m in Filter(ms, query, join) <==> m in ms && Matches(join, m, Lower(query))
  {
    KeepMembership(ms, m => Matches(join, m, Lower(query)));
  }

  /** The filter's result is an ordered subsequence of the catalog that
      keeps every matching position and no other: the exact meaning of
      `Array.filter`. */
  lemma FilterPicksMatches(ms: seq<Movie>, query: string, join: GenreJoin)
    ensures exists idx ::
      && PicksOut(Filter(ms, query, join), ms, idx)
      && forall i :: 0 <= i < |ms| ==> (i in idx <==> Matches(join, ms[i], Lower(query)))
  {
    var keep := m => Matches(join, m, Lower(query));
    KeepPicksOut(ms, keep);
    KeptPositionsExact(ms, keep);
    var idx := KeptPositions(ms, keep);
    assert PicksOut(Filter(ms, query, join), ms, idx);
  }

  /** The filter's result is a subsequence of the catalog. */
  lemma FilterIsSubsequence(ms: seq<Movie>, query: string, join: GenreJoin)
    ensures IsSubsequence(Filter(ms, query, join), ms)
  {
    FilterPicksMatches(ms, query, join);
  }

  /** The query's case does not matter: the filter lowers it first. */
  lemma FilterIgnoresQueryCase(ms: seq<Movie>, query: string, join: GenreJoin)
    ensures Filter(ms, query, join) == Filter(ms, Lower(query), join)
  {
    LowerIdempotent(query);
  }

  /** An empty query matches every movie: the filter keeps the whole
      catalog. */
  lemma FilterEmptyQueryKeepsAll(ms: seq<Movie>, join: GenreJoin)
    ensures Filter(ms, [], join) == ms
  {
    forall k | 0 <= k < |ms|
      ensures Matches(join, ms[k], Lower([]))
    {
      ContainsEmpty(Lower(ms[k].title));
    }
    KeepAll(ms, m => Matches(join, m, Lower([])));
  }

  /** A one-movie catalog is kept whole or dropped, as the movie matches. */
  lemma FilterSingleton(m: Movie, query: string, join: GenreJoin)
    ensures Filter([m], query, join) == if Matches(join, m, Lower(query)) then [m] else []
  {
    assert [m][..0] == [];
  }

  /** Filtering a concatenation filters each part. */
  lemma FilterAppend(a: seq<Movie>, b: seq<Movie>, query: string, join: GenreJoin)
    ensures Filter(a + b, query, join) == Filter(a, query, join) + Filter(b, query, join)
  {
    KeepAppend(a, b, m => Matches(join, m, Lower(query)));
  }

  /** Filtering twice with the same query is filtering once. */
  lemma FilterIdempotent(ms: seq<Movie>, query: string, join: GenreJoin)
    ensures Filter(Filter(ms, query, join), query, join) == Filter(ms, query, join)
  {
    KeepIdempotent(ms, m => Matches(join, m, Lower(query)));
  }
}
