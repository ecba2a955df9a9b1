# Movie search widget — Dafny model

The widget (`js/script.js`) loads a catalog of movie records and lets a user
search it. This project models the pure logic behind that page:

- the search filter `filtrarPeliculas`. It lower-cases the query and keeps,
  in catalog order, every movie whose lowered title, joined genres, tagline
  or overview contains it;
- the search button's click handler. It trims the input, shows a warning
  for a blank query, and otherwise filters the loaded catalog;
- the values shown for one movie:
  - the star counts of `generarEstrellas`;
  - the year of `obtenerAnio`;
  - the duration text, "`N/A`" for a missing or zero runtime;
  - the dollar amounts of `formatoMoneda`, including the en-US currency
    text that `Intl.NumberFormat` gives for whole amounts.

The JavaScript built-ins the code relies on are modelled in Dafny:

| built-in | module |
|---|---|
| `toLowerCase`, `includes`, `split`, `join`, `trim` | `Text` |
| `Array.prototype.filter` | `Sequences` |
| `${n}` for integers | `Numerals` |
| the currency format | `Money` |

Records and the filter are in `Movies`. The display helpers are in `Display`
and the click handler is in `Search`. `GenreFinding` holds the discrepancy
reported under Findings.

The optional fields `release_date`, `runtime`, `budget` and `revenue` are
`Option` values. `String.prototype.repeat` throws a
`RangeError` on a negative count; that is modelled as a `Result` failure.
`Math.round(x)` is modelled as `floor(x + 1/2)`.

The genre join on line 27 is a parameter of the filter and of the handler:

- `GenreJoin.ObjectStrings` is the join as written;
- `GenreJoin.GenreNames` is the join the code evidently intends.

Every property of the filter and the handler is therefore proved for both
joins.

## Model

| member | source | states |
|---|---|---|
| Movies.Filter | js/script.js:23-31 | The filter's result is never longer than the catalog. |
| Movies.Matches | js/script.js:26-29 | Every movie matches the empty query. A movie matches only a query no longer than one of its four searched texts. |
| Movies.GenreText | js/script.js:27 | Joined by name, the genre text holds every genre's name. Joined as objects, it holds "[object Object]" as soon as there is a genre. |
| Movies.FilterMembership | js/script.js:23-31 | A movie is in the result exactly when it is in the catalog and the lowered query occurs in its lowered title, genre text, tagline or overview. |
| Movies.FilterPicksMatches | js/script.js:25-30 | The result picks out of the catalog, in order, exactly the positions whose movie matches. |
| Movies.FilterIsSubsequence | js/script.js:25 | The result is an ordered subsequence of the catalog. |
| Movies.FilterIgnoresQueryCase | js/script.js:24 | Filtering with a query or with its lowered form gives the same result. |
| Movies.FilterEmptyQueryKeepsAll | js/script.js:23-31 | An empty query keeps the whole catalog. This is why the handler must reject blank input. |
| Movies.FilterSingleton | js/script.js:25-30 | A one-movie catalog is kept whole when its movie matches and dropped otherwise. |
| Movies.FilterAppend | js/script.js:25-30 | Filtering a concatenated catalog is filtering each part and concatenating the results. |
| Movies.FilterIdempotent | js/script.js:23-31 | Filtering the result again with the same query changes nothing. |
| Sequences.Keep | js/script.js:25 | `filter` never returns more elements than it was given. |
| Sequences.KeepMembership | js/script.js:25 | `filter` keeps an element exactly when it occurs in the input and the callback accepts it. |
| Sequences.KeepPicksOut | js/script.js:25 | `filter` keeps exactly the accepted positions, in increasing order. |
| Text.LowerChar | js/script.js:24 | An ASCII capital maps to the small letter at the same alphabet position: its code rises by `'a' - 'A'`. Every other character is unchanged. |
| Text.Lower | js/script.js:24 | `toLowerCase` keeps the length and lowers each character as `LowerChar` does. |
| Text.Contains | js/script.js:26-29 | `includes` holds only for a pattern no longer than the text, and always for the empty pattern. |
| Text.LowerIdempotent | js/script.js:24 | Lowering a lowered text changes nothing. |
| Text.ContainsIff | js/script.js:26-29 | `includes` holds exactly when the pattern occurs at some position of the text. |
| Text.ContainsLower | js/script.js:26-29 | Lowering both sides keeps an occurrence. |
| Text.LowerLacksLetter | js/script.js:26-29 | A lowered text holding a letter in neither case cannot contain a pattern that starts with that letter. |
| Text.Join | js/script.js:27 | An empty array joins to the empty text. Otherwise the length is the parts' total length plus one separator per gap between neighbours. |
| Text.JoinContainsPart | js/script.js:27 | Each joined part occurs in the joined text. |
| Text.Split | js/script.js:43 | There is at least one piece and no piece holds the separator. The first piece is a prefix of the text; when it is shorter than the text, the separator follows it. |
| Text.JoinSplit | js/script.js:43 | Joining the pieces of `split(c)` with `c` gives back the text. |
| Text.SplitJoin | js/script.js:43 | Splitting a join of separator-free parts gives back the parts. |
| Text.Trim | js/script.js:113 | The result is one block of the input with only trimmable characters around it. Its ends are not trimmable. It is empty exactly when every character is trimmable. |
| Text.TrimmedAtUnique | js/script.js:113 | Only one block of a text satisfies what `trim` promises. |
| Text.TrimIdempotent | js/script.js:113 | Trimming a trimmed text changes nothing. |
| Text.TrimLower | js/script.js:113 | Trimming and lowering commute. |
| Display.RoundHalfUp | js/script.js:35 | `Math.round(x)` lies within half a unit of `x`, with ties going up. |
| Display.RoundHalfUpUnique | js/script.js:35 | Only one integer satisfies that window, so the rounding is determined. |
| Display.Stars | js/script.js:34-38 | The star counts exist exactly when -1 <= vote average < 11. Otherwise `repeat` throws. Full and empty stars add up to five. The full count is the rounded half of the vote average. |
| Display.StarsExamples | js/script.js:34-38 | 10 gives 5/0, 0 gives 0/5, 5 gives 3/2, 7.7 gives 4/1. 11 and -1.5 throw. |
| Display.StarsMonotone | js/script.js:35 | A higher vote average never shows fewer full stars. |
| Display.Year | js/script.js:40-44 | An absent or empty date gives "N/A". Otherwise the result is a dash-free prefix of the date, followed in the date by a dash when it is shorter. A date without a dash is shown whole. |
| Display.YearOfDate | js/script.js:43 | A date made of a dash-free piece (possibly empty), a dash and any rest shows exactly that piece. |
| Display.YearExamples | js/script.js:40-44 | "1994-07-06" gives "1994", "1995-12-15" gives "1995", and an absent date gives "N/A". |
| Display.Duration | js/script.js:81 | "N/A" exactly when the runtime is absent or zero. Otherwise the text ends in " min" and what comes before reads back as the runtime. |
| Numerals.ParseNatToString | js/script.js:81 | The numeral of a number reads back as the number. |
| Numerals.NatToStringParse | js/script.js:81 | Every canonical numeral is the numeral of its value. |
| Numerals.IntToString | js/script.js:81 | The text of an integer starts with a minus sign exactly when the integer is negative, is otherwise a numeral, and reads back as the integer. |
| Display.FormatMoney | js/script.js:47-55 | "N/A" exactly when the amount is absent or zero. Otherwise the text reads back as the amount. |
| Display.FormatMoneyExamples | js/script.js:47-55 | 0 and an absent amount give "N/A". A million gives "$1,000,000". |
| Money.Groups | js/script.js:50-54 | The digits split into a first group of one to three digits, then groups of exactly three. Together the groups are the digits. |
| Money.UsdText | js/script.js:50-54 | The currency text starts with '-' exactly for a negative amount and with '$' otherwise. It reads back as the amount. |
| Money.GroupsOfJoin | js/script.js:50-54 | Groups shaped as the formatter writes them are the grouping of their own digits. |
| Money.ParseUsdCanonical | js/script.js:50-54 | Any text that reads back as an amount is exactly the formatter's text for it. |
| Money.UsdExamples | js/script.js:50-54 | 1000000 gives "$1,000,000" and -1234 gives "-$1,234". |
| Search.OnSearchClick | js/script.js:112-126 | A warning exactly when the input is all trimmable characters. Otherwise the trimmed query is non-empty and is filtered against the catalog. |
| Search.ShownMovies | js/script.js:112-126 | The listed movies are an ordered subsequence of the catalog. A movie is listed exactly when it matches the lowered, trimmed query. |
| Search.OnSearchClickIgnoresBlanks | js/script.js:113 | Blanks around the input do not change the outcome. |
| Search.OnSearchClickIgnoresCase | js/script.js:113-124 | The letter case of the input does not change the outcome. |
| Search.ShowsAllWhenAllMatch | js/script.js:124-125 | When every movie matches, the whole catalog is listed. |
| Search.SearchBeforeLoad | js/script.js:3 | Before the catalog arrives it is the initial empty array, and a non-blank search lists nothing. |
| Search.ShowsNoneWhenNoneMatch | js/script.js:124-125 | When no movie matches, an empty list is shown: the "no results" notice. |
| Search.FoundByTitle | js/script.js:112-126 | A one-movie catalog searched for its title, up to case, lists that movie, when the title has no blanks at either end. |
| Search.HeatFound | js/script.js:112-126 | A catalog holding only "Heat", searched for "heat", lists that movie. |
| Search.MissesXyz | js/script.js:25-30 | A movie whose texts hold no 'x' in either case does not match "xyz", with either genre join. |
| Search.HeatNotFound | js/script.js:112-126 | The "Heat" catalog searched for "xyz" lists nothing. |
| Search.BlankSearchWarns | js/script.js:113-122 | Searching for " \t " or for the empty text only warns. |
| GenreFinding.AsWrittenMissesGenreName | js/script.js:27 | As written, a search for "drama" misses every movie whose title, tagline and overview lack a 'd', whatever its genres. |
| GenreFinding.AsWrittenIgnoresNames | js/script.js:27 | As written, whether a movie matches any query does not depend on its genre names, only on how many genres it has. |
| GenreFinding.AsWrittenObjectMatchesAnyGenre | js/script.js:27 | As written, the query "object" matches every movie with at least one genre. |
| GenreFinding.GenreNameIsSearched | js/script.js:27 | With the intended join, a movie matches whenever the query occurs in the lowered name of one of its genres. |
| GenreFinding.DramaExample | js/script.js:27 | For a catalog holding only "Up", a drama with no other text: as written the search for "drama" lists nothing; with the intended join it lists the movie. |

## Left out

- Loading the catalog (`getData`, `main`, lines 5-20 and 106-109). Fetching is I/O. The handler instead takes the catalog loaded so far as a parameter; before the data arrives, that is the empty catalog.
- Rendering (`mostrarPeliculas`, the detail panel, the offcanvas and the alert dialog). These only write to the page. The handler's outcome stands for what is shown: the warning, or the list, where an empty list shows the "no results" notice.
- Display.Stars: returns the two counts given to `repeat`, not the HTML text built from them.
- Display.Stars: models the vote average as a real number. IEEE doubles, `NaN` and infinities are not modelled; `repeat(NaN)` would give no stars rather than throw.
- Display.Duration: models integral runtimes only. Fractional runtimes, and runtimes of at least 10^21 (which `${}` prints in exponent form), are not modelled.
- Display.FormatMoney: models integral amounts only. Amounts above 2^53, which JSON parsing rounds to the nearest double before formatting, are kept exact here. Fractional amounts are not modelled.
- Money.UsdText: covers the en-US pattern for whole amounts only. Other locales, currencies and rounding of fractional amounts are not modelled. `-0` is not modelled, because integers have no negative zero.
- Text.LowerChar: lowers ASCII letters only. `toLowerCase` also lowers other scripts by the Unicode case tables, which are not modelled.
- Strings are sequences of Unicode scalar values, not of UTF-16 code units. Surrogate pairs are not modelled.
- A non-string `release_date` (for example a number) is not modelled; the model only takes a text or nothing.
- The script does not clamp the star count to [0, 5]; out-of-range ratings fail as `repeat` does. Joining genre names appears only as the corrected half of the finding below.
- Movies.Filter: takes `title`, `tagline`, `overview` and `genres` as always present. A null `title`, `tagline` or `overview` makes `.toLowerCase()` throw a `TypeError` (lines 26, 28, 29), and missing `genres` make `.join` throw (line 27); each throws only when the earlier `||` operands were false. These errors are not modelled.

## Findings

| source | as written | input that shows it | evidently intended | confidence | as-written member | corrected member |
|---|---|---|---|---|---|---|
| js/script.js:27 | `p.genres.join(", ")` joins the genre objects, so each becomes "[object Object]" and no genre name is ever searched | a catalog holding only "Up", with genres `[{name: "Drama"}]` and empty tagline and overview: the query "drama" finds nothing, and "object" finds every movie with a genre | join the genre names: `p.genres.map(g => g.name).join(", ")` | high; not executed | GenreFinding.AsWrittenMissesGenreName | GenreFinding.GenreNameIsSearched |
