/** The values the list and the detail panel show for one movie: the star
    rating (`generarEstrellas`), the year (`obtenerAnio`), the duration and
    the money amounts (`formatoMoneda`). */
module Display {
  import opened Wrappers
  import opened Text
  import opened Numerals
  import opened Money

  /** The text shown for a value that is missing. */
  const NotAvailable: string := "N/A"

  /** `Math.round(x)`: the integer nearest to `x`, ties going up. */
  function RoundHalfUp(x: real): (n: int)
    ensures n as real - 0.5 <= x < n as real + 0.5
  {
    (x + 0.5).Floor
  }

  /** Only one integer lies in the half-open window of width one around `x`,
      so `RoundHalfUp` is the rounding `Math.round` describes. */
  lemma RoundHalfUpUnique(x: real, k: int)
    requires k as real - 0.5 <= x < k as real + 0.5
    ensures RoundHalfUp(x) == k
  {
  }

  /** How many full and how many empty stars the rating shows. */
  datatype StarCounts = StarCounts(filled: nat, empty: nat)

  /** The `RangeError` that `String.prototype.repeat` throws on a negative
      count. */
  datatype RepeatError = NegativeRepeatCount

  /** `generarEstrellas(voteAverage)`, reduced to its two repeat counts:
      `Math.round(voteAverage / 2)` full stars and the rest of five empty.
      Nothing is clamped: a count below zero makes `repeat` throw. */
  function Stars(voteAverage: real): (r: Result<StarCounts, RepeatError>)
    ensures r.Success? <==> -1.0 <= voteAverage < 11.0
    ensures r.Success? ==> r.value.filled + r.value.empty == 5
    ensures r.Success? ==>
      r.value.filled as real - 0.5 <= voteAverage / 2.0 < r.value.filled as real + 0.5
  {
    var filled := RoundHalfUp(voteAverage / 2.0);
    var empty := 5 - filled;
    if filled < 0 || empty < 0 then Failure(NegativeRepeatCount)
    else Success(StarCounts(filled, empty))
  }

  /** The rating's corner cases: a perfect ten is five full stars, zero is
      five empty ones, five rounds its 2.5 up to three, 7.7 shows four, and
      eleven throws. */
  lemma StarsExamples()
    ensures Stars(10.0) == Success(StarCounts(5, 0))
    ensures Stars(0.0) == Success(StarCounts(0, 5))
    ensures Stars(5.0) == Success(StarCounts(3, 2))
    ensures Stars(7.7) == Success(StarCounts(4, 1))
    ensures Stars(11.0).Failure?
    ensures Stars(-1.5).Failure?
  {
    RoundHalfUpUnique(5.0, 5);
    RoundHalfUpUnique(0.0, 0);
    RoundHalfUpUnique(2.5, 3);
    RoundHalfUpUnique(3.85, 4);
  }

  /** A higher vote average never shows fewer full stars. */
  lemma StarsMonotone(v: real, w: real)
    requires -1.0 <= v <= w < 11.0
    ensures Stars(v).Success? && Stars(w).Success?
    ensures Stars(v).value.filled <= Stars(w).value.filled
  {
  }

  /** `obtenerAnio(releaseDate)`: "N/A" for an absent or empty date,
      otherwise the first piece of `releaseDate.split("-")`. */
  function Year(releaseDate: Option<string>): (r: string)
    ensures releaseDate.None? || releaseDate.value == [] ==> r == NotAvailable
    ensures releaseDate.Some? && releaseDate.value != [] ==>
      var s := releaseDate.value;
      && |r| <= |s| && r == s[..|r|]
      && '-' !in r
      && (|r| < |s| ==> s[|r|] == '-')
      && ('-' !in s ==> r == s)
  {
    match releaseDate
    case None => NotAvailable
    case Some(s) => if s == [] then NotAvailable else Split(s, '-')[0]
  }

  /** An ISO date shows its year; an absent date shows "N/A". */
  lemma YearExamples()
    ensures Year(Some("1994-07-06")) == "1994"
    ensures Year(Some("1995-12-15")) == "1995"
    ensures Year(None) == NotAvailable
  {
    assert "1994" + "-" + "07-06" == "1994-07-06";
    YearOfDate("1994", "07-06");
    assert "1995" + "-" + "12-15" == "1995-12-15";
    YearOfDate("1995", "12-15");
  }

  /** A date that starts with a dash-free piece followed by a dash shows
      exactly that piece. */
  lemma YearOfDate(y: string, rest: string)
    requires '-' !in y
    ensures Year(Some(y + "-" + rest)) == y
  {
    SplitAtFirstSeparator(y, '-', rest);
  }

  /** The duration shown in the detail panel: `${runtime} min` when the
      runtime is present and non-zero, "N/A" otherwise. */
  function Duration(runtime: Option<int>): (r: string)
    ensures r == NotAvailable <==> runtime.None? || runtime.value == 0
    ensures runtime.Some? && runtime.value != 0 ==>
      && |r| > 4
      && r[|r| - 4..] == " min"
      && IsIntText(r[..|r| - 4])
      && ParseInt(r[..|r| - 4]) == runtime.value
  {
    if runtime.Some? && runtime.value != 0 then
      var t := IntToString(runtime.value);
      assert (t + " min")[..|t|] == t;
      t + " min"
    else NotAvailable
  }

  /** `formatoMoneda(numero)`: "N/A" for a zero or absent amount,
      otherwise the amount formatted in US dollars, which reads back as the
      amount. */
  function FormatMoney(numero: Option<int>): (r: string)
    ensures r == NotAvailable <==> numero.None? || numero.value == 0
    ensures numero.Some? && numero.value != 0 ==> ParseUsd(r) == Some(numero.value)
  {
    if numero.None? || numero.value == 0 then NotAvailable
    else UsdText(numero.value)
  }

  /** A zero or missing amount shows "N/A"; a million shows "$1,000,000". */
  lemma FormatMoneyExamples()
    ensures FormatMoney(Some(0)) == NotAvailable
    ensures FormatMoney(None) == NotAvailable
    ensures FormatMoney(Some(1000000)) == "$1,000,000"
  {
    UsdExamples();
  }
}
