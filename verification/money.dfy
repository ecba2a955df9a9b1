/** The text `Intl.NumberFormat('en-US', {style: 'currency', currency: 'USD',
    minimumFractionDigits: 0})` gives an integral amount: an optional minus
    sign, a dollar sign, and the digits of the magnitude in groups of three
    separated by commas. No fraction digits appear for an integral amount. */
module Money {
  import opened Wrappers
  import opened Text
  import opened Numerals

  /** The digits of a numeral cut into groups of three counted from the
      right; the first group holds the one to three digits left over. */
  function Groups(d: string): (g: seq<string>)
    requires d != []
    ensures GroupShape(g)
    ensures forall k, c :: 0 <= k < |g| && c in g[k] ==> c in d
    ensures Join(g, "") == d
    decreases |d|
  {
    if |d| <= 3 then [d]
    else
      var init, last := d[..|d| - 3], d[|d| - 3..];
      var g := Groups(init) + [last];
      JoinSnoc(Groups(init), last, "");
      assert init + "" + last == d;
      g
  }

  /** The grouping separator. */
  const Comma: char := ','

  /** The formatted text of an integral amount of US dollars. */
  function UsdText(n: int): (r: string)
    ensures |r| >= 2 && (r[0] == '-' <==> n < 0) && (r[0] == '$' <==> n >= 0)
    ensures ParseUsd(r) == Some(n)
  {
    var m: nat := if n < 0 then -n else n;
    var sign := if n < 0 then "-$" else "$";
    var d := NatToString(m);
    var g := Groups(d);
    var body := Join(g, [Comma]);
    UsdBodyRoundTrip(m);
    ReadSigned(n, body);
    sign + body
  }

  /** A sign prefix followed by the grouped magnitude reads back as the
      signed amount. */
  lemma ReadSigned(n: int, body: string)
    requires ParseGrouped(body) == Some(if n < 0 then -n else n)
    ensures ParseUsd((if n < 0 then "-$" else "$") + body) == Some(n)
  {
    var sign := if n < 0 then "-$" else "$";
    assert (sign + body)[..|sign|] == sign && (sign + body)[|sign|..] == body;
  }

  /** Group lengths as the formatter writes them: one to three digits
      first, then groups of exactly three. */
  predicate GroupShape(g: seq<string>) {
    && |g| >= 1 && 1 <= |g[0]| <= 3
    && (forall k :: 1 <= k < |g| ==> |g[k]| == 3)
  }

  /** Groups of the formatter's shape whose digits form a canonical numeral. */
  predicate WellGrouped(g: seq<string>) {
    GroupShape(g) && IsNumeral(Join(g, ""))
  }

  /** The magnitude written after the dollar sign, if it is well grouped. */
  function ParseGrouped(body: string): (r: Option<nat>) {
    var g := Split(body, Comma);
    if WellGrouped(g) then Some(ParseNat(Join(g, ""))) else None
  }

  /** Reads a formatted amount back; `None` for any other text. */
  function ParseUsd(s: string): (r: Option<int>) {
    if |s| >= 2 && s[..2] == "-$" then
      match ParseGrouped(s[2..])
      case Some(m) => if m == 0 then None else Some(0 - m)
      case None => None
    else if |s| >= 1 && s[0] == '$' then
      match ParseGrouped(s[1..])
      case Some(m) => Some(m)
      case None => None
    else None
  }

  /** A numeral holds no character other than digits. */
  lemma NumeralLacks(s: string, c: char)
    requires IsNumeral(s) && !IsDigit(c)
    ensures c !in s
  {
  }

  /** The grouped digits of a number read back as that number. */
  lemma UsdBodyRoundTrip(m: nat)
    ensures ParseGrouped(Join(Groups(NatToString(m)), [Comma])) == Some(m)
  {
    var d := NatToString(m);
    var g := Groups(d);
    NumeralLacks(d, Comma);
    SplitJoin(g, Comma);
    ParseNatToString(m);
  }

  /** Groups of the formatter's shape are the grouping of their digits. */
  lemma {:induction false} GroupsOfJoin(g: seq<string>)
    requires GroupShape(g)
    ensures Join(g, "") != [] && Groups(Join(g, "")) == g
    decreases |g|
  {
    JoinContainsPart(g, "", 0);
    ContainsChars(Join(g, ""), g[0]);
    if |g| > 1 {
      var init, last := g[..|g| - 1], g[|g| - 1];
      assert init + [last] == g;
      JoinSnoc(init, last, "");
      assert GroupShape(init);
      GroupsOfJoin(init);
      var d := Join(g, "");
      assert d == Join(init, "") + last;
      assert d[..|d| - 3] == Join(init, "") && d[|d| - 3..] == last;
    }
  }

  /** The formatter's text is the only one that reads back as its amount. */
  lemma ParseUsdCanonical(s: string, n: int)
    requires ParseUsd(s) == Some(n)
    ensures UsdText(n) == s
  {
    var k := if |s| >= 2 && s[..2] == "-$" then 2 else 1;
    var body := s[k..];
    var g := Split(body, Comma);
    assert WellGrouped(g);
    var m: nat := if n < 0 then -n else n;
    assert ParseNat(Join(g, "")) == m;
    NatToStringParse(Join(g, ""));
    GroupsOfJoin(g);
    JoinSplit(body, Comma);
    assert Join(Groups(NatToString(m)), [Comma]) == body;
    if k == 1 {
      assert s[..k] == [s[0]] == "$";
    }
    assert s[..k] == (if n < 0 then "-$" else "$");
    PrefixSuffix(s, k);
  }

  lemma PrefixSuffix(s: string, k: nat)
    requires k <= |s|
    ensures s[..k] + s[k..] == s
  {
  }

  /** A million dollars reads "$1,000,000"; minus 1234 dollars reads
      "-$1,234". */
  lemma UsdExamples()
    ensures UsdText(1000000) == "$1,000,000"
    ensures UsdText(-1234) == "-$1,234"
  {
    UsdMillion();
    UsdMinusThousands();
  }

  lemma UsdMillion()
    ensures UsdText(1000000) == "$1,000,000"
  {
    MillionDigits();
    MillionGroups();
    UsdTextOf(1000000, "1000000", ["1", "000", "000"]);
    SignedTexts();
  }

  /** The formatted text assembled from known digits and groups. */
  lemma UsdTextOf(n: int, d: string, g: seq<string>)
    requires NatToString(if n < 0 then -n else n) == d
    requires d != [] && Groups(d) == g
    ensures UsdText(n) == (if n < 0 then "-$" else "$") + Join(g, [Comma])
  {
  }

  lemma UsdMinusThousands()
    ensures UsdText(-1234) == "-$1,234"
  {
    ThousandsDigits();
    UsdTextOf(-1234, "1234", ["1", "234"]);
    SignedTexts();
  }

  lemma SignedTexts()
    ensures "$" + "1,000,000" == "$1,000,000"
    ensures "-$" + "1,234" == "-$1,234"
  {
  }

  lemma MillionDigits()
    ensures NatToString(1000000) == "1000000"
  {
    assert NatToString(1000) == "1000";
  }

  lemma MillionGroups()
    ensures Groups("1000000") == ["1", "000", "000"]
    ensures Join(["1", "000", "000"], [Comma]) == "1,000,000"
  {
    MillionSplit();
    MillionJoin();
  }

  lemma MillionJoin()
    ensures Join(["1", "000", "000"], [Comma]) == "1,000,000"
  {
    assert ["1", "000", "000"][1..] == ["000", "000"];
    assert ["000", "000"][1..] == ["000"];
  }

  lemma MillionSplit()
    ensures Groups("1000000") == ["1", "000", "000"]
  {
    var d := "1000000";
    assert d[..4] == "1000" && d[4..] == "000";
    assert "1000"[..1] == "1" && "1000"[1..] == "000";
    assert Groups("1") == ["1"];
  }

  lemma ThousandsDigits()
    ensures NatToString(1234) == "1234"
    ensures Groups("1234") == ["1", "234"]
    ensures Join(["1", "234"], [Comma]) == "1,234"
  {
    assert "1234"[..1] == "1" && "1234"[1..] == "234";
    assert Groups("1") == ["1"];
  }
}
