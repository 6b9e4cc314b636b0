/*
 * The movie catalog: one record per title, holding the fields of the
 * movie-features file that the recommender reads, and the parsing of a
 * release date into its year.
 */
module Movies {

  type Title = string

  /** One catalog entry. The four lists are the JSON lists of the catalog,
      kept as sequences: the scoring takes their lengths as lists. */
  datatype Movie = Movie(
    runtime: int,
    language: string,
    releaseDate: string,
    genres: seq<string>,
    actors: seq<string>,
    directors: seq<string>,
    keywords: seq<string>)

  /** The catalog maps each title to its record. */
  type Catalog = map<Title, Movie>

  predicate IsDigit(c: char) {
    '0' <= c <= '9'
  }

  predicate AllDigits(s: string) {
    forall i :: 0 <= i < |s| ==> IsDigit(s[i])
  }

  /** A decimal numeral: one or more ASCII digits. */
  predicate IsNumeral(s: string) {
    |s| > 0 && AllDigits(s)
  }

  /** The first field of `s.split('-')`: the text before the first dash,
      or all of `s` when it has no dash. */
  function BeforeDash(s: string): (r: string)
    ensures r <= s
    ensures '-' !in r
    ensures |r| < |s| ==> s[|r|] == '-'
  {
    if s == [] || s[0] == '-' then [] else [s[0]] + BeforeDash(s[1..])
  }

  /** The value of a string of decimal digits, most significant first. */
  function NumeralValue(s: string): nat
    requires AllDigits(s)
  {
    if s == [] then 0
    else 10 * NumeralValue(s[..|s| - 1]) + (s[|s| - 1] as int - '0' as int)
  }

  function DigitChar(d: nat): (c: char)
    requires d < 10
    ensures IsDigit(c) && c as int - '0' as int == d
  {
    ('0' as int + d) as char
  }

  /** The shortest decimal numeral of `n`. */
  function Numeral(n: nat): (s: string)
    ensures IsNumeral(s)
  {
    if n < 10 then [DigitChar(n)] else Numeral(n / 10) + [DigitChar(n % 10)]
  }

  /** Reading back the numeral of `n` gives `n`. */
  lemma {:induction false} NumeralRoundTrip(n: nat)
    ensures NumeralValue(Numeral(n)) == n
  {
    var s := Numeral(n);
    if n >= 10 {
      NumeralRoundTrip(n / 10);
      assert s[..|s| - 1] == Numeral(n / 10);
    }
  }

  /** `int(release_date.split('-')[0])` succeeds: the text before the first
      dash is a decimal numeral. */
  predicate ValidDate(date: string) {
    IsNumeral(BeforeDash(date))
  }

  /** The release year of a date whose first field is a numeral. */
  function YearOf(date: string): nat
    requires ValidDate(date)
  {
    NumeralValue(BeforeDash(date))
  }

  /** The first field of a date written "year-rest" is the year's numeral. */
  lemma BeforeDashOfDate(y: string, rest: string)
    requires AllDigits(y)
    ensures BeforeDash(y + "-" + rest) == y
  {
    var s := y + "-" + rest;
    var r := BeforeDash(s);
    assert s[|y|] == '-';
    assert forall i :: 0 <= i < |y| ==> s[i] == y[i] != '-';
    assert |r| == |y|;
    assert r == s[..|y|] == y;
  }

  /** A date "YYYY-MM-DD" (any text after the dash) has year YYYY. */
  lemma YearOfDate(year: nat, rest: string)
    ensures ValidDate(Numeral(year) + "-" + rest)
    ensures YearOf(Numeral(year) + "-" + rest) == year
  {
    BeforeDashOfDate(Numeral(year), rest);
    NumeralRoundTrip(year);
  }

  /** Every release date of the catalog has a year: the condition under
      which the source's year parsing does not raise. */
  predicate DatesValid(catalog: Catalog) {
    forall t :: t in catalog ==> ValidDate(catalog[t].releaseDate)
  }
}
