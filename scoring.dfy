/*
 * The dissimilarity score between two movies of the catalog: a weighted sum
 * of seven partial scores. Lower means more alike.
 */
module Scoring {
  import opened Movies
  import opened Seqs

  /** The importance of each feature; the source keeps these in a dict. */
  datatype Weights = Weights(
    runtime: real,
    language: real,
    releaseYear: real,
    genre: real,
    actors: real,
    directors: real,
    keywords: real)

  /** The default weight table of the recommender. */
  const DefaultWeights := Weights(2.0, 3.0, 6.0, 1.0, 5.0, 6.0, 3.0)

  predicate NonNegative(w: Weights) {
    && w.runtime >= 0.0 && w.language >= 0.0 && w.releaseYear >= 0.0
    && w.genre >= 0.0 && w.actors >= 0.0 && w.directors >= 0.0 && w.keywords >= 0.0
  }

  /** Every weight of `w` is at most the same weight of `w'`. */
  predicate AtMost(w: Weights, w': Weights) {
    && w.runtime <= w'.runtime && w.language <= w'.language
    && w.releaseYear <= w'.releaseYear && w.genre <= w'.genre
    && w.actors <= w'.actors && w.directors <= w'.directors
    && w.keywords <= w'.keywords
  }

  function TotalWeight(w: Weights): real {
    w.runtime + w.language + w.releaseYear + w.genre + w.actors + w.directors + w.keywords
  }

  function Abs(x: int): nat {
    if x < 0 then -x else x
  }

  /** Runtime and release-year partial: the absolute difference divided by
      the catalog-wide range. */
  function RangeScore(x: int, y: int, range: int): (r: real)
    requires range != 0
    ensures range > 0 ==> r >= 0.0
    ensures 0 < range && Abs(x - y) <= range ==> r <= 1.0
    ensures r == 0.0 <==> x == y
  {
    Abs(x - y) as real / range as real
  }

  /** Language partial: 0 when the codes are equal, else 1. */
  function LanguageScore(a: string, b: string): (r: real)
    ensures r == 0.0 <==> a == b
    ensures r == 1.0 <==> a != b
  {
    if a == b then 0.0 else 1.0
  }

  /** A list has at least as many entries as distinct items, and exactly as
      many when no item repeats. */
  lemma {:induction false} ElementsCard(xs: seq<string>)
    ensures |Elements(xs)| <= |xs|
    ensures Distinct(xs) ==> |Elements(xs)| == |xs|
  {
    if xs != [] {
      ElementsCard(xs[1..]);
      assert Elements(xs) == {xs[0]} + Elements(xs[1..]);
      if Distinct(xs) {
        assert Distinct(xs[1..]);
        assert xs[0] !in Elements(xs[1..]) by {
          forall i | 0 <= i < |xs[1..]| ensures xs[1..][i] != xs[0] {
            assert xs[1..][i] == xs[i + 1];
          }
        }
      }
    }
  }

  /** The number of entries of `a` (counted with repetition) whose item does
      not occur in `b`: the reference reading of "A's items missing from B". */
  function MissingCount(a: seq<string>, b: seq<string>): (n: nat)
    ensures n <= |a|
  {
    if a == [] then 0 else (if a[0] in b then 0 else 1) + MissingCount(a[1..], b)
  }

  /** The source's count `len(A) - len(set(A) & set(B))`. */
  function UnsharedCount(a: seq<string>, b: seq<string>): int {
    |a| - |Elements(a) * Elements(b)|
  }

  /** For a duplicate-free list the source's count is exactly the number of
      A's items missing from B. */
  lemma {:induction false} UnsharedIsMissing(a: seq<string>, b: seq<string>)
    requires Distinct(a)
    ensures UnsharedCount(a, b) == MissingCount(a, b)
  {
    if a != [] {
      CommonStep(a, b);
      UnsharedIsMissing(a[1..], b);
    }
  }

  /** The head of a list without repeats does not occur in its tail, which
      has no repeats either. */
  lemma HeadFresh(a: seq<string>)
    requires Distinct(a) && a != []
    ensures Distinct(a[1..]) && a[0] !in Elements(a[1..])
  {
    var t := a[1..];
    forall i | 0 <= i < |t| ensures t[i] != a[0] {
      assert t[i] == a[i + 1];
    }
  }

  /** Taking the head off a list without repeats takes one item off the
      shared items exactly when the head is shared. */
  lemma CommonStep(a: seq<string>, b: seq<string>)
    requires Distinct(a) && a != []
    ensures Distinct(a[1..])
    ensures |Elements(a) * Elements(b)| == |Elements(a[1..]) * Elements(b)| + (if a[0] in b then 1 else 0)
  {
    HeadFresh(a);
    var rest := Elements(a[1..]) * Elements(b);
    assert Elements(a) == {a[0]} + Elements(a[1..]);
    if a[0] in b {
      assert Elements(a) * Elements(b) == {a[0]} + rest;
    } else {
      assert Elements(a) * Elements(b) == rest;
    }
  }

  lemma UnsharedBounds(a: seq<string>, b: seq<string>)
    ensures 0 <= UnsharedCount(a, b) <= |a|
  {
    ElementsCard(a);
    var common := Elements(a) * Elements(b);
    assert Elements(a) == common + (Elements(a) - common);
  }

  /** The source's count is every entry of A when the lists share nothing,
      and only A's repeated entries when B holds all of A's items. */
  lemma UnsharedExtremes(a: seq<string>, b: seq<string>)
    ensures Elements(a) !! Elements(b) ==> UnsharedCount(a, b) == |a|
    ensures Elements(a) <= Elements(b) ==> UnsharedCount(a, b) == |a| - |Elements(a)|
  {
    if Elements(a) <= Elements(b) {
      assert Elements(a) * Elements(b) == Elements(a);
    }
  }

  /** A count over a positive total, as a fraction: within [0, 1] when the
      count does not exceed the total, 0 exactly when the count is 0, and 1
      exactly when it is the whole total. */
  lemma FractionBounds(num: int, den: int)
    requires 0 <= num && den > 0
    ensures num <= den ==> 0.0 <= num as real / den as real <= 1.0
    ensures num as real / den as real == 0.0 <==> num == 0
    ensures num as real / den as real == 1.0 <==> num == den
  {
    var q := num as real / den as real;
    assert q * den as real == num as real;
  }

  /** Set partial: the fraction of A's list whose items are not shared with
      B, `(len(A) - len(set(A) & set(B))) / len(A)`. */
  function MissingFraction(a: seq<string>, b: seq<string>): (r: real)
    requires |a| > 0
    ensures 0.0 <= r <= 1.0
    ensures Distinct(a) ==> r == MissingCount(a, b) as real / |a| as real
  {
    UnsharedBounds(a, b);
    FractionBounds(UnsharedCount(a, b), |a|);
    if Distinct(a) then
      UnsharedIsMissing(a, b);
      UnsharedCount(a, b) as real / |a| as real
    else
      UnsharedCount(a, b) as real / |a| as real
  }

  /** A partial score multiplied by its feature's weight. */
  function Weighted(score: real, weight: real): (r: real)
    ensures score >= 0.0 && weight >= 0.0 ==> r >= 0.0
    ensures 0.0 <= score <= 1.0 && weight >= 0.0 ==> r <= weight
  {
    UnitScaleBound(score, weight);
    score * weight
  }

  lemma UnitScaleBound(p: real, x: real)
    ensures 0.0 <= p <= 1.0 && x >= 0.0 ==> p * x <= x
  {
    if 0.0 <= p <= 1.0 && x >= 0.0 {
      assert x - p * x == (1.0 - p) * x;
    }
  }

  /** A non-negative partial weighs more under a larger weight. */
  lemma WeightedMonotone(p: real, x: real, y: real)
    requires p >= 0.0 && x <= y
    ensures Weighted(p, x) <= Weighted(p, y)
  {
    assert p * y - p * x == p * (y - x);
  }

  /** A set-valued feature's weighted contribution; skipped (0) when A's
      list is empty, whatever B's list holds. */
  function ListScore(a: seq<string>, b: seq<string>, weight: real): (r: real)
    ensures a == [] ==> r == 0.0
    ensures weight >= 0.0 ==> 0.0 <= r <= weight
  {
    if |a| == 0 then 0.0
    else
      Weighted(MissingFraction(a, b), weight)
  }

  /** `similarity(movieA, movieB, ...)`: the weighted sum of the seven
      partial scores. Both titles must be in the catalog, both dates must
      carry a year, and neither range may be zero (the source divides by
      them). */
  function Similarity(catalog: Catalog, a: Title, b: Title, w: Weights,
                      runtimeRange: int, yearRange: int): (score: real)
    requires a in catalog && b in catalog
    requires ValidDate(catalog[a].releaseDate) && ValidDate(catalog[b].releaseDate)
    requires runtimeRange != 0 && yearRange != 0
    ensures runtimeRange > 0 && yearRange > 0 && NonNegative(w) ==> score >= 0.0
  {
    var A, B := catalog[a], catalog[b];
    Weighted(RangeScore(A.runtime, B.runtime, runtimeRange), w.runtime)
    + Weighted(LanguageScore(A.language, B.language), w.language)
    + Weighted(RangeScore(YearOf(A.releaseDate), YearOf(B.releaseDate), yearRange), w.releaseYear)
    + ListScore(A.genres, B.genres, w.genre)
    + ListScore(A.actors, B.actors, w.actors)
    + ListScore(A.directors, B.directors, w.directors)
    + ListScore(A.keywords, B.keywords, w.keywords)
  }

  /** The four lists of a movie hold no repeated item. */
  predicate ListsDistinct(m: Movie) {
    Distinct(m.genres) && Distinct(m.actors) && Distinct(m.directors) && Distinct(m.keywords)
  }

  /** A movie is at distance zero from itself, whatever the weights, as long
      as its lists repeat no item. */
  lemma SelfDistanceZero(catalog: Catalog, a: Title, w: Weights, runtimeRange: int, yearRange: int)
    requires a in catalog && ValidDate(catalog[a].releaseDate)
    requires runtimeRange != 0 && yearRange != 0
    requires ListsDistinct(catalog[a])
    ensures Similarity(catalog, a, a, w, runtimeRange, yearRange) == 0.0
  {
    var A := catalog[a];
    assert Weighted(RangeScore(A.runtime, A.runtime, runtimeRange), w.runtime) == 0.0;
    assert Weighted(LanguageScore(A.language, A.language), w.language) == 0.0;
    assert Weighted(RangeScore(YearOf(A.releaseDate), YearOf(A.releaseDate), yearRange), w.releaseYear) == 0.0;
    SelfListScoreZero(A.genres, w.genre);
    SelfListScoreZero(A.actors, w.actors);
    SelfListScoreZero(A.directors, w.directors);
    SelfListScoreZero(A.keywords, w.keywords);
  }

  lemma {:induction false} SelfMissingCountZero(a: seq<string>, b: seq<string>)
    requires forall x :: x in a ==> x in b
    ensures MissingCount(a, b) == 0
  {
    if a != [] {
      SelfMissingCountZero(a[1..], b);
    }
  }

  /** A duplicate-free list misses nothing from itself, so its list score
      against itself is zero whatever the weight. */
  lemma SelfListScoreZero(a: seq<string>, weight: real)
    requires Distinct(a)
    ensures ListScore(a, a, weight) == 0.0
  {
    SelfMissingCountZero(a, a);
    if a != [] {
      assert MissingFraction(a, a) == 0.0;
    }
  }

  /** With a repeated item the source's count no longer reaches zero against
      the same list: `len(A)` counts the repeat, `set(A)` does not. */
  lemma RepeatedItemSelfScore()
    ensures MissingFraction(["Drama", "Drama"], ["Drama", "Drama"]) == 0.5
  {
    var a := ["Drama", "Drama"];
    assert Elements(a) == {"Drama"};
  }

  /** With positive ranges, raising any weights never lowers the score. */
  lemma SimilarityMonotone(catalog: Catalog, a: Title, b: Title, w: Weights, w': Weights,
                           runtimeRange: int, yearRange: int)
    requires a in catalog && b in catalog
    requires ValidDate(catalog[a].releaseDate) && ValidDate(catalog[b].releaseDate)
    requires runtimeRange > 0 && yearRange > 0
    requires AtMost(w, w')
    ensures Similarity(catalog, a, b, w, runtimeRange, yearRange)
            <= Similarity(catalog, a, b, w', runtimeRange, yearRange)
  {
    var A, B := catalog[a], catalog[b];
    WeightedMonotone(RangeScore(A.runtime, B.runtime, runtimeRange), w.runtime, w'.runtime);
    WeightedMonotone(LanguageScore(A.language, B.language), w.language, w'.language);
    WeightedMonotone(RangeScore(YearOf(A.releaseDate), YearOf(B.releaseDate), yearRange),
                     w.releaseYear, w'.releaseYear);
    ListScoreMonotone(A.genres, B.genres, w.genre, w'.genre);
    ListScoreMonotone(A.actors, B.actors, w.actors, w'.actors);
    ListScoreMonotone(A.directors, B.directors, w.directors, w'.directors);
    ListScoreMonotone(A.keywords, B.keywords, w.keywords, w'.keywords);
  }

  lemma ListScoreMonotone(a: seq<string>, b: seq<string>, x: real, y: real)
    requires x <= y
    ensures ListScore(a, b, x) <= ListScore(a, b, y)
  {
    if |a| != 0 {
      WeightedMonotone(MissingFraction(a, b), x, y);
    }
  }

  /** When both differences fit in their ranges (as they do for movies of the
      catalog the ranges were taken over), every partial lies in [0,1] and
      the score is at most the sum of the weights. */
  lemma SimilarityBounded(catalog: Catalog, a: Title, b: Title, w: Weights,
                          runtimeRange: int, yearRange: int)
    requires a in catalog && b in catalog
    requires ValidDate(catalog[a].releaseDate) && ValidDate(catalog[b].releaseDate)
    requires runtimeRange > 0 && yearRange > 0
    requires Abs(catalog[a].runtime - catalog[b].runtime) <= runtimeRange
    requires Abs(YearOf(catalog[a].releaseDate) - YearOf(catalog[b].releaseDate)) <= yearRange
    requires NonNegative(w)
    ensures 0.0 <= Similarity(catalog, a, b, w, runtimeRange, yearRange) <= TotalWeight(w)
  {
  }


  /** Only A's emptiness is checked: a movie with one genre scored against a
      movie with none pays the genre weight, the reverse pays nothing. */
  lemma AsymmetricScore(date: string)
    requires ValidDate(date)
    ensures var catalog := map[
              "A" := Movie(100, "en", date, ["Drama"], [], [], []),
              "B" := Movie(100, "en", date, [], [], [], [])];
            && Similarity(catalog, "A", "B", DefaultWeights, 60, 30) == 1.0
            && Similarity(catalog, "B", "A", DefaultWeights, 60, 30) == 0.0
  {
    var genres: seq<string> := ["Drama"];
    assert Elements(genres) * Elements([]) == {};
  }
}
