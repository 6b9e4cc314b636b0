/*
 * The cross validation of `main`: split the rated titles into ten parts,
 * and for each part predict every one of its titles from the other parts
 * (the base set) by a majority vote over the five nearest neighbours, then
 * average the parts' success percentages.
 */
module CrossValidation {
  import opened Seqs
  import opened Movies
  import opened Scoring
  import opened Normalisation
  import opened Neighbours
  import opened Vote
  import opened Folds

  const NumOfParts: nat := 10
  const NumOfNeighbors: nat := 5

  /** `(successes / size) * 100`: the share of right decisions in a part, as
      a percentage. */
  function Percentage(successes: nat, size: nat): (p: real)
    requires size > 0
    ensures successes <= size ==> 0.0 <= p <= 100.0
    ensures p == 0.0 <==> successes == 0
    ensures p == 100.0 <==> successes == size
  {
    FractionBounds(successes, size);
    (successes as real / size as real) * 100.0
  }

  /** The sum of a list of percentages, added in order. */
  function Sum(xs: seq<real>): real {
    if xs == [] then 0.0 else Sum(xs[..|xs| - 1]) + xs[|xs| - 1]
  }

  /** Percentages between 0 and 100 add up to at most 100 per item. */
  lemma {:induction false} SumBounds(xs: seq<real>)
    requires forall i :: 0 <= i < |xs| ==> 0.0 <= xs[i] <= 100.0
    ensures 0.0 <= Sum(xs) <= 100.0 * |xs| as real
  {
    if xs != [] {
      SumBounds(xs[..|xs| - 1]);
    }
  }

  /** The number of right decisions over the first |decisions| titles of a
      part, decision j being the one for title j. */
  function SuccessCount(part: seq<Title>, decisions: seq<bool>, ratings: map<Title, string>): (n: nat)
    requires |decisions| <= |part|
    requires forall t :: t in part ==> t in ratings
    ensures n <= |decisions|
  {
    if decisions == [] then 0
    else
      var last := |decisions| - 1;
      SuccessCount(part, decisions[..last], ratings)
        + (if CheckSuccess(part[last], ratings, decisions[last]) then 1 else 0)
  }

  /** What predicting a part from a base set needs: titles in the catalog and
      rated, dates with years, non-zero ranges and enough candidates to pick
      the neighbours from. */
  predicate PartReady(part: seq<Title>, baseSet: seq<Title>, catalog: Catalog,
                      ratings: map<Title, string>, runtimeRange: int, yearRange: int) {
    && DatesValid(catalog)
    && (forall t :: t in part ==> t in catalog && t in ratings)
    && (forall t :: t in baseSet ==> t in catalog && t in ratings)
    && runtimeRange != 0 && yearRange != 0
    && NumOfNeighbors <= |baseSet|
  }

  /** `rec` is the majority vote over some valid set of nearest neighbours
      of `movie`: recommend when at least half of them are rated '5'. */
  ghost predicate IsVote(rec: bool, movie: Title, baseSet: seq<Title>, catalog: Catalog,
                         ratings: map<Title, string>, w: Weights, runtimeRange: int, yearRange: int) {
    && ScoringReady(catalog, movie, baseSet, runtimeRange, yearRange)
    && exists nbrs ::
         && IsNearest(nbrs, catalog, movie, baseSet, w, NumOfNeighbors, runtimeRange, yearRange)
         && (forall t :: t in nbrs ==> t in ratings)
         && (rec <==> 2 * LikedCount(nbrs, ratings) >= |nbrs|)
  }

  /** Each decision is a valid vote for the title at its position. */
  ghost predicate AllVotes(decisions: seq<bool>, part: seq<Title>, baseSet: seq<Title>, catalog: Catalog,
                           ratings: map<Title, string>, w: Weights, runtimeRange: int, yearRange: int)
    requires |decisions| <= |part|
  {
    if decisions == [] then true
    else
      var last := |decisions| - 1;
      && AllVotes(decisions[..last], part, baseSet, catalog, ratings, w, runtimeRange, yearRange)
      && IsVote(decisions[last], part[last], baseSet, catalog, ratings, w, runtimeRange, yearRange)
  }

  /** `successes` is the number of right decisions over `part` for some
      choice of votes, one valid vote per title. */
  ghost predicate IsPartOutcome(successes: nat, part: seq<Title>, baseSet: seq<Title>, catalog: Catalog,
                                ratings: map<Title, string>, w: Weights, runtimeRange: int, yearRange: int) {
    && (forall t :: t in part ==> t in ratings)
    && exists decisions: seq<bool> ::
         && |decisions| == |part|
         && AllVotes(decisions, part, baseSet, catalog, ratings, w, runtimeRange, yearRange)
         && successes == SuccessCount(part, decisions, ratings)
  }

  /** The inner loop of `main` over one part: for each of its titles, pick
      the nearest neighbours in the base set, vote, and count the decision
      when it agrees with the title's own rating. */
  method EvaluatePart(part: seq<Title>, baseSet: seq<Title>, catalog: Catalog, ratings: map<Title, string>,
                      w: Weights, runtimeRange: int, yearRange: int)
    returns (successInPart: nat)
    requires PartReady(part, baseSet, catalog, ratings, runtimeRange, yearRange)
    ensures successInPart <= |part|
    ensures IsPartOutcome(successInPart, part, baseSet, catalog, ratings, w, runtimeRange, yearRange)
  {
    successInPart := 0;
    ghost var decisions: seq<bool> := [];
    var i := 0;
    while i < |part|
      invariant 0 <= i <= |part|
      invariant |decisions| == i
      invariant AllVotes(decisions, part, baseSet, catalog, ratings, w, runtimeRange, yearRange)
      invariant successInPart == SuccessCount(part, decisions, ratings)
    {
      var movie := part[i];
      var shouldBeRecommended := Decide(part, i, decisions, baseSet, catalog, ratings, w, runtimeRange, yearRange);
      var succesful := CheckSuccess(movie, ratings, shouldBeRecommended);
      if succesful {
        successInPart := successInPart + 1;
      }
      SuccessCountStep(part, decisions, shouldBeRecommended, ratings);
      decisions := decisions + [shouldBeRecommended];
      i := i + 1;
    }
    PartOutcome(successInPart, decisions, part, baseSet, catalog, ratings, w, runtimeRange, yearRange);
  }

  /** The lines of the inner loop that decide title i of the part: take its
      nearest neighbours in the base set and recommend when at least half of
      them are rated '5'. The decision extends the valid votes made for the
      titles before it. */
  method Decide(part: seq<Title>, i: nat, ghost decisions: seq<bool>, baseSet: seq<Title>, catalog: Catalog,
                ratings: map<Title, string>, w: Weights, runtimeRange: int, yearRange: int)
    returns (shouldBeRecommended: bool)
    requires PartReady(part, baseSet, catalog, ratings, runtimeRange, yearRange)
    requires i == |decisions| < |part|
    requires AllVotes(decisions, part, baseSet, catalog, ratings, w, runtimeRange, yearRange)
    ensures AllVotes(decisions + [shouldBeRecommended], part, baseSet, catalog, ratings, w, runtimeRange, yearRange)
  {
    ReadyToDecide(part, i, baseSet, catalog, ratings, runtimeRange, yearRange);
    var mostSim := MostSimilarMovies(part[i], baseSet, catalog, w, NumOfNeighbors, runtimeRange, yearRange);
    shouldBeRecommended := Recommend(mostSim, ratings);
    VoteStep(decisions, shouldBeRecommended, part, baseSet, catalog, ratings, w, runtimeRange, yearRange);
  }

  /** Every title of a ready part can be decided and checked. */
  lemma ReadyToDecide(part: seq<Title>, i: nat, baseSet: seq<Title>, catalog: Catalog,
                      ratings: map<Title, string>, runtimeRange: int, yearRange: int)
    requires PartReady(part, baseSet, catalog, ratings, runtimeRange, yearRange)
    requires i < |part|
    ensures ScoringReady(catalog, part[i], baseSet, runtimeRange, yearRange)
    ensures part[i] in ratings
  {
  }

  /** One more valid vote, for the next title, extends the valid votes. */
  lemma VoteStep(decisions: seq<bool>, rec: bool, part: seq<Title>, baseSet: seq<Title>,
                 catalog: Catalog, ratings: map<Title, string>, w: Weights, runtimeRange: int, yearRange: int)
    requires |decisions| < |part|
    requires AllVotes(decisions, part, baseSet, catalog, ratings, w, runtimeRange, yearRange)
    requires IsVote(rec, part[|decisions|], baseSet, catalog, ratings, w, runtimeRange, yearRange)
    ensures AllVotes(decisions + [rec], part, baseSet, catalog, ratings, w, runtimeRange, yearRange)
  {
    assert (decisions + [rec])[..|decisions|] == decisions;
  }

  /** Taking one more title and its decision adds that decision's success. */
  lemma SuccessCountStep(part: seq<Title>, decisions: seq<bool>, rec: bool, ratings: map<Title, string>)
    requires |decisions| < |part|
    requires forall t :: t in part ==> t in ratings
    ensures SuccessCount(part, decisions + [rec], ratings)
         == SuccessCount(part, decisions, ratings) + (if CheckSuccess(part[|decisions|], ratings, rec) then 1 else 0)
  {
    assert (decisions + [rec])[..|decisions|] == decisions;
  }

  /** Valid votes for every title of the part, counted, give an outcome of
      the part. */
  lemma PartOutcome(successes: nat, decisions: seq<bool>, part: seq<Title>, baseSet: seq<Title>, catalog: Catalog,
                    ratings: map<Title, string>, w: Weights, runtimeRange: int, yearRange: int)
    requires |decisions| == |part|
    requires forall t :: t in part ==> t in ratings
    requires AllVotes(decisions, part, baseSet, catalog, ratings, w, runtimeRange, yearRange)
    requires successes == SuccessCount(part, decisions, ratings)
    ensures IsPartOutcome(successes, part, baseSet, catalog, ratings, w, runtimeRange, yearRange)
  {
  }

  /** The base set the source builds for part i: every title outside the
      part, in order. */
  function BaseOf(titles: seq<Title>, i: nat): (baseSet: seq<Title>)
    requires i < NumOfParts
  {
    ArraySplitPart(titles, NumOfParts, i);
    titles[..PartStart(|titles|, NumOfParts, i)] + titles[PartStart(|titles|, NumOfParts, i + 1)..]
  }

  /** `pct` is the success percentage of part i of the split, each of its
      titles predicted from the other parts by a valid vote. */
  ghost predicate IsPartPercentage(pct: real, i: nat, titles: seq<Title>, catalog: Catalog,
                                   ratings: map<Title, string>, w: Weights, runtimeRange: int, yearRange: int) {
    && i < NumOfParts
    && var part := ArraySplit(titles, NumOfParts)[i];
       && |part| > 0
       && exists successes: nat ::
            && IsPartOutcome(successes, part, BaseOf(titles, i), catalog, ratings, w, runtimeRange, yearRange)
            && pct == Percentage(successes, |part|)
  }

  /** Each percentage is the success percentage of the part at its
      position. */
  ghost predicate AllPercentages(percentages: seq<real>, titles: seq<Title>, catalog: Catalog,
                                 ratings: map<Title, string>, w: Weights, runtimeRange: int, yearRange: int) {
    if percentages == [] then true
    else
      var last := |percentages| - 1;
      && AllPercentages(percentages[..last], titles, catalog, ratings, w, runtimeRange, yearRange)
      && IsPartPercentage(percentages[last], last, titles, catalog, ratings, w, runtimeRange, yearRange)
  }

  /** Read position by position: percentage i is the one of part i. */
  lemma {:induction false} AllPercentagesAt(percentages: seq<real>, titles: seq<Title>, catalog: Catalog,
                                            ratings: map<Title, string>, w: Weights, runtimeRange: int,
                                            yearRange: int, i: nat)
    requires AllPercentages(percentages, titles, catalog, ratings, w, runtimeRange, yearRange)
    requires i < |percentages|
    ensures IsPartPercentage(percentages[i], i, titles, catalog, ratings, w, runtimeRange, yearRange)
  {
    if i + 1 < |percentages| {
      AllPercentagesAt(percentages[..|percentages| - 1], titles, catalog, ratings, w, runtimeRange, yearRange, i);
      assert percentages[..|percentages| - 1][i] == percentages[i];
    }
  }

  /** Appending the percentage of the next part keeps every percentage the
      one of its part and adds it to the sum. */
  lemma PercentagesStep(percentages: seq<real>, pct: real, titles: seq<Title>, catalog: Catalog,
                        ratings: map<Title, string>, w: Weights, runtimeRange: int, yearRange: int)
    requires AllPercentages(percentages, titles, catalog, ratings, w, runtimeRange, yearRange)
    requires IsPartPercentage(pct, |percentages|, titles, catalog, ratings, w, runtimeRange, yearRange)
    ensures AllPercentages(percentages + [pct], titles, catalog, ratings, w, runtimeRange, yearRange)
    ensures Sum(percentages + [pct]) == Sum(percentages) + pct
  {
    assert (percentages + [pct])[..|percentages|] == percentages;
  }

  /** Valid percentages each lie between 0 and 100, and so their sum lies
      between 0 and 100 per part. */
  lemma PercentagesBounded(percentages: seq<real>, titles: seq<Title>, catalog: Catalog,
                           ratings: map<Title, string>, w: Weights, runtimeRange: int, yearRange: int)
    requires |percentages| <= NumOfParts
    requires AllPercentages(percentages, titles, catalog, ratings, w, runtimeRange, yearRange)
    ensures forall i :: 0 <= i < |percentages| ==> 0.0 <= percentages[i] <= 100.0
    ensures 0.0 <= Sum(percentages) <= 100.0 * |percentages| as real
  {
    forall i | 0 <= i < |percentages|
      ensures 0.0 <= percentages[i] <= 100.0
    {
      AllPercentagesAt(percentages, titles, catalog, ratings, w, runtimeRange, yearRange, i);
      PartPercentageBounds(percentages[i], i, titles, catalog, ratings, w, runtimeRange, yearRange);
    }
    SumBounds(percentages);
  }

  /** A part's success percentage lies between 0 and 100. */
  lemma PartPercentageBounds(pct: real, i: nat, titles: seq<Title>, catalog: Catalog,
                             ratings: map<Title, string>, w: Weights, runtimeRange: int, yearRange: int)
    requires IsPartPercentage(pct, i, titles, catalog, ratings, w, runtimeRange, yearRange)
    ensures 0.0 <= pct <= 100.0
  {
    var part := ArraySplit(titles, NumOfParts)[i];
    var successes: nat :| IsPartOutcome(successes, part, BaseOf(titles, i), catalog, ratings, w, runtimeRange, yearRange)
                          && pct == Percentage(successes, |part|);
    var decisions: seq<bool> :| |decisions| == |part| && successes == SuccessCount(part, decisions, ratings);
  }

  /** What `main` demands of its inputs beyond the file formats: the rated
      titles are the ratings' keys without repeats, each has an entry in the
      catalog, every date has a year, neither range is zero, and there are at
      least as many rated titles as parts (so no part is empty). */
  ghost predicate CrossValidationReady(catalog: Catalog, ratings: map<Title, string>, titles: seq<Title>) {
    && Distinct(titles)
    && (forall t :: t in titles <==> t in ratings)
    && (forall t :: t in ratings ==> t in catalog)
    && DatesValid(catalog)
    && RangeNonZero(Runtimes(catalog))
    && RangeNonZero(Years(catalog))
    && |titles| >= NumOfParts
  }

  /** Every part leaves at least NumOfNeighbors titles in its base set. */
  lemma BaseSetLargeEnough(n: nat, i: nat)
    requires n >= NumOfParts && i < NumOfParts
    ensures n - PartSize(n, NumOfParts, i) >= NumOfNeighbors
    ensures PartSize(n, NumOfParts, i) >= 1
  {
    var q := n / NumOfParts;
    assert NumOfParts * q <= n;
    assert q >= 1;
  }

  /** Part p of the split is a non-empty piece of the titles, the base set
      the source builds for it is BaseOf(titles, p), and the two are ready
      for the vote. */
  lemma PartSetup(titles: seq<Title>, catalog: Catalog, ratings: map<Title, string>, p: nat,
                  runtimeRange: int, yearRange: int)
    requires Distinct(titles)
    requires forall t :: t in titles <==> t in ratings
    requires forall t :: t in ratings ==> t in catalog
    requires DatesValid(catalog) && runtimeRange != 0 && yearRange != 0
    requires |titles| >= NumOfParts && p < NumOfParts
    ensures forall t :: t in ArraySplit(titles, NumOfParts)[p] ==> t in titles
    ensures |ArraySplit(titles, NumOfParts)[p]| > 0
    ensures Without(titles, Elements(ArraySplit(titles, NumOfParts)[p]) * catalog.Keys) == BaseOf(titles, p)
    ensures PartReady(ArraySplit(titles, NumOfParts)[p], BaseOf(titles, p), catalog, ratings, runtimeRange, yearRange)
  {
    var part := ArraySplit(titles, NumOfParts)[p];
    PartMembers(titles, p);
    BaseOfMembers(titles, p);
    var a, b := PartStart(|titles|, NumOfParts, p), PartStart(|titles|, NumOfParts, p + 1);
    ArraySplitPart(titles, NumOfParts, p);
    BaseSetOfPart(titles, catalog, a, b);
  }

  /** Part p is a non-empty piece of the titles. */
  lemma PartMembers(titles: seq<Title>, p: nat)
    requires |titles| >= NumOfParts && p < NumOfParts
    ensures forall t :: t in ArraySplit(titles, NumOfParts)[p] ==> t in titles
    ensures |ArraySplit(titles, NumOfParts)[p]| > 0
  {
    var a, b := PartStart(|titles|, NumOfParts, p), PartStart(|titles|, NumOfParts, p + 1);
    ArraySplitPart(titles, NumOfParts, p);
    BaseSetLargeEnough(|titles|, p);
    SliceMembers(titles, a, b);
  }

  /** The base set of part p holds titles only, and enough of them to pick
      the neighbours from. */
  lemma BaseOfMembers(titles: seq<Title>, p: nat)
    requires |titles| >= NumOfParts && p < NumOfParts
    ensures forall t :: t in BaseOf(titles, p) ==> t in titles
    ensures |BaseOf(titles, p)| >= NumOfNeighbors
  {
    var a, b := PartStart(|titles|, NumOfParts, p), PartStart(|titles|, NumOfParts, p + 1);
    ArraySplitPart(titles, NumOfParts, p);
    BaseSetLargeEnough(|titles|, p);
    SliceMembers(titles, 0, a);
    SliceMembers(titles, b, |titles|);
    assert titles[..a] == titles[0..a] && titles[b..] == titles[b..|titles|];
  }

  /** One pass of the outer loop of `main`: build the base set of part p,
      evaluate the part against it and turn its success count into a
      percentage. */
  method PartPercentage(titles: seq<Title>, part: seq<Title>, p: nat, catalog: Catalog,
                        ratings: map<Title, string>, w: Weights, runtimeRange: int, yearRange: int)
    returns (successPercentage: real)
    requires Distinct(titles)
    requires forall t :: t in titles <==> t in ratings
    requires forall t :: t in ratings ==> t in catalog
    requires DatesValid(catalog) && runtimeRange != 0 && yearRange != 0
    requires |titles| >= NumOfParts && p < NumOfParts
    requires part == ArraySplit(titles, NumOfParts)[p]
    ensures IsPartPercentage(successPercentage, p, titles, catalog, ratings, w, runtimeRange, yearRange)
    ensures 0.0 <= successPercentage <= 100.0
  {
    PartSetup(titles, catalog, ratings, p, runtimeRange, yearRange);
    var baseSet := BaseSet(titles, part, catalog);
    var successInPart := EvaluatePart(part, baseSet, catalog, ratings, w, runtimeRange, yearRange);
    successPercentage := Percentage(successInPart, |part|);
  }

  /** The percentages do not depend on which scan produced the ranges: any
      two scans of the same values give the same range. */
  lemma AnyScanRange(percentages: seq<real>, titles: seq<Title>, catalog: Catalog, ratings: map<Title, string>,
                     w: Weights, runtimeRange: int, yearRange: int)
    requires DatesValid(catalog)
    requires IsScanRange(runtimeRange, Runtimes(catalog)) && IsScanRange(yearRange, Years(catalog))
    requires AllPercentages(percentages, titles, catalog, ratings, w, runtimeRange, yearRange)
    ensures forall rr, yr ::
              IsScanRange(rr, Runtimes(catalog)) && IsScanRange(yr, Years(catalog)) ==>
              AllPercentages(percentages, titles, catalog, ratings, w, rr, yr)
  {
    forall rr, yr | IsScanRange(rr, Runtimes(catalog)) && IsScanRange(yr, Years(catalog))
      ensures AllPercentages(percentages, titles, catalog, ratings, w, rr, yr)
    {
      ScanRangeUnique(rr, runtimeRange, Runtimes(catalog));
      ScanRangeUnique(yr, yearRange, Years(catalog));
    }
  }

  /** The body of `main` after the files are read: split the rated titles
      (in the order given, the shuffle being left to the caller), compute the
      two ranges, evaluate each part against its base set, and return the
      unweighted mean of the parts' success percentages. */
  method CrossValidate(catalog: Catalog, ratings: map<Title, string>, titles: seq<Title>, w: Weights)
    returns (overall: real, percentages: seq<real>)
    requires CrossValidationReady(catalog, ratings, titles)
    ensures |percentages| == NumOfParts
    ensures forall i :: 0 <= i < NumOfParts ==> 0.0 <= percentages[i] <= 100.0
    ensures overall == Sum(percentages) / NumOfParts as real
    ensures 0.0 <= overall <= 100.0
    ensures forall runtimeRange, yearRange ::
              IsScanRange(runtimeRange, Runtimes(catalog)) && IsScanRange(yearRange, Years(catalog)) ==>
              AllPercentages(percentages, titles, catalog, ratings, w, runtimeRange, yearRange)
  {
    var chunkedList := ArraySplit(titles, NumOfParts);
    var differenceRuntime := RuntimeNormalisation(catalog);
    var differenceYear := YearNormalisation(catalog);
    assert differenceRuntime != 0 && differenceYear != 0;

    var overallSuccess := 0.0;
    percentages := [];
    var p := 0;
    while p < |chunkedList|
      invariant 0 <= p <= NumOfParts
      invariant |percentages| == p
      invariant AllPercentages(percentages, titles, catalog, ratings, w, differenceRuntime, differenceYear)
      invariant overallSuccess == Sum(percentages)
    {
      var successPercentage := PartPercentage(titles, chunkedList[p], p, catalog, ratings, w,
                                              differenceRuntime, differenceYear);
      overallSuccess := overallSuccess + successPercentage;
      PercentagesStep(percentages, successPercentage, titles, catalog, ratings, w, differenceRuntime, differenceYear);
      percentages := percentages + [successPercentage];
      p := p + 1;
    }
    PercentagesBounded(percentages, titles, catalog, ratings, w, differenceRuntime, differenceYear);
    overall := overallSuccess / NumOfParts as real;
    AnyScanRange(percentages, titles, catalog, ratings, w, differenceRuntime, differenceYear);
  }
}
