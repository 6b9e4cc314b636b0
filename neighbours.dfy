/*
 * Nearest neighbours: score a movie against every candidate of the base set
 * and keep the k candidates with the smallest scores.
 */
module Neighbours {
  import opened Movies
  import opened Scoring
  import opened Seqs

  /** What scoring `movie` against `baseSet` needs: every title in the
      catalog, every date with a year, and non-zero ranges. */
  predicate ScoringReady(catalog: Catalog, movie: Title, baseSet: seq<Title>,
                         runtimeRange: int, yearRange: int) {
    && DatesValid(catalog)
    && movie in catalog
    && (forall i :: 0 <= i < |baseSet| ==> baseSet[i] in catalog)
    && runtimeRange != 0 && yearRange != 0
  }

  /** The score of `movie` against each candidate, position by position. */
  function Scores(catalog: Catalog, movie: Title, baseSet: seq<Title>, w: Weights,
                  runtimeRange: int, yearRange: int): seq<real>
    requires ScoringReady(catalog, movie, baseSet, runtimeRange, yearRange)
  {
    seq(|baseSet|, i requires 0 <= i < |baseSet| =>
      Similarity(catalog, movie, baseSet[i], w, runtimeRange, yearRange))
  }

  /** `order` lists every position of `scores` exactly once, by ascending
      score. Nothing is said about the order of equal scores. */
  predicate IsArgSort(order: seq<nat>, scores: seq<real>) {
    && |order| == |scores|
    && (forall i :: 0 <= i < |order| ==> order[i] < |scores|)
    && (forall i, j :: 0 <= i < j < |order| ==> order[i] != order[j])
    && (forall p :: 0 <= p < |scores| ==> p in order)
    && (forall i, j :: 0 <= i < j < |order| ==> scores[order[i]] <= scores[order[j]])
  }

  /** `pos` picks k distinct positions of `scores`, by ascending score, and
      no position left out scores below a picked one. */
  predicate IsKSmallest(pos: seq<nat>, scores: seq<real>, k: nat) {
    && |pos| == k
    && (forall i :: 0 <= i < k ==> pos[i] < |scores|)
    && (forall i, j :: 0 <= i < j < k ==> pos[i] != pos[j])
    && (forall i, j :: 0 <= i < j < k ==> scores[pos[i]] <= scores[pos[j]])
    && (forall i, p :: 0 <= i < k && 0 <= p < |scores| && p !in pos ==> scores[pos[i]] <= scores[p])
  }

  /** The titles at the picked positions. */
  function Picked(baseSet: seq<Title>, pos: seq<nat>): (r: seq<Title>)
    requires forall i :: 0 <= i < |pos| ==> pos[i] < |baseSet|
  {
    seq(|pos|, i requires 0 <= i < |pos| => baseSet[pos[i]])
  }

  /** `nbrs` is a valid answer of `mostSimilarMovies`: the titles at k
      positions of the base set whose scores are the k smallest. */
  ghost predicate IsNearest(nbrs: seq<Title>, catalog: Catalog, movie: Title, baseSet: seq<Title>,
                            w: Weights, k: nat, runtimeRange: int, yearRange: int)
    requires ScoringReady(catalog, movie, baseSet, runtimeRange, yearRange)
  {
    exists pos :: IsKSmallest(pos, Scores(catalog, movie, baseSet, w, runtimeRange, yearRange), k)
                  && nbrs == Picked(baseSet, pos)
  }

  /** Stand-in for numpy's `argsort`: any ordering of the positions by
      ascending score. Only this contract is relied on. */
  method ArgSort(scores: seq<real>) returns (order: seq<nat>)
    ensures IsArgSort(order, scores)
  {
    order := [];
    var n := 0;
    while n < |scores|
      invariant 0 <= n <= |scores|
      invariant |order| == n
      invariant forall i :: 0 <= i < n ==> order[i] < n
      invariant forall i, j :: 0 <= i < j < n ==> order[i] != order[j]
      invariant forall p :: 0 <= p < n ==> p in order
      invariant forall i, j :: 0 <= i < j < n ==> scores[order[i]] <= scores[order[j]]
    {
      var p := InsertionPoint(order, scores, n);
      InsertDistinct(order, n, p);
      InsertCovers(order, n, p);
      InsertKeepsOrder(order, scores, n, p);
      InsertIndex(order, n, p);
      order := order[..p] + [n] + order[p..];
      n := n + 1;
    }
  }

  /** The first point of `order` whose score exceeds scores[x]: everything
      before it scores at most scores[x]. */
  method InsertionPoint(order: seq<nat>, scores: seq<real>, x: nat) returns (p: nat)
    requires x < |scores|
    requires forall i :: 0 <= i < |order| ==> order[i] < |scores|
    ensures p <= |order|
    ensures forall i :: 0 <= i < p ==> scores[order[i]] <= scores[x]
    ensures p < |order| ==> scores[order[p]] > scores[x]
  {
    p := 0;
    while p < |order| && scores[order[p]] <= scores[x]
      invariant 0 <= p <= |order|
      invariant forall i :: 0 <= i < p ==> scores[order[i]] <= scores[x]
    {
      p := p + 1;
    }
  }

  /** Where each entry of `order` lands once n is inserted at p. */
  lemma InsertIndex(order: seq<nat>, n: nat, p: nat)
    requires p <= |order|
    ensures var o := order[..p] + [n] + order[p..];
            && |o| == |order| + 1
            && forall i :: 0 <= i < |o| ==> o[i] == if i < p then order[i] else if i == p then n else order[i - 1]
  {
  }

  /** Inserting the new position n keeps every position below n + 1 and
      keeps them distinct. */
  lemma InsertDistinct(order: seq<nat>, n: nat, p: nat)
    requires p <= |order| == n
    requires forall i :: 0 <= i < n ==> order[i] < n
    requires forall i, j :: 0 <= i < j < n ==> order[i] != order[j]
    ensures var o := order[..p] + [n] + order[p..];
            && (forall i :: 0 <= i < n + 1 ==> o[i] < n + 1)
            && (forall i, j :: 0 <= i < j < n + 1 ==> o[i] != o[j])
  {
    InsertIndex(order, n, p);
    var o := order[..p] + [n] + order[p..];
    forall i, j | 0 <= i < j < n + 1
      ensures o[i] != o[j]
    {
      if j == p || i == p {
      } else {
        var i', j' := if i < p then i else i - 1, if j < p then j else j - 1;
        assert o[i] == order[i'] && o[j] == order[j'] && i' < j';
      }
    }
  }

  /** Inserting position n at a point where everything before scores at most
      scores[n] and everything after scores more keeps the ordering. */
  lemma InsertKeepsOrder(order: seq<nat>, scores: seq<real>, n: nat, p: nat)
    requires n < |scores| && p <= |order| == n
    requires forall i :: 0 <= i < n ==> order[i] < n
    requires forall i, j :: 0 <= i < j < n ==> scores[order[i]] <= scores[order[j]]
    requires forall i :: 0 <= i < p ==> scores[order[i]] <= scores[n]
    requires p < |order| ==> scores[order[p]] > scores[n]
    ensures var o := order[..p] + [n] + order[p..];
            forall i, j :: 0 <= i < j < n + 1 ==> o[i] < |scores| && o[j] < |scores| && scores[o[i]] <= scores[o[j]]
  {
    InsertIndex(order, n, p);
    var o := order[..p] + [n] + order[p..];
    forall i, j | 0 <= i < j < n + 1
      ensures o[i] < |scores| && o[j] < |scores| && scores[o[i]] <= scores[o[j]]
    {
      if j < p || (i < p && j > p) {
        var j' := if j < p then j else j - 1;
        assert o[i] == order[i] && o[j] == order[j'];
      } else if j == p {
        assert o[i] == order[i];
      } else if i == p {
        assert o[j] == order[j - 1];
        assert p == j - 1 || scores[order[p]] <= scores[order[j - 1]];
      } else {
        assert o[i] == order[i - 1] && o[j] == order[j - 1];
      }
    }
  }

  /** After the insertion every position up to n is listed. */
  lemma InsertCovers(order: seq<nat>, n: nat, p: nat)
    requires p <= |order| == n
    requires forall q :: 0 <= q < n ==> q in order
    ensures forall q :: 0 <= q < n + 1 ==> q in order[..p] + [n] + order[p..]
  {
    var o := order[..p] + [n] + order[p..];
    forall q | 0 <= q < n + 1
      ensures q in o
    {
      if q < n {
        var i := IndexOf(order, q);
        if i < p {
          assert o[i] == q;
        } else {
          assert o[i + 1] == q;
        }
      } else {
        assert o[p] == q;
      }
    }
  }

  /** The first k positions of an argsort are a k-smallest selection. */
  lemma PrefixIsKSmallest(order: seq<nat>, scores: seq<real>, k: nat)
    requires IsArgSort(order, scores) && k <= |scores|
    ensures IsKSmallest(order[..k], scores, k)
  {
    var pos := order[..k];
    forall i, p | 0 <= i < k && 0 <= p < |scores| && p !in pos
      ensures scores[pos[i]] <= scores[p]
    {
      var j := IndexOf(order, p);
      assert scores[order[i]] <= scores[order[j]];
    }
  }

  /** Scoring one more candidate appends its score. */
  lemma ScoresStep(catalog: Catalog, movie: Title, baseSet: seq<Title>, w: Weights,
                   runtimeRange: int, yearRange: int, i: nat)
    requires ScoringReady(catalog, movie, baseSet, runtimeRange, yearRange)
    requires i < |baseSet|
    ensures ScoringReady(catalog, movie, baseSet[..i], runtimeRange, yearRange)
    ensures ScoringReady(catalog, movie, baseSet[..i + 1], runtimeRange, yearRange)
    ensures Scores(catalog, movie, baseSet[..i + 1], w, runtimeRange, yearRange)
            == Scores(catalog, movie, baseSet[..i], w, runtimeRange, yearRange)
               + [Similarity(catalog, movie, baseSet[i], w, runtimeRange, yearRange)]
  {
    var before, after := baseSet[..i], baseSet[..i + 1];
    var shorter := Scores(catalog, movie, before, w, runtimeRange, yearRange);
    var longer := Scores(catalog, movie, after, w, runtimeRange, yearRange);
    forall j | 0 <= j < i
      ensures longer[j] == shorter[j]
    {
      assert after[j] == before[j];
    }
    assert longer[i] == Similarity(catalog, movie, baseSet[i], w, runtimeRange, yearRange);
  }

  /** The first loop of `mostSimilarMovies`: the score of `movie` against
      each candidate, appended in base-set order. */
  method ScoreAll(movie: Title, baseSet: seq<Title>, catalog: Catalog, w: Weights,
                  runtimeRange: int, yearRange: int)
    returns (similarities: seq<real>)
    requires ScoringReady(catalog, movie, baseSet, runtimeRange, yearRange)
    ensures similarities == Scores(catalog, movie, baseSet, w, runtimeRange, yearRange)
  {
    similarities := [];
    var i := 0;
    while i < |baseSet|
      invariant 0 <= i <= |baseSet|
      invariant similarities == Scores(catalog, movie, baseSet[..i], w, runtimeRange, yearRange)
    {
      ScoresStep(catalog, movie, baseSet, w, runtimeRange, yearRange, i);
      similarities := similarities + [Similarity(catalog, movie, baseSet[i], w, runtimeRange, yearRange)];
      i := i + 1;
    }
    assert baseSet[..i] == baseSet;
  }

  /** `mostSimilarMovies`: score `movie` against every candidate in order,
      argsort the scores and keep the titles at the first k positions. The
      source indexes the first k positions, so k may not exceed the base
      set. */
  method MostSimilarMovies(movie: Title, baseSet: seq<Title>, catalog: Catalog, w: Weights,
                           k: nat, runtimeRange: int, yearRange: int)
    returns (mostSimilar: seq<Title>)
    requires ScoringReady(catalog, movie, baseSet, runtimeRange, yearRange)
    requires k <= |baseSet|
    ensures |mostSimilar| == k
    ensures forall t :: t in mostSimilar ==> t in baseSet
    ensures IsNearest(mostSimilar, catalog, movie, baseSet, w, k, runtimeRange, yearRange)
  {
    var similarities := ScoreAll(movie, baseSet, catalog, w, runtimeRange, yearRange);
    var order := ArgSort(similarities);
    var posMin := order[..k];
    assert forall j :: 0 <= j < k ==> posMin[j] < |baseSet|;

    mostSimilar := [];
    var i := 0;
    while i < k
      invariant 0 <= i <= k
      invariant mostSimilar == Picked(baseSet, posMin[..i])
    {
      PickedStep(baseSet, posMin, i);
      mostSimilar := mostSimilar + [baseSet[posMin[i]]];
      i := i + 1;
    }
    assert posMin[..k] == posMin;
    NearestPrefix(order, catalog, movie, baseSet, w, k, runtimeRange, yearRange);
  }

  /** Picking one more position appends the title found there. */
  lemma PickedStep(baseSet: seq<Title>, pos: seq<nat>, i: nat)
    requires i < |pos|
    requires forall j :: 0 <= j < |pos| ==> pos[j] < |baseSet|
    ensures Picked(baseSet, pos[..i + 1]) == Picked(baseSet, pos[..i]) + [baseSet[pos[i]]]
  {
  }

  /** The titles at the first k positions of an argsort of the scores are
      nearest neighbours, all taken from the base set. */
  lemma NearestPrefix(order: seq<nat>, catalog: Catalog, movie: Title, baseSet: seq<Title>,
                      w: Weights, k: nat, runtimeRange: int, yearRange: int)
    requires ScoringReady(catalog, movie, baseSet, runtimeRange, yearRange)
    requires IsArgSort(order, Scores(catalog, movie, baseSet, w, runtimeRange, yearRange))
    requires k <= |baseSet|
    ensures forall j :: 0 <= j < k ==> order[j] < |baseSet|
    ensures IsNearest(Picked(baseSet, order[..k]), catalog, movie, baseSet, w, k, runtimeRange, yearRange)
    ensures forall t :: t in Picked(baseSet, order[..k]) ==> t in baseSet
  {
    var scores := Scores(catalog, movie, baseSet, w, runtimeRange, yearRange);
    PrefixIsKSmallest(order, scores, k);
    PickedFromBase(baseSet, order[..k]);
  }

  /** Every picked title is a title of the base set. */
  lemma PickedFromBase(baseSet: seq<Title>, pos: seq<nat>)
    requires forall i :: 0 <= i < |pos| ==> pos[i] < |baseSet|
    ensures forall t :: t in Picked(baseSet, pos) ==> t in baseSet
  {
    var r := Picked(baseSet, pos);
    forall t | t in r
      ensures t in baseSet
    {
      var j := IndexOf(r, t);
      assert t == baseSet[pos[j]];
    }
  }
}
