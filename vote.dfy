/*
 * The majority vote over the nearest neighbours' ratings, and the check of
 * the resulting decision against the user's own rating.
 */
module Vote {
  import opened Movies

  /** The rating strings of the ratings file: '5' liked, '1' disliked. */
  const Liked := "5"
  const Disliked := "1"

  /** The number of titles rated '5'. */
  function LikedCount(titles: seq<Title>, ratings: map<Title, string>): (n: nat)
    requires forall t :: t in titles ==> t in ratings
    ensures n <= |titles|
  {
    if titles == [] then 0
    else (if ratings[titles[0]] == Liked then 1 else 0) + LikedCount(titles[1..], ratings)
  }

  /** Counting over two lists one after the other adds up. */
  lemma {:induction false} LikedCountAppend(a: seq<Title>, b: seq<Title>, ratings: map<Title, string>)
    requires forall t :: t in a + b ==> t in ratings
    ensures LikedCount(a + b, ratings) == LikedCount(a, ratings) + LikedCount(b, ratings)
  {
    if a != [] {
      assert (a + b)[1..] == a[1..] + b;
      LikedCountAppend(a[1..], b, ratings);
    } else {
      assert a + b == b;
    }
  }

  /** `math.ceil(n / 2)`. */
  function CeilHalf(n: nat): (r: nat)
    ensures n <= 2 * r <= n + 1
  {
    (n + 1) / 2
  }

  /** The threshold is exactly "at least half": with n neighbours, `liked`
      reaches ceil(n/2) precisely when 2 * liked >= n. */
  lemma ThresholdIsHalf(liked: nat, n: nat)
    ensures liked >= CeilHalf(n) <==> 2 * liked >= n
  {
  }

  /** The lines of the source's vote: count the neighbours rated '5' and
      recommend when the count reaches ceil(n/2). */
  method Recommend(mostSim: seq<Title>, ratings: map<Title, string>) returns (shouldBeRecommended: bool)
    requires forall t :: t in mostSim ==> t in ratings
    ensures shouldBeRecommended <==> 2 * LikedCount(mostSim, ratings) >= |mostSim|
  {
    var liked := 0;
    shouldBeRecommended := false;
    var i := 0;
    while i < |mostSim|
      invariant 0 <= i <= |mostSim|
      invariant liked == LikedCount(mostSim[..i], ratings)
    {
      LikedCountAppend(mostSim[..i], [mostSim[i]], ratings);
      assert mostSim[..i + 1] == mostSim[..i] + [mostSim[i]];
      if ratings[mostSim[i]] == Liked {
        liked := liked + 1;
      }
      i := i + 1;
    }
    assert mostSim[..i] == mostSim;
    if liked >= CeilHalf(|mostSim|) {
      shouldBeRecommended := true;
    }
  }

  /** Two liked out of four neighbours recommend; one out of four does not.
      Three out of five recommend; two out of five do not. */
  lemma ThresholdExamples()
    ensures 2 >= CeilHalf(4) && !(1 >= CeilHalf(4))
    ensures 3 >= CeilHalf(5) && !(2 >= CeilHalf(5))
  {
  }

  /** `checkSuccess`: the decision is right when a '5' is recommended or a
      '1' is not; any other rating string is never a success. */
  function CheckSuccess(movie: Title, ratings: map<Title, string>, shouldBeRecommended: bool): (success: bool)
    requires movie in ratings
    ensures ratings[movie] == Liked ==> (success <==> shouldBeRecommended)
    ensures ratings[movie] == Disliked ==> (success <==> !shouldBeRecommended)
    ensures ratings[movie] != Liked && ratings[movie] != Disliked ==> !success
  {
    if ratings[movie] == Liked && shouldBeRecommended then true
    else if ratings[movie] == Disliked && !shouldBeRecommended then true
    else false
  }
}
