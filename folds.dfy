/*
 * The cross-validation folds: the balanced split of the rated titles into
 * parts (numpy's `array_split`), and each part's base set, built by copying
 * the titles and removing the part's members one by one.
 */
module Folds {
  import opened Seqs
  import opened Movies

  /** The size `array_split` gives part i of n items in `parts` parts: the
      first n mod parts parts get one item more. */
  function PartSize(n: nat, parts: nat, i: nat): (size: nat)
    requires parts > 0
    ensures n / parts <= size <= n / parts + 1
    ensures n >= parts ==> size >= 1
  {
    n / parts + (if i < n % parts then 1 else 0)
  }

  /** Where part i starts: the sizes of the parts before it, added up, so
      between i short parts and i long ones. */
  function PartStart(n: nat, parts: nat, i: nat): (start: nat)
    requires parts > 0
    ensures i * (n / parts) <= start <= i * (n / parts + 1)
  {
    assert i * (n / parts + 1) == i * (n / parts) + i;
    i * (n / parts) + (if i < n % parts then i else n % parts)
  }

  lemma PartStartStep(n: nat, parts: nat, i: nat)
    requires parts > 0
    ensures PartStart(n, parts, i + 1) == PartStart(n, parts, i) + PartSize(n, parts, i)
  {
    assert (i + 1) * (n / parts) == i * (n / parts) + n / parts;
  }

  lemma PartStartBound(n: nat, parts: nat, i: nat)
    requires parts > 0 && i <= parts
    ensures PartStart(n, parts, i) <= n
    ensures i == parts ==> PartStart(n, parts, i) == n
  {
    var q, m := n / parts, n % parts;
    assert n == parts * q + m;
    assert i * q <= parts * q by {
      assert parts * q - i * q == (parts - i) * q;
    }
  }

  /** `np.array_split(s, parts)`: `parts` consecutive slices of `s`, part i
      starting at PartStart(i). Only this observable contract of the library
      is modelled. */
  function ArraySplit<T>(s: seq<T>, parts: nat): (chunks: seq<seq<T>>)
    requires parts > 0
    ensures |chunks| == parts
  {
    seq(parts, i requires 0 <= i < parts =>
      PartStartStep(|s|, parts, i);
      PartStartBound(|s|, parts, i + 1);
      s[PartStart(|s|, parts, i)..PartStart(|s|, parts, i + 1)])
  }

  /** Part i of the split is the slice from its start to the next part's
      start, and holds PartSize(i) items. */
  lemma ArraySplitPart<T>(s: seq<T>, parts: nat, i: nat)
    requires parts > 0 && i < parts
    ensures PartStart(|s|, parts, i) <= PartStart(|s|, parts, i + 1) <= |s|
    ensures ArraySplit(s, parts)[i] == s[PartStart(|s|, parts, i)..PartStart(|s|, parts, i + 1)]
    ensures |ArraySplit(s, parts)[i]| == PartSize(|s|, parts, i)
  {
    PartStartStep(|s|, parts, i);
    PartStartBound(|s|, parts, i + 1);
  }

  /** The parts, put back together, give the titles in their order. */
  lemma {:induction false} ArraySplitConcat<T>(s: seq<T>, parts: nat)
    requires parts > 0
    ensures Flatten(ArraySplit(s, parts)) == s
  {
    var chunks := ArraySplit(s, parts);
    var i := 0;
    while i < parts
      invariant 0 <= i <= parts
      invariant PartStart(|s|, parts, i) <= |s|
      invariant Flatten(chunks[..i]) == s[..PartStart(|s|, parts, i)]
    {
      ArraySplitPart(s, parts, i);
      assert chunks[..i + 1][..i] == chunks[..i];
      i := i + 1;
    }
    PartStartBound(|s|, parts, parts);
    assert chunks[..parts] == chunks;
  }

  /** Part sizes differ by at most one, the first n mod parts parts are the
      longer ones, and with at least as many items as parts no part is
      empty. */
  lemma PartSizesBalanced(n: nat, parts: nat, i: nat, j: nat)
    requires parts > 0 && i < parts && j < parts
    ensures PartSize(n, parts, i) <= PartSize(n, parts, j) + 1
    ensures i <= j ==> PartSize(n, parts, j) <= PartSize(n, parts, i)
    ensures PartSize(n, parts, i) == n / parts + 1 <==> i < n % parts
    ensures n >= parts ==> PartSize(n, parts, i) >= 1
  {
  }

  /** `s` with every occurrence of the items in `removed` left out, the
      rest in its original order. */
  function Without(s: seq<Title>, removed: set<Title>): (r: seq<Title>)
    ensures |r| <= |s|
  {
    if s == [] then []
    else (if s[0] in removed then [] else [s[0]]) + Without(s[1..], removed)
  }

  /** What `Without` keeps: exactly the items of `s` that are not removed. */
  lemma {:induction false} WithoutMembers(s: seq<Title>, removed: set<Title>)
    ensures forall x :: x in Without(s, removed) <==> x in s && x !in removed
  {
    if s != [] {
      WithoutMembers(s[1..], removed);
      assert forall x :: x in s <==> x == s[0] || x in s[1..];
    }
  }

  /** `list.remove(x)`: drop the first occurrence of `x`; the source's
      lists always hold it (the call raises otherwise). */
  function RemoveFirst<T(==)>(s: seq<T>, x: T): (r: seq<T>)
    requires x in s
    ensures r == s[..IndexOf(s, x)] + s[IndexOf(s, x) + 1..]
  {
    if s[0] == x then s[1..]
    else
      DropAfterHead(s, IndexOf(s[1..], x));
      [s[0]] + RemoveFirst(s[1..], x)
  }

  lemma {:induction false} WithoutAppend(a: seq<Title>, b: seq<Title>, removed: set<Title>)
    ensures Without(a + b, removed) == Without(a, removed) + Without(b, removed)
  {
    if a != [] {
      assert (a + b)[1..] == a[1..] + b;
      WithoutAppend(a[1..], b, removed);
    } else {
      assert a + b == b;
    }
  }

  lemma {:induction false} WithoutNothing(s: seq<Title>, removed: set<Title>)
    requires forall x :: x in s ==> x !in removed
    ensures Without(s, removed) == s
  {
    if s != [] {
      WithoutNothing(s[1..], removed);
    }
  }

  lemma {:induction false} WithoutEverything(s: seq<Title>, removed: set<Title>)
    requires forall x :: x in s ==> x in removed
    ensures Without(s, removed) == []
  {
    if s != [] {
      WithoutEverything(s[1..], removed);
    }
  }

  lemma {:induction false} WithoutTwice(s: seq<Title>, a: set<Title>, b: set<Title>)
    ensures Without(Without(s, a), b) == Without(s, a + b)
  {
    if s != [] {
      WithoutTwice(s[1..], a, b);
      if s[0] !in a {
        assert Without(s, a) == [s[0]] + Without(s[1..], a);
        assert Without(s, a)[1..] == Without(s[1..], a);
      } else {
        assert Without(s, a) == Without(s[1..], a);
      }
    }
  }

  lemma {:induction false} WithoutKeepsDistinct(s: seq<Title>, removed: set<Title>)
    requires Distinct(s)
    ensures Distinct(Without(s, removed))
  {
    if s != [] {
      assert Distinct(s[1..]);
      WithoutKeepsDistinct(s[1..], removed);
      WithoutMembers(s[1..], removed);
      assert s[0] !in s[1..] by {
        forall i | 0 <= i < |s[1..]| ensures s[1..][i] != s[0] {
          assert s[1..][i] == s[i + 1];
        }
      }
    }
  }

  /** In a list without repeats, removing the first occurrence of `x`
      removes every occurrence. */
  lemma {:induction false} RemoveFirstOfDistinct(s: seq<Title>, x: Title)
    requires Distinct(s) && x in s
    ensures RemoveFirst(s, x) == Without(s, {x})
  {
    if s[0] == x {
      assert x !in s[1..] by {
        forall i | 0 <= i < |s[1..]| ensures s[1..][i] != x {
          assert s[1..][i] == s[i + 1];
        }
      }
      WithoutNothing(s[1..], {x});
    } else {
      assert Distinct(s[1..]);
      RemoveFirstOfDistinct(s[1..], x);
    }
  }

  /** The loop of `main` that builds a part's base set: copy the titles,
      then, for each title of the catalog that belongs to the part, remove
      it from the copy. */
  method BaseSet(titles: seq<Title>, part: seq<Title>, catalog: Catalog) returns (baseSet: seq<Title>)
    requires Distinct(titles)
    requires forall t :: t in part ==> t in titles
    ensures baseSet == Without(titles, Elements(part) * catalog.Keys)
  {
    baseSet := titles;
    WithoutNothing(titles, {});
    var remaining := catalog.Keys;
    assert Elements(part) * (catalog.Keys - remaining) == {};
    while remaining != {}
      invariant remaining <= catalog.Keys
      invariant baseSet == Without(titles, Elements(part) * (catalog.Keys - remaining))
      decreases remaining
    {
      var element :| element in remaining;
      ghost var removed := Elements(part) * (catalog.Keys - remaining);
      if element in part {
        RemoveStep(titles, removed, element);
        assert removed + {element} == Elements(part) * (catalog.Keys - (remaining - {element}));
        baseSet := RemoveFirst(baseSet, element);
      } else {
        assert removed == Elements(part) * (catalog.Keys - (remaining - {element}));
      }
      remaining := remaining - {element};
    }
    assert catalog.Keys - remaining == catalog.Keys;
  }

  /** One removal of the base-set loop: a title still in the copy is
      removed, and the copy is then the titles without one more item. */
  lemma RemoveStep(titles: seq<Title>, removed: set<Title>, element: Title)
    requires Distinct(titles) && element in titles && element !in removed
    ensures element in Without(titles, removed)
    ensures RemoveFirst(Without(titles, removed), element) == Without(titles, removed + {element})
  {
    WithoutMembers(titles, removed);
    WithoutKeepsDistinct(titles, removed);
    RemoveFirstOfDistinct(Without(titles, removed), element);
    WithoutTwice(titles, removed, {element});
  }

  /** Two disjoint slices of a list without repeats share no item. */
  lemma DisjointSlices(s: seq<Title>, a: nat, b: nat, c: nat, d: nat)
    requires Distinct(s) && a <= b <= |s| && c <= d <= |s|
    requires b <= c || d <= a
    ensures forall x :: x in s[a..b] ==> x !in s[c..d]
  {
    forall x | x in s[a..b]
      ensures x !in s[c..d]
    {
      var i := IndexOf(s[a..b], x);
      assert s[a + i] == x;
      forall j | 0 <= j < d - c
        ensures s[c..d][j] != x
      {
        assert s[c..d][j] == s[c + j];
      }
    }
  }

  /** When every title is in the catalog and the part is the slice [a, b)
      of the titles, the base set is the titles with that slice cut out,
      the rest in order. */
  lemma BaseSetOfPart(titles: seq<Title>, catalog: Catalog, a: nat, b: nat)
    requires Distinct(titles) && a <= b <= |titles|
    requires forall t :: t in titles ==> t in catalog
    ensures Without(titles, Elements(titles[a..b]) * catalog.Keys) == titles[..a] + titles[b..]
    ensures |Without(titles, Elements(titles[a..b]) * catalog.Keys)| == |titles| - (b - a)
  {
    var removed := Elements(titles[a..b]) * catalog.Keys;
    assert forall x :: x in titles[a..b] ==> x in removed by {
      SliceMembers(titles, a, b);
    }
    assert forall x :: x in titles[..a] ==> x !in removed by {
      DisjointSlices(titles, 0, a, a, b);
      assert titles[0..a] == titles[..a];
    }
    assert forall x :: x in titles[b..] ==> x !in removed by {
      DisjointSlices(titles, b, |titles|, a, b);
      assert titles[b..|titles|] == titles[b..];
    }
    CutSlice(titles, removed, a, b);
  }

  /** Removing a set that holds every item of the slice [a, b) and no
      item outside it cuts that slice out. */
  lemma CutSlice(titles: seq<Title>, removed: set<Title>, a: nat, b: nat)
    requires a <= b <= |titles|
    requires forall x :: x in titles[a..b] ==> x in removed
    requires forall x :: x in titles[..a] ==> x !in removed
    requires forall x :: x in titles[b..] ==> x !in removed
    ensures Without(titles, removed) == titles[..a] + titles[b..]
  {
    WithoutNothing(titles[..a], removed);
    WithoutNothing(titles[b..], removed);
    WithoutEverything(titles[a..b], removed);
    Recombine(titles[..a], titles[a..b], titles[b..], removed);
    ThreePieces(titles, a, b);
  }

  /** Three pieces of which only the middle one is removed. */
  lemma Recombine(before: seq<Title>, part: seq<Title>, after: seq<Title>, removed: set<Title>)
    requires Without(before, removed) == before && Without(after, removed) == after
    requires Without(part, removed) == []
    ensures Without(before + part + after, removed) == before + after
  {
    WithoutAppend(before, part, removed);
    assert Without(before + part, removed) == before by {
      assert before + [] == before;
    }
    WithoutAppend(before + part, after, removed);
  }
}
