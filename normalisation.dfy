/*
 * The two catalog-wide ranges that scale the runtime and release-year
 * partial scores: one scan over the catalog keeping a running maximum and
 * minimum, seeded with 0 and 99999.
 */
module Normalisation {
  import opened Movies

  /** The seeds of the running maximum and minimum. */
  const InitialMax: int := 0
  const InitialMin: int := 99999

  ghost predicate IsGreatest(x: int, vals: set<int>) {
    x in vals && forall v :: v in vals ==> v <= x
  }

  ghost predicate IsLeast(x: int, vals: set<int>) {
    x in vals && forall v :: v in vals ==> x <= v
  }

  /** What the scan returns over the values `vals`: the greatest of the
      values and the seed 0, minus the least of the values and the seed
      99999. */
  ghost predicate IsScanRange(r: int, vals: set<int>) {
    exists hi, lo :: IsGreatest(hi, vals + {InitialMax}) && IsLeast(lo, vals + {InitialMin}) && r == hi - lo
  }

  /** Whatever the scan returns over `vals` is not zero: the condition under
      which the source's divisions by the range do not fail. */
  ghost predicate RangeNonZero(vals: set<int>) {
    forall r :: IsScanRange(r, vals) ==> r != 0
  }

  /** The runtimes of the movies whose titles are in `keys`. */
  function RuntimesOf(catalog: Catalog, keys: set<Title>): set<int> {
    set t | t in keys && t in catalog :: catalog[t].runtime
  }

  /** The release years of the movies whose titles are in `keys`. */
  function YearsOf(catalog: Catalog, keys: set<Title>): set<int>
    requires DatesValid(catalog)
  {
    set t | t in keys && t in catalog :: YearOf(catalog[t].releaseDate) as int
  }

  function Runtimes(catalog: Catalog): set<int> {
    RuntimesOf(catalog, catalog.Keys)
  }

  function Years(catalog: Catalog): set<int>
    requires DatesValid(catalog)
  {
    YearsOf(catalog, catalog.Keys)
  }

  /** `runtimeNormalisation`: the spread of the catalog's runtimes as the
      seeded scan computes it. */
  method RuntimeNormalisation(catalog: Catalog) returns (range: int)
    ensures IsScanRange(range, Runtimes(catalog))
  {
    var maxRuntime, minRuntime := InitialMax, InitialMin;
    var remaining := catalog.Keys;
    while remaining != {}
      invariant remaining <= catalog.Keys
      invariant IsGreatest(maxRuntime, RuntimesOf(catalog, catalog.Keys - remaining) + {InitialMax})
      invariant IsLeast(minRuntime, RuntimesOf(catalog, catalog.Keys - remaining) + {InitialMin})
      decreases remaining
    {
      var movie :| movie in remaining;
      var runtime := catalog[movie].runtime;
      assert RuntimesOf(catalog, catalog.Keys - (remaining - {movie}))
          == RuntimesOf(catalog, catalog.Keys - remaining) + {runtime};
      ScanStep(RuntimesOf(catalog, catalog.Keys - remaining), maxRuntime, minRuntime, runtime);
      if runtime > maxRuntime {
        maxRuntime := runtime;
      }
      if runtime < minRuntime {
        minRuntime := runtime;
      }
      remaining := remaining - {movie};
    }
    assert catalog.Keys - remaining == catalog.Keys;
    range := maxRuntime - minRuntime;
  }

  /** `yearNormalisation`: the spread of the catalog's release years as the
      seeded scan computes it. Every date must carry a year, or the source's
      `int(...)` raises. */
  method YearNormalisation(catalog: Catalog) returns (range: int)
    requires DatesValid(catalog)
    ensures IsScanRange(range, Years(catalog))
  {
    var maxYear, minYear := InitialMax, InitialMin;
    var remaining := catalog.Keys;
    while remaining != {}
      invariant remaining <= catalog.Keys
      invariant IsGreatest(maxYear, YearsOf(catalog, catalog.Keys - remaining) + {InitialMax})
      invariant IsLeast(minYear, YearsOf(catalog, catalog.Keys - remaining) + {InitialMin})
      decreases remaining
    {
      var movie :| movie in remaining;
      var year := YearOf(catalog[movie].releaseDate);
      YearsOfOneMore(catalog, catalog.Keys - remaining, movie);
      assert catalog.Keys - (remaining - {movie}) == (catalog.Keys - remaining) + {movie};
      ScanStep(YearsOf(catalog, catalog.Keys - remaining), maxYear, minYear, year);
      if year > maxYear {
        maxYear := year;
      }
      if year < minYear {
        minYear := year;
      }
      remaining := remaining - {movie};
    }
    assert catalog.Keys - remaining == catalog.Keys;
    range := maxYear - minYear;
  }

  /** One step of the scan: taking a value into the running maximum and
      minimum keeps them the greatest and least seen so far. */
  lemma ScanStep(seen: set<int>, hi: int, lo: int, v: int)
    requires IsGreatest(hi, seen + {InitialMax}) && IsLeast(lo, seen + {InitialMin})
    ensures IsGreatest(if v > hi then v else hi, seen + {v} + {InitialMax})
    ensures IsLeast(if v < lo then v else lo, seen + {v} + {InitialMin})
  {
  }

  lemma YearsOfOneMore(catalog: Catalog, keys: set<Title>, movie: Title)
    requires DatesValid(catalog) && movie in catalog
    ensures YearsOf(catalog, keys + {movie}) == YearsOf(catalog, keys) + {YearOf(catalog[movie].releaseDate) as int}
  {
  }

  /** The scan result is determined by the values. */
  lemma ScanRangeUnique(r1: int, r2: int, vals: set<int>)
    requires IsScanRange(r1, vals) && IsScanRange(r2, vals)
    ensures r1 == r2
  {
    var hi1, lo1 :| IsGreatest(hi1, vals + {InitialMax}) && IsLeast(lo1, vals + {InitialMin}) && r1 == hi1 - lo1;
    var hi2, lo2 :| IsGreatest(hi2, vals + {InitialMax}) && IsLeast(lo2, vals + {InitialMin}) && r2 == hi2 - lo2;
  }

  /** An empty catalog leaves the seeds in place: 0 - 99999. */
  lemma ScanRangeOfNothing(r: int)
    requires IsScanRange(r, {})
    ensures r == InitialMax - InitialMin
  {
    var hi, lo :| IsGreatest(hi, {} + {InitialMax}) && IsLeast(lo, {} + {InitialMin}) && r == hi - lo;
    assert hi in {InitialMax} && lo in {InitialMin};
  }

  /** Over values that lie within the seeds, the scan returns exactly the
      greatest value minus the least. */
  lemma ScanRangeIsSpread(r: int, vals: set<int>, hi: int, lo: int)
    requires IsScanRange(r, vals)
    requires forall v :: v in vals ==> InitialMax <= v <= InitialMin
    requires IsGreatest(hi, vals) && IsLeast(lo, vals)
    ensures r == hi - lo
  {
    var hi', lo' :| IsGreatest(hi', vals + {InitialMax}) && IsLeast(lo', vals + {InitialMin}) && r == hi' - lo';
    assert hi' == hi by {
      assert hi' in vals || hi' == InitialMax;
    }
    assert lo' == lo by {
      assert lo' in vals || lo' == InitialMin;
    }
  }

  /** Over a non-empty set of values, whatever their bounds, the scan result
      covers the distance between any two of them; so it is never negative. */
  lemma ScanRangeCovers(r: int, vals: set<int>, x: int, y: int)
    requires IsScanRange(r, vals)
    requires x in vals && y in vals
    ensures 0 <= x - y <= r || 0 <= y - x <= r
  {
    var hi, lo :| IsGreatest(hi, vals + {InitialMax}) && IsLeast(lo, vals + {InitialMin}) && r == hi - lo;
    assert x in vals + {InitialMax} && y in vals + {InitialMin};
    assert y in vals + {InitialMax} && x in vals + {InitialMin};
  }

  /** Over values within the seeds, the range is zero exactly when all the
      values are equal: the case in which the source divides by zero. */
  lemma ScanRangeZero(r: int, vals: set<int>, v: int)
    requires IsScanRange(r, vals) && v in vals
    requires forall v :: v in vals ==> InitialMax <= v <= InitialMin
    ensures r == 0 <==> forall x, y :: x in vals && y in vals ==> x == y
  {
    var hi, lo :| IsGreatest(hi, vals + {InitialMax}) && IsLeast(lo, vals + {InitialMin}) && r == hi - lo;
    assert hi in vals by {
      assert v <= hi;
      assert hi in vals || hi == InitialMax;
    }
    assert lo in vals by {
      assert lo <= v;
      assert lo in vals || lo == InitialMin;
    }
    if r != 0 {
      assert hi != lo;
    }
  }
}
