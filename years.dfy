/**
 The animation timeline of the World Cup map: the list of tournament years that
 `getYears` builds by counting from a start year to an end year in fixed steps,
 skipping the years in which no tournament was held.
 */
module YearSequence {

  /** `y` lies on the progression start, start + step, start + 2 * step, ... */
  predicate OnProgression(y: int, start: int, step: int)
    requires step > 0
  {
    start <= y && (y - start) % step == 0
  }

  /** The years the loop of `getYears` visits from `start` on, in visiting order,
      without those that `except` lists: the reference the loop is proved against. */
  function YearsFrom(start: int, end: int, step: int, except: seq<int>): seq<int>
    requires step > 0
    decreases end - start
  {
    if start > end then []
    else (if start in except then [] else [start]) + YearsFrom(start + step, end, step, except)
  }

  /** The loop of `getYears`: walk from `start` to `end` in steps of `step` and keep
      each year that `except` does not contain. */
  method GetYears(start: int, end: int, step: int, except: seq<int>) returns (years: seq<int>)
    requires step > 0
    ensures years == YearsFrom(start, end, step, except)
  {
    years := [];
    var year := start;
    while year <= end
      invariant years + YearsFrom(year, end, step, except) == YearsFrom(start, end, step, except)
      decreases end - year
    {
      if year !in except {
        years := years + [year];
      }
      year := year + step;
    }
    assert YearsFrom(year, end, step, except) == [];
  }

  lemma SmallRemainder(a: int, m: int)
    requires 0 <= a < m
    ensures a % m == a
  {
  }

  /** Euclidean division has one quotient and one remainder. */
  lemma RemainderUnique(a: int, m: int, q: int, r: int)
    requires m > 0 && 0 <= r < m && a == m * q + r
    ensures a % m == r
  {
    var d := q - a / m;
    assert m * d == a % m - r;
    if d >= 1 {
      assert m * d == m + m * (d - 1);
    } else if d <= -1 {
      assert m * d == -m + m * (d + 1);
    }
  }

  lemma RemainderAfterStep(a: int, m: int)
    requires m > 0
    ensures (a + m) % m == a % m
  {
    RemainderUnique(a + m, m, a / m + 1, a % m);
  }

  /** Exactly the years on the progression, between `start` and `end`, and not excluded. */
  lemma {:induction false} YearsFromMembers(start: int, end: int, step: int, except: seq<int>, y: int)
    requires step > 0
    ensures y in YearsFrom(start, end, step, except)
        <==> OnProgression(y, start, step) && y <= end && y !in except
    decreases end - start
  {
    if start <= end {
      YearsFromMembers(start + step, end, step, except, y);
      RemainderAfterStep(y - start - step, step);
      if start < y < start + step {
        SmallRemainder(y - start, step);
      }
    }
  }

  /** Every year listed is at least `start`, and the list is strictly increasing. */
  lemma {:induction false} YearsFromIncreasing(start: int, end: int, step: int, except: seq<int>)
    requires step > 0
    ensures forall i :: 0 <= i < |YearsFrom(start, end, step, except)| ==> start <= YearsFrom(start, end, step, except)[i]
    ensures forall i, j :: 0 <= i < j < |YearsFrom(start, end, step, except)| ==>
              YearsFrom(start, end, step, except)[i] < YearsFrom(start, end, step, except)[j]
    decreases end - start
  {
    if start <= end {
      YearsFromIncreasing(start + step, end, step, except);
    }
  }

  /** What `getYears` promises its caller: bounds, exclusion, ordering, spacing on the
      progression and completeness, so that `start > end` gives no year at all. */
  lemma GetYearsProperties(start: int, end: int, step: int, except: seq<int>)
    requires step > 0
    ensures start > end ==> YearsFrom(start, end, step, except) == []
    ensures forall i :: 0 <= i < |YearsFrom(start, end, step, except)| ==>
              start <= YearsFrom(start, end, step, except)[i] <= end
              && YearsFrom(start, end, step, except)[i] !in except
              && OnProgression(YearsFrom(start, end, step, except)[i], start, step)
    ensures forall i, j :: 0 <= i < j < |YearsFrom(start, end, step, except)| ==>
              YearsFrom(start, end, step, except)[i] < YearsFrom(start, end, step, except)[j]
    ensures forall y :: OnProgression(y, start, step) && y <= end && y !in except ==>
              y in YearsFrom(start, end, step, except)
  {
    var ys := YearsFrom(start, end, step, except);
    YearsFromIncreasing(start, end, step, except);
    forall i | 0 <= i < |ys|
      ensures start <= ys[i] <= end && ys[i] !in except && OnProgression(ys[i], start, step)
    {
      YearsFromMembers(start, end, step, except, ys[i]);
    }
    forall y | OnProgression(y, start, step) && y <= end && y !in except
      ensures y in ys
    {
      YearsFromMembers(start, end, step, except, y);
    }
  }

  /** A year on the progression is `start + k * step` for some k >= 0, and conversely. */
  lemma OnProgressionMultiple(y: int, start: int, step: int)
    requires step > 0
    ensures OnProgression(y, start, step) <==> exists k: nat :: y == start + k * step
  {
    if OnProgression(y, start, step) {
      var k := (y - start) / step;
      assert y == start + k * step;
    }
    if exists k: nat :: y == start + k * step {
      var k: nat :| y == start + k * step;
      assert y - start == step * k + 0;
      LinearRemainder(step, k);
    }
  }

  lemma LinearRemainder(m: int, k: nat)
    requires m > 0
    ensures (m * k) % m == 0
  {
    if k > 0 {
      LinearRemainder(m, k - 1);
      RemainderAfterStep(m * (k - 1), m);
    }
  }

  /** Without exclusions no year is skipped: the i-th year is `start + i * step`, and
      consecutive years differ by exactly `step`. */
  lemma {:induction false} YearsFromEvenlySpaced(start: int, end: int, step: int)
    requires step > 0
    ensures forall i :: 0 <= i < |YearsFrom(start, end, step, [])| ==>
              YearsFrom(start, end, step, [])[i] == start + i * step
    ensures forall i :: 0 <= i < |YearsFrom(start, end, step, [])| - 1 ==>
              YearsFrom(start, end, step, [])[i + 1] == YearsFrom(start, end, step, [])[i] + step
    decreases end - start
  {
    if start <= end {
      var ys := YearsFrom(start, end, step, []);
      var rest := YearsFrom(start + step, end, step, []);
      YearsFromEvenlySpaced(start + step, end, step);
      assert ys == [start] + rest;
      forall i | 0 < i < |ys|
        ensures ys[i] == start + i * step
      {
        assert ys[i] == rest[i - 1] == start + step + (i - 1) * step;
      }
    }
  }

  /** The call that builds the map's timeline, `getYears(1930, 2015, 4, [1942, 1946])`:
      the tournaments from 1930 on, without the cancelled editions of 1942 and 1946.
      Any end year from 2014 to 2017 gives the same list. */
  lemma WorldCupYears(end: int)
    requires 2014 <= end < 2018
    ensures YearsFrom(1930, end, 4, [1942, 1946])
         == [1930, 1934, 1938, 1950, 1954, 1958, 1962, 1966, 1970, 1974,
             1978, 1982, 1986, 1990, 1994, 1998, 2002, 2006, 2010, 2014]
  {
    WorldCupYearsUpTo1970(end);
    WorldCupYearsFrom1974(end);
  }

  lemma YearsFromUnfold(start: int, end: int, step: int, except: seq<int>)
    requires step > 0 && start <= end
    ensures YearsFrom(start, end, step, except)
         == (if start in except then [] else [start]) + YearsFrom(start + step, end, step, except)
  {
  }

  lemma WorldCupYearsUpTo1970(end: int)
    requires 2014 <= end < 2018
    ensures YearsFrom(1930, end, 4, [1942, 1946]) == [1930, 1934, 1938, 1950, 1954, 1958, 1962, 1966, 1970] + YearsFrom(1974, end, 4, [1942, 1946])
  {
    YearsFromUnfold(1930, end, 4, [1942, 1946]);
    YearsFromUnfold(1934, end, 4, [1942, 1946]);
    YearsFromUnfold(1938, end, 4, [1942, 1946]);
    YearsFromUnfold(1942, end, 4, [1942, 1946]);
    YearsFromUnfold(1946, end, 4, [1942, 1946]);
    YearsFromUnfold(1950, end, 4, [1942, 1946]);
    YearsFromUnfold(1954, end, 4, [1942, 1946]);
    YearsFromUnfold(1958, end, 4, [1942, 1946]);
    YearsFromUnfold(1962, end, 4, [1942, 1946]);
    YearsFromUnfold(1966, end, 4, [1942, 1946]);
    YearsFromUnfold(1970, end, 4, [1942, 1946]);
  }

  lemma WorldCupYearsFrom1974(end: int)
    requires 2014 <= end < 2018
    ensures YearsFrom(1974, end, 4, [1942, 1946]) == [1974, 1978, 1982, 1986, 1990, 1994, 1998, 2002, 2006, 2010, 2014]
  {
    YearsFromUnfold(1974, end, 4, [1942, 1946]);
    YearsFromUnfold(1978, end, 4, [1942, 1946]);
    YearsFromUnfold(1982, end, 4, [1942, 1946]);
    YearsFromUnfold(1986, end, 4, [1942, 1946]);
    YearsFromUnfold(1990, end, 4, [1942, 1946]);
    YearsFromUnfold(1994, end, 4, [1942, 1946]);
    YearsFromUnfold(1998, end, 4, [1942, 1946]);
    YearsFromUnfold(2002, end, 4, [1942, 1946]);
    YearsFromUnfold(2006, end, 4, [1942, 1946]);
    YearsFromUnfold(2010, end, 4, [1942, 1946]);
    YearsFromUnfold(2014, end, 4, [1942, 1946]);
    assert YearsFrom(2018, end, 4, [1942, 1946]) == [];
  }
}
