/** Counting the values a SPARQL variable takes across result rows, and
    selecting from those counts: the most common value per variable
    (`most_common_results`) and the values whose count reaches a threshold
    (`above_threshold_counts`, with `linear_thresholding`). */
module Counting {
  import opened Base
  import opened Sequences

  /** `[result.get(key, {}).get('value', None) for result in results]` */
  function Values(key: string, rows: seq<Row>): seq<Option<string>>
  {
    seq(|rows|, i requires 0 <= i < |rows| => Lookup(rows[i], key))
  }

  /** One entry of a `{value: count}` dictionary. */
  datatype Tally<T> = Tally(value: T, count: nat)

  /** The entries for the values `d`, each counted in `vs`. */
  function TallyOver<T(==,!new)>(d: seq<T>, vs: seq<T>): (t: seq<Tally<T>>)
    ensures |t| == |d|
    ensures forall i :: 0 <= i < |d| ==> t[i] == Tally(d[i], Count(vs, d[i]))
  {
    if d == [] then []
    else TallyOver(d[..|d| - 1], vs) + [Tally(d[|d| - 1], Count(vs, d[|d| - 1]))]
  }

  /** `{i: vs.count(i) for i in vs}`: a dictionary keeps its keys in insertion
      order, which is the order of first occurrence in `vs`. */
  function Tallies<T(==,!new)>(vs: seq<T>): seq<Tally<T>>
  {
    TallyOver(Distinct(vs), vs)
  }

  /** `key_value_counts(key, results)` */
  function KeyValueCounts(key: string, rows: seq<Row>): (t: seq<Tally<Option<string>>>)
    ensures |t| <= |rows|
    ensures SumCounts(t) == |rows|
  {
    TalliesSum(Values(key, rows));
    Tallies(Values(key, rows))
  }

  /** The keys of a counts dictionary, in its order. */
  function CountedValues<T>(t: seq<Tally<T>>): seq<T>
  {
    seq(|t|, i requires 0 <= i < |t| => t[i].value)
  }

  /** `sum(counts.values())` */
  function SumCounts<T>(t: seq<Tally<T>>): nat
  {
    if t == [] then 0 else SumCounts(t[..|t| - 1]) + t[|t| - 1].count
  }

  /** Appending one occurrence of `x` to the counted list raises the total by
      one exactly when `x` is among the counted values. */
  lemma {:induction false} SumCountsShift<T(!new)>(d: seq<T>, vs: seq<T>, x: T)
    requires NoDuplicates(d)
    ensures SumCounts(TallyOver(d, vs + [x])) == SumCounts(TallyOver(d, vs)) + (if x in d then 1 else 0)
  {
    if d != [] {
      var p, y := d[..|d| - 1], d[|d| - 1];
      assert d == p + [y];
      SumCountsShift(p, vs, x);
      assert (vs + [x])[..|vs|] == vs;
      assert TallyOver(d, vs + [x])[..|p|] == TallyOver(p, vs + [x]);
      assert TallyOver(d, vs)[..|p|] == TallyOver(p, vs);
    }
  }

  /** The counts of `key_value_counts` add up to the number of rows. */
  lemma {:induction false} TalliesSum<T(!new)>(vs: seq<T>)
    ensures SumCounts(Tallies(vs)) == |vs|
  {
    if vs != [] {
      var p, x := vs[..|vs| - 1], vs[|vs| - 1];
      assert vs == p + [x];
      TalliesSum(p);
      var dp := Distinct(p);
      SumCountsShift(dp, p, x);
      if x !in dp {
        var d := dp + [x];
        assert Distinct(vs) == d;
        assert TallyOver(d, vs)[..|dp|] == TallyOver(dp, vs);
        assert Count(p, x) == 0;
        assert p == vs[..|vs| - 1];
      }
    }
  }

  /** The counts dictionary of any list: every element is a key once, with a
      count of at least one that is its number of occurrences, keys in
      first-seen order, counts summing to the length of the list. */
  lemma TalliesFacts<T(!new)>(vs: seq<T>)
    ensures var t := Tallies(vs);
      && (forall i :: 0 <= i < |t| ==> 1 <= t[i].count == Count(vs, t[i].value))
      && (forall v :: v in CountedValues(t) <==> v in vs)
      && InFirstSeenOrder(CountedValues(t), vs)
      && NoDuplicates(CountedValues(t))
      && SumCounts(t) == |vs|
  {
    var t, d := Tallies(vs), Distinct(vs);
    CountedValuesOfTallies(d, vs);
    DistinctInFirstSeenOrder(vs);
    TalliesSum(vs);
    forall i | 0 <= i < |t| ensures 1 <= t[i].count == Count(vs, t[i].value) {
      assert t[i].value == d[i] && d[i] in vs;
    }
  }

  lemma CountedValuesOfTallies<T(!new)>(d: seq<T>, vs: seq<T>)
    ensures CountedValues(TallyOver(d, vs)) == d
  {
  }

  /** What `key_value_counts` promises: every value that occurs is counted
      once, with a count of at least one that is its number of occurrences,
      keys in first-seen order, counts summing to `len(results)`; a row that
      lacks the key is counted under None. */
  lemma KeyValueCountsFacts(key: string, rows: seq<Row>)
    ensures var t, vs := KeyValueCounts(key, rows), Values(key, rows);
      && (forall i :: 0 <= i < |t| ==> 1 <= t[i].count == Count(vs, t[i].value))
      && (forall v :: v in CountedValues(t) <==> v in vs)
      && InFirstSeenOrder(CountedValues(t), vs)
      && NoDuplicates(CountedValues(t))
      && SumCounts(t) == |rows|
      && ((exists r :: r in rows && key !in r) ==> None in CountedValues(t))
  {
    var vs := Values(key, rows);
    TalliesFacts(vs);
    if r :| r in rows && key !in r {
      var i :| 0 <= i < |rows| && rows[i] == r;
      assert vs[i] == None;
    }
  }

  lemma NoCountsWithoutRows(key: string, rows: seq<Row>)
    ensures KeyValueCounts(key, rows) == [] <==> rows == []
  {
    if rows != [] {
      assert Values(key, rows)[0] in Distinct(Values(key, rows));
    }
  }

  /** `max(counts, key=counts.get)`: the position of the first entry with the
      largest count (`max` replaces its candidate only on a strictly larger key). */
  function FirstMax<T>(t: seq<Tally<T>>): (k: nat)
    requires t != []
    ensures k < |t|
    ensures forall j :: 0 <= j < |t| ==> t[j].count <= t[k].count
    ensures forall j :: 0 <= j < k ==> t[j].count < t[k].count
  {
    if |t| == 1 then 0
    else
      var k := FirstMax(t[..|t| - 1]);
      if t[|t| - 1].count > t[k].count then |t| - 1 else k
  }

  /** The most common element of a non-empty list, as `max` over its counts
      dictionary picks it. */
  function Mode<T(==,!new)>(vs: seq<T>): (m: T)
    requires vs != []
    ensures m in vs
  {
    assert vs[0] in Distinct(vs);
    var t := Tallies(vs);
    t[FirstMax(t)].value
  }

  /** The mode occurs at least as often as any other element, and among the
      elements occurring that often it is the one seen first. */
  lemma ModeIsEarliestMostFrequent<T(!new)>(vs: seq<T>)
    requires vs != []
    ensures forall w :: w in vs ==> Count(vs, w) <= Count(vs, Mode(vs))
    ensures forall w :: w in vs && Count(vs, w) == Count(vs, Mode(vs)) ==>
              FirstIndex(vs, Mode(vs)) <= FirstIndex(vs, w)
  {
    forall w | w in vs
      ensures Count(vs, w) <= Count(vs, Mode(vs))
      ensures Count(vs, w) == Count(vs, Mode(vs)) ==> FirstIndex(vs, Mode(vs)) <= FirstIndex(vs, w)
    {
      ModeBeats(vs, w);
    }
  }

  /** The mode against one element `w`. */
  lemma ModeBeats<T(!new)>(vs: seq<T>, w: T)
    requires w in vs
    ensures Count(vs, w) <= Count(vs, Mode(vs))
    ensures Count(vs, w) == Count(vs, Mode(vs)) ==> FirstIndex(vs, Mode(vs)) <= FirstIndex(vs, w)
  {
    var d, t := Distinct(vs), Tallies(vs);
    var k := FirstMax(t);
    assert Mode(vs) == d[k];
    var j :| 0 <= j < |d| && d[j] == w;
    assert t[j].count == Count(vs, w);
    if t[j].count == t[k].count && j != k {
      assert k < j;
      DistinctInFirstSeenOrder(vs);
      assert FirstIndex(vs, d[k]) < FirstIndex(vs, d[j]);
    }
  }

  /** A Python function that returns the only element of a one-element list
      and the list itself otherwise. */
  datatype Unwrapped<T> = Single(value: T) | PerKey(values: seq<T>)

  function Unwrap<T>(xs: seq<T>): (u: Unwrapped<T>)
  {
    if |xs| == 1 then Single(xs[0]) else PerKey(xs)
  }

  /** The value `most_common_results` selects for one key. */
  function MostCommonValue(key: string, rows: seq<Row>): (m: Option<string>)
    requires rows != []
    ensures m in Values(key, rows)
  {
    Mode(Values(key, rows))
  }

  /** The value selected for a key is one the rows give, given at least as
      often as any other, and the earliest such on ties. */
  lemma MostCommonValueIsEarliestMode(key: string, rows: seq<Row>)
    requires rows != []
    ensures var vs, m := Values(key, rows), MostCommonValue(key, rows);
      && m in vs
      && (forall w :: w in vs ==> Count(vs, w) <= Count(vs, m))
      && (forall w :: w in vs && Count(vs, w) == Count(vs, m) ==> FirstIndex(vs, m) <= FirstIndex(vs, w))
  {
    ModeIsEarliestMostFrequent(Values(key, rows));
  }

  lemma MaxOfCountsIsMostCommonValue(key: string, rows: seq<Row>)
    requires KeyValueCounts(key, rows) != []
    ensures rows != []
    ensures var t := KeyValueCounts(key, rows); t[FirstMax(t)].value == MostCommonValue(key, rows)
  {
    NoCountsWithoutRows(key, rows);
  }

  /** The values `most_common_results` selects, one per key, in key order. */
  function MostCommonValues(keys: seq<string>, rows: seq<Row>): (vs: seq<Option<string>>)
    requires keys != [] ==> rows != []
    ensures |vs| == |keys|
  {
    if keys == [] then []
    else MostCommonValues(keys[..|keys| - 1], rows) + [MostCommonValue(keys[|keys| - 1], rows)]
  }

  lemma {:induction false} MostCommonValuesAt(keys: seq<string>, rows: seq<Row>, i: nat)
    requires keys != [] ==> rows != []
    requires i < |keys|
    ensures |MostCommonValues(keys, rows)| == |keys|
    ensures MostCommonValues(keys, rows)[i] == MostCommonValue(keys[i], rows)
  {
    if i < |keys| - 1 {
      MostCommonValuesAt(keys[..|keys| - 1], rows, i);
    }
  }

  lemma MostCommonValuesStep(keys: seq<string>, rows: seq<Row>, i: nat)
    requires i < |keys| && KeyValueCounts(keys[i], rows) != []
    ensures rows != []
    ensures var t := KeyValueCounts(keys[i], rows);
      MostCommonValues(keys[..i + 1], rows) == MostCommonValues(keys[..i], rows) + [t[FirstMax(t)].value]
  {
    MaxOfCountsIsMostCommonValue(keys[i], rows);
    assert keys[..i + 1][..i] == keys[..i];
  }

  /** `most_common_results(keys, results)` */
  method MostCommonResults(keys: seq<string>, rows: seq<Row>) returns (r: Result<Unwrapped<Option<string>>>)
    ensures r.Err? <==> keys != [] && rows == []
    ensures r.Err? ==> r.error == EmptyMax
    ensures r.Ok? ==> r.value == Unwrap(MostCommonValues(keys, rows))
  {
    var mostCommonValues: seq<Option<string>> := [];
    for i := 0 to |keys|
      invariant i > 0 ==> rows != []
      invariant mostCommonValues == MostCommonValues(keys[..i], rows)
    {
      var counts := KeyValueCounts(keys[i], rows);
      if counts == [] {
        NoCountsWithoutRows(keys[i], rows);
        return Err(EmptyMax);
      }
      var mostCommon := counts[FirstMax(counts)].value;
      MostCommonValuesStep(keys, rows, i);
      mostCommonValues := mostCommonValues + [mostCommon];
    }
    assert keys[..|keys|] == keys;
    return Ok(Unwrap(mostCommonValues));
  }

  /** The keyword arguments of `linear_thresholding`. */
  datatype LinearParams = LinearParams(low: real, rate: real, shift: real)

  /** `low = 0, rate = 1/2.5, shift = 0.5` */
  const DefaultLinear := LinearParams(0.0, 0.4, 0.5)

  /** `linear_thresholding(high, low, rate, shift)`, over exact reals. */
  function LinearThreshold(high: real, p: LinearParams): (t: real)
    ensures p.rate >= 0.0 && high >= p.low ==> t >= p.low + p.shift
  {
    (high - p.low) * p.rate + p.low + p.shift
  }

  /** With a non-negative rate, a higher maximum count never lowers the
      threshold. */
  lemma LinearThresholdIsMonotone(high1: real, high2: real, p: LinearParams)
    requires p.rate >= 0.0 && high1 <= high2
    ensures LinearThreshold(high1, p) <= LinearThreshold(high2, p)
  {
    var d := high2 - high1;
    assert d * p.rate >= 0.0;
    assert (high2 - p.low) * p.rate == (high1 - p.low) * p.rate + d * p.rate;
  }

  /** The documented calibration of the default line: a count of 1 passes when
      the highest count is 1, a count of 2 fails when the highest count is 4. */
  lemma DefaultLinearCalibration()
    ensures 1.0 >= LinearThreshold(1.0, DefaultLinear)
    ensures 2.0 < LinearThreshold(4.0, DefaultLinear)
  {
  }

  /** The `threshold` argument of `above_threshold_counts`: an int, a float,
      the string "linear" (with its keyword arguments), or anything else. */
  datatype Threshold =
    | MinCount(n: int)
    | MinRatio(fraction: real)
    | Linear(params: LinearParams)
    | Unsupported

  /** Whether the threshold computes `max(counts.values())`, which raises on
      an empty dictionary. */
  predicate NeedsMax(threshold: Threshold, baseline: string)
  {
    threshold.Linear? || (threshold.MinRatio? && baseline == "max")
  }

  /** `high`: the largest count, or for a ratio against baseline "total" (any
      baseline other than "max") the sum of the counts. */
  function High(threshold: Threshold, baseline: string, vs: seq<Option<string>>): real
  {
    if vs == [] then 0.0
    else if threshold.MinRatio? && baseline != "max" then SumCounts(Tallies(vs)) as real
    else Count(vs, Mode(vs)) as real
  }

  /** Whether value `v` with count `c` is kept. (`high` is never 0 for a value
      that was counted; the test only keeps the division well defined.) */
  predicate Passes(threshold: Threshold, v: Option<string>, c: nat, high: real)
  {
    match threshold
    case MinCount(n) => c >= n
    case MinRatio(f) => high != 0.0 && (c as real) / high >= f && v.Some?
    case Linear(p) => c as real >= LinearThreshold(high, p) && v.Some?
    case Unsupported => false
  }

  /** The list `above_threshold_counts` builds for one key: the keys of
      `key_value_counts` that pass, in the dictionary's order. */
  function AcceptedValues(key: string, rows: seq<Row>, threshold: Threshold, baseline: string): (accepted: seq<Option<string>>)
    ensures |accepted| <= |rows|
    ensures forall v :: v in accepted ==> v in Values(key, rows)
  {
    var vs := Values(key, rows);
    var high := High(threshold, baseline, vs);
    Filter(Distinct(vs), v => Passes(threshold, v, Count(vs, v), high))
  }

  /** The lists `above_threshold_counts` builds, one per key, in key order. */
  function AcceptedPerKey(keys: seq<string>, rows: seq<Row>, threshold: Threshold, baseline: string)
    : (lists: seq<seq<Option<string>>>)
    ensures |lists| == |keys|
  {
    if keys == [] then []
    else AcceptedPerKey(keys[..|keys| - 1], rows, threshold, baseline)
         + [AcceptedValues(keys[|keys| - 1], rows, threshold, baseline)]
  }

  lemma {:induction false} AcceptedPerKeyAt(keys: seq<string>, rows: seq<Row>, threshold: Threshold, baseline: string, i: nat)
    requires i < |keys|
    ensures |AcceptedPerKey(keys, rows, threshold, baseline)| == |keys|
    ensures AcceptedPerKey(keys, rows, threshold, baseline)[i] == AcceptedValues(keys[i], rows, threshold, baseline)
  {
    if i < |keys| - 1 {
      AcceptedPerKeyAt(keys[..|keys| - 1], rows, threshold, baseline, i);
    }
  }

  lemma AcceptedPerKeyStep(keys: seq<string>, rows: seq<Row>, threshold: Threshold, baseline: string, i: nat)
    requires i < |keys|
    ensures AcceptedPerKey(keys[..i + 1], rows, threshold, baseline)
      == AcceptedPerKey(keys[..i], rows, threshold, baseline) + [AcceptedValues(keys[i], rows, threshold, baseline)]
  {
    assert keys[..i + 1][..i] == keys[..i];
  }

  /** `above_threshold_counts(keys, results, threshold, baseline, **kwargs)` */
  method AboveThresholdCounts(keys: seq<string>, rows: seq<Row>, threshold: Threshold, baseline: string)
    returns (r: Result<Unwrapped<seq<Option<string>>>>)
    ensures r.Err? <==> keys != [] && (threshold.Unsupported? || (rows == [] && NeedsMax(threshold, baseline)))
    ensures r.Err? ==> r.error == if threshold.Unsupported? then InvalidThreshold else EmptyMax
    ensures r.Ok? ==> r.value == Unwrap(AcceptedPerKey(keys, rows, threshold, baseline))
  {
    var acceptable: seq<seq<Option<string>>> := [];
    for i := 0 to |keys|
      invariant i > 0 ==> !threshold.Unsupported? && !(rows == [] && NeedsMax(threshold, baseline))
      invariant acceptable == AcceptedPerKey(keys[..i], rows, threshold, baseline)
    {
      var counts := KeyValueCounts(keys[i], rows);
      NoCountsWithoutRows(keys[i], rows);
      if threshold.Unsupported? {
        return Err(InvalidThreshold);
      }
      if counts == [] && NeedsMax(threshold, baseline) {
        return Err(EmptyMax);
      }
      AcceptedPerKeyStep(keys, rows, threshold, baseline, i);
      acceptable := acceptable + [AcceptedValues(keys[i], rows, threshold, baseline)];
    }
    assert keys[..|keys|] == keys;
    return Ok(Unwrap(acceptable));
  }

  /** The kept values are listed once each, in first-seen order. */
  lemma AcceptedInFirstSeenOrder(key: string, rows: seq<Row>, threshold: Threshold, baseline: string)
    ensures InFirstSeenOrder(AcceptedValues(key, rows, threshold, baseline), Values(key, rows))
    ensures NoDuplicates(AcceptedValues(key, rows, threshold, baseline))
  {
    var vs := Values(key, rows);
    var high := High(threshold, baseline, vs);
    DistinctInFirstSeenOrder(vs);
    FilterKeepsFirstSeenOrder(Distinct(vs), v => Passes(threshold, v, Count(vs, v), high), vs);
    InFirstSeenOrderHasNoDuplicates(AcceptedValues(key, rows, threshold, baseline), vs);
  }

  /** With an integer threshold exactly the values counted at least `n` times
      are kept, None included. */
  lemma MinCountSelectsExactly(key: string, rows: seq<Row>, n: int, baseline: string)
    ensures var r, vs := AcceptedValues(key, rows, MinCount(n), baseline), Values(key, rows);
      forall v :: v in r <==> v in vs && Count(vs, v) >= n
  {
  }

  /** With the "linear" threshold the kept values are the non-None values
      whose count reaches the line at the largest count. */
  lemma LinearSelectsExactly(key: string, rows: seq<Row>, p: LinearParams, baseline: string)
    requires rows != []
    ensures var r, vs := AcceptedValues(key, rows, Linear(p), baseline), Values(key, rows);
      var high := Count(vs, MostCommonValue(key, rows));
      && (forall w :: w in vs ==> Count(vs, w) <= high)
      && (forall v :: v in r <==> v.Some? && v in vs && Count(vs, v) as real >= LinearThreshold(high as real, p))
  {
    ModeIsEarliestMostFrequent(Values(key, rows));
  }

  /** With a ratio against baseline "total", `high` is the number of rows. */
  lemma TotalRatioSelectsExactly(key: string, rows: seq<Row>, f: real, baseline: string)
    requires rows != [] && baseline != "max"
    ensures var r, vs := AcceptedValues(key, rows, MinRatio(f), baseline), Values(key, rows);
      forall v :: v in r <==> v.Some? && v in vs && (Count(vs, v) as real) / (|rows| as real) >= f
  {
    TalliesSum(Values(key, rows));
  }

  /** Neither a ratio nor the "linear" threshold keeps None. */
  lemma NoneOnlyWithIntegerThreshold(key: string, rows: seq<Row>, threshold: Threshold, baseline: string)
    requires !threshold.MinCount?
    ensures None !in AcceptedValues(key, rows, threshold, baseline)
  {
  }
}
