/** Years from Wikidata time values (`find_year`) and from the three time
    fields of a location record (`get_years_from_response_location`). */
module Years {
  import opened Base
  import opened Decimal

  /** The end of the run of digits that starts at `i`. */
  function RunEnd(s: string, i: nat): (j: nat)
    requires i <= |s|
    ensures i <= j <= |s|
    ensures forall k :: i <= k < j ==> IsDigit(s[k])
    ensures j == |s| || !IsDigit(s[j])
    decreases |s| - i
  {
    if i < |s| && IsDigit(s[i]) then RunEnd(s, i + 1) else i
  }

  /** `s[i..j]` is a whole run of digits (nothing digit-like just before it)
      immediately followed by '-': a match of `\d+(?=-)` that `re.findall`
      can report. */
  predicate YearRun(s: string, i: nat, j: nat)
  {
    && i < j < |s|
    && (i == 0 || !IsDigit(s[i - 1]))
    && (forall k :: i <= k < j ==> IsDigit(s[k]))
    && s[j] == '-'
  }

  /** No match of `\d+(?=-)` starts before position `hi`. */
  ghost predicate NoYearRunBefore(s: string, hi: nat)
  {
    forall i: nat, j: nat :: i < hi && YearRun(s, i, j) ==> false
  }

  /** Position `k` is not strictly inside a run of digits. */
  predicate Boundary(s: string, k: nat)
  {
    k == 0 || k >= |s| || !IsDigit(s[k - 1]) || !IsDigit(s[k])
  }

  /** The left-to-right scan of `re.findall(r"\d+(?=-)", s)` from `k`, stopped
      at its first match, converted by `int`. */
  function FirstYearFrom(s: string, k: nat): (y: Option<nat>)
    requires k <= |s|
    ensures y.Some? ==> '-' in s[k..]
    decreases |s| - k
  {
    if k == |s| then None
    else if IsDigit(s[k]) then
      var j := RunEnd(s, k);
      if j < |s| && s[j] == '-' then Some(DecimalValue(s[k..j])) else FirstYearFrom(s, j)
    else FirstYearFrom(s, k + 1)
  }

  /** `find_year` */
  function FindYear(t: Option<string>): (y: Option<nat>)
    ensures y.Some? ==> t.Some? && '-' in t.value
  {
    match t
    case None => None
    case Some(s) =>
      assert s[0..] == s;
      FirstYearFrom(s, 0)
  }

  lemma YearRunEndsAtRunEnd(s: string, i: nat, j: nat)
    requires YearRun(s, i, j)
    ensures RunEnd(s, i) == j
  {
  }

  /** The scan from a boundary `k` finds the first year run starting at or
      after `k`, and finds nothing when there is none. */
  lemma {:induction false} FirstYearFromFindsFirstRun(s: string, k: nat)
    requires k <= |s| && Boundary(s, k)
    ensures FirstYearFrom(s, k).None? ==> forall i: nat, j: nat :: k <= i && YearRun(s, i, j) ==> false
    ensures FirstYearFrom(s, k).Some? ==>
      exists i: nat, j: nat :: k <= i && YearRun(s, i, j)
        && (forall i': nat, j': nat :: k <= i' < i && YearRun(s, i', j') ==> false)
        && FirstYearFrom(s, k).value == DecimalValue(s[i..j])
    decreases |s| - k
  {
    if k < |s| {
      if IsDigit(s[k]) {
        var j := RunEnd(s, k);
        assert forall i: nat, j': nat :: k < i < j ==> !YearRun(s, i, j');
        forall j' | YearRun(s, k, j') ensures j' == j {
          YearRunEndsAtRunEnd(s, k, j');
        }
        if j < |s| && s[j] == '-' {
          assert YearRun(s, k, j);
        } else {
          FirstYearFromFindsFirstRun(s, j);
        }
      } else {
        assert forall j': nat :: !YearRun(s, k, j');
        FirstYearFromFindsFirstRun(s, k + 1);
      }
    }
  }

  /** `find_year` returns None for None and for a string with no digit run
      followed by '-'; otherwise the value of the first such run, which is a
      whole run of digits. */
  lemma FindYearIsFirstYearRun(t: Option<string>)
    ensures t.None? ==> FindYear(t).None?
    ensures t.Some? ==> (FindYear(t).None? <==> forall i: nat, j: nat :: YearRun(t.value, i, j) ==> false)
    ensures t.Some? && FindYear(t).Some? ==>
      exists i: nat, j: nat :: YearRun(t.value, i, j) && NoYearRunBefore(t.value, i)
        && FindYear(t).value == DecimalValue(t.value[i..j])
  {
    if t.Some? {
      FirstYearFromFindsFirstRun(t.value, 0);
    }
  }

  /** A time value that starts with a year and '-' yields that year. */
  lemma FindYearOfDate(y: nat, rest: string)
    ensures FindYear(Some(DecimalString(y) + "-" + rest)) == Some(y)
  {
    var d := DecimalString(y);
    var s := d + "-" + rest;
    assert s[..|d|] == d;
    assert YearRun(s, 0, |d|);
    FindYearIsFirstYearRun(Some(s));
    var i: nat, j: nat :| YearRun(s, i, j) && NoYearRunBefore(s, i) && FindYear(Some(s)).value == DecimalValue(s[i..j]);
    assert i == 0;
    YearRunEndsAtRunEnd(s, 0, j);
    YearRunEndsAtRunEnd(s, 0, |d|);
    DecimalRoundTrip(y);
  }

  /** The year of a Wikidata date such as "1853-03-30T00:00:00Z". */
  lemma FindYearOfWikidataDate()
    ensures FindYear(Some("1853-03-30T00:00:00Z")) == Some(1853)
  {
    assert DecimalString(1853) == "1853";
    assert "1853-03-30T00:00:00Z" == DecimalString(1853) + "-" + "03-30T00:00:00Z";
    FindYearOfDate(1853, "03-30T00:00:00Z");
  }

  /** A leading minus sign (a year before the common era) is not part of the
      match: the year comes back without its sign. */
  lemma FindYearDropsSign(y: nat, rest: string)
    ensures FindYear(Some("-" + DecimalString(y) + "-" + rest)) == Some(y)
  {
    var d := DecimalString(y);
    var s := "-" + d + "-" + rest;
    assert s[1..1 + |d|] == d;
    assert YearRun(s, 1, 1 + |d|);
    FindYearIsFirstYearRun(Some(s));
    var i: nat, j: nat :| YearRun(s, i, j) && NoYearRunBefore(s, i) && FindYear(Some(s)).value == DecimalValue(s[i..j]);
    assert i == 1 by {
      assert !IsDigit(s[0]);
    }
    YearRunEndsAtRunEnd(s, 1, j);
    YearRunEndsAtRunEnd(s, 1, 1 + |d|);
    DecimalRoundTrip(y);
  }

  /** The time fields of a record in the order the client reads them:
      start_time, end_time, point_in_time. */
  function TimeFields(rec: LocationRecord): seq<Option<string>>
  {
    [rec.startTime, rec.endTime, rec.pointInTime]
  }

  /** The years found in `ts`, in order. */
  function YearsIn(ts: seq<Option<string>>): (ys: seq<nat>)
    ensures |ys| <= |ts|
    ensures forall y :: y in ys <==> exists k :: 0 <= k < |ts| && FindYear(ts[k]) == Some(y)
  {
    if ts == [] then []
    else
      var p := YearsIn(ts[..|ts| - 1]);
      assert ts == ts[..|ts| - 1] + [ts[|ts| - 1]];
      match FindYear(ts[|ts| - 1])
      case None => p
      case Some(y) => p + [y]
  }

  /** `get_years_from_response_location` */
  method GetYearsFromResponseLocation(rec: LocationRecord) returns (years: seq<nat>)
    ensures years == YearsIn(TimeFields(rec))
    ensures |years| <= 3
    ensures forall y :: y in years <==> exists k :: 0 <= k < 3 && FindYear(TimeFields(rec)[k]) == Some(y)
  {
    var fields := TimeFields(rec);
    years := [];
    for k := 0 to 3
      invariant years == YearsIn(fields[..k])
    {
      assert fields[..k + 1][..k] == fields[..k];
      var year := FindYear(fields[k]);
      if year.Some? {
        years := years + [year.value];
      }
    }
    assert fields[..3] == fields;
  }
}
