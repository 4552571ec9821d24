/** The work locations of a person, from the `location_dates` records of a
    person dictionary: the distinct places (`get_places_from_response`) and
    the places with year ranges (`get_places_with_years_from_response`). */
module Places {
  import opened Base
  import opened Sequences
  import opened Decimal
  import opened Years

  /** What the functions return for a `return_type`: a joined string, the
      `str()` of the list (whose Python repr text is not spelled out here),
      or the list itself. */
  datatype Rendered = Joined(text: string) | Printed(items: seq<string>) | Items(items: seq<string>)

  /** The `return_type` dispatch shared by both functions; `joinedName` is the
      name of the joined form and `sep` its separator. */
  function Render(items: seq<string>, returnType: string, joinedName: string, sep: string): (r: Result<Rendered>)
    requires joinedName != "string" && joinedName != "list"
    ensures r.Err? <==> returnType !in {joinedName, "string", "list"}
    ensures r.Err? ==> r.error == UnknownReturnType(returnType)
    ensures r.Ok? ==> (r.value.Joined? <==> returnType == joinedName)
    ensures r.Ok? ==> (r.value.Printed? <==> returnType == "string")
    ensures r.Ok? ==> (r.value.Items? <==> returnType == "list")
    ensures r.Ok? && r.value.Joined? ==> r.value.text == Join(sep, items)
    ensures r.Ok? && !r.value.Joined? ==> r.value.items == items
  {
    if returnType == joinedName then Ok(Joined(Join(sep, items)))
    else if returnType == "string" then Ok(Printed(items))
    else if returnType == "list" then Ok(Items(items))
    else Err(UnknownReturnType(returnType))
  }

  function Locations(recs: seq<LocationRecord>): seq<string>
  {
    seq(|recs|, i requires 0 <= i < |recs| => recs[i].location)
  }

  /** `get_places_from_response`; `locationDates` is None when the response
      has no `location_dates` key, which the function treats as no places. */
  method GetPlacesFromResponse(locationDates: Option<seq<LocationRecord>>, returnType: string)
    returns (r: Result<Rendered>)
    ensures var recs := if locationDates.Some? then locationDates.value else [];
      r == Render(Distinct(Locations(recs)), returnType, "comma_separated_string", ",")
  {
    var places: seq<string> := [];
    if locationDates.Some? {
      var recs := locationDates.value;
      for i := 0 to |recs|
        invariant places == Distinct(Locations(recs[..i]))
      {
        assert Locations(recs[..i + 1]) == Locations(recs[..i]) + [recs[i].location];
        assert Locations(recs[..i + 1])[..i] == Locations(recs[..i]);
        if recs[i].location !in places {
          places := places + [recs[i].location];
        }
      }
      assert recs[..|recs|] == recs;
    }
    if returnType == "comma_separated_string" {
      return Ok(Joined(Join(",", places)));
    }
    if returnType == "string" {
      return Ok(Printed(places));
    }
    if returnType == "list" {
      return Ok(Items(places));
    }
    return Err(UnknownReturnType(returnType));
  }

  /** The places listed by `get_places_from_response` are each location of the
      records once, in the order of first appearance. */
  lemma PlacesAreDistinctInFirstSeenOrder(recs: seq<LocationRecord>)
    ensures var places := Distinct(Locations(recs));
      && NoDuplicates(places)
      && (forall l :: l in places <==> exists i :: 0 <= i < |recs| && recs[i].location == l)
      && InFirstSeenOrder(places, Locations(recs))
  {
    DistinctInFirstSeenOrder(Locations(recs));
    var places := Distinct(Locations(recs));
    forall l | l in places ensures exists i :: 0 <= i < |recs| && recs[i].location == l {
      var i :| 0 <= i < |Locations(recs)| && Locations(recs)[i] == l;
    }
    forall l | (exists i :: 0 <= i < |recs| && recs[i].location == l) ensures l in places {
      var i :| 0 <= i < |recs| && recs[i].location == l;
      assert Locations(recs)[i] == l;
    }
  }

  /** `p.split(':')[0]`: the text before the first ':'. */
  function Head(s: string): (h: string)
    ensures ':' !in h
    ensures h <= s
    ensures h == s || s[|h|] == ':'
  {
    if s == [] || s[0] == ':' then [] else [s[0]] + Head(s[1..])
  }

  /** The head of a `loc:ranges` entry is `loc` when `loc` has no ':'. */
  lemma {:induction false} HeadOfEntry(loc: string, rest: string)
    requires ':' !in loc
    ensures Head(loc + ":" + rest) == loc
  {
    if loc != [] {
      assert (loc + ":" + rest)[1..] == loc[1..] + ":" + rest;
      HeadOfEntry(loc[1..], rest);
    }
  }

  /** `min(years)` */
  function MinOf(ys: seq<nat>): (m: nat)
    requires ys != []
    ensures m in ys
    ensures forall i :: 0 <= i < |ys| ==> m <= ys[i]
  {
    if |ys| == 1 then ys[0]
    else
      var m := MinOf(ys[..|ys| - 1]);
      assert ys == ys[..|ys| - 1] + [ys[|ys| - 1]];
      if ys[|ys| - 1] < m then ys[|ys| - 1] else m
  }

  /** `max(years)` */
  function MaxOf(ys: seq<nat>): (m: nat)
    requires ys != []
    ensures m in ys
    ensures forall i :: 0 <= i < |ys| ==> ys[i] <= m
  {
    if |ys| == 1 then ys[0]
    else
      var m := MaxOf(ys[..|ys| - 1]);
      assert ys == ys[..|ys| - 1] + [ys[|ys| - 1]];
      if ys[|ys| - 1] > m then ys[|ys| - 1] else m
  }

  /** `f"{min_year}-{max_year}"` */
  function YearRange(ys: seq<nat>): (r: string)
    requires ys != []
    ensures FindYear(Some(r)) == Some(MinOf(ys))
    ensures ':' !in r
  {
    var lo, hi := DecimalString(MinOf(ys)), DecimalString(MaxOf(ys));
    FindYearOfDate(MinOf(ys), hi);
    assert forall i :: 0 <= i < |lo + "-" + hi| ==> (lo + "-" + hi)[i] != ':';
    lo + "-" + hi
  }

  /** Every range written spans from the smallest to the largest year of its
      record, so its first year is never after its second. */
  lemma YearRangeIsOrdered(ys: seq<nat>)
    requires ys != []
    ensures exists lo: nat, hi: nat ::
      && lo <= hi && lo in ys && hi in ys
      && (forall i :: 0 <= i < |ys| ==> lo <= ys[i] <= hi)
      && YearRange(ys) == DecimalString(lo) + "-" + DecimalString(hi)
  {
    var lo, hi := MinOf(ys), MaxOf(ys);
    assert lo <= ys[0] <= hi;
  }

  function YearsOf(rec: LocationRecord): seq<nat>
  {
    YearsIn(TimeFields(rec))
  }

  /** The index of the first entry whose head is `loc`: the entry
      `any(...)` detects and the `enumerate` loop finds. */
  function FindHead(places: seq<string>, loc: string): (r: Option<nat>)
    ensures r.None? <==> forall k :: 0 <= k < |places| ==> Head(places[k]) != loc
    ensures r.Some? ==>
      && r.value < |places|
      && Head(places[r.value]) == loc
      && forall k :: 0 <= k < r.value ==> Head(places[k]) != loc
  {
    if places == [] then None
    else
      var n := |places| - 1;
      assert forall k :: 0 <= k < n ==> places[..n][k] == places[k];
      match FindHead(places[..n], loc)
      case Some(i) => Some(i)
      case None => if Head(places[n]) == loc then Some(n) else None
  }

  /** Adding the range `range` of a record at `loc` to the entries. */
  function AddRange(places: seq<string>, loc: string, range: string, sep: string): (r: seq<string>)
    ensures |places| <= |r| <= |places| + 1
    ensures forall k :: 0 <= k < |places| && FindHead(places, loc) != Some(k) ==> r[k] == places[k]
  {
    match FindHead(places, loc)
    case None => places + [loc + ":" + range]
    case Some(i) => places[i := places[i] + sep + range]
  }

  /** The entries built from `recs` in order. */
  function PlacesWithYears(recs: seq<LocationRecord>, sep: string): (places: seq<string>)
    ensures |places| <= |DatedLocations(recs)|
  {
    if recs == [] then []
    else
      var p := PlacesWithYears(recs[..|recs| - 1], sep);
      var rec := recs[|recs| - 1];
      var ys := YearsOf(rec);
      if ys == [] then p else AddRange(p, rec.location, YearRange(ys), sep)
  }

  lemma PlacesWithYearsStep(recs: seq<LocationRecord>, n: nat, sep: string)
    requires n < |recs|
    ensures PlacesWithYears(recs[..n + 1], sep) ==
      var p, ys := PlacesWithYears(recs[..n], sep), YearsOf(recs[n]);
      if ys == [] then p else AddRange(p, recs[n].location, YearRange(ys), sep)
  {
    assert recs[..n + 1][..n] == recs[..n];
  }

  /** The body of the record loop once a range is known: a new entry when no
      entry has the location as its head, otherwise the range appended to the
      first entry that has. */
  method AddYearRange(places: seq<string>, loc: string, range: string, sep: string)
    returns (updated: seq<string>)
    ensures updated == AddRange(places, loc, range, sep)
    ensures |updated| == |places| + (if FindHead(places, loc).None? then 1 else 0)
  {
    if FindHead(places, loc).None? {
      return places + [loc + ":" + range];
    }
    updated := places;
    var i := 0;
    while i < |updated|
      invariant i <= |updated| && updated == places
      invariant forall k :: 0 <= k < i ==> Head(updated[k]) != loc
    {
      if Head(updated[i]) == loc {
        assert FindHead(places, loc) == Some(i);
        updated := updated[i := updated[i] + sep + range];
        break;
      }
      i := i + 1;
    }
  }

  /** `get_places_with_years_from_response`; `locationDates` is None when the
      response has no `location_dates` key, which raises KeyError. */
  method GetPlacesWithYearsFromResponse(locationDates: Option<seq<LocationRecord>>, returnType: string, datesSeparator: string)
    returns (r: Result<Rendered>)
    ensures locationDates.None? ==> r == Err(MissingKey("location_dates"))
    ensures locationDates.Some? ==>
      r == Render(PlacesWithYears(locationDates.value, datesSeparator), returnType, "semicolon_separated_string", ";")
  {
    if locationDates.None? {
      return Err(MissingKey("location_dates"));
    }
    var recs := locationDates.value;
    var places: seq<string> := [];
    for n := 0 to |recs|
      invariant places == PlacesWithYears(recs[..n], datesSeparator)
    {
      PlacesWithYearsStep(recs, n, datesSeparator);
      var place := recs[n];
      var years := GetYearsFromResponseLocation(place);
      if years != [] {
        var minYear, maxYear := MinOf(years), MaxOf(years);
        var range := DecimalString(minYear) + "-" + DecimalString(maxYear);
        places := AddYearRange(places, place.location, range, datesSeparator);
      }
    }
    assert recs[..|recs|] == recs;
    if returnType == "semicolon_separated_string" {
      return Ok(Joined(Join(";", places)));
    }
    if returnType == "string" {
      return Ok(Printed(places));
    }
    if returnType == "list" {
      return Ok(Items(places));
    }
    return Err(UnknownReturnType(returnType));
  }

  /** A location whose name holds ':' is never recognised as already listed:
      each of its records with years starts a new entry. */
  lemma ColonLocationIsNeverGrouped(places: seq<string>, loc: string, range: string, sep: string)
    requires ':' in loc
    ensures AddRange(places, loc, range, sep) == places + [loc + ":" + range]
  {
    assert FindHead(places, loc).None?;
  }

  /** The locations of the records that carry at least one year, in order. */
  function DatedLocations(recs: seq<LocationRecord>): (ls: seq<string>)
    ensures forall l :: l in ls <==> exists i :: 0 <= i < |recs| && YearsOf(recs[i]) != [] && recs[i].location == l
  {
    if recs == [] then []
    else
      var n := |recs| - 1;
      var p := DatedLocations(recs[..n]);
      assert forall i :: 0 <= i < n ==> recs[..n][i] == recs[i];
      var rec := recs[n];
      if YearsOf(rec) == [] then p else p + [rec.location]
  }

  /** The year ranges of the records at `loc` that carry at least one year,
      in order. */
  function RangesAt(recs: seq<LocationRecord>, loc: string): seq<string>
  {
    if recs == [] then []
    else
      var p := RangesAt(recs[..|recs| - 1], loc);
      var rec := recs[|recs| - 1];
      if YearsOf(rec) == [] || rec.location != loc then p else p + [YearRange(YearsOf(rec))]
  }

  /** One `loc:range,range,...` entry per dated location, in the order the
      locations first appear. */
  function Grouped(recs: seq<LocationRecord>, sep: string): (g: seq<string>)
    ensures |g| == |Distinct(DatedLocations(recs))|
  {
    var d := Distinct(DatedLocations(recs));
    seq(|d|, k requires 0 <= k < |d| => d[k] + ":" + Join(sep, RangesAt(recs, d[k])))
  }

  predicate NoColons(recs: seq<LocationRecord>)
  {
    forall i :: 0 <= i < |recs| ==> ':' !in recs[i].location
  }

  lemma {:induction false} RangesAtEmpty(recs: seq<LocationRecord>, loc: string)
    ensures RangesAt(recs, loc) == [] <==> loc !in DatedLocations(recs)
  {
    if recs != [] {
      RangesAtEmpty(recs[..|recs| - 1], loc);
    }
  }

  /** Against entries whose heads are the distinct locations `d`, the search
      finds the position of `loc` in `d`. */
  lemma FindHeadOfDistinct(places: seq<string>, d: seq<string>, loc: string)
    requires |places| == |d| && NoDuplicates(d)
    requires forall k :: 0 <= k < |d| ==> Head(places[k]) == d[k]
    ensures FindHead(places, loc).None? <==> loc !in d
    ensures FindHead(places, loc).Some? ==> d[FindHead(places, loc).value] == loc
  {
  }

  /** With location names free of ':', the entries are exactly the grouped
      ranges: one entry per location that has a dated record, in first-seen
      order, holding the ranges of its dated records in record order. */
  lemma {:induction false} PlacesWithYearsGroupsByLocation(recs: seq<LocationRecord>, sep: string)
    requires NoColons(recs)
    ensures PlacesWithYears(recs, sep) == Grouped(recs, sep)
  {
    if recs != [] {
      var p, rec := recs[..|recs| - 1], recs[|recs| - 1];
      assert recs == p + [rec];
      assert NoColons(p) by {
        forall i | 0 <= i < |p| ensures ':' !in p[i].location {
          assert p[i] == recs[i];
        }
      }
      PlacesWithYearsGroupsByLocation(p, sep);
      if YearsOf(rec) != [] {
        GroupedStep(p, rec, sep);
      } else {
        GroupedUndated(p, rec, sep);
      }
    }
  }

  /** A record without a year leaves the grouped entries as they are. */
  lemma GroupedUndated(p: seq<LocationRecord>, rec: LocationRecord, sep: string)
    requires YearsOf(rec) == []
    ensures Grouped(p + [rec], sep) == Grouped(p, sep)
  {
    var recs := p + [rec];
    assert recs[..|p|] == p;
    assert DatedLocations(recs) == DatedLocations(p);
    forall l ensures RangesAt(recs, l) == RangesAt(p, l) { }
  }

  /** The heads of the grouped entries are the distinct dated locations. */
  lemma GroupedHeads(recs: seq<LocationRecord>, sep: string)
    requires NoColons(recs)
    ensures var d, g := Distinct(DatedLocations(recs)), Grouped(recs, sep);
      forall k :: 0 <= k < |d| ==> Head(g[k]) == d[k]
  {
    var d, g := Distinct(DatedLocations(recs)), Grouped(recs, sep);
    forall k | 0 <= k < |d| ensures Head(g[k]) == d[k] {
      assert d[k] in DatedLocations(recs);
      var i :| 0 <= i < |recs| && recs[i].location == d[k];
      HeadOfEntry(d[k], Join(sep, RangesAt(recs, d[k])));
    }
  }

  /** A dated record adds its range to the ranges of its own location only. */
  lemma RangesAtStep(p: seq<LocationRecord>, rec: LocationRecord, l: string)
    requires YearsOf(rec) != []
    ensures RangesAt(p + [rec], l) ==
      if l == rec.location then RangesAt(p, l) + [YearRange(YearsOf(rec))] else RangesAt(p, l)
  {
    assert (p + [rec])[..|p|] == p;
  }

  /** The entry of the record's own location, already listed, after the
      record: extended by the separator and the record's range. */
  lemma GroupedEntryExtended(p: seq<LocationRecord>, rec: LocationRecord, sep: string, k: nat)
    requires YearsOf(rec) != []
    requires var d := Distinct(DatedLocations(p)); k < |d| && d[k] == rec.location
    requires Distinct(DatedLocations(p + [rec])) == Distinct(DatedLocations(p))
    ensures Grouped(p + [rec], sep)[k] == Grouped(p, sep)[k] + sep + YearRange(YearsOf(rec))
  {
    var loc, rg := rec.location, YearRange(YearsOf(rec));
    var r := RangesAt(p, loc);
    var j := Join(sep, r);
    assert Grouped(p, sep)[k] == loc + ":" + j;
    assert Join(sep, RangesAt(p + [rec], loc)) == j + sep + rg by {
      RangesAtStep(p, rec, loc);
      assert loc in DatedLocations(p);
      RangesAtEmpty(p, loc);
      JoinAppend(sep, r, rg);
    }
    assert Grouped(p + [rec], sep)[k] == loc + ":" + (j + sep + rg);
    AppendTwice(loc + ":", j, sep, rg);
  }

  /** Regrouping a string built by appending. */
  lemma AppendTwice(a: string, b: string, c: string, d: string)
    ensures a + (b + c + d) == a + b + c + d
  {
  }

  /** The entry of any other listed location is unchanged by the record. */
  lemma GroupedEntryKept(p: seq<LocationRecord>, rec: LocationRecord, sep: string, k: nat)
    requires YearsOf(rec) != []
    requires var d, d' := Distinct(DatedLocations(p)), Distinct(DatedLocations(p + [rec]));
      k < |d| && k < |d'| && d'[k] == d[k] && d[k] != rec.location
    ensures Grouped(p + [rec], sep)[k] == Grouped(p, sep)[k]
  {
    var d := Distinct(DatedLocations(p));
    RangesAtStep(p, rec, d[k]);
  }

  /** A dated record at a location already listed extends that entry. */
  lemma GroupedStepKnown(p: seq<LocationRecord>, rec: LocationRecord, sep: string, i: nat)
    requires YearsOf(rec) != []
    requires var d := Distinct(DatedLocations(p)); i < |d| && d[i] == rec.location
    ensures var g, rg := Grouped(p, sep), YearRange(YearsOf(rec));
      g[i := g[i] + sep + rg] == Grouped(p + [rec], sep)
  {
    var recs := p + [rec];
    var loc, rg := rec.location, YearRange(YearsOf(rec));
    var dl := DatedLocations(p);
    var d := Distinct(dl);
    var g, g' := Grouped(p, sep), Grouped(recs, sep);
    assert recs[..|p|] == p;
    assert DatedLocations(recs) == dl + [loc];
    assert loc in dl;
    DistinctAppend(dl, loc);
    forall k | 0 <= k < |g| ensures g[i := g[i] + sep + rg][k] == g'[k] {
      if k == i {
        GroupedEntryExtended(p, rec, sep, k);
      } else {
        assert d[k] != d[i];
        GroupedEntryKept(p, rec, sep, k);
      }
    }
  }

  /** A dated record at a location not listed yet gets a last entry of its
      own, holding its range alone. */
  lemma GroupedEntryNew(p: seq<LocationRecord>, rec: LocationRecord, sep: string)
    requires YearsOf(rec) != []
    requires rec.location !in DatedLocations(p)
    ensures var d, d' := Distinct(DatedLocations(p)), Distinct(DatedLocations(p + [rec]));
      && d' == d + [rec.location]
      && Grouped(p + [rec], sep)[|d|] == rec.location + ":" + YearRange(YearsOf(rec))
  {
    var recs, loc := p + [rec], rec.location;
    var dl := DatedLocations(p);
    assert recs[..|p|] == p;
    assert DatedLocations(recs) == dl + [loc];
    DistinctAppend(dl, loc);
    RangesAtEmpty(p, loc);
    RangesAtStep(p, rec, loc);
  }

  /** A dated record at a location not listed yet adds an entry at the end. */
  lemma GroupedStepNew(p: seq<LocationRecord>, rec: LocationRecord, sep: string)
    requires YearsOf(rec) != []
    requires rec.location !in DatedLocations(p)
    ensures var g, rg := Grouped(p, sep), YearRange(YearsOf(rec));
      g + [rec.location + ":" + rg] == Grouped(p + [rec], sep)
  {
    var g, g' := Grouped(p, sep), Grouped(p + [rec], sep);
    GroupedEntryNew(p, rec, sep);
    GroupedEntriesKeptBeforeNew(p, rec, sep);
    assert g' == g'[..|g|] + [g'[|g|]];
  }

  /** A dated record at a new location leaves the earlier entries as they are. */
  lemma GroupedEntriesKeptBeforeNew(p: seq<LocationRecord>, rec: LocationRecord, sep: string)
    requires YearsOf(rec) != []
    requires rec.location !in DatedLocations(p)
    ensures var g, g' := Grouped(p, sep), Grouped(p + [rec], sep);
      |g'| == |g| + 1 && g'[..|g|] == g
  {
    var d := Distinct(DatedLocations(p));
    var g, g' := Grouped(p, sep), Grouped(p + [rec], sep);
    GroupedEntryNew(p, rec, sep);
    forall k | 0 <= k < |g| ensures g'[k] == g[k] {
      assert d[k] in DatedLocations(p);
      GroupedEntryKept(p, rec, sep, k);
    }
  }

  /** One dated record added to grouped entries updates them as the grouped
      entries of the longer sequence. */
  lemma GroupedStep(p: seq<LocationRecord>, rec: LocationRecord, sep: string)
    requires NoColons(p) && YearsOf(rec) != []
    ensures AddRange(Grouped(p, sep), rec.location, YearRange(YearsOf(rec)), sep) == Grouped(p + [rec], sep)
  {
    var d, g := Distinct(DatedLocations(p)), Grouped(p, sep);
    GroupedHeads(p, sep);
    FindHeadOfDistinct(g, d, rec.location);
    match FindHead(g, rec.location)
    case Some(i) => GroupedStepKnown(p, rec, sep, i);
    case None => GroupedStepNew(p, rec, sep);
  }
}
