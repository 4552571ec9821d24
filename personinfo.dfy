/** Assembling a person dictionary from the result rows of one person: by
    majority and thresholds (`create_person_info_from_results`, its `_with_id`
    form and the ID check of `get_all_person_info_strict`), and by the
    first-truthy-value fold of `get_all_person_info` and
    `get_person_info_retry_after`. */
module PersonInfo {
  import opened Base
  import opened Sequences
  import opened Counting
  import opened Identifiers

  /** The dictionary `create_person_info_from_results` returns. `name` is
      whatever the caller passes; `_with_id` passes the most common
      `personLabel`, which may be None. */
  datatype PersonSummary = PersonSummary(
    name: Option<string>,
    birthPlace: Option<string>,
    birthDate: Option<string>,
    deathDate: Option<string>,
    deathPlace: Option<string>,
    gender: Option<string>,
    citizenship: Option<string>,
    locations: string,
    occupation: string,
    locationDates: seq<LocationRecord>)

  /** A person dictionary with its `id` entry. */
  datatype IdentifiedPerson = IdentifiedPerson(id: Option<string>, info: PersonSummary)

  /** The row keys of the scalar fields. */
  const BirthPlaceKey := "placeOfBirthLabel"
  const BirthDateKey := "dateOfBirth"
  const DeathDateKey := "dateOfDeath"
  const DeathPlaceKey := "placeOfDeathLabel"
  const GenderKey := "genderLabel"
  const CitizenshipKey := "citizenshipLabel"

  /** The keys read by majority, in the order of the dictionary's fields. */
  const SummaryKeys: seq<string> :=
    [BirthPlaceKey, BirthDateKey, DeathDateKey, DeathPlaceKey, GenderKey, CitizenshipKey]

  /** `threshold="linear", rate=1/4, shift=0.49` for work locations. */
  const LocationLinear := LinearParams(0.0, 0.25, 0.49)

  /** The occupations that pass the default linear threshold. */
  function AcceptedOccupations(rows: seq<Row>): (vs: seq<Option<string>>)
    ensures None !in vs
  {
    NoneOnlyWithIntegerThreshold("occupationLabel", rows, Linear(DefaultLinear), "max");
    AcceptedValues("occupationLabel", rows, Linear(DefaultLinear), "max")
  }

  /** The work locations that pass the location threshold. */
  function AcceptedLocations(rows: seq<Row>): (vs: seq<Option<string>>)
    ensures None !in vs
  {
    NoneOnlyWithIntegerThreshold("workLocationLabel", rows, Linear(LocationLinear), "max");
    AcceptedValues("workLocationLabel", rows, Linear(LocationLinear), "max")
  }

  /** The strings of a list without None, for `",".join`. */
  function Present(vs: seq<Option<string>>): (ss: seq<string>)
    requires None !in vs
    ensures |ss| == |vs|
    ensures forall i :: 0 <= i < |vs| ==> vs[i] == Some(ss[i])
  {
    if vs == [] then []
    else
      assert vs[|vs| - 1] in vs;
      Present(vs[..|vs| - 1]) + [vs[|vs| - 1].value]
  }

  /** The location records of the rows whose work location is in `accepted`,
      in row order (repeats included). */
  function AcceptedRecords(rows: seq<Row>, accepted: seq<Option<string>>): (recs: seq<LocationRecord>)
    requires None !in accepted
    ensures forall r :: r in recs ==> Some(r.location) in accepted
    ensures forall i :: 0 <= i < |rows| && Lookup(rows[i], "workLocationLabel") in accepted ==> RecordOf(rows[i]) in recs
  {
    if rows == [] then []
    else
      var n := |rows| - 1;
      var p := AcceptedRecords(rows[..n], accepted);
      assert forall i :: 0 <= i < n ==> rows[..n][i] == rows[i];
      if Lookup(rows[n], "workLocationLabel") in accepted then p + [RecordOf(rows[n])] else p
  }

  /** What `create_person_info_from_results` builds from non-empty rows. */
  function PersonSummaryOf(name: Option<string>, rows: seq<Row>): PersonSummary
    requires rows != []
  {
    PersonSummary(
      name,
      MostCommonValue(BirthPlaceKey, rows),
      MostCommonValue(BirthDateKey, rows),
      MostCommonValue(DeathDateKey, rows),
      MostCommonValue(DeathPlaceKey, rows),
      MostCommonValue(GenderKey, rows),
      MostCommonValue(CitizenshipKey, rows),
      Join(",", Present(AcceptedLocations(rows))),
      Join(",", Present(AcceptedOccupations(rows))),
      Distinct(AcceptedRecords(rows, AcceptedLocations(rows))))
  }

  lemma AcceptedRecordsStep(rows: seq<Row>, accepted: seq<Option<string>>, i: nat)
    requires None !in accepted && i < |rows|
    ensures AcceptedRecords(rows[..i + 1], accepted) ==
      var p := AcceptedRecords(rows[..i], accepted);
      if Lookup(rows[i], "workLocationLabel") in accepted then p + [RecordOf(rows[i])] else p
  {
    assert rows[..i + 1][..i] == rows[..i];
  }

  /** The `location_dates` loop of `create_person_info_from_results`: the
      record of each row whose work location is acceptable, unless an equal
      record is already listed. */
  method CollectLocationDates(rows: seq<Row>, acceptableLocations: seq<Option<string>>)
    returns (locationDates: seq<LocationRecord>)
    requires None !in acceptableLocations
    ensures locationDates == Distinct(AcceptedRecords(rows, acceptableLocations))
  {
    locationDates := [];
    for i := 0 to |rows|
      invariant locationDates == Distinct(AcceptedRecords(rows[..i], acceptableLocations))
    {
      AcceptedRecordsStep(rows, acceptableLocations, i);
      var workLocation := Lookup(rows[i], "workLocationLabel");
      if workLocation in acceptableLocations {
        DistinctAppend(AcceptedRecords(rows[..i], acceptableLocations), RecordOf(rows[i]));
        var locationInfo := LocationRecord(
          workLocation.value,
          Lookup(rows[i], "startTime"),
          Lookup(rows[i], "endTime"),
          Lookup(rows[i], "pointInTime"));
        if locationInfo !in locationDates {
          locationDates := locationDates + [locationInfo];
        }
      }
    }
    assert rows[..|rows|] == rows;
  }

  /** The six values read by majority, in the order of `SummaryKeys`. */
  lemma SummaryValues(rows: seq<Row>)
    requires rows != []
    ensures var vs := MostCommonValues(SummaryKeys, rows);
      && |vs| == 6
      && vs[0] == MostCommonValue(BirthPlaceKey, rows)
      && vs[1] == MostCommonValue(BirthDateKey, rows)
      && vs[2] == MostCommonValue(DeathDateKey, rows)
      && vs[3] == MostCommonValue(DeathPlaceKey, rows)
      && vs[4] == MostCommonValue(GenderKey, rows)
      && vs[5] == MostCommonValue(CitizenshipKey, rows)
  {
    MostCommonValuesAt(SummaryKeys, rows, 0);
    MostCommonValuesAt(SummaryKeys, rows, 1);
    MostCommonValuesAt(SummaryKeys, rows, 2);
    MostCommonValuesAt(SummaryKeys, rows, 3);
    MostCommonValuesAt(SummaryKeys, rows, 4);
    MostCommonValuesAt(SummaryKeys, rows, 5);
  }

  /** `create_person_info_from_results`: empty rows make `max` raise. */
  method CreatePersonInfoFromResults(name: Option<string>, rows: seq<Row>) returns (r: Result<PersonSummary>)
    ensures r.Err? <==> rows == []
    ensures r.Err? ==> r.error == EmptyMax
    ensures r.Ok? ==> r.value == PersonSummaryOf(name, rows)
  {
    var mostCommonKeys := MostCommonResults(SummaryKeys, rows);
    if mostCommonKeys.Err? {
      return Err(mostCommonKeys.error);
    }
    SummaryValues(rows);
    var keys := mostCommonKeys.value.values;
    var occupations := AboveThresholdCounts(["occupationLabel"], rows, Linear(DefaultLinear), "max");
    AcceptedPerKeyAt(["occupationLabel"], rows, Linear(DefaultLinear), "max", 0);
    assert occupations.value.value == AcceptedOccupations(rows);
    var occupation := Join(",", Present(occupations.value.value));
    var acceptable := AboveThresholdCounts(["workLocationLabel"], rows, Linear(LocationLinear), "max");
    AcceptedPerKeyAt(["workLocationLabel"], rows, Linear(LocationLinear), "max", 0);
    var acceptableLocations := acceptable.value.value;
    assert acceptableLocations == AcceptedLocations(rows);
    var locations := Join(",", Present(acceptableLocations));
    var locationDates := CollectLocationDates(rows, acceptableLocations);
    r := Ok(PersonSummary(name, keys[0], keys[1], keys[2], keys[3], keys[4], keys[5],
      locations, occupation, locationDates));
  }

  /** `location_dates` holds no record twice, only records at accepted
      locations, and the record of every row at an accepted location. */
  lemma LocationDatesAreDistinctAcceptedRecords(name: Option<string>, rows: seq<Row>)
    requires rows != []
    ensures var dates, accepted := PersonSummaryOf(name, rows).locationDates, AcceptedLocations(rows);
      && NoDuplicates(dates)
      && (forall r :: r in dates ==> Some(r.location) in accepted)
      && (forall i :: 0 <= i < |rows| && Lookup(rows[i], "workLocationLabel") in accepted ==> RecordOf(rows[i]) in dates)
  {
  }

  /** `create_person_info_from_results_with_id` */
  method CreatePersonInfoFromResultsWithId(personId: string, rows: seq<Row>) returns (r: Result<IdentifiedPerson>)
    ensures r.Err? <==> rows == []
    ensures r.Err? ==> r.error == EmptyMax
    ensures r.Ok? ==> r.value == IdentifiedPerson(Some(personId), PersonSummaryOf(MostCommonValue("personLabel", rows), rows))
  {
    var name := MostCommonResults(["personLabel"], rows);
    if name.Err? {
      return Err(name.error);
    }
    MostCommonValuesAt(["personLabel"], rows, 0);
    var info := CreatePersonInfoFromResults(name.value.value, rows);
    return Ok(IdentifiedPerson(Some(personId), info.value));
  }

  /** The result handling of `get_all_person_info_strict`: a person dictionary
      with its ID when the rows carry a valid ID, None otherwise. It relies on
      `GetIdFromResults` returning None when no valid ID is present. */
  method StrictPersonInfo(personName: string, rows: seq<Row>) returns (r: Option<IdentifiedPerson>)
    ensures r.Some? <==> GetIdFromResults(rows).Some?
    ensures r.Some? ==> r.value == IdentifiedPerson(GetIdFromResults(rows), PersonSummaryOf(Some(personName), rows))
  {
    if rows == [] {
      return None;
    }
    var id := GetIdFromResults(rows);
    if id.Some? && id.value != "" {
      var info := CreatePersonInfoFromResults(Some(personName), rows);
      return Some(IdentifiedPerson(id, info.value));
    }
    return None;
  }

  /** The result handling of `get_all_person_info_strict` as written: it calls
      the raising `get_id_from_results`, so non-empty rows without a valid ID
      raise ValueError instead of giving None. */
  method StrictPersonInfoAsWritten(personName: string, rows: seq<Row>) returns (r: Result<Option<IdentifiedPerson>>)
    ensures r.Err? <==> rows != [] && GetIdFromResults(rows).None?
    ensures r.Err? ==> r.error == EmptyMax
    ensures r.Ok? ==> (r.value.Some? <==> GetIdFromResults(rows).Some?)
    ensures r.Ok? && r.value.Some? ==>
      r.value.value == IdentifiedPerson(GetIdFromResults(rows), PersonSummaryOf(Some(personName), rows))
  {
    if rows == [] {
      return Ok(None);
    }
    var id := GetIdFromResultsAsWritten(rows);
    AsWrittenRaisesWhereNoValidId(rows);
    if id.Err? {
      return Err(id.error);
    }
    if id.value.Some? && id.value.value != "" {
      var info := CreatePersonInfoFromResults(Some(personName), rows);
      return Ok(Some(IdentifiedPerson(id.value, info.value)));
    }
    return Ok(None);
  }

  /** Which optional parts of the dictionary a query asked for
      (`get_person_info_retry_after`'s `*_return` flags; all set in
      `get_all_person_info`). */
  datatype Fields = Fields(
    birthPlace: bool, birthDate: bool, deathDate: bool, deathPlace: bool,
    gender: bool, citizenship: bool, occupation: bool, workLocation: bool)

  const AllFields := Fields(true, true, true, true, true, true, true, true)

  /** The dictionary the row fold builds; `workLocations` is `location_dates`
      in `get_all_person_info` and `work_locations` in
      `get_person_info_retry_after`. */
  datatype FoldedInfo = FoldedInfo(
    name: string,
    birthPlace: Option<string>,
    birthDate: Option<string>,
    deathDate: Option<string>,
    deathPlace: Option<string>,
    gender: Option<string>,
    citizenship: Option<string>,
    occupation: seq<string>,
    workLocations: seq<LocationRecord>)

  /** A scalar field after the rows: overwritten by each row while it is not
      truthy, kept once it is. */
  function FirstSet(key: string, rows: seq<Row>): (v: Option<string>)
    ensures v.Some? ==> exists i :: 0 <= i < |rows| && Lookup(rows[i], key) == v
  {
    if rows == [] then None
    else
      var n := |rows| - 1;
      var p := FirstSet(key, rows[..n]);
      assert forall i :: 0 <= i < n ==> rows[..n][i] == rows[i];
      if Truthy(p) then p else Lookup(rows[n], key)
  }

  /** The truthy values of `key`, in row order. */
  function TruthyValues(key: string, rows: seq<Row>): (vs: seq<string>)
    ensures forall v :: v in vs <==> v != "" && exists i :: 0 <= i < |rows| && Lookup(rows[i], key) == Some(v)
  {
    if rows == [] then []
    else
      var n := |rows| - 1;
      var p := TruthyValues(key, rows[..n]);
      assert forall i :: 0 <= i < n ==> rows[..n][i] == rows[i];
      var v := Lookup(rows[n], key);
      if Truthy(v) then p + [v.value] else p
  }

  /** The location records of the rows with a truthy work location, in row
      order. */
  function TruthyRecords(rows: seq<Row>): (recs: seq<LocationRecord>)
    ensures forall r :: r in recs <==> exists i :: 0 <= i < |rows| && Truthy(Lookup(rows[i], "workLocationLabel")) && RecordOf(rows[i]) == r
  {
    if rows == [] then []
    else
      var n := |rows| - 1;
      var p := TruthyRecords(rows[..n]);
      assert forall i :: 0 <= i < n ==> rows[..n][i] == rows[i];
      if Truthy(Lookup(rows[n], "workLocationLabel")) then p + [RecordOf(rows[n])] else p
  }

  function Wanted(flag: bool, v: Option<string>): Option<string>
  {
    if flag then v else None
  }

  /** What the fold builds from non-empty rows. */
  function Folded(name: string, rows: seq<Row>, fields: Fields): FoldedInfo
  {
    FoldedInfo(
      name,
      Wanted(fields.birthPlace, FirstSet(BirthPlaceKey, rows)),
      Wanted(fields.birthDate, FirstSet(BirthDateKey, rows)),
      Wanted(fields.deathDate, FirstSet(DeathDateKey, rows)),
      Wanted(fields.deathPlace, FirstSet(DeathPlaceKey, rows)),
      Wanted(fields.gender, FirstSet(GenderKey, rows)),
      Wanted(fields.citizenship, FirstSet(CitizenshipKey, rows)),
      if fields.occupation then Distinct(TruthyValues("occupationLabel", rows)) else [],
      if fields.workLocation then Distinct(TruthyRecords(rows)) else [])
  }

  lemma FirstSetStep(key: string, rows: seq<Row>, i: nat)
    requires i < |rows|
    ensures FirstSet(key, rows[..i + 1]) ==
      var p := FirstSet(key, rows[..i]);
      if Truthy(p) then p else Lookup(rows[i], key)
  {
    assert rows[..i + 1][..i] == rows[..i];
  }

  lemma TruthyValuesStep(key: string, rows: seq<Row>, i: nat)
    requires i < |rows|
    ensures Distinct(TruthyValues(key, rows[..i + 1])) ==
      var d, o := Distinct(TruthyValues(key, rows[..i])), Lookup(rows[i], key);
      if Truthy(o) && o.value !in d then d + [o.value] else d
  {
    assert rows[..i + 1][..i] == rows[..i];
    var o := Lookup(rows[i], key);
    if o.Some? {
      DistinctAppend(TruthyValues(key, rows[..i]), o.value);
    }
  }

  lemma TruthyRecordsStep(rows: seq<Row>, i: nat)
    requires i < |rows|
    ensures Distinct(TruthyRecords(rows[..i + 1])) ==
      var d := Distinct(TruthyRecords(rows[..i]));
      if Truthy(Lookup(rows[i], "workLocationLabel")) && RecordOf(rows[i]) !in d then d + [RecordOf(rows[i])] else d
  {
    assert rows[..i + 1][..i] == rows[..i];
    if Lookup(rows[i], "workLocationLabel").Some? {
      DistinctAppend(TruthyRecords(rows[..i]), RecordOf(rows[i]));
    }
  }

  /** The dictionary before the first row. */
  function Unset(name: string): FoldedInfo
  {
    FoldedInfo(name, None, None, None, None, None, None, [], [])
  }

  /** `if flag and not field: field = value` */
  function Refill(flag: bool, field: Option<string>, value: Option<string>): (r: Option<string>)
    ensures Truthy(field) ==> r == field
    ensures !flag ==> r == field
  {
    if flag && !Truthy(field) then value else field
  }

  /** `if x not in xs: xs.append(x)` */
  function AppendNew<T(==)>(xs: seq<T>, x: T): (r: seq<T>)
    ensures xs <= r && |r| <= |xs| + 1
    ensures x in r && (x in xs ==> r == xs)
  {
    if x !in xs then xs + [x] else xs
  }

  /** What one pass of the loop body does with one row. */
  function AfterRow(info: FoldedInfo, row: Row, fields: Fields): (next: FoldedInfo)
    ensures next.name == info.name
    ensures Truthy(info.birthPlace) ==> next.birthPlace == info.birthPlace
    ensures Truthy(info.birthDate) ==> next.birthDate == info.birthDate
    ensures Truthy(info.deathDate) ==> next.deathDate == info.deathDate
    ensures Truthy(info.deathPlace) ==> next.deathPlace == info.deathPlace
    ensures Truthy(info.gender) ==> next.gender == info.gender
    ensures Truthy(info.citizenship) ==> next.citizenship == info.citizenship
    ensures info.occupation <= next.occupation && |next.occupation| <= |info.occupation| + 1
    ensures info.workLocations <= next.workLocations && |next.workLocations| <= |info.workLocations| + 1
  {
    var o, w := Lookup(row, "occupationLabel"), Lookup(row, "workLocationLabel");
    info.(
      birthPlace := Refill(fields.birthPlace, info.birthPlace, Lookup(row, BirthPlaceKey)),
      birthDate := Refill(fields.birthDate, info.birthDate, Lookup(row, BirthDateKey)),
      deathDate := Refill(fields.deathDate, info.deathDate, Lookup(row, DeathDateKey)),
      deathPlace := Refill(fields.deathPlace, info.deathPlace, Lookup(row, DeathPlaceKey)),
      gender := Refill(fields.gender, info.gender, Lookup(row, GenderKey)),
      citizenship := Refill(fields.citizenship, info.citizenship, Lookup(row, CitizenshipKey)),
      occupation :=
        if fields.occupation && Truthy(o) then AppendNew(info.occupation, o.value) else info.occupation,
      workLocations :=
        if fields.workLocation && Truthy(w) then AppendNew(info.workLocations, RecordOf(row)) else info.workLocations)
  }

  /** The dictionary after the loop body has run on each row in turn. */
  function FoldRows(name: string, rows: seq<Row>, fields: Fields): (info: FoldedInfo)
    ensures info.name == name
    ensures |info.occupation| <= |rows| && |info.workLocations| <= |rows|
  {
    if rows == [] then Unset(name)
    else AfterRow(FoldRows(name, rows[..|rows| - 1], fields), rows[|rows| - 1], fields)
  }

  /** Row by row, the loop builds the dictionary described field by field by
      `Folded`. */
  lemma {:induction false} FoldRowsIsFolded(name: string, rows: seq<Row>, fields: Fields)
    ensures FoldRows(name, rows, fields) == Folded(name, rows, fields)
  {
    if rows != [] {
      var n := |rows| - 1;
      FoldRowsIsFolded(name, rows[..n], fields);
      assert rows[..n + 1] == rows;
      FirstSetStep(BirthPlaceKey, rows, n);
      FirstSetStep(BirthDateKey, rows, n);
      FirstSetStep(DeathDateKey, rows, n);
      FirstSetStep(DeathPlaceKey, rows, n);
      FirstSetStep(GenderKey, rows, n);
      FirstSetStep(CitizenshipKey, rows, n);
      TruthyValuesStep("occupationLabel", rows, n);
      TruthyRecordsStep(rows, n);
    }
  }

  /** The row loop of `get_all_person_info` (with `AllFields`) and of
      `get_person_info_retry_after`; no rows give None. */
  method CollectPersonInfo(name: string, rows: seq<Row>, fields: Fields) returns (info: Option<FoldedInfo>)
    ensures info.None? <==> rows == []
    ensures info.Some? ==> info.value == Folded(name, rows, fields)
  {
    if rows == [] {
      return None;
    }
    var personInfo := Unset(name);
    for i := 0 to |rows|
      invariant personInfo == FoldRows(name, rows[..i], fields)
    {
      FoldRowsStep(name, rows, fields, i);
      var result := rows[i];
      personInfo := personInfo.(
        birthPlace := Refill(fields.birthPlace, personInfo.birthPlace, Lookup(result, BirthPlaceKey)),
        birthDate := Refill(fields.birthDate, personInfo.birthDate, Lookup(result, BirthDateKey)),
        deathDate := Refill(fields.deathDate, personInfo.deathDate, Lookup(result, DeathDateKey)),
        deathPlace := Refill(fields.deathPlace, personInfo.deathPlace, Lookup(result, DeathPlaceKey)),
        gender := Refill(fields.gender, personInfo.gender, Lookup(result, GenderKey)),
        citizenship := Refill(fields.citizenship, personInfo.citizenship, Lookup(result, CitizenshipKey)));
      if fields.occupation {
        var o := Lookup(result, "occupationLabel");
        if Truthy(o) && o.value !in personInfo.occupation {
          personInfo := personInfo.(occupation := personInfo.occupation + [o.value]);
        }
      }
      if fields.workLocation {
        var workLocation := Lookup(result, "workLocationLabel");
        if Truthy(workLocation) {
          var locationInfo := LocationRecord(
            workLocation.value,
            Lookup(result, "startTime"),
            Lookup(result, "endTime"),
            Lookup(result, "pointInTime"));
          if locationInfo !in personInfo.workLocations {
            personInfo := personInfo.(workLocations := personInfo.workLocations + [locationInfo]);
          }
        }
      }
    }
    assert rows[..|rows|] == rows;
    FoldRowsIsFolded(name, rows, fields);
    info := Some(personInfo);
  }

  lemma FoldRowsStep(name: string, rows: seq<Row>, fields: Fields, i: nat)
    requires i < |rows|
    ensures FoldRows(name, rows[..i + 1], fields) == AfterRow(FoldRows(name, rows[..i], fields), rows[i], fields)
  {
    assert rows[..i + 1][..i] == rows[..i];
  }

  /** Row `i` is the first row with a truthy value for `key`. */
  predicate FirstTruthyAt(key: string, rows: seq<Row>, i: nat)
  {
    && i < |rows|
    && Truthy(Lookup(rows[i], key))
    && forall j :: 0 <= j < i ==> !Truthy(Lookup(rows[j], key))
  }

  /** A scalar field ends as the value of the first row that has a truthy one;
      when no row has, it ends as the last row's value (None or ""), and None
      without rows. */
  lemma FirstSetIsFirstTruthy(key: string, rows: seq<Row>)
    ensures (exists i :: 0 <= i < |rows| && Truthy(Lookup(rows[i], key))) ==>
      exists i: nat :: FirstTruthyAt(key, rows, i) && FirstSet(key, rows) == Lookup(rows[i], key)
    ensures (forall i :: 0 <= i < |rows| ==> !Truthy(Lookup(rows[i], key))) ==>
      FirstSet(key, rows) == if rows == [] then None else Lookup(rows[|rows| - 1], key)
  {
    if exists i :: 0 <= i < |rows| && Truthy(Lookup(rows[i], key)) {
      var i :| 0 <= i < |rows| && Truthy(Lookup(rows[i], key));
      var k := FirstTruthyFrom(key, rows, i);
      FirstSetAtFirstTruthy(key, rows, k);
    } else {
      FirstSetWithoutTruthy(key, rows);
    }
  }

  /** The first truthy row at or before row `i`, when row `i` is truthy. */
  lemma {:induction false} FirstTruthyFrom(key: string, rows: seq<Row>, i: nat) returns (k: nat)
    requires i < |rows| && Truthy(Lookup(rows[i], key))
    ensures k <= i && FirstTruthyAt(key, rows, k)
  {
    if exists j :: 0 <= j < i && Truthy(Lookup(rows[j], key)) {
      var j :| 0 <= j < i && Truthy(Lookup(rows[j], key));
      k := FirstTruthyFrom(key, rows, j);
    } else {
      k := i;
    }
  }

  /** The fold keeps the value of the first truthy row. */
  lemma {:induction false} FirstSetAtFirstTruthy(key: string, rows: seq<Row>, k: nat)
    requires FirstTruthyAt(key, rows, k)
    ensures FirstSet(key, rows) == Lookup(rows[k], key)
  {
    var n := |rows| - 1;
    var p := rows[..n];
    if k < n {
      assert FirstTruthyAt(key, p, k) by {
        assert forall j :: 0 <= j <= k ==> p[j] == rows[j];
      }
      FirstSetAtFirstTruthy(key, p, k);
      assert p[k] == rows[k];
    } else {
      assert forall j :: 0 <= j < n ==> !Truthy(Lookup(p[j], key)) by {
        assert forall j :: 0 <= j < n ==> p[j] == rows[j];
      }
      FirstSetWithoutTruthy(key, p);
    }
  }

  /** Without a truthy row the fold ends as the last row's value. */
  lemma {:induction false} FirstSetWithoutTruthy(key: string, rows: seq<Row>)
    requires forall i :: 0 <= i < |rows| ==> !Truthy(Lookup(rows[i], key))
    ensures FirstSet(key, rows) == if rows == [] then None else Lookup(rows[|rows| - 1], key)
    ensures !Truthy(FirstSet(key, rows))
  {
    if rows != [] {
      var n := |rows| - 1;
      var p := rows[..n];
      assert forall j :: 0 <= j < n ==> p[j] == rows[j];
      FirstSetWithoutTruthy(key, p);
    }
  }

  /** Once a scalar field holds a truthy value, later rows leave it as it is. */
  lemma {:induction false} FirstSetNeverChanges(key: string, rows: seq<Row>, i: nat, j: nat)
    requires i <= j <= |rows|
    requires Truthy(FirstSet(key, rows[..i]))
    ensures FirstSet(key, rows[..j]) == FirstSet(key, rows[..i])
    decreases j - i
  {
    if i < j {
      FirstSetNeverChanges(key, rows, i, j - 1);
      assert rows[..j][..j - 1] == rows[..j - 1];
    }
  }

  /** The occupations and work locations the fold collects hold each truthy
      value (record) once, in the order of first appearance. */
  lemma FoldedListsAreDistinct(name: string, rows: seq<Row>)
    ensures var f := Folded(name, rows, AllFields);
      && NoDuplicates(f.occupation)
      && (forall o :: o in f.occupation <==> o != "" && exists i :: 0 <= i < |rows| && Lookup(rows[i], "occupationLabel") == Some(o))
      && InFirstSeenOrder(f.occupation, TruthyValues("occupationLabel", rows))
      && NoDuplicates(f.workLocations)
      && InFirstSeenOrder(f.workLocations, TruthyRecords(rows))
  {
    DistinctInFirstSeenOrder(TruthyValues("occupationLabel", rows));
    DistinctInFirstSeenOrder(TruthyRecords(rows));
  }
}
