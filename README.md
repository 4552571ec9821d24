# Wikidata person-information client: a verified model of its data-shaping core

The client sends SPARQL queries about people to the Wikidata endpoint and turns
the result rows into person records. This project models the deterministic part
of `functions.py` and proves what it does. The HTTP reply is taken as given:
the result rows of a query, and for the retry loop the sequence of replies the
endpoint would send.

- **Row aggregation** (module `Counting`, file `counting.dfy`):
  - `key_value_counts` as a list of (value, count) tallies in the dictionary's insertion order;
  - `most_common_results` as the first maximum of those tallies;
  - `linear_thresholding` and `above_threshold_counts` with their int, ratio, "linear" and invalid thresholds.
- **Identifiers** (`Identifiers`): the last `/`-segment of the `person` URI, the
  `^Q\d+$` filter and `get_id_from_results`, both as written and corrected (see Findings).
- **Person records** (`PersonInfo`):
  - `create_person_info_from_results(_with_id)`, including the de-duplicated `location_dates` list;
  - the result handling of `get_all_person_info_strict`;
  - the first-truthy-value fold of `get_all_person_info` and `get_person_info_retry_after`, as a method with a loop.
- **Years and places** (`Years`, `Places`): `find_year`,
  `get_years_from_response_location`, `get_places_from_response` and
  `get_places_with_years_from_response`, with the in-place rewrite of `places[i]`.
- **Batching** (`Batching`): chunks of 150 inputs, the list of inputs missing
  from a batch result, and the merge of the batch and retry dictionaries.
- **Retries** (`Retry`): the `for attempt in range(retries)` loop of
  `sparql_query` and its variants, with fixed, staged and `Retry-After` delays.

Shared vocabulary (Option, Result and the exceptions raised, the row type) is in
`base.dfy`. Generic list facts are in `sequences.dfy`: counting, first-seen-order
de-duplication, filtering and joining. Decimal digit strings are in `decimal.dfy`.

A row is a `map<string, string>` from variable name to the binding's `value`.
`result.get(key, {}).get('value', None)` is `Base.Lookup`, which gives an
`Option<string>`. A Python dictionary built in insertion order is modelled by the
list of its keys in first-seen order (`Sequences.Distinct`), each paired with its
`Count`. `max(d, key=d.get)` returns the first key with the largest value, which
is `Counting.FirstMax`. Exceptions the code raises are `Err` values of `Base.Result`.

## Model

| member | source | states |
|---|---|---|
| Decimal.DecimalRoundTrip | functions.py:372 | `int` of the decimal text of a natural number gives that number back |
| Decimal.DecimalValue | functions.py:372 | `int()` of a digit string is 0 exactly when every digit is '0'; reading back `str(n)` gives `n` (`Decimal.DecimalRoundTrip`); also functions.py:128 |
| Decimal.LeadingZeroIgnored | functions.py:372 | `int()` ignores leading zeros: a '0' in front of a digit string does not change its value |
| Decimal.DecimalValueAppend | functions.py:372 | place value: one more digit on the right gives ten times the value so far plus that digit |
| Counting.TallyOver | functions.py:217-218 | each tallied value is paired with its number of occurrences |
| Counting.TalliesSum | functions.py:217-218 | the counts of all distinct values add up to the number of values |
| Counting.TalliesFacts | functions.py:217-218 | a counts dictionary holds every value once, in first-seen order, with a count ≥ 1 equal to its number of occurrences, and the counts sum to the number of values |
| Counting.KeyValueCounts | functions.py:206-219 | no more distinct values than rows, and the counts add up to the number of rows |
| Counting.KeyValueCountsFacts | functions.py:206-219 | every value that occurs is counted exactly once, with a count ≥ 1 equal to its number of occurrences; keys are in first-seen order; counts sum to `len(results)`; a row lacking the key is counted under None |
| Counting.NoCountsWithoutRows | functions.py:217-218 | the counts dictionary is empty exactly when there are no rows |
| Counting.FirstMax | functions.py:235 | `max(counts, key=counts.get)`: an entry with the largest count, and no earlier entry has that count |
| Counting.Mode | functions.py:234-235 | the most common value is one of the values |
| Counting.ModeIsEarliestMostFrequent | functions.py:234-235 | the most common value occurs at least as often as any other; among equally frequent values it is the first seen |
| Counting.ModeBeats | functions.py:235 | a given value occurs no more often than the most common one, and if equally often it was not seen earlier |
| Counting.MostCommonValueIsEarliestMode | functions.py:234-235 | the most common value of a key is the earliest-seen most frequent value of that key, None included |
| Counting.MostCommonValue | functions.py:233-235 | the value returned for a key is one the rows give for that key (None for a row without it) |
| Counting.MostCommonValues | functions.py:232-236 | one most common value per key |
| Counting.MostCommonValuesAt | functions.py:232-236 | the value at position i is the most common value of key i |
| Counting.MostCommonResults | functions.py:222-240 | raises (ValueError of `max`) exactly when keys are given and there are no rows; otherwise one most common value per key, unwrapped when there is one key |
| Counting.LinearThreshold | functions.py:187-203 | with a non-negative rate, a largest count at or above `low` gives a threshold at or above `low + shift` |
| Counting.LinearThresholdIsMonotone | functions.py:187-203 | with a non-negative rate a larger highest count never lowers the threshold |
| Counting.DefaultLinearCalibration | functions.py:187-203 | with the default line a count of 1 is accepted when the highest count is 1, and a count of 2 is rejected when it is 4 |
| Counting.AcceptedValues | functions.py:255-267 | the accepted values of a key are values the rows give for it, no more of them than rows |
| Counting.AcceptedPerKey | functions.py:255-272 | one list of accepted values per key |
| Counting.AcceptedPerKeyAt | functions.py:255-272 | list i holds the accepted values of key i |
| Counting.AboveThresholdCounts | functions.py:243-272 | raises "Invalid threshold value." for an unsupported threshold and ValueError of `max` for a max-based threshold with no rows (both only when keys are given); otherwise the accepted values per key, unwrapped when there is one key |
| Counting.AcceptedInFirstSeenOrder | functions.py:255-267 | the accepted values are listed once each, in first-seen order |
| Counting.MinCountSelectsExactly | functions.py:257-258 | an int threshold keeps exactly the values with count ≥ threshold, None included |
| Counting.LinearSelectsExactly | functions.py:265-267 | "linear" keeps exactly the non-None values whose count reaches the line at the largest count |
| Counting.TotalRatioSelectsExactly | functions.py:259-264 | a ratio against baseline "total" keeps exactly the non-None values whose count divided by the number of rows reaches the ratio |
| Counting.NoneOnlyWithIntegerThreshold | functions.py:259-267 | ratio and "linear" thresholds never keep None |
| Identifiers.LastSegment | functions.py:287 | `split('/')[-1]`: a suffix holding no '/', preceded by '/' unless it is the whole string |
| Identifiers.LastSegmentOfPath | functions.py:287 | the last segment of `prefix/segment` is `segment` |
| Identifiers.WikidataIdShape | functions.py:288 | `re.match(r'^Q\d+$', i)` accepts exactly 'Q' followed by one or more digits, optionally followed by one final newline |
| Identifiers.WikidataIdEdgeCases | functions.py:288 | "Q42" and "Q1" plus a newline are accepted; "Q", "Q" plus a newline, "Q1" plus two newlines and "q42" are rejected |
| Identifiers.GetIdFromResults | functions.py:276-292 | the id is a `Q<digits>` id taken from some row; None exactly when no row has a valid id (empty input included) |
| Identifiers.GetIdFromResultsAsWritten | functions.py:276-292 | raises (ValueError of `max`) exactly when the rows are non-empty and none has a valid id; an id returned is a `Q<digits>` id taken from some row |
| Identifiers.GetIdIsEarliestMostCommonValidId | functions.py:288-290 | the id returned is the most frequent valid id, the earliest seen on ties |
| Identifiers.EntityUriId | functions.py:287-288 | the last segment of an entity URI `.../Q<n>` is the valid id `Q<n>` |
| Identifiers.GetIdOfOneEntity | functions.py:286-291 | rows that all name the same entity give that entity's id |
| Identifiers.OnlyIdIsReturned | functions.py:286-291 | when every row yields the same valid id, that id is returned |
| Identifiers.AsWrittenRaisesWhereNoValidId | functions.py:286-291 | as written, non-empty rows without a valid id raise ValueError where the corrected function returns None; on every other input the two agree |
| Identifiers.AsWrittenRaisesOnRowWithoutPerson | functions.py:286-291 | a single row without `person` raises as written and gives None when corrected |
| PersonInfo.AcceptedOccupations | functions.py:322 | the accepted occupations never include None |
| PersonInfo.AcceptedLocations | functions.py:323 | the acceptable locations never include None |
| PersonInfo.Present | functions.py:322-324 | the strings `",".join` is given, one per accepted value, in order |
| PersonInfo.AcceptedRecords | functions.py:325-335 | every record's location is acceptable, and every row whose location is acceptable contributes its record |
| PersonInfo.CollectLocationDates | functions.py:325-335 | `location_dates` is the list of distinct records of acceptable locations in first-seen order |
| PersonInfo.SummaryValues | functions.py:318-321 | the six values `most_common_results` returns are, in order, those of birth place, birth date, death date, death place, gender and citizenship |
| PersonInfo.CreatePersonInfoFromResults | functions.py:295-336 | raises (ValueError of `max`) exactly when there are no rows; otherwise the most common value of each of the six keys, the "linear" occupations and locations joined by ",", and the location records |
| PersonInfo.LocationDatesAreDistinctAcceptedRecords | functions.py:325-335 | `location_dates` has no duplicates and holds only records of acceptable locations, each row with such a location being represented |
| PersonInfo.CreatePersonInfoFromResultsWithId | functions.py:339-356 | the record of `create_person_info_from_results` named after the most common `personLabel` and carrying the given id; raises exactly when there are no rows |
| PersonInfo.StrictPersonInfo | functions.py:960-974 | with the corrected `get_id_from_results`: a record is returned exactly when the rows have a valid id; it carries that id and the record built from the rows |
| PersonInfo.StrictPersonInfoAsWritten | functions.py:960-974 | on top of `get_id_from_results` as written: raises exactly when the rows are non-empty and carry no valid id, where `PersonInfo.StrictPersonInfo` returns None; otherwise the same record |
| PersonInfo.TruthyValues | functions.py:887-890 | the occupations collected are exactly the non-empty values found in the rows |
| PersonInfo.TruthyRecords | functions.py:892-901 | the location records collected are exactly those of rows with a non-empty location |
| PersonInfo.Refill | functions.py:874-886 | `if flag and not field: field = value` leaves a truthy field, and every field whose flag is off, as it was |
| PersonInfo.AppendNew | functions.py:887-901 | `if x not in xs: xs.append(x)` keeps the list as a prefix, adds at most one element, and leaves `x` in the list |
| PersonInfo.AfterRow | functions.py:874-901 | one row keeps the name and every truthy scalar field, and extends each list by at most one element at its end |
| PersonInfo.FoldRows | functions.py:874-901 | after the rows the name is unchanged and each list holds at most one element per row |
| PersonInfo.FoldRowsIsFolded | functions.py:874-901 | running the per-row update over the rows gives first-truthy scalars and distinct first-seen lists |
| PersonInfo.CollectPersonInfo | functions.py:862-902 | None exactly when there are no rows; otherwise each wanted scalar field is the first truthy value, and occupations and records are distinct in first-seen order (also functions.py:1094-1135 with feature flags) |
| PersonInfo.FirstSetIsFirstTruthy | functions.py:874-886 | a scalar field is the value of the first row where it is truthy; if there is none it is the last row's value |
| PersonInfo.FirstSet | functions.py:874-886 | a scalar field that is set holds the value some row gives for it |
| PersonInfo.FirstTruthyFrom | functions.py:874-886 | a truthy row has a first truthy row at or before it |
| PersonInfo.FirstSetAtFirstTruthy | functions.py:874-886 | the field ends as the value of the first truthy row |
| PersonInfo.FirstSetWithoutTruthy | functions.py:874-886 | with no truthy row the field ends as the last row's value, None without rows, and is not truthy |
| PersonInfo.FirstSetNeverChanges | functions.py:874-886 | once a scalar field is truthy, later rows do not change it |
| PersonInfo.FoldedListsAreDistinct | functions.py:887-901 | the occupation and location-record lists have no duplicates |
| Years.RunEnd | functions.py:371 | the end of a maximal run of digits |
| Years.FirstYearFrom | functions.py:371-372 | the scan of `\d+(?=-)` from a position finds a year only when a '-' follows that position |
| Years.FindYear | functions.py:359-373 | a year is found only in a string that contains a '-' |
| Years.FirstYearFromFindsFirstRun | functions.py:371-373 | the scan finds the first whole digit run followed by '-', or nothing when there is none |
| Years.FindYearIsFirstYearRun | functions.py:359-373 | None for None and when no digit run is followed by '-'; otherwise the value of the first such maximal run |
| Years.FindYearOfDate | functions.py:371-373 | a time value starting with a year and '-' gives that year |
| Years.FindYearOfWikidataDate | functions.py:371-373 | "1853-03-30T00:00:00Z" gives 1853 |
| Years.FindYearDropsSign | functions.py:371-373 | a year written with a leading '-' comes back without its sign |
| Years.YearsIn | functions.py:388-391 | at most one year per time field; a year is listed exactly when some field yields it |
| Years.GetYearsFromResponseLocation | functions.py:376-392 | the years of start_time, end_time and point_in_time in that order, at most three |
| Places.Render | functions.py:425-431 | the return type picks the form: the joined name gives the items joined by the separator, "string" the `str` of the list, "list" the list itself; ValueError for any other return type (also functions.py:464-470) |
| Places.GetPlacesFromResponse | functions.py:399-431 | the distinct locations in first-seen order (none when `location_dates` is missing), rendered by return type |
| Places.PlacesAreDistinctInFirstSeenOrder | functions.py:414-417 | each location occurs once, in the order first seen, and exactly the locations of the records occur |
| Places.Head | functions.py:455 | `p.split(':')[0]`: a prefix holding no ':', which is the whole string or is followed by ':' |
| Places.HeadOfEntry | functions.py:455-456 | the head of `loc:range` is `loc` when `loc` has no ':' |
| Places.MinOf | functions.py:453 | `min(years)`: a member no larger than any year |
| Places.MaxOf | functions.py:453 | `max(years)`: a member no smaller than any year |
| Places.YearRange | functions.py:456 | `f"{min_year}-{max_year}"` holds no ':', and `find_year` reads its smallest year back from it |
| Places.YearRangeIsOrdered | functions.py:453-456 | a range is `min-max` with min ≤ max, both among the years |
| Places.FindHead | functions.py:459-463 | the first entry whose head is the location, or None when there is none |
| Places.AddRange | functions.py:455-463 | adds at most one entry, and every entry other than the one extended is left as it was |
| Places.PlacesWithYears | functions.py:449-463 | no more entries than records with a year |
| Places.AddYearRange | functions.py:455-463 | a new `loc:min-max` entry when no entry has that head; otherwise the first such entry extended by the separator and the range, rewritten in place |
| Places.GetPlacesWithYearsFromResponse | functions.py:434-470 | KeyError when `location_dates` is missing; otherwise the grouped entries, rendered by return type |
| Places.ColonLocationIsNeverGrouped | functions.py:455-456 | a location containing ':' always gets a new entry |
| Places.DatedLocations | functions.py:451-452 | a location is listed exactly when some record at that location has a year |
| Places.Grouped | functions.py:449-463 | one entry per distinct dated location, in first-seen order |
| Places.PlacesWithYearsGroupsByLocation | functions.py:449-463 | for locations without ':', the result is one entry per distinct dated location in first-seen order, joining that location's ranges in record order |
| Places.GroupedHeads | functions.py:455-460 | the entry for each location is headed by that location |
| Places.GroupedStep | functions.py:451-463 | one loop step turns the grouping of a prefix into the grouping of the longer prefix |
| Places.GroupedStepKnown | functions.py:458-463 | a dated record at a listed location extends that location's entry by the separator and its range, and leaves the others |
| Places.GroupedStepNew | functions.py:455-456 | a dated record at a location not listed yet appends `loc:min-max` |
| Places.GroupedEntriesKeptBeforeNew | functions.py:455-456 | appending the entry for a new location leaves every earlier entry as it was |
| Places.GroupedUndated | functions.py:451-452 | a record without years leaves the entries as they are |
| Batching.ChunkCount | functions.py:521 | there is a chunk for each multiple of the size below the input length, and only for those |
| Batching.ChunkAt | functions.py:521 | chunk k is `people[k*150 : k*150+150]`, cut at the end of the input |
| Batching.ChunksConcat | functions.py:521 | the chunks concatenated give back the input, in order |
| Batching.ChunkSizes | functions.py:521 | every chunk is non-empty and holds at most 150 inputs; all but the last hold exactly 150 |
| Batching.ChunkCountAtOffset | functions.py:521 | there is a chunk k exactly when k chunk sizes fall short of the input length |
| Batching.ChunkAtOffset | functions.py:521 | chunk k is the slice that starts after k chunk sizes, cut at the end of the input |
| Batching.Chunks | functions.py:521 | no more chunks than inputs |
| Batching.PeopleChunks | functions.py:521 | the chunks of 150 give back the input in order, each chunk holding between 1 and 150 inputs |
| Batching.Missing | functions.py:572 | an input is missing exactly when it was not collected |
| Batching.MissingPartitionsInput | functions.py:571-572 | each input is collected or missing, never both; missing inputs keep their multiplicity; none is missing exactly when all were collected |
| Sequences.FilterConcat | functions.py:572 | filtering a concatenation is the concatenation of the filtered parts, in order |
| Batching.MissingKeepsInputOrder | functions.py:572 | the missing list of a concatenation is the concatenation of the missing lists, and a single input is missing exactly when it was not collected: the missing inputs are listed in input order |
| Batching.Merge | functions.py:744 | later entries win; the keys are the union |
| Batching.RetriedIdsOverrideNothing | functions.py:728-744 | ids found by the retries are only for missing names, so the merge keeps every batch entry and does not depend on order |
| Retry.QueryWithRetries | functions.py:40-59 | the loop's outcome, number of requests and waits are those of the retry state machine |
| Retry.Retryable | functions.py:52 | the statuses retried are 429 and the server errors 500 to 504 other than 501; a 200 is never retried |
| Retry.Backoff | functions.py:50-54 | only the `Retry-After` policy can fail, and only on a 429 that carries the header (also functions.py:124-129 and 909-914) |
| Retry.RunFrom | functions.py:40-59 | while attempts remain, a run sends at least one more request and never more than `retries` in all |
| Retry.RunFromFacts | functions.py:40-59 | at most `retries` requests; every request but the last was retried after the policy's wait; answered exactly when the last reply is 200; gives up early only on a status that is neither 200 nor retryable; fails only on an unreadable Retry-After; waits after the last attempt when all are used |
| Retry.RunFromShape | functions.py:40-59 | at least one request while attempts remain, at most `retries`, and every request but the last got a retryable status |
| Retry.RunFromWaits | functions.py:50-54 | the waits are the policy's delays for the replies before each retry, in order |
| Retry.RunFromEnding | functions.py:46-59 | answered exactly when the last reply is 200, with that reply; gives up early only on a status neither 200 nor retryable; fails only on a retryable reply whose wait cannot be read |
| Retry.RunFromWaitCount | functions.py:50-59 | one wait per request, except one fewer unless every attempt was used on retryable replies |
| Retry.RunOfFacts | functions.py:40-59 | the same facts for a whole run, with no request at all when `retries` is 0 |
| Retry.FirstSuccessEndsRun | functions.py:48-49 | a 200 on the first request ends the run with one request and no wait |
| Retry.AlwaysBusyUsesEveryAttempt | functions.py:50-54 | an endpoint that always answers with a retryable status uses every attempt, waits the fixed delay after each, and gives None |
| Retry.StagedWaits | functions.py:909-916 | the waits are delay0, delay1, delay2 in that order, and nothing after the third attempt |
| Retry.RetryAfterIsHonoured | functions.py:124-129 | a numeric Retry-After header on a 429 is waited for exactly |
| Retry.RetryAfterFallback | functions.py:1141-1146 | the header is read only on a 429 with a non-empty header; every other retryable reply waits the fallback; only a non-numeric header raises |
| Retry.DefaultQueryGivesUpWhenBusy | functions.py:23-59 | `sparql_query` with its defaults against an always-busy endpoint sends three requests, waits ten seconds after each and gives None |
| Retry.DefaultPersonWaits | functions.py:824-916 | `get_all_person_info` with its defaults waits at most three times: one, twenty and sixty seconds in that order |
| Retry.DefaultRetryAfterFallbacks | functions.py:1141-1146 | a retryable reply other than 429 makes the query client wait one second and the person client sixty (also functions.py:124) |

## Left out

- Network access (`requests.get`), `time.sleep`, `print` and the `silent` flag: replies are an input, and sleeps are returned as the list of waits.
- `urllib3.exceptions.ProtocolError` handling in `sparql_query`: a connection failure is not a reply, so the model does not represent it.
- SPARQL query text: the templates, f-strings and `%`-substitution, `sparql_query_by_dict` and `get_query_from_input`. They only build opaque strings for the endpoint.
- `results_dataframe` (pandas) and `stringlist_to_list` (`ast.literal_eval`): thin wrappers over libraries.
- `Counter.most_common` in `get_multiple_people_wikidata_ids`, and the rest of the `get_multiple_people_*` functions apart from chunking, the missing list and the merge. That rest is per-person grouping of batch rows by label and calls to the single-person functions.
- `get_person_all_info_different_languages`: dead code after an unconditional `raise`. `get_person_aliases`: an empty stub.
- `linear_thresholding` and ratio thresholds: computed over exact reals, not IEEE doubles, so rounding at the exact cut-off is not modelled.
- Counting.AboveThresholdCounts: the Python type test of `threshold` is modelled as a four-way choice (int, float, "linear", other). `bool` counting as `int` is not modelled.
- Regular expressions: `\d+(?=-)` and `^Q\d+$` are modelled on characters, with ASCII digits only. Python's `\d` also matches other Unicode digits. `$` accepting one final "\n" is modelled.
- Retry.RetryAfterFallback: `int()` of a header is modelled for plain digit strings only. Python also accepts surrounding whitespace, a sign and `_` separators; the model reports those as errors.
- Retry.QueryWithRetries: the reply body is not modelled. In the person functions a 200 with no result rows ends the loop with None, and that check is made by the callers' models (`CollectPersonInfo`, `StrictPersonInfo`) on the rows.
- Places.Render: `str(list)` is represented as the list itself (`Printed`), not as its Python `repr` text.
- Years.GetYearsFromResponseLocation: the `KeyError`/`IndexError` guard is not modelled. A `LocationRecord` always has the three time fields, and `find_year` cannot raise `IndexError`.
- Places.PlacesWithYearsGroupsByLocation: the grouping theorem assumes no location name contains ':'. With a colon, the literal head comparison never matches, and that case is modelled as written (`Places.ColonLocationIsNeverGrouped`). The head of an entry `a:b:<range>` is `a`, so a later dated record whose location is `a` has its range appended to that entry; `Places.AddYearRange` and `Places.AddRange` model this literally, and the grouping theorem does not describe it.
- PersonInfo.StrictPersonInfo: built on the corrected `Identifiers.GetIdFromResults`, so non-empty rows without a valid id give None. As written, `get_id_from_results` raises ValueError there; that path is `PersonInfo.StrictPersonInfoAsWritten` (see Findings).
- Batching.Merge: the key order of the merged dictionary is not modelled, only its content.
- Batching.Missing: `collected_names` is a list in the source and a set here. Only membership is used.

## Findings

| source | as written | input that shows it | evidently intended | confidence | as-written member | corrected member |
|---|---|---|---|---|---|---|
| functions.py:286-292 | `max(id_counts, ...)` runs on an empty dict when the rows are non-empty but none has a `Q<digits>` person id, raising ValueError | one result row with no `person` binding (`[{}]`) | return None, as the docstring says and as `get_all_person_info_strict` expects with `if id:` (functions.py:964-972) | not executed | Identifiers.AsWrittenRaisesOnRowWithoutPerson | Identifiers.GetIdFromResults |
