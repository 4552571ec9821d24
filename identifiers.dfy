/** Extracting a person's Wikidata ID ("Q" followed by digits) from the
    `person` entity URIs of the result rows (`get_id_from_results`). */
module Identifiers {
  import opened Base
  import opened Sequences
  import opened Decimal
  import opened Counting

  /** `s.split('/')[-1]`: the text after the last '/', or all of `s`. */
  function LastSegment(s: string): (r: string)
    ensures '/' !in r
    ensures |r| <= |s| && r == s[|s| - |r|..]
    ensures |r| < |s| ==> s[|s| - |r| - 1] == '/'
  {
    if s == [] then []
    else if s[|s| - 1] == '/' then []
    else LastSegment(s[..|s| - 1]) + [s[|s| - 1]]
  }

  /** The last segment of a path is what follows its last '/'. */
  lemma {:induction false} LastSegmentOfPath(prefix: string, segment: string)
    requires '/' !in segment
    ensures LastSegment(prefix + "/" + segment) == segment
  {
    if segment != [] {
      var init := segment[..|segment| - 1];
      LastSegmentOfPath(prefix, init);
      assert (prefix + "/" + segment)[..|prefix + "/" + segment| - 1] == prefix + "/" + init;
    }
  }

  /** `re.match(r'^Q\d+$', s)`: 'Q' and then digits up to the end, where
      Python's `$` also matches just before a newline that ends the string. */
  predicate IsWikidataId(s: string)
  {
    && |s| >= 2
    && s[0] == 'Q'
    && (AllDigits(s[1..]) || (|s| >= 3 && s[|s| - 1] == '\n' && AllDigits(s[1..|s| - 1])))
  }

  /** The ids the pattern accepts are 'Q' and a non-empty run of digits,
      optionally followed by one final newline. */
  lemma WikidataIdShape(s: string)
    ensures IsWikidataId(s) <==> exists d :: d != [] && AllDigits(d) && (s == "Q" + d || s == "Q" + d + "\n")
  {
    forall d | d != [] && AllDigits(d) ensures IsWikidataId("Q" + d) && IsWikidataId("Q" + d + "\n") {
      var a := "Q" + d;
      assert a[1..] == d;
      var b := a + "\n";
      assert b[1..|b| - 1] == d;
    }
    if IsWikidataId(s) {
      if AllDigits(s[1..]) {
        assert s == "Q" + s[1..];
      } else {
        assert s == "Q" + s[1..|s| - 1] + "\n";
      }
    }
  }

  /** The pattern on its edge cases: a trailing newline is accepted once and
      only after a digit; the letter must be an upper-case Q. */
  lemma WikidataIdEdgeCases()
    ensures IsWikidataId("Q42") && IsWikidataId("Q1\n")
    ensures !IsWikidataId("Q") && !IsWikidataId("Q\n") && !IsWikidataId("Q1\n\n") && !IsWikidataId("q42")
  {
    assert "Q42"[1..] == "42";
    assert "Q1\n"[1..2] == "1";
    assert "Q1\n\n"[1..][1] == '\n';
    assert "Q1\n\n"[1..3][1] == '\n';
    assert "Q\n"[1..][0] == '\n';
  }

  /** `[result.get('person', {}).get('value', "").split('/')[-1] for result in person_results]` */
  function PersonIds(rows: seq<Row>): seq<string>
  {
    seq(|rows|, i requires 0 <= i < |rows| =>
      LastSegment(match Lookup(rows[i], "person") case Some(uri) => uri case None => ""))
  }

  /** `[i for i in ids if re.match(r'^Q\d+$', i)]` */
  function ValidIds(rows: seq<Row>): seq<string>
  {
    Filter(PersonIds(rows), IsWikidataId)
  }

  /** `get_id_from_results` as written: when the rows carry no valid ID,
      `max` is applied to an empty dictionary and raises. */
  function GetIdFromResultsAsWritten(rows: seq<Row>): (r: Result<Option<string>>)
    ensures r.Err? <==> rows != [] && ValidIds(rows) == []
    ensures r.Ok? && r.value.Some? ==> IsWikidataId(r.value.value) && r.value.value in PersonIds(rows)
  {
    if rows == [] then Ok(None)
    else
      var ids := ValidIds(rows);
      var idCounts := Tallies(ids);
      TalliesSum(ids);
      if idCounts == [] then Err(EmptyMax)
      else
        var k := FirstMax(idCounts);
        assert idCounts[k].value in Distinct(ids);
        Ok(Some(idCounts[k].value))
  }

  /** `get_id_from_results` as documented and as its caller uses it: None when
      the rows carry no valid ID. */
  function GetIdFromResults(rows: seq<Row>): (r: Option<string>)
    ensures r.Some? ==> IsWikidataId(r.value) && r.value in PersonIds(rows)
    ensures r.None? <==> forall id :: id in PersonIds(rows) ==> !IsWikidataId(id)
  {
    if rows == [] then None
    else
      var ids := ValidIds(rows);
      if ids == [] then None else Some(Mode(ids))
  }

  /** The ID returned is the valid ID given by most rows, the first seen among
      equally frequent ones. */
  lemma GetIdIsEarliestMostCommonValidId(rows: seq<Row>)
    requires GetIdFromResults(rows).Some?
    ensures var ids, id := ValidIds(rows), GetIdFromResults(rows).value;
      && id in ids
      && (forall w :: w in ids ==> Count(ids, w) <= Count(ids, id))
      && (forall w :: w in ids && Count(ids, w) == Count(ids, id) ==> FirstIndex(ids, id) <= FirstIndex(ids, w))
  {
    ModeIsEarliestMostFrequent(ValidIds(rows));
  }

  /** The ID at the end of an entity URI whose last segment is "Q" and digits. */
  lemma EntityUriId(base: string, n: nat)
    ensures var id := "Q" + DecimalString(n);
      LastSegment(base + "/Q" + DecimalString(n)) == id && IsWikidataId(id)
  {
    var id := "Q" + DecimalString(n);
    assert base + "/Q" + DecimalString(n) == base + "/" + id;
    LastSegmentOfPath(base, id);
    assert id[1..] == DecimalString(n);
  }

  /** Every row naming the same entity URI yields that entity's ID. */
  lemma GetIdOfOneEntity(rows: seq<Row>, base: string, n: nat)
    requires rows != []
    requires forall i :: 0 <= i < |rows| ==> Lookup(rows[i], "person") == Some(base + "/Q" + DecimalString(n))
    ensures GetIdFromResults(rows) == Some("Q" + DecimalString(n))
  {
    var id := "Q" + DecimalString(n);
    EntityUriId(base, n);
    var ids := PersonIds(rows);
    forall i | 0 <= i < |ids| ensures ids[i] == id {
      assert Lookup(rows[i], "person") == Some(base + "/Q" + DecimalString(n));
    }
    OnlyIdIsReturned(rows, id);
  }

  /** Rows that all yield the same valid ID yield that ID. */
  lemma OnlyIdIsReturned(rows: seq<Row>, id: string)
    requires rows != [] && IsWikidataId(id)
    requires forall i :: 0 <= i < |PersonIds(rows)| ==> PersonIds(rows)[i] == id
    ensures GetIdFromResults(rows) == Some(id)
  {
    var ids := PersonIds(rows);
    assert ids[0] in ids;
    var r := GetIdFromResults(rows);
    var k :| 0 <= k < |ids| && ids[k] == r.value;
  }

  /** The as-written function raises exactly where the documented one returns
      None for a non-empty result, and agrees with it everywhere else. */
  lemma AsWrittenRaisesWhereNoValidId(rows: seq<Row>)
    ensures GetIdFromResultsAsWritten(rows) ==
      if rows != [] && GetIdFromResults(rows).None? then Err(EmptyMax) else Ok(GetIdFromResults(rows))
  {
    if rows != [] {
      var ids := ValidIds(rows);
      if ids != [] {
        assert ids[0] in Distinct(ids);
      }
    }
  }

  /** A concrete input: one row that does not bind `person`. */
  lemma AsWrittenRaisesOnRowWithoutPerson()
    ensures GetIdFromResultsAsWritten([map[]]) == Err(EmptyMax)
    ensures GetIdFromResults([map[]]) == None
  {
    var rows: seq<Row> := [map[]];
    assert Lookup(rows[0], "person") == None;
    assert PersonIds(rows) == [""];
    assert !IsWikidataId("");
    assert ValidIds(rows) == [];
    AsWrittenRaisesWhereNoValidId(rows);
  }
}
