/** The Smart Global Search of app.py's dashboard: each table is searched
    through its lower-cased string projection (prepare), and the first
    matching person is joined with their family, their household and their
    ward. */
module AppSearch {
  import opened Text
  import opened Tables
  import opened Ward

  /** All tables the dashboard reads, as loaded at start-up. */
  datatype Database = Database(
    families: Table, pupils: Table, places: Table, team: Table,
    leagues: Table, youth: Table, wardRanges: seq<RangeRow>)

  /** The columns the join reads exist (pandas raises KeyError otherwise). */
  predicate WellFormed(db: Database) {
    HasColumn(db.families, FamilyKey) &&
    HasColumn(db.pupils, PupilFamilyKey) && HasColumn(db.pupils, VoterIdCol)
  }

  /** prepare(df): every cell turned into its string form, then lower-cased. */
  function Prepare(t: Table): (p: TextTable)
    ensures |p| == |t|
    ensures forall i :: 0 <= i < |t| ==> |p[i]| == |t[i]|
    ensures forall i, j :: 0 <= i < |t| && 0 <= j < |t[i]| ==> p[i][j] == Lower(CellStr(t[i][j]))
  {
    var text := AsText(t);
    seq(|text|, i requires 0 <= i < |text| => seq(|text[i]|, j requires 0 <= j < |text[i]| => Lower(text[i][j])))
  }

  /** A projected row matches when the query occurs in one of its cells. */
  predicate RowHas(row: seq<string>, q: string) {
    exists j :: 0 <= j < |row| && Contains(row[j], q)
  }

  /** The row mask of the search: true for each projected row that has a
      cell containing the lower-cased query. */
  function HitMask(fast: TextTable, q: string): (m: seq<bool>)
    ensures |m| == |fast|
    ensures forall i :: 0 <= i < |fast| ==> m[i] == RowHas(fast[i], q)
  {
    seq(|fast|, i requires 0 <= i < |fast| => RowHas(fast[i], q))
  }

  /** The row matches the query: lower(query) is a substring of the
      lower-cased string form of one of its cells. */
  predicate RowHit(row: Row, query: string) {
    exists j :: 0 <= j < |row| && Contains(Lower(CellStr(row[j])), Lower(query))
  }

  /** No row of t matches the query. */
  predicate NoHit(t: Table, query: string) {
    forall i :: 0 <= i < |t| ==> !RowHit(t[i], query)
  }

  /** The rows of t selected by the row mask computed on its projection. */
  function Matches(t: Table, query: string): (r: Table)
    ensures |r| <= |t|
  {
    Select(t, HitMask(Prepare(t), Lower(query)))
  }

  /** The mask computed on the projection holds the row's own match test. */
  lemma MaskIsRowHit(t: Table, query: string)
    ensures forall i :: 0 <= i < |t| ==> HitMask(Prepare(t), Lower(query))[i] == RowHit(t[i], query)
  {
    forall i | 0 <= i < |t|
      ensures HitMask(Prepare(t), Lower(query))[i] == RowHit(t[i], query)
    {
      var p := Prepare(t)[i];
      if RowHas(p, Lower(query)) {
        var j :| 0 <= j < |p| && Contains(p[j], Lower(query));
        assert Contains(Lower(CellStr(t[i][j])), Lower(query));
      }
      if RowHit(t[i], query) {
        var j :| 0 <= j < |t[i]| && Contains(Lower(CellStr(t[i][j])), Lower(query));
        assert Contains(p[j], Lower(query));
      }
    }
  }

  /** A row is in the result exactly when it is a row of the table that
      matches the query. */
  lemma MatchesMember(t: Table, query: string, row: Row)
    ensures row in Matches(t, query) <==> row in t && RowHit(row, query)
  {
    MaskIsRowHit(t, query);
    SelectMember(t, HitMask(Prepare(t), Lower(query)), row);
  }

  /** The result holds the matching rows in the table's own order: its j-th
      row is the row at the j-th matching position. */
  lemma MatchesInOrder(t: Table, query: string)
    ensures var h := Hits(HitMask(Prepare(t), Lower(query)));
      |Matches(t, query)| == |h| &&
      (forall j :: 0 <= j < |h| ==> Matches(t, query)[j] == t[h[j]] && RowHit(t[h[j]], query)) &&
      (forall i :: 0 <= i < |t| && RowHit(t[i], query) ==> i in h)
  {
    MaskIsRowHit(t, query);
    SelectAtHits(t, HitMask(Prepare(t), Lower(query)));
  }

  /** Nothing is found exactly when no row matches. */
  lemma MatchesEmptyIff(t: Table, query: string)
    ensures Matches(t, query) == [] <==> NoHit(t, query)
  {
    MaskIsRowHit(t, query);
    SelectEmptyIff(t, HitMask(Prepare(t), Lower(query)));
  }

  /** person.iloc[0] is the first row of the table, in table order, that
      matches. */
  lemma FirstMatch(t: Table, query: string, i0: nat)
    requires i0 < |t| && RowHit(t[i0], query)
    requires forall j :: 0 <= j < i0 ==> !RowHit(t[j], query)
    ensures Matches(t, query) != [] && Matches(t, query)[0] == t[i0]
  {
    MaskIsRowHit(t, query);
    SelectFirst(t, HitMask(Prepare(t), Lower(query)), i0);
  }

  /** A row appended to a table (Add) appears at the end of the results
      exactly when it matches; earlier results are unchanged. */
  lemma MatchesAfterAppend(t: Table, row: Row, query: string)
    ensures Matches(t + [row], query) == Matches(t, query) + (if RowHit(row, query) then [row] else [])
  {
    var q := Lower(query);
    var m, m' := HitMask(Prepare(t), q), HitMask(Prepare(t + [row]), q);
    MaskIsRowHit(t, query);
    MaskIsRowHit(t + [row], query);
    assert m' == m + [RowHit(row, query)] by {
      forall i | 0 <= i < |t| ensures m'[i] == m[i] {
        assert (t + [row])[i] == t[i];
      }
      assert (t + [row])[|t|] == row;
    }
    SelectPushBack(t, m, row, RowHit(row, query));
  }

  /** Matching ignores letter case: "Ramesh" is found by "ramesh" and "RAM". */
  lemma CaseInsensitiveExample()
    ensures RowHit([Str("Ramesh")], "ramesh")
    ensures RowHit([Str("Ramesh")], "RAM")
  {
    assert Lower("Ramesh") == "ramesh";
    assert Lower("ramesh") == "ramesh";
    assert Lower("RAM") == "ram";
    var row := [Str("Ramesh")];
    assert CellStr(row[0]) == "Ramesh";
    assert OccursAt("ramesh", "ramesh", 0);
    assert Contains(Lower(CellStr(row[0])), Lower("ramesh"));
    assert OccursAt("ramesh", "ram", 0);
    assert Contains(Lower(CellStr(row[0])), Lower("RAM"));
  }

  /** An empty field is projected to "nan" and so is found by the query "nan". */
  lemma MissingCellExample(row: Row, j: nat)
    requires j < |row| && row[j].Missing?
    ensures RowHit(row, "NaN")
  {
    assert Lower("nan") == "nan" && Lower("NaN") == "nan";
    assert OccursAt("nan", "nan", 0);
  }

  // ---------------------------------------------------------------------
  // The person join
  // ---------------------------------------------------------------------

  /** What app.py shows beside a found person: the ward detected from the
      first person's Voter_ID, the families rows and the pupils rows with that
      person's Family_ID, and the youth associations matching the query. */
  datatype Household = Household(ward: WardLabel, familyRows: Table, members: Table, youth: Table)

  function HouseholdOf(person: Row, db: Database, query: string): Household
    requires WellFormed(db) && |person| > VoterIdCol
  {
    Household(
      WardOf(person[VoterIdCol], db.wardRanges),
      RowsWithKey(db.families, FamilyKey, person[PupilFamilyKey]),
      RowsWithKey(db.pupils, PupilFamilyKey, person[PupilFamilyKey]),
      Matches(db.youth, query))
  }

  /** The family rows shown are exactly the families rows whose Family_ID
      equals the person's; the members shown are exactly the pupils rows
      with that Family_ID. */
  lemma HouseholdRows(person: Row, db: Database, query: string, row: Row)
    requires WellFormed(db) && |person| > VoterIdCol
    ensures row in HouseholdOf(person, db, query).familyRows <==>
      row in db.families && SameKey(row[FamilyKey], person[PupilFamilyKey])
    ensures row in HouseholdOf(person, db, query).members <==>
      row in db.pupils && SameKey(row[PupilFamilyKey], person[PupilFamilyKey])
  {
    RowsWithKeyMember(db.families, FamilyKey, person[PupilFamilyKey], row);
    RowsWithKeyMember(db.pupils, PupilFamilyKey, person[PupilFamilyKey], row);
  }

  /** The family rows and the roster keep table order: they are the rows at
      the positions whose Family_ID equals the person's, in increasing order
      of position. */
  lemma HouseholdInOrder(person: Row, db: Database, query: string)
    requires WellFormed(db) && |person| > VoterIdCol
    ensures var key := person[PupilFamilyKey];
      var hf := Hits(KeyMask(db.families, FamilyKey, key));
      var hp := Hits(KeyMask(db.pupils, PupilFamilyKey, key));
      var h := HouseholdOf(person, db, query);
      |h.familyRows| == |hf| && (forall j :: 0 <= j < |hf| ==> h.familyRows[j] == db.families[hf[j]]) &&
      |h.members| == |hp| && (forall j :: 0 <= j < |hp| ==> h.members[j] == db.pupils[hp[j]])
  {
    var key := person[PupilFamilyKey];
    SelectAtHits(db.families, KeyMask(db.families, FamilyKey, key));
    SelectAtHits(db.pupils, KeyMask(db.pupils, PupilFamilyKey, key));
  }

  /** The household roster contains the matched person, unless the person's
      Family_ID is empty (NaN): pandas NaN equals nothing, so then both the
      family rows and the roster are empty. */
  lemma HouseholdHasPerson(person: Row, db: Database, query: string)
    requires WellFormed(db) && |person| > VoterIdCol && person in db.pupils
    ensures !person[PupilFamilyKey].Missing? ==> person in HouseholdOf(person, db, query).members
    ensures person[PupilFamilyKey].Missing? ==>
      HouseholdOf(person, db, query).familyRows == [] && HouseholdOf(person, db, query).members == []
  {
    HouseholdRows(person, db, query, person);
    var key := person[PupilFamilyKey];
    if key.Missing? {
      SelectEmptyIff(db.families, KeyMask(db.families, FamilyKey, key));
      SelectEmptyIff(db.pupils, KeyMask(db.pupils, PupilFamilyKey, key));
    }
  }

  /** Only the first matched person is joined: a family row shown never
      carries the Family_ID of another matched person whose Family_ID differs
      from the first one's. */
  lemma OnlyFirstPersonJoined(db: Database, query: string, other: Row, row: Row)
    requires WellFormed(db) && Matches(db.pupils, query) != []
    requires |Matches(db.pupils, query)[0]| > VoterIdCol && |other| > PupilFamilyKey
    requires other in Matches(db.pupils, query)
    requires other[PupilFamilyKey] != Matches(db.pupils, query)[0][PupilFamilyKey]
    requires row in HouseholdOf(Matches(db.pupils, query)[0], db, query).familyRows
    ensures |row| > FamilyKey && !SameKey(row[FamilyKey], other[PupilFamilyKey])
  {
    HouseholdRows(Matches(db.pupils, query)[0], db, query, row);
  }

  // ---------------------------------------------------------------------
  // The dashboard search block
  // ---------------------------------------------------------------------

  /** The outcome of one query: nothing when the query is empty; otherwise
      each table's matches, the household of the first person, and whether
      "Data Not Found" is shown. */
  datatype Outcome =
    | NoQuery
    | Searched(
        persons: Table, household: Option<Household>, families: Table,
        team: Table, places: Table, leagues: Table, youth: Table, notFound: bool)

  /** Every row the search returns is a row of its table, hence has the
      columns the join reads. */
  lemma MatchedHasColumns(db: Database, query: string, k: nat)
    requires WellFormed(db) && k < |Matches(db.pupils, query)|
    ensures Matches(db.pupils, query)[k] in db.pupils
    ensures |Matches(db.pupils, query)[k]| > VoterIdCol
  {
    MatchesMember(db.pupils, query, Matches(db.pupils, query)[k]);
  }

  /** The search block of the dashboard, with its found flag. */
  method Dashboard(query: string, db: Database) returns (out: Outcome)
    requires WellFormed(db)
    ensures query == [] <==> out.NoQuery?
    ensures out.Searched? ==>
      out.persons == Matches(db.pupils, query) &&
      out.families == Matches(db.families, query) &&
      out.team == Matches(db.team, query) &&
      out.places == Matches(db.places, query) &&
      out.leagues == Matches(db.leagues, query) &&
      out.youth == Matches(db.youth, query)
    ensures out.Searched? ==>
      (out.household.Some? <==> out.persons != []) &&
      (out.persons != [] ==>
        |out.persons[0]| > VoterIdCol &&
        out.household.value == HouseholdOf(out.persons[0], db, query))
    ensures out.Searched? ==>
      (out.notFound <==>
        NoHit(db.pupils, query) && NoHit(db.families, query) && NoHit(db.team, query) &&
        NoHit(db.places, query) && NoHit(db.leagues, query) && NoHit(db.youth, query))
  {
    if query == [] {
      return NoQuery;
    }
    var found := false;

    var person := Matches(db.pupils, query);
    var household: Option<Household> := None;
    if person != [] {
      MatchedHasColumns(db, query, 0);
      var ward := DetectWard(person[0][VoterIdCol], db.wardRanges);
      var fid := person[0][PupilFamilyKey];
      var familyHead := RowsWithKey(db.families, FamilyKey, fid);
      var members := RowsWithKey(db.pupils, PupilFamilyKey, fid);
      var youthMatch := Matches(db.youth, query);
      household := Some(Household(ward, familyHead, members, youthMatch));
      found := true;
    }

    var fam := Matches(db.families, query);
    if fam != [] {
      found := true;
    }
    var t := Matches(db.team, query);
    if t != [] {
      found := true;
    }
    var p := Matches(db.places, query);
    if p != [] {
      found := true;
    }
    var l := Matches(db.leagues, query);
    if l != [] {
      found := true;
    }
    var y := Matches(db.youth, query);
    if y != [] {
      found := true;
    }

    MatchesEmptyIff(db.pupils, query);
    MatchesEmptyIff(db.families, query);
    MatchesEmptyIff(db.team, query);
    MatchesEmptyIff(db.places, query);
    MatchesEmptyIff(db.leagues, query);
    MatchesEmptyIff(db.youth, query);
    out := Searched(person, household, fam, t, p, l, y, !found);
  }
}
