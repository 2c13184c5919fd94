/** The Smart Global Search of users_db.py's dashboard: the tables are
    searched through a stringified (not lower-cased) index with
    case-insensitive matching; every matched pupil gets a family lookup, and
    families, places and team are then reported table by table. */
module UsersDbSearch {
  import opened Text
  import opened Tables
  import AppSearch

  /** build_search_index's dict: table name to stringified table, in the
      dict's insertion order (the order items() iterates). */
  type Index = seq<(string, TextTable)>

  function BuildSearchIndex(families: Table, pupils: Table, places: Table, team: Table): (idx: Index)
    ensures |idx| == 4
    ensures idx[0].0 == "families" && idx[1].0 == "pupils" && idx[2].0 == "places" && idx[3].0 == "team"
    ensures idx[0].1 == AsText(families) && idx[1].1 == AsText(pupils)
    ensures idx[2].1 == AsText(places) && idx[3].1 == AsText(team)
  {
    [("families", AsText(families)), ("pupils", AsText(pupils)),
     ("places", AsText(places)), ("team", AsText(team))]
  }

  /** An index row matches when some cell contains the query, ignoring
      case. */
  predicate TextRowHit(row: seq<string>, query: string) {
    exists j :: 0 <= j < |row| && ContainsIgnoreCase(row[j], query)
  }

  function CaseFreeMask(p: TextTable, query: string): (m: seq<bool>)
    ensures |m| == |p|
    ensures forall i :: 0 <= i < |p| ==> m[i] == TextRowHit(p[i], query)
  {
    seq(|p|, i requires 0 <= i < |p| => TextRowHit(p[i], query))
  }

  /** The rows of an index table in which some cell contains the query,
      ignoring case. */
  function FindIn(p: TextTable, query: string): (r: TextTable)
    ensures |r| <= |p|
  {
    Select(p, CaseFreeMask(p, query))
  }

  /** A row is found exactly when it is a row of the index that matches, and
      the found rows keep the index's order. */
  lemma FindInSpec(p: TextTable, query: string, row: seq<string>)
    ensures row in FindIn(p, query) <==> row in p && TextRowHit(row, query)
    ensures var h := Hits(CaseFreeMask(p, query));
      |FindIn(p, query)| == |h| &&
      forall j :: 0 <= j < |h| ==> FindIn(p, query)[j] == p[h[j]] && TextRowHit(p[h[j]], query)
  {
    SelectMember(p, CaseFreeMask(p, query), row);
    SelectAtHits(p, CaseFreeMask(p, query));
  }

  /** Nothing is found exactly when no row of the index matches. */
  lemma FindInEmptyIff(p: TextTable, query: string)
    ensures FindIn(p, query) == [] <==> forall i :: 0 <= i < |p| ==> !TextRowHit(p[i], query)
  {
    SelectEmptyIff(p, CaseFreeMask(p, query));
  }

  /** Both revisions pick the same rows: case-insensitive matching on the
      index selects exactly the positions app.py's lower-cased projection
      selects, so users_db.py shows the string forms of app.py's rows. */
  lemma SameRowsAsApp(t: Table, query: string)
    ensures CaseFreeMask(AsText(t), query) == AppSearch.HitMask(AppSearch.Prepare(t), Lower(query))
    ensures |FindIn(AsText(t), query)| == |AppSearch.Matches(t, query)|
    ensures forall j :: 0 <= j < |FindIn(AsText(t), query)| ==>
      FindIn(AsText(t), query)[j] == AsText([AppSearch.Matches(t, query)[j]])[0]
  {
    var m := CaseFreeMask(AsText(t), query);
    var m' := AppSearch.HitMask(AppSearch.Prepare(t), Lower(query));
    forall i | 0 <= i < |t| ensures m[i] == m'[i] {
      var row, p := AsText(t)[i], AppSearch.Prepare(t)[i];
      if m[i] {
        var j :| 0 <= j < |row| && ContainsIgnoreCase(row[j], query);
        assert Contains(p[j], Lower(query));
      }
      if m'[i] {
        var j :| 0 <= j < |p| && Contains(p[j], Lower(query));
        assert ContainsIgnoreCase(row[j], query);
      }
    }
    assert m == m';
    SelectAtHits(AsText(t), m);
    SelectAtHits(t, m);
  }

  // ---------------------------------------------------------------------
  // The family lookup for every matched pupil
  // ---------------------------------------------------------------------

  /** What users_db.py writes for one matched pupil with a family: the first
      family row's Head_of_Family and Address, then the household members. */
  datatype FamilyDetails = FamilyDetails(head: Cell, address: Cell, members: Table)

  /** The tables the lookup reads have the columns it reads. */
  predicate JoinColumns(families: Table, pupils: Table) {
    HasColumn(families, AddressCol) && HasColumn(pupils, PupilFamilyKey)
  }

  /** As written: the lookup compares each raw Family_ID cell with the
      string the index holds for the pupil, which only a text cell can
      equal. */
  function FamilyIdMaskAsWritten(t: Table, col: nat, id: string): (m: seq<bool>)
    requires HasColumn(t, col)
    ensures |m| == |t|
    ensures forall i :: 0 <= i < |t| ==> m[i] == (t[i][col] == Str(id))
  {
    seq(|t|, i requires 0 <= i < |t| => t[i][col] == Str(id))
  }

  /** A raw Family_ID cell carries the id the index shows: its string form
      is that string, and it is not an empty field (an empty field equals
      nothing, as everywhere else in pandas). */
  predicate IdMatches(c: Cell, id: string) {
    !c.Missing? && CellStr(c) == id
  }

  /** Corrected: the raw cell's string form is compared with the index
      string, the way the index itself renders the pupil's Family_ID. */
  function FamilyIdMask(t: Table, col: nat, id: string): (m: seq<bool>)
    requires HasColumn(t, col)
    ensures |m| == |t|
    ensures forall i :: 0 <= i < |t| ==> m[i] == IdMatches(t[i][col], id)
  {
    seq(|t|, i requires 0 <= i < |t| => IdMatches(t[i][col], id))
  }

  /** One iteration of the loop over matched pupils, as written. */
  function DetailsAsWritten(row: seq<string>, families: Table, pupils: Table): Option<FamilyDetails>
    requires |row| > PupilFamilyKey && JoinColumns(families, pupils)
  {
    var fam := Select(families, FamilyIdMaskAsWritten(families, FamilyKey, row[PupilFamilyKey]));
    if fam == [] then None
    else
      SelectedFrom(families, FamilyIdMaskAsWritten(families, FamilyKey, row[PupilFamilyKey]), 0);
      Some(FamilyDetails(fam[0][HeadCol], fam[0][AddressCol],
        Select(pupils, FamilyIdMaskAsWritten(pupils, PupilFamilyKey, row[PupilFamilyKey]))))
  }

  /** One iteration of the loop over matched pupils, with the corrected
      Family_ID comparison. */
  function Details(row: seq<string>, families: Table, pupils: Table): Option<FamilyDetails>
    requires |row| > PupilFamilyKey && JoinColumns(families, pupils)
  {
    var fam := Select(families, FamilyIdMask(families, FamilyKey, row[PupilFamilyKey]));
    if fam == [] then None
    else
      SelectedFrom(families, FamilyIdMask(families, FamilyKey, row[PupilFamilyKey]), 0);
      Some(FamilyDetails(fam[0][HeadCol], fam[0][AddressCol],
        Select(pupils, FamilyIdMask(pupils, PupilFamilyKey, row[PupilFamilyKey]))))
  }

  /** As written, a numeric Family_ID is never joined: pupil Num(12) and
      family Num(12) carry the same id, yet no family details are found. */
  lemma NumericFamilyIdNotJoined()
    ensures var pupils := [[Str("Ravi"), Num(12), Str("Son"), Num(20), Str("ABC123")]];
      var families := [[Num(12), Str("Ramesh"), Str("Main Road")]];
      SameKey(families[0][FamilyKey], pupils[0][PupilFamilyKey]) &&
      DetailsAsWritten(AsText(pupils)[0], families, pupils) == None &&
      Details(AsText(pupils)[0], families, pupils) ==
        Some(FamilyDetails(Str("Ramesh"), Str("Main Road"), pupils))
  {
    var pupils := [[Str("Ravi"), Num(12), Str("Son"), Num(20), Str("ABC123")]];
    var families := [[Num(12), Str("Ramesh"), Str("Main Road")]];
    var id := AsText(pupils)[0][PupilFamilyKey];
    assert id == "12" by {
      assert NatToString(1) == "1";
    }
    var bad := FamilyIdMaskAsWritten(families, FamilyKey, id);
    assert bad == [false];
    assert Select(families, bad) == [] by {
      SelectEmptyIff(families, bad);
    }
    var good := FamilyIdMask(families, FamilyKey, id);
    assert good == [true];
    assert Select(families, good) == families by {
      assert families[..0] == [] && good[..0] == [];
    }
    var goodPupils := FamilyIdMask(pupils, PupilFamilyKey, id);
    assert goodPupils == [true];
    assert Select(pupils, goodPupils) == pupils by {
      assert pupils[..0] == [] && goodPupils[..0] == [];
    }
  }

  /** No Family_ID cell of t is an integer: the ids are text or empty. */
  predicate NoNumericIds(t: Table, col: nat)
    requires HasColumn(t, col)
  {
    forall i :: 0 <= i < |t| ==> !t[i][col].Num?
  }

  /** As written, a families table whose Family_IDs are all integers never
      yields family details, whichever pupil is looked up. */
  lemma NumericFamiliesNeverJoined(row: seq<string>, families: Table, pupils: Table)
    requires |row| > PupilFamilyKey && JoinColumns(families, pupils)
    requires forall i :: 0 <= i < |families| ==> families[i][FamilyKey].Num?
    ensures DetailsAsWritten(row, families, pupils).None?
  {
    SelectEmptyIff(families, FamilyIdMaskAsWritten(families, FamilyKey, row[PupilFamilyKey]));
  }

  /** Where no Family_ID cell is an integer, the written comparison and the
      corrected one keep the same rows. */
  lemma FamilyIdMasksAgree(t: Table, col: nat, id: string)
    requires HasColumn(t, col) && NoNumericIds(t, col)
    ensures FamilyIdMask(t, col, id) == FamilyIdMaskAsWritten(t, col, id)
  {
  }

  /** Where neither table has an integer Family_ID, the corrected lookup is
      the lookup as written. */
  lemma DetailsAgree(row: seq<string>, families: Table, pupils: Table)
    requires |row| > PupilFamilyKey && JoinColumns(families, pupils)
    requires NoNumericIds(families, FamilyKey) && NoNumericIds(pupils, PupilFamilyKey)
    ensures Details(row, families, pupils) == DetailsAsWritten(row, families, pupils)
  {
    FamilyIdMasksAgree(families, FamilyKey, row[PupilFamilyKey]);
    FamilyIdMasksAgree(pupils, PupilFamilyKey, row[PupilFamilyKey]);
  }

  /** Corrected lookup, for the index row of pupils row i: family details
      are found exactly when some families row carries the pupil's
      Family_ID; they are taken from the first such row; the members shown
      are exactly the pupils carrying that Family_ID, the matched pupil
      included unless its Family_ID is empty. */
  lemma DetailsSpec(pupils: Table, families: Table, i: nat)
    requires JoinColumns(families, pupils) && i < |pupils|
    ensures var row := AsText(pupils)[i];
      var id := CellStr(pupils[i][PupilFamilyKey]);
      (Details(row, families, pupils).Some? <==>
        exists f :: 0 <= f < |families| && IdMatches(families[f][FamilyKey], id)) &&
      (forall f :: (0 <= f < |families| && IdMatches(families[f][FamilyKey], id) &&
          (forall g :: 0 <= g < f ==> !IdMatches(families[g][FamilyKey], id))) ==>
        Details(row, families, pupils).value.head == families[f][HeadCol] &&
        Details(row, families, pupils).value.address == families[f][AddressCol]) &&
      (Details(row, families, pupils).Some? ==>
        (!pupils[i][PupilFamilyKey].Missing? ==> pupils[i] in Details(row, families, pupils).value.members) &&
        forall r :: r in Details(row, families, pupils).value.members <==>
          r in pupils && IdMatches(r[PupilFamilyKey], id))
  {
    var row := AsText(pupils)[i];
    var id := CellStr(pupils[i][PupilFamilyKey]);
    assert row[PupilFamilyKey] == id;
    var fm := FamilyIdMask(families, FamilyKey, id);
    var pm := FamilyIdMask(pupils, PupilFamilyKey, id);
    SelectEmptyIff(families, fm);
    forall f | 0 <= f < |families| && IdMatches(families[f][FamilyKey], id) &&
        (forall g :: 0 <= g < f ==> !IdMatches(families[g][FamilyKey], id))
      ensures Select(families, fm)[0] == families[f]
    {
      SelectFirst(families, fm, f);
    }
    forall r
      ensures r in Select(pupils, pm) <==> r in pupils && IdMatches(r[PupilFamilyKey], id)
    {
      SelectMember(pupils, pm, r);
    }
    SelectMember(pupils, pm, pupils[i]);
  }

  /** The present values of a sequence of options, in order. */
  function Somes<T>(opts: seq<Option<T>>): (r: seq<T>)
    ensures |r| <= |opts|
  {
    if opts == [] then []
    else
      var n := |opts| - 1;
      Somes(opts[..n]) + (if opts[n].Some? then [opts[n].value] else [])
  }

  lemma {:induction false} SomesEmptyIff<T>(opts: seq<Option<T>>)
    ensures Somes(opts) == [] <==> forall i :: 0 <= i < |opts| ==> opts[i].None?
  {
    if opts != [] {
      var n := |opts| - 1;
      SomesEmptyIff(opts[..n]);
      assert forall i :: 0 <= i < n ==> opts[..n][i] == opts[i];
    }
  }

  /** Which entries of opts are present. */
  function Present<T>(opts: seq<Option<T>>): (m: seq<bool>)
    ensures |m| == |opts|
    ensures forall i :: 0 <= i < |opts| ==> m[i] == opts[i].Some?
  {
    seq(|opts|, i requires 0 <= i < |opts| => opts[i].Some?)
  }

  /** The present values are exactly those at the present positions, in
      increasing order of position. */
  lemma {:induction false} SomesAt<T>(opts: seq<Option<T>>)
    ensures var h := Hits(Present(opts));
      |Somes(opts)| == |h| &&
      forall j :: 0 <= j < |h| ==> opts[h[j]].Some? && Somes(opts)[j] == opts[h[j]].value
  {
    if opts != [] {
      var n := |opts| - 1;
      var init := opts[..n];
      SomesAt(init);
      var r, h := Somes(init), Hits(Present(init));
      assert Present(opts)[..n] == Present(init);
      assert Hits(Present(opts)) == h + (if opts[n].Some? then [n] else []);
      assert Somes(opts) == r + (if opts[n].Some? then [opts[n].value] else []);
      forall j | 0 <= j < |Hits(Present(opts))|
        ensures opts[Hits(Present(opts))[j]].Some?
        ensures Somes(opts)[j] == opts[Hits(Present(opts))[j]].value
      {
        if j < |h| {
          assert Hits(Present(opts))[j] == h[j] < n;
          assert Somes(opts)[j] == r[j] == init[h[j]].value;
          assert init[h[j]] == opts[h[j]];
        }
      }
    }
  }

  /** The lookup result for each matched row, in result order. */
  function DetailsPerRow(res: TextTable, families: Table, pupils: Table): (d: seq<Option<FamilyDetails>>)
    requires HasColumn(res, PupilFamilyKey) && JoinColumns(families, pupils)
    ensures |d| == |res|
    ensures forall i :: 0 <= i < |res| ==> d[i] == Details(res[i], families, pupils)
  {
    seq(|res|, i requires 0 <= i < |res| => Details(res[i], families, pupils))
  }

  /** The details shown for the matched rows res, in result order. */
  function AllDetails(res: TextTable, families: Table, pupils: Table): (d: seq<FamilyDetails>)
    requires HasColumn(res, PupilFamilyKey) && JoinColumns(families, pupils)
    ensures |d| <= |res|
  {
    Somes(DetailsPerRow(res, families, pupils))
  }

  /** The details shown are the found details of the matched rows, in the
      rows' order, without omissions: with h the positions of the matched
      rows whose family is found, the j-th block shown is the details of
      row h[j]; every found family is shown; none is shown exactly when no
      matched row has a family. */
  lemma AllDetailsSpec(res: TextTable, families: Table, pupils: Table)
    requires HasColumn(res, PupilFamilyKey) && JoinColumns(families, pupils)
    ensures var h := Hits(Present(DetailsPerRow(res, families, pupils)));
      |AllDetails(res, families, pupils)| == |h| &&
      forall j :: 0 <= j < |h| ==>
        (h[j] < |res| && Details(res[h[j]], families, pupils).Some? &&
         AllDetails(res, families, pupils)[j] == Details(res[h[j]], families, pupils).value)
    ensures forall i :: 0 <= i < |res| && Details(res[i], families, pupils).Some? ==>
      Details(res[i], families, pupils).value in AllDetails(res, families, pupils)
    ensures AllDetails(res, families, pupils) == [] <==>
      forall i :: 0 <= i < |res| ==> Details(res[i], families, pupils).None?
  {
    var opts := DetailsPerRow(res, families, pupils);
    var h := Hits(Present(opts));
    SomesAt(opts);
    SomesEmptyIff(opts);
    forall i | 0 <= i < |res| && Details(res[i], families, pupils).Some?
      ensures Details(res[i], families, pupils).value in AllDetails(res, families, pupils)
    {
      assert Present(opts)[i];
      var j :| 0 <= j < |h| && h[j] == i;
      assert AllDetails(res, families, pupils)[j] == opts[i].value;
    }
  }

  /** Where neither table has an integer Family_ID, the details shown are
      those the lookup as written finds, matched row by matched row. */
  lemma AllDetailsAsWritten(res: TextTable, families: Table, pupils: Table)
    requires HasColumn(res, PupilFamilyKey) && JoinColumns(families, pupils)
    requires NoNumericIds(families, FamilyKey) && NoNumericIds(pupils, PupilFamilyKey)
    ensures AllDetails(res, families, pupils) ==
      Somes(seq(|res|, i requires 0 <= i < |res| => DetailsAsWritten(res[i], families, pupils)))
  {
    var written := seq(|res|, i requires 0 <= i < |res| => DetailsAsWritten(res[i], families, pupils));
    forall i | 0 <= i < |res|
      ensures DetailsPerRow(res, families, pupils)[i] == written[i]
    {
      DetailsAgree(res[i], families, pupils);
    }
    assert DetailsPerRow(res, families, pupils) == written;
  }

  // ---------------------------------------------------------------------
  // The "other tables" pass
  // ---------------------------------------------------------------------

  /** The tables reported by the loop over search_index.items(): every
      table with at least one match, except pupils, in index order. */
  function OtherMatches(idx: Index, query: string): (r: Index)
    ensures |r| <= |idx|
  {
    if idx == [] then []
    else
      var n := |idx| - 1;
      var found := FindIn(idx[n].1, query);
      OtherMatches(idx[..n], query) +
        (if found != [] && idx[n].0 != "pupils" then [(idx[n].0, found)] else [])
  }

  /** For the index users_db.py builds, the pass reports families, places
      and team in that order, each exactly when it has a match, and never
      pupils. */
  lemma OtherTablesInOrder(families: Table, pupils: Table, places: Table, team: Table, query: string)
    ensures var f, p, t := FindIn(AsText(families), query), FindIn(AsText(places), query), FindIn(AsText(team), query);
      OtherMatches(BuildSearchIndex(families, pupils, places, team), query) ==
        (if f != [] then [("families", f)] else []) +
        (if p != [] then [("places", p)] else []) +
        (if t != [] then [("team", t)] else [])
  {
    var idx := BuildSearchIndex(families, pupils, places, team);
    assert idx[..3][..2][..1][..0] == [];
    assert OtherMatches(idx[..1], query) == (if FindIn(AsText(families), query) != [] then [("families", FindIn(AsText(families), query))] else []);
    assert OtherMatches(idx[..2], query) == OtherMatches(idx[..1], query) by {
      assert idx[..2][..1] == idx[..1];
    }
    assert idx[..3][..2] == idx[..2];
    assert idx[..3] == idx[..4][..3];
    assert idx[..4] == idx;
  }

  /** No table is reported twice and pupils never: every reported entry is
      a non-pupils table of the index with its non-empty matches. */
  lemma {:induction false} OtherMatchesSound(idx: Index, query: string)
    ensures forall e :: e in OtherMatches(idx, query) ==>
      e.0 != "pupils" && e.1 != [] && exists k :: 0 <= k < |idx| && e == (idx[k].0, FindIn(idx[k].1, query))
  {
    if idx != [] {
      var n := |idx| - 1;
      OtherMatchesSound(idx[..n], query);
      assert forall k :: 0 <= k < n ==> idx[..n][k] == idx[k];
    }
  }

  // ---------------------------------------------------------------------
  // The dashboard search block
  // ---------------------------------------------------------------------

  datatype Outcome =
    | NoQuery
    | Searched(persons: TextTable, details: seq<FamilyDetails>, others: Index, notFound: bool)

  /** Matched rows of the index come from the index. */
  lemma FoundColumns(p: TextTable, query: string, col: nat)
    requires HasColumn(p, col)
    ensures HasColumn(FindIn(p, query), col)
  {
    var r := FindIn(p, query);
    forall i | 0 <= i < |r| ensures col < |r[i]| {
      FindInSpec(p, query, r[i]);
    }
  }

  /** The loop over the matched pupils: one details block for each pupil
      whose family is found. */
  method ShowFamilyDetails(res: TextTable, families: Table, pupils: Table)
    returns (details: seq<FamilyDetails>)
    requires HasColumn(res, PupilFamilyKey) && JoinColumns(families, pupils)
    ensures details == AllDetails(res, families, pupils)
  {
    ghost var opts := DetailsPerRow(res, families, pupils);
    details := [];
    var i := 0;
    while i < |res|
      invariant 0 <= i <= |res|
      invariant details == Somes(opts[..i])
    {
      assert opts[..i + 1][..i] == opts[..i];
      var d := Details(res[i], families, pupils);
      if d.Some? {
        details := details + [d.value];
      }
      i := i + 1;
    }
    assert opts[..i] == opts;
  }

  /** The loop over search_index.items(): report each table with matches,
      except pupils. */
  method ShowOtherTables(index: Index, query: string) returns (others: Index)
    ensures others == OtherMatches(index, query)
  {
    others := [];
    var k := 0;
    while k < |index|
      invariant 0 <= k <= |index|
      invariant others == OtherMatches(index[..k], query)
    {
      assert index[..k + 1][..k] == index[..k];
      var name := index[k].0;
      var r := FindIn(index[k].1, query);
      if r != [] && name != "pupils" {
        others := others + [(name, r)];
      }
      k := k + 1;
    }
    assert index[..k] == index;
  }

  /** No row of the stringified table matches the query. */
  predicate NoTextHit(t: Table, query: string) {
    forall i :: 0 <= i < |t| ==> !TextRowHit(AsText(t)[i], query)
  }

  /** The search block of the dashboard: the pupil search with its family
      lookups, then the pass over the other tables, with the found flag. */
  method Dashboard(query: string, families: Table, pupils: Table, places: Table, team: Table)
    returns (out: Outcome)
    requires JoinColumns(families, pupils)
    ensures query == [] <==> out.NoQuery?
    ensures out.Searched? ==>
      out.persons == FindIn(AsText(pupils), query) &&
      HasColumn(out.persons, PupilFamilyKey) &&
      out.details == AllDetails(out.persons, families, pupils) &&
      out.others == OtherMatches(BuildSearchIndex(families, pupils, places, team), query)
    ensures out.Searched? ==>
      (out.notFound <==>
        NoTextHit(families, query) && NoTextHit(pupils, query) &&
        NoTextHit(places, query) && NoTextHit(team, query))
  {
    if query == [] {
      return NoQuery;
    }
    var found := false;
    var index := BuildSearchIndex(families, pupils, places, team);

    var res := FindIn(index[1].1, query);
    FoundColumns(AsText(pupils), query, PupilFamilyKey);
    var details: seq<FamilyDetails> := [];
    if res != [] {
      found := true;
      details := ShowFamilyDetails(res, families, pupils);
    }

    var others := ShowOtherTables(index, query);
    if others != [] {
      found := true;
    }

    OtherTablesInOrder(families, pupils, places, team, query);
    FindInEmptyIff(AsText(families), query);
    FindInEmptyIff(AsText(pupils), query);
    FindInEmptyIff(AsText(places), query);
    FindInEmptyIff(AsText(team), query);
    out := Searched(res, details, others, !found);
  }
}
