/** The admin panel (admin_controls in both revisions) and the Ward Settings
    page: row edits on one table, and appending a ward range. The table an
    edit works on is the one the CSV file holds; see README for how the file
    round trip is abstracted. */
module Admin {
  import opened Text
  import opened Tables
  import opened Ward
  import AppSearch

  /** The row a form submits: one text cell per column, in column order. */
  function EnteredRow(entered: seq<string>): (r: Row)
    ensures |r| == |entered|
    ensures forall i :: 0 <= i < |entered| ==> r[i] == Str(entered[i]) && CellStr(r[i]) == entered[i]
  {
    seq(|entered|, i requires 0 <= i < |entered| => Str(entered[i]))
  }

  /** df.loc[idx] = new: the table with row idx, and only that row, replaced. */
  function Replaced(t: Table, idx: nat, row: Row): (r: Table)
    requires idx < |t|
    ensures |r| == |t|
    ensures r[idx] == row
    ensures forall i :: 0 <= i < |t| && i != idx ==> r[i] == t[i]
  {
    t[idx := row]
  }

  /** df.drop(d): the table without row d, the remaining rows in their order. */
  function RemoveAt(t: Table, d: nat): (r: Table)
    requires d < |t|
    ensures |r| == |t| - 1
    ensures forall i :: 0 <= i < d ==> r[i] == t[i]
    ensures forall i :: d <= i < |r| ==> r[i] == t[i + 1]
  {
    t[..d] + t[d + 1..]
  }

  /** Deleting removes exactly one copy of row d and nothing else. */
  lemma RemoveAtMultiset(t: Table, d: nat)
    requires d < |t|
    ensures multiset(RemoveAt(t, d)) + multiset{t[d]} == multiset(t)
  {
    assert t == t[..d] + [t[d]] + t[d + 1..];
  }

  /** A row added through the form is found by the dashboard search after
      the earlier results exactly when the query occurs, ignoring case, in
      one of the entered values. */
  lemma AddedRowFound(t: Table, entered: seq<string>, query: string)
    ensures AppSearch.Matches(t + [EnteredRow(entered)], query) ==
      AppSearch.Matches(t, query) +
      (if exists i :: 0 <= i < |entered| && ContainsIgnoreCase(entered[i], query)
       then [EnteredRow(entered)] else [])
  {
    var row := EnteredRow(entered);
    AppSearch.MatchesAfterAppend(t, row, query);
    if AppSearch.RowHit(row, query) {
      var j :| 0 <= j < |row| && Contains(Lower(CellStr(row[j])), Lower(query));
      assert ContainsIgnoreCase(entered[j], query);
    }
    if i :| 0 <= i < |entered| && ContainsIgnoreCase(entered[i], query) {
      assert Contains(Lower(CellStr(row[i])), Lower(query));
    }
  }

  /** The values the Edit form shows for a row: the string form of each cell. */
  function Shown(row: Row): (s: seq<string>)
    ensures |s| == |row|
    ensures (forall j :: 0 <= j < |row| ==> row[j].Str?) ==> EnteredRow(s) == row
  {
    seq(|row|, j requires 0 <= j < |row| => CellStr(row[j]))
  }

  /** A table as the admin panel holds it: the file's columns and rows. */
  class AdminTable {
    const columns: seq<string>
    var rows: Table

    /** Every row has one cell per column. */
    ghost predicate Valid()
      reads this
    {
      forall i :: 0 <= i < |rows| ==> |rows[i]| == |columns|
    }

    /** Every column the panel's form lists is present in every row. */
    lemma HasEveryColumn(c: nat)
      requires Valid() && c < |columns|
      ensures HasColumn(rows, c)
    {
    }

    constructor(columns: seq<string>, rows: Table)
      requires forall i :: 0 <= i < |rows| ==> |rows[i]| == |columns|
      ensures this.columns == columns && this.rows == rows
      ensures Valid()
    {
      this.columns := columns;
      this.rows := rows;
    }

    /** The Add tab: one row of the entered values is appended at the end
        (app.py with header only for a new file, users_db.py without). A
        session that is not the admin's changes nothing. */
    method Add(isAdmin: bool, entered: seq<string>)
      requires Valid() && |entered| == |columns|
      modifies this
      ensures Valid()
      ensures rows == if isAdmin then old(rows) + [EnteredRow(entered)] else old(rows)
    {
      if !isAdmin {
        return;
      }
      rows := rows + [EnteredRow(entered)];
    }

    /** The Edit tab: row idx, chosen within [0, len - 1], is replaced by the
        entered values; every other row stays. */
    method Update(isAdmin: bool, idx: nat, entered: seq<string>)
      requires Valid() && idx < |rows| && |entered| == |columns|
      modifies this
      ensures Valid()
      ensures rows == if isAdmin then Replaced(old(rows), idx, EnteredRow(entered)) else old(rows)
    {
      if !isAdmin {
        return;
      }
      rows := rows[idx := EnteredRow(entered)];
    }

    /** The Delete tab of app.py: row d, chosen within [0, len - 1], is
        dropped. */
    method Delete(isAdmin: bool, d: nat)
      requires Valid() && d < |rows|
      modifies this
      ensures Valid()
      ensures rows == if isAdmin then RemoveAt(old(rows), d) else old(rows)
    {
      if !isAdmin {
        return;
      }
      rows := rows[..d] + rows[d + 1..];
    }

    /** The Delete tab of users_db.py: row d is dropped only when the
        confirmation box is ticked; otherwise the table is unchanged. */
    method DeleteIfConfirmed(isAdmin: bool, d: nat, confirm: bool)
      requires Valid() && d < |rows|
      modifies this
      ensures Valid()
      ensures rows == if isAdmin && confirm then RemoveAt(old(rows), d) else old(rows)
    {
      if isAdmin && confirm {
        Delete(isAdmin, d);
      }
    }
  }

  /** Adding a row and then deleting the last row gives the table back. */
  method AddThenDeleteRestores(tbl: AdminTable, entered: seq<string>)
    requires tbl.Valid() && |entered| == |tbl.columns|
    modifies tbl
    ensures tbl.Valid() && tbl.rows == old(tbl.rows)
  {
    tbl.Add(true, entered);
    tbl.Delete(true, |tbl.rows| - 1);
  }

  /** Editing a row of text cells and then submitting the values the form
      showed for it beforehand restores the table. */
  method EditBackRestores(tbl: AdminTable, idx: nat, entered: seq<string>)
    requires tbl.Valid() && idx < |tbl.rows| && |entered| == |tbl.columns|
    requires forall j :: 0 <= j < |tbl.rows[idx]| ==> tbl.rows[idx][j].Str?
    modifies tbl
    ensures tbl.Valid() && tbl.rows == old(tbl.rows)
  {
    var shown := Shown(tbl.rows[idx]);
    ghost var before := tbl.rows;
    tbl.Update(true, idx, entered);
    tbl.Update(true, idx, shown);
    assert tbl.rows == before;
  }

  /** The ward range table as the Ward Settings page holds it. */
  class WardSettings {
    var ranges: seq<RangeRow>

    constructor(ranges: seq<RangeRow>)
      ensures this.ranges == ranges
    {
      this.ranges := ranges;
    }

    /** Save Range: the three whole numbers entered are appended as a new
        last row (pd.concat with ignore_index); a session that is not the
        admin's is stopped before the form. */
    method SaveRange(isAdmin: bool, ward: int, start: int, end: int)
      modifies this
      ensures ranges == if isAdmin then old(ranges) + [RangeRow(Some(ward), Some(start), Some(end))] else old(ranges)
    {
      if !isAdmin {
        return;
      }
      ranges := ranges + [RangeRow(Some(ward), Some(start), Some(end))];
    }
  }

  /** After a saved range [start, end] -> ward, an identifier that was Unknown
      and whose number lies in the range resolves to that ward; one whose
      ward was known keeps it; any other stays Unknown. */
  lemma SavedRangeDetects(voter: Cell, ranges: seq<RangeRow>, ward: int, start: int, end: int)
    ensures var after := WardOf(voter, ranges + [RangeRow(Some(ward), Some(start), Some(end))]);
      if WardOf(voter, ranges).WardNo? then after == WardOf(voter, ranges)
      else if VoterNumber(voter).Some? && start <= VoterNumber(voter).value <= end then after == WardNo(ward)
      else after == Unknown
  {
    AppendRange(voter, ranges, RangeRow(Some(ward), Some(start), Some(end)));
  }
}
