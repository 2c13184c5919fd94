/** Ward detection (app.py, detect_ward): the digits of a voter identifier,
    read as a number, are looked up in the ordered table of ward ranges; the
    first row whose inclusive range holds the number gives the ward. */
module Ward {
  import opened Text
  import opened Tables

  /** One row of ward_ranges.csv after Python's int() has been applied to
      each field; None stands for a field on which int() raised. */
  datatype RangeRow = RangeRow(ward: Option<int>, start: Option<int>, end: Option<int>)

  /** What detect_ward returns: int(row["Ward"]) or the string "Unknown". */
  datatype WardLabel = WardNo(number: int) | Unknown

  /** The row yields a ward for n: its three fields parse and n lies in
      [start, end]. A row failing any of these is passed over. */
  predicate Covers(row: RangeRow, n: int) {
    row.start.Some? && row.end.Some? && row.ward.Some? &&
    row.start.value <= n <= row.end.value
  }

  /** The position of the first row covering n, or |rows| when none does. */
  function FirstCover(rows: seq<RangeRow>, n: int): (k: nat)
    ensures k <= |rows|
    ensures forall j :: 0 <= j < k ==> !Covers(rows[j], n)
    ensures k < |rows| ==> Covers(rows[k], n)
  {
    if rows == [] then 0
    else if Covers(rows[0], n) then 0
    else 1 + FirstCover(rows[1..], n)
  }

  /** The number detect_ward matches on: None for a NaN cell or an identifier
      without digits, otherwise the value of its digits read left to right. */
  function VoterNumber(voter: Cell): (r: Option<nat>)
    ensures voter.Missing? ==> r.None?
    ensures !voter.Missing? ==>
      (r.None? <==> forall i :: 0 <= i < |CellStr(voter)| ==> !IsDigit(CellStr(voter)[i]))
  {
    DigitsEmptyIff(CellStr(voter));
    if voter.Missing? then None
    else
      var number := Digits(CellStr(voter));
      if number == [] then None else Some(Value(number))
  }

  /** The ward detect_ward reports for voter against the range table rows. */
  function WardOf(voter: Cell, rows: seq<RangeRow>): WardLabel {
    match VoterNumber(voter)
    case None => Unknown
    case Some(n) =>
      var k := FirstCover(rows, n);
      if k < |rows| then WardNo(rows[k].ward.value) else Unknown
  }

  /** detect_ward: the scan of ward_ranges with its early return; a row
      whose fields do not parse is skipped, as the bare except does. */
  method DetectWard(voter: Cell, rows: seq<RangeRow>) returns (w: WardLabel)
    ensures w == WardOf(voter, rows)
  {
    if voter.Missing? {
      return Unknown;
    }
    var number := Digits(CellStr(voter));
    if number == [] {
      return Unknown;
    }
    var n := Value(number);
    var i := 0;
    while i < |rows|
      invariant 0 <= i <= |rows|
      invariant forall j :: 0 <= j < i ==> !Covers(rows[j], n)
    {
      var row := rows[i];
      // Start is read and compared first, then End, then Ward; the row is
      // given up at the first comparison that fails or field that does not
      // parse.
      match row.start {
        case None =>
        case Some(s) =>
          if s <= n {
            match row.end {
              case None =>
              case Some(e) =>
                if n <= e {
                  match row.ward {
                    case None =>
                    case Some(wardNo) =>
                      return WardNo(wardNo);
                  }
                }
            }
          }
      }
      i := i + 1;
    }
    return Unknown;
  }

  // ---------------------------------------------------------------------
  // Properties
  // ---------------------------------------------------------------------

  /** A NaN identifier, or one without any digit, resolves to Unknown. */
  lemma NoDigitsIsUnknown(voter: Cell, rows: seq<RangeRow>)
    requires voter.Missing? || forall i :: 0 <= i < |CellStr(voter)| ==> !IsDigit(CellStr(voter)[i])
    ensures WardOf(voter, rows) == Unknown
  {
  }

  /** An integer identifier n >= 0 is matched with exactly n. */
  lemma NumericVoterNumber(n: nat)
    ensures VoterNumber(Num(n)) == Some(n)
  {
    NumCellDigits(n);
  }

  /** The first covering row in table order wins, whatever later rows say. */
  lemma FirstCoverWins(voter: Cell, rows: seq<RangeRow>, k: nat)
    requires VoterNumber(voter).Some? && k < |rows|
    requires Covers(rows[k], VoterNumber(voter).value)
    requires forall j :: 0 <= j < k ==> !Covers(rows[j], VoterNumber(voter).value)
    ensures WardOf(voter, rows) == WardNo(rows[k].ward.value)
  {
  }

  /** A reported ward always comes from the first covering row; Unknown is
      reported exactly when there is no number or no row covers it (in
      particular for an empty range table). */
  lemma {:induction false} WardOfSound(voter: Cell, rows: seq<RangeRow>)
    ensures WardOf(voter, rows) == Unknown <==>
      VoterNumber(voter).None? ||
      forall j :: 0 <= j < |rows| ==> !Covers(rows[j], VoterNumber(voter).value)
    ensures WardOf(voter, rows).WardNo? ==>
      exists k :: 0 <= k < |rows| && Covers(rows[k], VoterNumber(voter).value) &&
        rows[k].ward == Some(WardOf(voter, rows).number) &&
        forall j :: 0 <= j < k ==> !Covers(rows[j], VoterNumber(voter).value)
  {
    if VoterNumber(voter).Some? {
      var n := VoterNumber(voter).value;
      var k := FirstCover(rows, n);
      if k < |rows| {
        assert Covers(rows[k], n) && rows[k].ward == Some(WardOf(voter, rows).number);
      }
    }
  }

  /** The scan position of the first covering row after one row that covers
      nothing is removed from the table. */
  lemma {:induction false} FirstCoverSkips(before: seq<RangeRow>, bad: RangeRow, after: seq<RangeRow>, n: int)
    requires !Covers(bad, n)
    ensures var k := FirstCover(before + after, n);
      FirstCover(before + [bad] + after, n) == if k < |before| then k else k + 1
  {
    if before == [] {
      assert before + after == after;
      assert before + [bad] + after == [bad] + after;
      assert ([bad] + after)[1..] == after;
    } else {
      assert (before + [bad] + after)[0] == before[0];
      assert (before + [bad] + after)[1..] == before[1..] + [bad] + after;
      assert (before + after)[0] == before[0];
      assert (before + after)[1..] == before[1..] + after;
      FirstCoverSkips(before[1..], bad, after, n);
    }
  }

  /** A row with a malformed Start, End or Ward is skipped and the scan goes
      on: the result is as if the row were absent. This includes a row whose
      range holds the number but whose ward label does not parse. */
  lemma MalformedRowSkipped(voter: Cell, before: seq<RangeRow>, bad: RangeRow, after: seq<RangeRow>)
    requires bad.start.None? || bad.end.None? || bad.ward.None?
    ensures WardOf(voter, before + [bad] + after) == WardOf(voter, before + after)
  {
    if VoterNumber(voter).Some? {
      var n := VoterNumber(voter).value;
      FirstCoverSkips(before, bad, after, n);
      var k := FirstCover(before + after, n);
      var all := before + [bad] + after;
      if k < |before| {
        assert all[k] == (before + after)[k];
      } else if k < |before + after| {
        assert all[k + 1] == (before + after)[k];
      }
    }
  }

  /** Overlapping ranges [10, 20] -> 1 and [15, 25] -> 2: identifier 17 lies
      in both and resolves to the earlier row's ward. */
  lemma OverlapExample()
    ensures WardOf(Str("V17"), [RangeRow(Some(1), Some(10), Some(20)), RangeRow(Some(2), Some(15), Some(25))]) == WardNo(1)
  {
    assert Digits("V17") == "17";
    assert Value("17") == 17 by {
      assert "17"[..1] == "1";
    }
  }

  /** Letters, digits, letters, digits: the digits of the whole are the two
      digit runs joined. */
  lemma DigitRuns(a: string, b: string, c: string, d: string)
    requires forall i :: 0 <= i < |a| ==> !IsDigit(a[i])
    requires forall i :: 0 <= i < |c| ==> !IsDigit(c[i])
    requires AllDigits(b) && AllDigits(d)
    ensures Digits(a + b + c + d) == b + d
  {
    DigitsEmptyIff(a);
    DigitsOfAllDigits(b);
    DigitsAppend(a, b);
    assert Digits(a + b) == b;
    DigitsEmptyIff(c);
    DigitsAppend(a + b, c);
    assert Digits(a + b + c) == b;
    DigitsOfAllDigits(d);
    DigitsAppend(a + b + c, d);
  }

  /** The digits of "ABC123XY45" are "12345". */
  lemma DigitsOfExample()
    ensures Digits("ABC123XY45") == "12345"
  {
    assert "ABC123XY45" == "ABC" + "123" + "XY" + "45";
    DigitRuns("ABC", "123", "XY", "45");
    assert "123" + "45" == "12345";
  }

  /** The number 12345 is read from the digits "12345". */
  lemma ValueExample()
    ensures Value("12345") == 12345
  {
    assert "12345"[..4] == "1234" && "1234"[..3] == "123";
    assert "123"[..2] == "12" && "12"[..1] == "1";
  }

  /** "ABC123XY45" is matched with the number 12345. */
  lemma DigitsExample()
    ensures VoterNumber(Str("ABC123XY45")) == Some(12345)
  {
    DigitsOfExample();
    ValueExample();
  }

  /** Saving one more range at the end (Ward Settings) never changes a ward
      already detected; an identifier that was Unknown gets the new row's
      ward exactly when the new row covers its number. */
  lemma {:induction false} AppendRange(voter: Cell, rows: seq<RangeRow>, extra: RangeRow)
    ensures WardOf(voter, rows).WardNo? ==> WardOf(voter, rows + [extra]) == WardOf(voter, rows)
    ensures WardOf(voter, rows) == Unknown ==>
      WardOf(voter, rows + [extra]) ==
        if VoterNumber(voter).Some? && Covers(extra, VoterNumber(voter).value)
        then WardNo(extra.ward.value) else Unknown
  {
    if VoterNumber(voter).Some? {
      var n := VoterNumber(voter).value;
      var k := FirstCover(rows, n);
      var all := rows + [extra];
      assert forall j :: 0 <= j < |rows| ==> all[j] == rows[j];
      if k < |rows| {
        FirstCoverWins(voter, all, k);
      } else if Covers(extra, n) {
        FirstCoverWins(voter, all, |rows|);
      } else {
        WardOfSound(voter, all);
      }
    }
  }
}
