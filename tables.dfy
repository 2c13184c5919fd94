/** In-memory tables as the portal holds them after loading its CSV files:
    rows of cells, the string form pandas gives a cell, pandas' element-wise
    equality, and boolean-mask row selection (df[mask]). */
module Tables {
  import opened Text

  datatype Option<T> = None | Some(value: T)

  /** One cell as pandas reads it from a CSV file: text, an integer, or NaN
      (an empty field). */
  datatype Cell = Str(text: string) | Num(number: int) | Missing

  type Row = seq<Cell>
  type Table = seq<Row>

  // Column positions, from the headers both revisions give families.csv
  // (Family_ID, Head_of_Family, Address) and pupils.csv (Name, Family_ID,
  // Relation, Age, Voter_ID).
  const FamilyKey: nat := 0
  const HeadCol: nat := 1
  const AddressCol: nat := 2
  const PupilFamilyKey: nat := 1
  const VoterIdCol: nat := 4

  /** A table whose every cell is already a string (astype(str), or a
      lower-cased copy of that). */
  type TextTable = seq<seq<string>>

  /** str(cell): text as is, integers in decimal, NaN as the literal "nan". */
  function CellStr(c: Cell): string {
    match c
    case Str(s) => s
    case Num(i) => IntToString(i)
    case Missing => "nan"
  }

  /** The string form of a non-negative integer cell gives the integer back
      once its digits are read. */
  lemma NumCellDigits(n: nat)
    ensures Digits(CellStr(Num(n))) == NatToString(n)
    ensures Value(Digits(CellStr(Num(n)))) == n
  {
    DigitsOfAllDigits(NatToString(n));
    ValueOfNatToString(n);
  }

  /** pandas `series == value` on one element: equal values of the same kind;
      NaN equals nothing, not even NaN. */
  predicate SameKey(a: Cell, b: Cell) {
    a == b && !a.Missing?
  }

  /** Every row has a cell at position col (the column exists). */
  predicate HasColumn<T>(t: seq<seq<T>>, col: nat) {
    forall i :: 0 <= i < |t| ==> col < |t[i]|
  }

  /** astype(str): every cell replaced by its string form. */
  function AsText(t: Table): (r: TextTable)
    ensures |r| == |t|
    ensures forall i :: 0 <= i < |t| ==> |r[i]| == |t[i]|
    ensures forall i, j :: 0 <= i < |t| && 0 <= j < |t[i]| ==> r[i][j] == CellStr(t[i][j])
  {
    seq(|t|, i requires 0 <= i < |t| => seq(|t[i]|, j requires 0 <= j < |t[i]| => CellStr(t[i][j])))
  }

  // ---------------------------------------------------------------------
  // Boolean-mask selection
  // ---------------------------------------------------------------------

  /** The positions where keep holds, in increasing order. */
  function Hits(keep: seq<bool>): (h: seq<nat>)
    ensures |h| <= |keep|
    ensures forall j :: 0 <= j < |h| ==> h[j] < |keep| && keep[h[j]]
    ensures forall j, k :: 0 <= j < k < |h| ==> h[j] < h[k]
    ensures forall i :: 0 <= i < |keep| && keep[i] ==> i in h
  {
    if keep == [] then []
    else
      var n := |keep| - 1;
      Hits(keep[..n]) + (if keep[n] then [n] else [])
  }

  /** df[mask]: the rows whose mask entry is true, row by row. */
  function Select<T>(s: seq<T>, keep: seq<bool>): (r: seq<T>)
    requires |keep| == |s|
    ensures |r| <= |s|
  {
    if s == [] then []
    else
      var n := |s| - 1;
      Select(s[..n], keep[..n]) + (if keep[n] then [s[n]] else [])
  }

  /** The selection is exactly the rows at the kept positions, in increasing
      order of position: row order is preserved and nothing else is taken. */
  lemma {:induction false} SelectAtHits<T>(s: seq<T>, keep: seq<bool>)
    requires |keep| == |s|
    ensures |Select(s, keep)| == |Hits(keep)|
    ensures forall j :: 0 <= j < |Hits(keep)| ==> Select(s, keep)[j] == s[Hits(keep)[j]]
  {
    if s != [] {
      var n := |s| - 1;
      var init, initKeep := s[..n], keep[..n];
      SelectAtHits(init, initKeep);
      var r, h := Select(init, initKeep), Hits(initKeep);
      assert Select(s, keep) == r + (if keep[n] then [s[n]] else []);
      assert Hits(keep) == h + (if keep[n] then [n] else []);
      forall j | 0 <= j < |Hits(keep)|
        ensures Select(s, keep)[j] == s[Hits(keep)[j]]
      {
        if j < |h| {
          assert Select(s, keep)[j] == r[j] == init[h[j]];
          assert Hits(keep)[j] == h[j] < n;
        }
      }
    }
  }

  /** A value is selected exactly when it sits at some kept position. */
  lemma SelectMember<T>(s: seq<T>, keep: seq<bool>, x: T)
    requires |keep| == |s|
    ensures x in Select(s, keep) <==> exists i :: 0 <= i < |s| && keep[i] && s[i] == x
  {
    SelectAtHits(s, keep);
    var r, h := Select(s, keep), Hits(keep);
    if x in r {
      var j :| 0 <= j < |r| && r[j] == x;
      assert keep[h[j]] && s[h[j]] == x;
    }
    if i :| 0 <= i < |s| && keep[i] && s[i] == x {
      var j :| 0 <= j < |h| && h[j] == i;
      assert r[j] == x;
    }
  }

  /** A selected row is a row of the table. */
  lemma SelectedFrom<T>(s: seq<T>, keep: seq<bool>, j: nat)
    requires |keep| == |s| && j < |Select(s, keep)|
    ensures Select(s, keep)[j] in s
  {
    SelectAtHits(s, keep);
  }

  /** The selection is empty exactly when no mask entry is true. */
  lemma SelectEmptyIff<T>(s: seq<T>, keep: seq<bool>)
    requires |keep| == |s|
    ensures Select(s, keep) == [] <==> forall i :: 0 <= i < |keep| ==> !keep[i]
  {
    SelectAtHits(s, keep);
    if i :| 0 <= i < |keep| && keep[i] {
      assert i in Hits(keep);
    }
  }

  /** The first selected row is the row at the first kept position
      (df[mask].iloc[0]). */
  lemma SelectFirst<T>(s: seq<T>, keep: seq<bool>, i0: nat)
    requires |keep| == |s| && i0 < |s| && keep[i0]
    requires forall j :: 0 <= j < i0 ==> !keep[j]
    ensures Select(s, keep) != [] && Select(s, keep)[0] == s[i0]
  {
    SelectAtHits(s, keep);
    var h := Hits(keep);
    assert i0 in h;
    var k :| 0 <= k < |h| && h[k] == i0;
    assert h[0] <= i0;
  }

  /** Appending a row extends the selection by that row when it is kept. */
  lemma SelectPushBack<T>(s: seq<T>, keep: seq<bool>, x: T, b: bool)
    requires |keep| == |s|
    ensures Select(s + [x], keep + [b]) == Select(s, keep) + (if b then [x] else [])
  {
    assert (s + [x])[..|s|] == s;
    assert (keep + [b])[..|keep|] == keep;
  }

  // ---------------------------------------------------------------------
  // Masks
  // ---------------------------------------------------------------------

  /** The mask comparing column col of every row with key. */
  function KeyMask(t: Table, col: nat, key: Cell): (m: seq<bool>)
    requires HasColumn(t, col)
    ensures |m| == |t|
    ensures forall i :: 0 <= i < |t| ==> m[i] == SameKey(t[i][col], key)
  {
    seq(|t|, i requires 0 <= i < |t| => SameKey(t[i][col], key))
  }

  /** The rows of t whose cell in column col equals key under pandas `==`. */
  function RowsWithKey(t: Table, col: nat, key: Cell): (r: Table)
    requires HasColumn(t, col)
    ensures |r| <= |t|
  {
    Select(t, KeyMask(t, col, key))
  }

  /** A row is returned exactly when it is a row of t whose key cell equals
      key; in particular a NaN key returns nothing. */
  lemma RowsWithKeyMember(t: Table, col: nat, key: Cell, row: Row)
    requires HasColumn(t, col)
    ensures row in RowsWithKey(t, col, key) <==> row in t && col < |row| && SameKey(row[col], key)
  {
    SelectMember(t, KeyMask(t, col, key), row);
  }
}
