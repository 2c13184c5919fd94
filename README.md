# Village portal: ward lookup, global search and admin edits

This project models the logic of a small village information portal in
Dafny. The portal keeps its data in CSV tables: families, pupils (the
villagers), places, village team, leagues, youth associations and the
ward ranges. It exists in two revisions, `app.py` and `users_db.py`. The
model covers three parts of it.

- **Ward detection** (`detect_ward`, app.py). The digits of a voter
  identifier are kept in left-to-right order and read as a whole number.
  The ward range table is then scanned in order. The first row whose
  inclusive `[Start, End]` range holds the number supplies the ward. A row
  whose Start, End or Ward does not parse is skipped. A NaN identifier, an
  identifier without digits, or a number no row covers gives `Unknown`.
  `Ward.DetectWard` is the loop with its early return. It is proved equal
  to the specification function `Ward.WardOf`, and the lemmas are stated
  about `WardOf`.
- **Smart Global Search** on the dashboard, in both revisions.
  - A table row matches when the query occurs in the string form of one
    of its cells, ignoring case.
  - *app.py* searches a lower-cased projection of each table (`prepare`).
    For the first matched person it joins the detected ward, the family
    rows and pupils rows with that person's Family_ID, and the matching
    youth associations. It then reports families, team, places, leagues
    and youth on their own.
  - *users_db.py* searches a stringified index with case-insensitive
    matching. Every matched pupil gets a family lookup. The loop over
    the index then reports every table except pupils.
  - In both revisions "Data Not Found" is shown exactly when no table
    has a match.
- **Admin edits** (`admin_controls`, and Ward Settings in app.py).
  - Add appends a row.
  - Edit replaces exactly one row.
  - Delete removes exactly one row and keeps the order of the rest.
  - In users_db.py, Delete acts only when its confirmation box is ticked.
  - Save Range appends a ward range.
  - A session that is not the admin's changes nothing.

Cells are modelled as `Tables.Cell`: text, an integer, or NaN (an empty
CSV field). This makes room for pandas' string form, in which NaN prints
as "nan". It also makes room for pandas' element-wise `==`, under which
NaN equals nothing and an integer never equals a string. Row selection by
a boolean mask (`df[mask]`) is `Tables.Select`. It is proved to keep
exactly the masked rows, in table order.

Three behaviours of the code are worth stating outright.
- `str.contains` treats the query as a regular expression by default. For a
  query without regular-expression metacharacters that is plain substring
  search, which is what the model covers (see "Left out").
- A pupil with an empty Family_ID gets no family rows and an empty
  roster, because pandas NaN equals nothing, not even itself
  (`AppSearch.HouseholdHasPerson`).
- `int()` on the extracted digits sits outside the `try` (app.py:154), so
  only the range rows' fields are guarded. The model reads any digit
  string as a whole number (see "Left out").

Files:
- `text.dfy`: digits, decimal numbers, lower-casing, substring search.
- `tables.dfy`: cells, string forms, mask selection.
- `ward.dfy`: ward detection.
- `app_search.dfy`: the app.py search.
- `users_db_search.dfy`: the users_db.py search.
- `admin.dfy`: the admin edits.

## Model

| member | source | states |
|---|---|---|
| Text.Digits | app.py:150 | the extracted string holds only digits and is no longer than the input |
| Text.DigitsAppend | app.py:150 | extraction distributes over concatenation, so digits keep their left-to-right order |
| Text.DigitsOfAllDigits | app.py:150 | a string of digits only is kept whole |
| Text.DigitsEmptyIff | app.py:150-152 | nothing is extracted exactly when the string has no digit |
| Text.DigitAt | app.py:150 | every digit of the identifier appears in the extracted string, right after the digits that precede it |
| Text.Value | app.py:154 | int() of a k-digit string is below 10^k |
| Text.ValueLeadingZero | app.py:154 | a leading zero does not change the number: "0" followed by digits converts like the digits alone |
| Text.NatToString | app.py:150 | str(n) consists of digits, is non-empty and has no leading zero |
| Text.ValueOfNatToString | app.py:150-154 | int(str(n)) == n |
| Text.LowerIdempotent | app.py:252 | lower-casing twice is lower-casing once |
| Text.Contains | app.py:256 | the test is true exactly when the needle occurs at some position of the haystack |
| Text.ContainsIgnoreCaseLower | users_db.py:182 | case-insensitive containment does not depend on the case of either side |
| Tables.NumCellDigits | app.py:150-154 | the digits of a non-negative integer identifier read back as that integer |
| Tables.SelectAtHits | app.py:256 | df[mask] holds exactly the rows at the true mask positions, in increasing position order |
| Tables.SelectMember | app.py:256 | a row is selected exactly when it sits at a true mask position |
| Tables.SelectedFrom | app.py:261 | every selected row is a row of the table |
| Tables.SelectEmptyIff | app.py:257 | the selection is empty exactly when the mask is all false |
| Tables.SelectFirst | app.py:261 | .iloc[0] of the selection is the row at the first true mask position |
| Tables.RowsWithKeyMember | app.py:267-270 | a row is returned exactly when it is a table row whose key cell equals the key; a NaN key returns nothing |
| Ward.FirstCover | app.py:156-159 | the position found is the first row that holds the number and parses, or the table length when none does |
| Ward.VoterNumber | app.py:147-154 | a NaN identifier has no number; otherwise there is no number exactly when the identifier has no digit |
| Ward.DetectWard | app.py:146-163 | the loop with its early return yields exactly WardOf: the ward of the first covering row, otherwise Unknown |
| Ward.NoDigitsIsUnknown | app.py:147-152 | a NaN identifier or one without digits resolves to Unknown |
| Ward.NumericVoterNumber | app.py:150-154 | an integer identifier n is matched with n |
| Ward.FirstCoverWins | app.py:156-159 | when row k is the first row covering the number, its ward is reported, whatever later rows say |
| Ward.WardOfSound | app.py:156-163 | Unknown exactly when there is no number or no row covers it (so for an empty table); a reported ward comes from the first covering row |
| Ward.FirstCoverSkips | app.py:156-161 | removing a row that covers nothing shifts the first covering position and changes nothing else |
| Ward.MalformedRowSkipped | app.py:157-161 | a row with an unparsable Start, End or Ward changes no result, even when its range holds the number |
| Ward.OverlapExample | app.py:156-159 | with overlapping ranges [10,20]->1 and [15,25]->2, identifier "V17" resolves to ward 1 |
| Ward.DigitRuns | app.py:150 | for letters, digits, letters, digits, the extracted string is the two digit runs joined |
| Ward.ValueExample | app.py:154 | int("12345") == 12345 |
| Ward.DigitsOfExample | app.py:150 | the digits of "ABC123XY45" are "12345" |
| Ward.DigitsExample | app.py:150-154 | "ABC123XY45" is matched with the number 12345 |
| Ward.AppendRange | app.py:403-406 | appending a range keeps every detected ward; an Unknown identifier gets the new ward exactly when the new row covers its number |
| AppSearch.MaskIsRowHit | app.py:252-256 | the mask computed on the projection agrees with the case-insensitive match on the raw row |
| AppSearch.MatchesMember | app.py:256 | a row is found exactly when it is a row of the table that matches the query |
| AppSearch.MatchesInOrder | app.py:256 | the found rows are exactly the matching rows, in table order |
| AppSearch.MatchesEmptyIff | app.py:257 | nothing is found exactly when no row matches |
| AppSearch.FirstMatch | app.py:261-265 | the person joined is the first matching pupils row in table order |
| AppSearch.MatchesAfterAppend | app.py:345 | after a row is appended, earlier results are unchanged and the row is found at the end exactly when it matches |
| AppSearch.CaseInsensitiveExample | app.py:252-256 | "Ramesh" is found by "ramesh" and by "RAM" |
| AppSearch.MissingCellExample | app.py:135 | an empty field reads "nan" and is found by the query "NaN" |
| AppSearch.HouseholdRows | app.py:265-270 | the family rows and the members shown are exactly the rows whose Family_ID equals the person's |
| AppSearch.HouseholdInOrder | app.py:265-270 | the family rows and the roster are the rows at the positions with the person's Family_ID, in table order |
| AppSearch.HouseholdHasPerson | app.py:265-270 | the roster includes the person unless the Family_ID is empty, in which case family rows and roster are empty |
| AppSearch.OnlyFirstPersonJoined | app.py:261-270 | a family row shown never carries the differing Family_ID of another matched person |
| AppSearch.MatchedHasColumns | app.py:256-261 | each found person is a pupils row and has the Voter_ID and Family_ID columns |
| AppSearch.Dashboard | app.py:249-316 | no search for an empty query; otherwise each table's matches, the household of the first person exactly when a person is found, and "Data Not Found" exactly when no table matches |
| UsersDbSearch.FindInSpec | users_db.py:181-182 | a row is found exactly when it is an index row that matches, and the found rows keep the index order |
| UsersDbSearch.FindInEmptyIff | users_db.py:184 | nothing is found exactly when no index row matches |
| UsersDbSearch.SameRowsAsApp | users_db.py:181-182 | both revisions select the same positions, so users_db.py shows the string forms of app.py's rows |
| UsersDbSearch.NumericFamilyIdNotJoined | users_db.py:190-196 | for a pupil with Family_ID 12 and a family with Family_ID 12, both read as integers, the written lookup finds no family and the corrected lookup finds that family |
| UsersDbSearch.NumericFamiliesNeverJoined | users_db.py:190 | as written, when every Family_ID of families.csv is an integer, no pupil's family is ever found |
| UsersDbSearch.FamilyIdMasksAgree | users_db.py:190 | when no Family_ID cell is an integer, the corrected comparison keeps the same rows as the written one |
| UsersDbSearch.DetailsAgree | users_db.py:189-196 | when neither table has an integer Family_ID, the corrected lookup gives what the written lookup gives |
| UsersDbSearch.DetailsSpec | users_db.py:189-196 | details are found exactly when a family carries the pupil's Family_ID, come from the first such family, and list exactly the pupils with that Family_ID |
| UsersDbSearch.AllDetailsSpec | users_db.py:189-196 | the j-th block shown is the details of the j-th matched pupil whose family is found, in result order; every found family is shown; none is shown exactly when no matched pupil has a family |
| UsersDbSearch.AllDetailsAsWritten | users_db.py:189-196 | when neither table has an integer Family_ID, the details shown are the written lookup applied to each matched row, in result order |
| UsersDbSearch.OtherTablesInOrder | users_db.py:199-204 | the pass over the index reports families, places and team in that order, each exactly when it has matches, and never pupils |
| UsersDbSearch.OtherMatchesSound | users_db.py:199-204 | every reported entry is a non-pupils index table with its non-empty matches |
| UsersDbSearch.FoundColumns | users_db.py:181-190 | found index rows have the Family_ID column the lookup reads |
| UsersDbSearch.ShowFamilyDetails | users_db.py:189-196 | the loop over the matched pupils yields exactly AllDetails |
| UsersDbSearch.ShowOtherTables | users_db.py:199-204 | the loop over the index items yields exactly OtherMatches |
| UsersDbSearch.Dashboard | users_db.py:177-207 | no search for an empty query; otherwise the pupil matches, their family details, the other tables' matches, and "Data Not Found" exactly when none of the four tables matches |
| Admin.Replaced | app.py:355 | the table keeps its length, row idx is the new row, and every other row is unchanged |
| Admin.RemoveAt | app.py:363 | one row shorter; rows before d unchanged; rows after d shifted down by one, in order |
| Admin.RemoveAtMultiset | app.py:363 | deleting removes exactly one copy of row d and nothing else |
| Admin.AddedRowFound | app.py:345 | an added row is found by the search after the earlier results exactly when the query occurs, ignoring case, in one of its values |
| Admin.Shown | app.py:353 | the values the Edit form shows for a row of text cells give that row back when submitted |
| Admin.AddThenDeleteRestores | app.py:340-365 | Add followed by Delete of the last row leaves the table as it was |
| Admin.EditBackRestores | app.py:348-357 | an Update of a text row followed by an Update with the values the form showed for it leaves the table as it was |
| Admin.AdminTable.HasEveryColumn | app.py:352-353 | every column the form lists is present in every row of the table |
| Admin.AdminTable.constructor | app.py:329-331 | the panel holds the table's columns and rows |
| Admin.AdminTable.Add | app.py:340-346 | the admin's Add appends the entered row at the end (users_db.py:264-270 likewise); anyone else changes nothing |
| Admin.AdminTable.Update | app.py:348-357 | the admin's Update replaces row idx, and only it (users_db.py:272-281 likewise); anyone else changes nothing |
| Admin.AdminTable.Delete | app.py:359-365 | the admin's Delete removes row d and keeps the rest in order; anyone else changes nothing |
| Admin.AdminTable.DeleteIfConfirmed | users_db.py:283-290 | row d is removed only by the admin with the confirmation ticked; otherwise the table is unchanged |
| Admin.WardSettings.constructor | app.py:393 | the page holds the ward range table |
| Admin.WardSettings.SaveRange | app.py:399-407 | the admin's Save Range appends the entered ward, start and end as the last range; anyone else changes nothing |
| Admin.SavedRangeDetects | app.py:403-406 | after a saved range, known wards stay; an Unknown identifier whose number lies in the range gets its ward; others stay Unknown |

## Findings

| source | as written | input that shows it | evidently intended | confidence | as-written member | corrected member |
|---|---|---|---|---|---|---|
| users_db.py:190 | the family lookup compares the raw Family_ID cells of families.csv (and of pupils.csv, line 196) with the pupil's Family_ID taken from the stringified index, so an integer Family_ID column never equals it | a pupil with Family_ID 12 and a family with Family_ID 12, both read as integers | the pupil's family and household are shown | not executed | UsersDbSearch.DetailsAsWritten, UsersDbSearch.NumericFamilyIdNotJoined, UsersDbSearch.NumericFamiliesNeverJoined | UsersDbSearch.Details, UsersDbSearch.DetailsSpec, UsersDbSearch.DetailsAgree |

The users_db.py dashboard (`UsersDbSearch.Dashboard`) uses the corrected
lookup.

## Left out

- User interface, login, session roles, CSS, maps, gallery and
  dashboard-media uploads: these are presentation and file handling. The
  admin check becomes an `isAdmin` parameter.
- CSV input and output: a table is the list of rows its file holds. Add
  writes to the file, and the next script run reads it back; the model's
  `rows` is that persisted table.
- Admin.AddedRowFound, Admin.EnteredRow, Admin.AdminTable.Add,
  Admin.AdminTable.Update: entered values are kept as text cells, and what
  pandas makes of them when the CSV is next read is not modelled. An empty
  field comes back as NaN (shown as "nan" and found by the query "nan"),
  and "12" or "007" in a numeric column comes back as the integer 12 or 7
  (so "007" no longer finds it). The search statement about an added row
  holds for the row as entered, not for the row as read back.
- Admin.EditBackRestores: stated for rows of text cells only. For a row
  with integer or NaN cells, the text the form resubmits only becomes the
  old cells again through the read-back above, which is not modelled.
- Admin.AdminTable.Update, Admin.AdminTable.Delete: `df.loc[idx]` and
  `df.drop(d)` use row labels. The model uses positions, which equal the
  labels of a freshly loaded table.
- Text.Contains: `str.contains` interprets the query as a regular
  expression by default. The model uses plain substring containment, which
  is the same test for a query without metacharacters; queries with
  metacharacters (including ones that make `str.contains` raise) are not
  modelled.
- Text.Lower, Text.Digits: lower-casing and digit tests cover ASCII only.
  Unicode letters and Unicode digits, which Python's `lower()` and
  `isdigit()` also handle, are not modelled.
- Text.Value: Python refuses to convert a digit string longer than its
  configured limit (4300 digits). That error is raised outside the `try`
  and is not modelled; the model reads any digit string.
- Tables.CellStr: a numeric column with empty fields is read as floats and
  prints as "12.0". Floating-point cells are not modelled.
- Ward.RangeRow: each field is the outcome of Python's `int()` on the
  cell, with None for an `int()` that raises. How `int()` parses the raw
  cell text is not modelled.
- Caching of `prepare` and `build_search_index`: pure memoisation, with no
  visible effect.
