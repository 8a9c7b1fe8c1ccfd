# Option Selling Tracker — a verified model of its trade file

Option Selling Tracker is a desktop journal for option-selling trades. Every trade is one row
of a CSV file whose first line is a fixed 17-column header. The first three columns are the
strategy name, trade date and instrument, and together they form the trade's key. The
tracker can:

- add a trade from an 18-entry form, refusing blank required entries, duplicate keys and
  incomplete hedge details;
- delete every row with a selected key;
- look a trade up by its key, to show it or to fill an update form;
- save an edited trade over every row with its original key, keeping a cell wherever its
  edited value is blank;
- clear the file back to its header;
- count the trades, winners and losers when the table is loaded.

The model has five modules:

- `Wrappers`: `Option` and `Result`.
- `Text`: Python's `str.strip()` over the characters `str.isspace()` accepts, and lower-casing
  of the hedge answer on ASCII letters (see the section on what is left out).
- `TradeTable`: the file's contents as values, with the functions that specify each
  operation and the lemmas about them. These cover the header, keys, the first match, the
  delete filter, the merge of a save, the update form's entries and the totals.
- `TradeForm`: the add form and `AddDecision`, which says what `add_trade` does with a form:
  a missing field, a duplicate, an incomplete hedge, or the row it appends.
- `Tracker`: the class `TradeFile`. Its fields `header` and `rows` are the file, and its
  methods rewrite them with the same loops and the same order of checks as the tracker. Each
  method is proved against the matching `TradeTable` or `TradeForm` function.

## Model

| member | source | states |
|---|---|---|
| Text.TrimStartSpec | option_selling_tracker.py:98 | removing leading white space leaves a suffix of the entry that is empty or starts with a non-space, and everything removed is white space |
| Text.TrimEndSpec | option_selling_tracker.py:98 | removing trailing white space leaves a prefix that is empty or ends with a non-space, and everything removed is white space |
| Text.Strip | option_selling_tracker.py:98 | a stripped entry is no longer than the entry; it is empty exactly when the entry is all white space, which is when the tracker treats it as missing, and otherwise neither starts nor ends with white space |
| Text.StripSlice | option_selling_tracker.py:98 | what a strip keeps is one contiguous stretch of the entry, and everything cut from before and after it is white space |
| Text.StripIdempotent | option_selling_tracker.py:98 | stripping an already stripped entry changes nothing |
| Text.Lower | option_selling_tracker.py:117 | lower-casing an ASCII answer keeps its length (only ASCII capitals are lowered, see the section on what is left out) |
| Text.LowerIsY | option_selling_tracker.py:117-118 | the hedge answer lower-cases to "y" exactly when the stripped answer is "y" or "Y" |
| TradeTable.KeyOf | option_selling_tracker.py:295-300 | the typed key is complete exactly when none of its three parts is all white space, the test that refuses a lookup |
| TradeTable.FirstMatch | option_selling_tracker.py:310-314 | the index found is of a row with the key, and no earlier row has it; nothing is found exactly when no row has the key |
| TradeTable.WithoutKey | option_selling_tracker.py:201 | the kept rows are rows of the file without the key, every row without the key is kept, and the count is unchanged exactly when no row had the key, in which case the file is unchanged |
| TradeTable.WithoutKeyAppend | option_selling_tracker.py:201 | the filter works stretch by stretch, so the kept rows stay in file order |
| TradeTable.WithoutKeyKeepsUnique | option_selling_tracker.py:186-208 | deleting from a file whose keys are unique leaves them unique |
| TradeTable.MergeRow | option_selling_tracker.py:371 | the saved row has exactly one cell per header column; it needs an old cell only where the edited value is blank, the only cells the save reads |
| TradeTable.MergeCell | option_selling_tracker.py:371 | each cell of a saved row is the non-blank edited value for that column name, or the old cell when that value is blank or missing |
| TradeTable.MergeNothing | option_selling_tracker.py:371 | saving with every value blank reads every header-width cell and gives the row back cut to header width |
| TradeTable.MergeIdempotent | option_selling_tracker.py:371 | saving the same edited values twice changes nothing the second time |
| TradeTable.StripValues | option_selling_tracker.py:358 | the edited values keep their column names, and a value is blank exactly when it was all white space, so such a value keeps the old cell |
| TradeTable.UpdateAll | option_selling_tracker.py:367-375 | the rewritten file has as many rows; each row with the key is merged, every other row is untouched, and with no match the file is unchanged |
| TradeTable.UpdateCanRepeatKey | option_selling_tracker.py:357-390 | a save does not re-check the edited key: a file with unique keys can be saved into one where two rows share a key |
| TradeTable.FormEntries | option_selling_tracker.py:346-352 | the update form has exactly one entry per column name shown |
| TradeTable.FormEntriesAt | option_selling_tracker.py:346-352 | the entry for a column name holds the found row's cell at the last column of that name (a later column overwrites an earlier one), or "" past the row's end; with distinct names, each column's own cell |
| TradeTable.Prefill | option_selling_tracker.py:346-352 | the update form has an entry exactly for the column names among the header's first 17 columns |
| TradeTable.PrefillAt | option_selling_tracker.py:346-352 | for each of the first 17 columns a save reads back the stripped found cell, and for later columns it reads nothing |
| TradeTable.SaveUnchangedIsNoOp | option_selling_tracker.py:346-371 | saving the update form exactly as it was filled leaves a stripped, header-wide row unchanged |
| TradeTable.IndexOf | option_selling_tracker.py:229 | the P&L column is the first occurrence of "P&L" in the header, and is absent exactly when the header lacks it |
| TradeTable.Tally | option_selling_tracker.py:222-243 | winners plus losers never exceed the trades counted, which never exceed the rows; with no P&L column there are no winners or losers |
| TradeTable.TallyAppend | option_selling_tracker.py:230-243 | the totals of two stretches of the file add up to the totals of the whole |
| TradeTable.TallyWin | option_selling_tracker.py:231-239 | a row as wide as the header whose P&L reads as positive counts as one trade and one win |
| TradeTable.TallyLoss | option_selling_tracker.py:231-241 | a row as wide as the header whose P&L reads as negative counts as one trade and one loss |
| TradeTable.TallyNeither | option_selling_tracker.py:231-243 | a row as wide as the header whose P&L is zero or not a number counts as a trade but neither a win nor a loss |
| TradeTable.TallyAddWin | option_selling_tracker.py:230-239 | appending a winning trade raises the trade and win counts by one and leaves the losses unchanged |
| TradeTable.TallyAddLoss | option_selling_tracker.py:230-241 | appending a losing trade raises the trade and loss counts by one and leaves the wins unchanged |
| TradeTable.TallyAddNeither | option_selling_tracker.py:230-243 | appending a trade with a zero or unreadable P&L raises only the trade count |
| TradeTable.TallyFourTrades | option_selling_tracker.py:230-243 | trades with positive, negative, zero and unreadable P&L give four trades, one win and one loss |
| TradeTable.TallyCountsEveryFullRow | option_selling_tracker.py:231-232 | every row as wide as the header is counted as a trade |
| TradeTable.TallySkipsMalformed | option_selling_tracker.py:231 | rows narrower or wider than the header count for nothing |
| TradeForm.FieldPositions | option_selling_tracker.py:65-71 | the form has 18 entries; the required ones are the ten trade entries and the last three, and the four hedge entries follow the hedge answer |
| TradeForm.StripAll | option_selling_tracker.py:98 | stripping keeps one value per form entry, so every label still finds its value |
| TradeForm.FirstBlank | option_selling_tracker.py:105-108 | the position found is of a blank entry and every earlier one is filled; nothing is found exactly when all are filled |
| TradeForm.NewRow | option_selling_tracker.py:127-133 | the appended row has 17 cells and starts with the trade's key |
| TradeForm.SaysHedged | option_selling_tracker.py:117-118 | the trade counts as hedged exactly when the stripped answer is "y" or "Y" |
| TradeForm.HedgeDetails | option_selling_tracker.py:117-126 | the hedge columns are refused exactly when the answer is "y" and a hedge entry is blank; otherwise there are four of them |
| TradeForm.AddDecision | option_selling_tracker.py:97-134 | a form is accepted exactly when every required entry is filled, no row has its key, and a "y" answer comes with all hedge entries; an accepted row has 17 cells, carries the form's key, and that key is complete |
| TradeForm.RequiredFields | option_selling_tracker.py:99-104 | the entries not always required are exactly the hedge answer and the four hedge entries |
| TradeForm.AddReportsFirstBlank | option_selling_tracker.py:105-108 | the field reported missing is the first blank required field in checking order |
| TradeForm.AddRejectsDuplicate | option_selling_tracker.py:109-116 | a complete form whose key is already in the file is refused as a duplicate |
| TradeForm.AddHedgedNeedsDetails | option_selling_tracker.py:117-125 | with a "y" answer, a blank hedge entry refuses the trade; otherwise the hedge columns hold the four hedge entries |
| TradeForm.AddUnhedgedPlaceholders | option_selling_tracker.py:117-126 | any answer other than "y" or "Y" stores "-" in all four hedge columns |
| TradeForm.AddedRowColumns | option_selling_tracker.py:127-133 | the row holds the ten trade entries, then the hedge columns, then margin, holding period and P&L, each stripped |
| TradeForm.AddedRowStripped | option_selling_tracker.py:127-133 | no cell of an appended row has surrounding white space |
| TradeForm.AddKeepsUnique | option_selling_tracker.py:109-134 | an accepted trade keeps the file's keys unique |
| TradeForm.AddThenFind | option_selling_tracker.py:127-134 | after an accepted trade is added to a file with no row of its key, the first match for its key is the new row |
| TradeForm.AddedTradeCounted | option_selling_tracker.py:231-232 | under the tracker's header an added trade counts as one more trade |
| Tracker.FindBlank | option_selling_tracker.py:105-108 | the scan over the entries returns what FirstBlank specifies |
| Tracker.TradeFile.Initialize | option_selling_tracker.py:8-16 | a missing file starts as the 17-column header with no rows; an existing file is kept as it is |
| Tracker.TradeFile.Add | option_selling_tracker.py:97-134 | the result is AddDecision's; the file gains exactly the accepted row at its end, or is unchanged; the header is unchanged and unique keys stay unique |
| Tracker.TradeFile.Contains | option_selling_tracker.py:109-116 | the duplicate scan answers yes exactly when some row has the key |
| Tracker.TradeFile.Delete | option_selling_tracker.py:186-208 | it reports a deletion exactly when some row had the key; the rows become the filtered rows, unchanged when nothing was deleted; unique keys stay unique |
| Tracker.TradeFile.Update | option_selling_tracker.py:357-390 | a blank key part is refused and changes nothing, whatever the file holds; a key no row has is reported not found and changes nothing; otherwise the rows become UpdateAll's |
| Tracker.TradeFile.Rewritten | option_selling_tracker.py:367-375 | the loop's new rows are UpdateAll's, and its flag is set exactly when some row has the key |
| Tracker.TradeFile.Clear | option_selling_tracker.py:441-450 | the file holds only the 17-column header, so every total is zero |
| Tracker.TradeFile.FirstRow | option_selling_tracker.py:425-429 | the row found is the first row with the key, and nothing is found exactly when no row has it |
| Tracker.TradeFile.Search | option_selling_tracker.py:412-439 | a blank key part is refused whatever the file holds; it succeeds exactly when the key is complete and some row has it, and then returns the first row with the key |
| Tracker.TradeFile.FindForUpdate | option_selling_tracker.py:294-352 | refused and not-found as for Search and succeeding exactly when Search would; then the update entries are the first 17 column names filled from the first row with the key |
| Tracker.TradeFile.LoadTotals | option_selling_tracker.py:213-250 | the counters after the loop are Tally's over the whole file, so winners plus losers never exceed the trades counted |

Behaviour the model keeps on purpose, because the code does it:

- save_updated_trade does not check the edited key against the other trades, so unlike add
  it can create a duplicate key. `UpdateCanRepeatKey` exhibits it.
- The update tab tells the user to "leave blank to keep current value"
  (option_selling_tracker.py:325). A value of only white space counts as blank too, because
  the values are stripped first (`StripValues`).
- clear_all_records writes the fixed 17-column header, not the header the file had.
- A trade's key is a plain triple. The typed key is stripped; the rows' cells are compared
  as stored.

## Left out

- The Tkinter window, tabs, dialogs, status bar and table widget. Operations take what the
  user typed as parameters and return what the dialogs would report.
- Reading and writing the CSV file: quoting, newlines and the header line are taken as
  already split into cells. The file is assumed to exist, because initialize_file runs at
  start-up; the branches where it is missing are not modelled.
- Tracker.TradeFile.Delete: takes the key of the selected table row directly. The empty
  selection and the confirmation dialog are not modelled.
- Tracker.TradeFile.Clear: the confirmation dialog is not modelled; the model clears as if
  the user answered yes.
- Tracker.TradeFile.LoadTotals: the P&L cell is read through the parameter `plSign`, which
  stands for Python's float parsing (floating point is not modelled). The running P&L sum
  and its colour are not modelled, and neither is filling the table widget.
- Tracker.TradeFile.Search: returns the found row; its display as header/value lines is not
  modelled.
- Files with rows of fewer than three cells. The tracker compares a row's cells with the key
  one by one and stops at the first difference. It fails with an index error only on a row
  with no cells (a blank CSV line), or on a row of one or two cells that equal the key's
  leading parts. Other short rows are passed over, and scans that stop at the first match
  never reach rows after it. The model instead requires every row to have three cells
  (`Keyed`) wherever a scan runs, so it says nothing about these files:
  - Add, Delete and Contains, on every path. This includes a form with a blank required
    entry, which the tracker refuses before reading the file.
  - Search, FindForUpdate and Update, whenever the typed key is complete. With a blank key
    part they require nothing of the file, as the tracker reads none of it.
- Tracker.TradeFile.Update: with a complete key it requires each row with the key to have a
  cell for every header column whose edited value is blank (`Mergeable`); those are the cells
  the save reads. The index error raised by a row that lacks one is not modelled.
- Text.Lower: only the ASCII capitals A-Z are lowered. Python lower-cases all of Unicode and
  can change a string's length ("İ" becomes two characters). The only use is the hedge
  answer's test against "y", and full lower-casing maps no string other than "y" and "Y" to
  "y", so `LowerIsY` and `SaysHedged` state what the tracker does.
- Concurrent edits of the file by another process are not modelled.
