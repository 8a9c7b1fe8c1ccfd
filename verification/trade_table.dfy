/**
 * The trade file with the CSV layer removed: a header and a sequence of rows, each row a
 * sequence of strings. A row's key is its first three columns (strategy, trade date,
 * instrument). Everything here is a pure function of the table; the class in module Tracker
 * applies these functions to the file's contents.
 */
module TradeTable {
  import opened Wrappers
  import opened Text

  type Row = seq<string>

  /** The header that initialize_file writes and that clearing the file writes back. */
  const Header: Row := [
    "Strategy_Name", "Trade_Date", "Instrument", "Strike_Price", "Buy/Sell",
    "Expiry_Date", "Type", "Lots", "Entry_Price", "Exit_Price",
    "Hedged_Strike_Price", "Hedged_Buy/Sell", "Hedged_Entry_Price", "Hedged_Exit_Price",
    "Margin_Used", "Holding_Period", "P&L"]

  /** The composite key: strategy name, trade date and instrument. */
  datatype Key = Key(strategy: string, date: string, instrument: string)

  /** The key typed into the three key entries of the update and search tabs, stripped. */
  function KeyOf(strategy: string, date: string, instrument: string): (k: Key)
    ensures IsComplete(k) <==> !AllSpace(strategy) && !AllSpace(date) && !AllSpace(instrument)
  {
    Key(Strip(strategy), Strip(date), Strip(instrument))
  }

  /** All three key parts are non-empty. */
  predicate IsComplete(key: Key) {
    key.strategy != "" && key.date != "" && key.instrument != ""
  }

  /**
   * Every row has the three key columns. The tracker indexes `row[0]`, `row[1]` and `row[2]`
   * of every row it scans without checking the row's length, so each scanning operation
   * requires this of the file.
   */
  predicate Keyed(rows: seq<Row>) {
    forall i :: 0 <= i < |rows| ==> |rows[i]| >= 3
  }

  function RowKey(row: Row): (k: Key)
    requires |row| >= 3
  {
    Key(row[0], row[1], row[2])
  }

  predicate Matches(row: Row, key: Key)
    requires |row| >= 3
  {
    RowKey(row) == key
  }

  predicate HasKey(rows: seq<Row>, key: Key)
    requires Keyed(rows)
  {
    exists i :: 0 <= i < |rows| && Matches(rows[i], key)
  }

  /** No two rows share a key: the invariant adding a trade is meant to keep. */
  predicate UniqueKeys(rows: seq<Row>)
    requires Keyed(rows)
  {
    forall i, j :: 0 <= i < j < |rows| ==> RowKey(rows[i]) != RowKey(rows[j])
  }

  lemma HasKeySnoc(rows: seq<Row>, row: Row, key: Key)
    requires Keyed(rows) && |row| >= 3
    ensures Keyed(rows + [row])
    ensures HasKey(rows + [row], key) <==> HasKey(rows, key) || Matches(row, key)
  {
    var s := rows + [row];
    if HasKey(s, key) && !Matches(row, key) {
      var i :| 0 <= i < |s| && Matches(s[i], key);
      assert i < |rows| && s[i] == rows[i];
    }
    if HasKey(rows, key) {
      var i :| 0 <= i < |rows| && Matches(rows[i], key);
      assert s[i] == rows[i];
    }
    if Matches(row, key) {
      assert s[|rows|] == row;
    }
  }

  // ---------------------------------------------------------------------------------------
  // Finding a trade (find_trade_for_update, search_trade)

  /** The index of the first row, in file order, whose key is `key`. */
  function FirstMatch(rows: seq<Row>, key: Key): (r: Option<nat>)
    requires Keyed(rows)
    ensures r.Some? ==> r.value < |rows| && Matches(rows[r.value], key)
    ensures r.Some? ==> forall j :: 0 <= j < r.value ==> !Matches(rows[j], key)
    ensures r.None? <==> !HasKey(rows, key)
  {
    if rows == [] then None
    else if Matches(rows[0], key) then Some(0)
    else
      var rest := FirstMatch(rows[1..], key);
      assert forall j :: 1 <= j < |rows| ==> rows[j] == rows[1..][j - 1];
      match rest
      case None => None
      case Some(i) => Some(i + 1)
  }

  // ---------------------------------------------------------------------------------------
  // Deleting a trade (delete_selected_trade)

  /** The rows kept by the delete filter: those whose key is not `key`, in file order. */
  function WithoutKey(rows: seq<Row>, key: Key): (r: seq<Row>)
    requires Keyed(rows)
    ensures Keyed(r) && |r| <= |rows|
    ensures forall i :: 0 <= i < |r| ==> r[i] in rows && !Matches(r[i], key)
    ensures forall i :: 0 <= i < |rows| && !Matches(rows[i], key) ==> rows[i] in r
    ensures |r| == |rows| <==> !HasKey(rows, key)
    ensures !HasKey(rows, key) ==> r == rows
  {
    if rows == [] then []
    else
      var init := rows[..|rows| - 1];
      var last := rows[|rows| - 1];
      assert rows == init + [last];
      HasKeySnoc(init, last, key);
      var rest := WithoutKey(init, key);
      if Matches(last, key) then rest else rest + [last]
  }

  lemma WithoutKeySnoc(rows: seq<Row>, last: Row, key: Key)
    requires Keyed(rows) && |last| >= 3
    ensures Keyed(rows + [last])
    ensures WithoutKey(rows + [last], key)
         == WithoutKey(rows, key) + (if Matches(last, key) then [] else [last])
  {
    var s := rows + [last];
    assert s[..|s| - 1] == rows;
  }

  lemma ConcatAssoc(x: seq<Row>, y: seq<Row>, z: seq<Row>)
    ensures (x + y) + z == x + (y + z)
  {
  }

  /** The filter keeps the file's order: it distributes over concatenation. */
  lemma {:induction false} WithoutKeyAppend(a: seq<Row>, b: seq<Row>, key: Key)
    requires Keyed(a) && Keyed(b)
    ensures Keyed(a + b)
    ensures WithoutKey(a + b, key) == WithoutKey(a, key) + WithoutKey(b, key)
    decreases |b|
  {
    if b == [] {
      assert a + b == a;
    } else {
      var init := b[..|b| - 1];
      var last := b[|b| - 1];
      assert b == init + [last];
      WithoutKeyAppend(a, init, key);
      var front := a + init;
      assert a + b == front + [last];
      WithoutKeySnoc(front, last, key);
      WithoutKeySnoc(init, last, key);
      var tail: seq<Row> := if Matches(last, key) then [] else [last];
      ConcatAssoc(WithoutKey(a, key), WithoutKey(init, key), tail);
      calc {
        WithoutKey(a + b, key);
        WithoutKey(front + [last], key);
        WithoutKey(front, key) + tail;
        (WithoutKey(a, key) + WithoutKey(init, key)) + tail;
        WithoutKey(a, key) + (WithoutKey(init, key) + tail);
        WithoutKey(a, key) + WithoutKey(b, key);
      }
    }
  }

  /** Deleting by key keeps the unique-key invariant. */
  lemma {:induction false} WithoutKeyKeepsUnique(rows: seq<Row>, key: Key)
    requires Keyed(rows) && UniqueKeys(rows)
    ensures UniqueKeys(WithoutKey(rows, key))
    decreases |rows|
  {
    if rows != [] {
      var init := rows[..|rows| - 1];
      var last := rows[|rows| - 1];
      WithoutKeyKeepsUnique(init, key);
      var rest := WithoutKey(init, key);
      if !Matches(last, key) {
        var s := rest + [last];
        forall i, j | 0 <= i < j < |s| ensures RowKey(s[i]) != RowKey(s[j]) {
          if j < |rest| {
            assert s[i] == rest[i] && s[j] == rest[j];
          } else {
            assert s[i] == rest[i] && rest[i] in init;
            var k :| 0 <= k < |init| && init[k] == rest[i];
            assert rows[k] == init[k] && rows[|rows| - 1] == last;
          }
        }
      }
    }
  }

  // ---------------------------------------------------------------------------------------
  // Updating a trade (save_updated_trade)

  /** Every edited value of the update form with surrounding white space removed. */
  function StripValues(entries: map<string, string>): (m: map<string, string>)
    ensures m.Keys == entries.Keys
    ensures forall h :: h in entries ==> (m[h] == "" <==> AllSpace(entries[h]))
  {
    map h | h in entries :: Strip(entries[h])
  }

  /** The value stored under `h`, or the empty string when there is none. */
  function Get(d: map<string, string>, h: string): (v: string) {
    if h in d then d[h] else ""
  }

  /**
   * The old row has a cell for every column whose new value is empty or missing: the only
   * cells a save reads from it.
   */
  predicate Mergeable(row: Row, header: Row, updated: map<string, string>) {
    forall i :: 0 <= i < |header| && Get(updated, header[i]) == "" ==> i < |row|
  }

  /**
   * The updated row: one cell per header column; a non-empty new value for that column
   * replaces the old cell, an empty or missing one keeps it.
   */
  function MergeRow(row: Row, header: Row, updated: map<string, string>): (r: Row)
    requires Mergeable(row, header, updated)
    ensures |r| == |header|
  {
    seq(|header|, i requires 0 <= i < |header| =>
      if Get(updated, header[i]) != "" then Get(updated, header[i]) else row[i])
  }

  /** The merge rule cell by cell: blank keeps, non-blank overwrites. */
  lemma MergeCell(row: Row, header: Row, updated: map<string, string>, i: nat)
    requires Mergeable(row, header, updated) && i < |header|
    ensures Get(updated, header[i]) == "" ==> MergeRow(row, header, updated)[i] == row[i]
    ensures Get(updated, header[i]) != "" ==> MergeRow(row, header, updated)[i] == Get(updated, header[i])
  {
  }

  /** With every value blank or missing, the save reads every cell and rewrites the row unchanged (cut to the header). */
  lemma MergeNothing(row: Row, header: Row, updated: map<string, string>)
    requires Mergeable(row, header, updated)
    requires forall i :: 0 <= i < |header| ==> Get(updated, header[i]) == ""
    ensures |header| <= |row| && MergeRow(row, header, updated) == row[..|header|]
  {
    if |header| > 0 {
      assert Get(updated, header[|header| - 1]) == "";
    }
  }

  /** Saving the same values twice changes nothing the second time. */
  lemma MergeIdempotent(row: Row, header: Row, updated: map<string, string>)
    requires Mergeable(row, header, updated)
    ensures MergeRow(MergeRow(row, header, updated), header, updated) == MergeRow(row, header, updated)
  {
  }

  /** The rows a save may touch, those matching the key, have every cell the save reads. */
  predicate CoversHeader(rows: seq<Row>, key: Key, header: Row, updated: map<string, string>)
    requires Keyed(rows)
  {
    forall i :: 0 <= i < |rows| && Matches(rows[i], key) ==> Mergeable(rows[i], header, updated)
  }

  /** Every row matching `key` merged with the new values; every other row as it was. */
  function UpdateAll(rows: seq<Row>, key: Key, header: Row, updated: map<string, string>): (r: seq<Row>)
    requires Keyed(rows) && CoversHeader(rows, key, header, updated)
    ensures |r| == |rows|
    ensures forall i :: 0 <= i < |rows| && !Matches(rows[i], key) ==> r[i] == rows[i]
    ensures forall i :: 0 <= i < |rows| && Matches(rows[i], key) ==> r[i] == MergeRow(rows[i], header, updated)
    ensures !HasKey(rows, key) ==> r == rows
  {
    if rows == [] then []
    else
      var init := rows[..|rows| - 1];
      var last := rows[|rows| - 1];
      assert rows == init + [last];
      HasKeySnoc(init, last, key);
      PrefixCovers(rows, key, header, updated, |rows| - 1);
      var rest := UpdateAll(init, key, header, updated);
      var r := rest + [if Matches(last, key) then MergeRow(last, header, updated) else last];
      assert forall i :: 0 <= i < |init| ==> r[i] == rest[i] && rows[i] == init[i];
      r
  }

  /** The prefixes of rows a save may act on may be saved over too. */
  lemma PrefixCovers(rows: seq<Row>, key: Key, header: Row, updated: map<string, string>, i: nat)
    requires Keyed(rows) && CoversHeader(rows, key, header, updated) && i <= |rows|
    ensures Keyed(rows[..i]) && CoversHeader(rows[..i], key, header, updated)
  {
  }

  /** Saving over one more row of the file appends that row, merged when it matches. */
  lemma UpdateAllStep(rows: seq<Row>, key: Key, header: Row, updated: map<string, string>, i: nat)
    requires Keyed(rows) && CoversHeader(rows, key, header, updated) && i < |rows|
    ensures Keyed(rows[..i + 1]) && CoversHeader(rows[..i + 1], key, header, updated)
    ensures |rows[i]| >= 3 && (Matches(rows[i], key) ==> Mergeable(rows[i], header, updated))
    ensures UpdateAll(rows[..i + 1], key, header, updated) ==
      UpdateAll(rows[..i], key, header, updated)
        + [if Matches(rows[i], key) then MergeRow(rows[i], header, updated) else rows[i]]
    ensures HasKey(rows[..i + 1], key) <==> HasKey(rows[..i], key) || Matches(rows[i], key)
  {
    PrefixCovers(rows, key, header, updated, i);
    PrefixCovers(rows, key, header, updated, i + 1);
    assert rows[..i + 1] == rows[..i] + [rows[i]];
    assert rows[..i + 1][..i] == rows[..i];
    HasKeySnoc(rows[..i], rows[i], key);
  }

  /**
   * A save does not check the edited key against the other rows: saving the second trade's
   * strategy name into the first leaves two rows with the same key.
   */
  lemma UpdateCanRepeatKey()
    ensures UniqueKeys([["a", "d", "i"], ["b", "d", "i"]])
    ensures UpdateAll([["a", "d", "i"], ["b", "d", "i"]], Key("a", "d", "i"),
      ["Strategy_Name", "Trade_Date", "Instrument"], map["Strategy_Name" := "b"])
      == [["b", "d", "i"], ["b", "d", "i"]]
    ensures !UniqueKeys([["b", "d", "i"], ["b", "d", "i"]])
  {
    var rows: seq<Row> := [["a", "d", "i"], ["b", "d", "i"]];
    var header: Row := ["Strategy_Name", "Trade_Date", "Instrument"];
    var updated := map["Strategy_Name" := "b"];
    assert Matches(rows[0], Key("a", "d", "i")) && !Matches(rows[1], Key("a", "d", "i"));
    var merged := MergeRow(rows[0], header, updated);
    assert merged[0] == "b" && merged[1] == "d" && merged[2] == "i";
    assert merged == ["b", "d", "i"];
    var after: seq<Row> := [["b", "d", "i"], ["b", "d", "i"]];
    assert RowKey(after[0]) == RowKey(after[1]);
  }

  // ---------------------------------------------------------------------------------------
  // The update form (find_trade_for_update)

  /** The text an update entry starts with: the found row's cell, or "" past its end. */
  function Cell(found: Row, idx: nat): (v: string) {
    if idx < |found| then found[idx] else ""
  }

  /** The update entries keyed by column name, filled in column order (a later column wins). */
  function FormEntries(columns: seq<string>, found: Row): (m: map<string, string>)
    ensures m.Keys == set c | c in columns
  {
    if columns == [] then map[]
    else FormEntries(columns[..|columns| - 1], found)[columns[|columns| - 1] := Cell(found, |columns| - 1)]
  }

  /** The entries shown for the first 17 header columns: one per column name among them. */
  function Prefill(header: Row, found: Row): (m: map<string, string>)
    ensures forall c :: c in m <==> exists i :: 0 <= i < |header| && i < 17 && header[i] == c
  {
    FormEntries(if |header| <= 17 then header else header[..17], found)
  }

  predicate Distinct(columns: seq<string>) {
    forall i, j :: 0 <= i < j < |columns| ==> columns[i] != columns[j]
  }

  /**
   * A later column of the same name wins: the entry for a name holds the cell of the last
   * column with that name. With distinct names, each entry holds its own column's cell.
   */
  lemma {:induction false} FormEntriesAt(columns: seq<string>, found: Row, i: nat)
    requires i < |columns|
    requires forall j :: i < j < |columns| ==> columns[j] != columns[i]
    ensures FormEntries(columns, found)[columns[i]] == Cell(found, i)
    decreases |columns|
  {
    var n := |columns| - 1;
    if i < n {
      var init := columns[..n];
      assert init[i] == columns[i] && columns[i] != columns[n];
      FormEntriesAt(init, found, i);
    }
  }

  /** The stripped entry a save reads for column `i` when the form was filled from `row`. */
  lemma PrefillAt(header: Row, row: Row, i: nat)
    requires Distinct(header) && i < |header|
    ensures i < 17 ==> Get(StripValues(Prefill(header, row)), header[i]) == Strip(Cell(row, i))
    ensures i >= 17 ==> Get(StripValues(Prefill(header, row)), header[i]) == ""
  {
    var columns := if |header| <= 17 then header else header[..17];
    assert Distinct(columns);
    if i < |columns| {
      assert columns[i] == header[i];
      FormEntriesAt(columns, row, i);
    } else {
      assert header[i] !in columns;
    }
  }

  /**
   * Finding a trade and saving without editing any entry leaves the row as it was, when the
   * header's names are distinct and the row's cells are already stripped (as added rows are).
   */
  lemma SaveUnchangedIsNoOp(header: Row, row: Row)
    requires Distinct(header) && |row| == |header|
    requires forall i :: 0 <= i < |row| ==> Strip(row[i]) == row[i]
    ensures MergeRow(row, header, StripValues(Prefill(header, row))) == row
  {
    var updated := StripValues(Prefill(header, row));
    var r := MergeRow(row, header, updated);
    forall i | 0 <= i < |header| ensures r[i] == row[i] {
      PrefillAt(header, row, i);
    }
  }

  // ---------------------------------------------------------------------------------------
  // The totals shown under the table (load_trades_into_table)

  /** The first position of `x` in the header, if it occurs at all. */
  function IndexOf(s: seq<string>, x: string): (r: Option<nat>)
    ensures r.Some? ==> r.value < |s| && s[r.value] == x && forall j :: 0 <= j < r.value ==> s[j] != x
    ensures r.None? <==> x !in s
  {
    if s == [] then None
    else if s[0] == x then Some(0)
    else
      assert forall j :: 1 <= j < |s| ==> s[j] == s[1..][j - 1];
      assert x in s <==> x in s[1..] by {
        assert s == [s[0]] + s[1..];
      }
      match IndexOf(s[1..], x)
      case None => None
      case Some(i) => Some(i + 1)
  }

  /** The sign of a P&L cell read as a floating-point number, or that it is not a number; NaN counts as Zero. */
  datatype PnlSign = Unparsable | Negative | Zero | Positive

  datatype Totals = Totals(total: nat, winning: nat, losing: nat)

  /**
   * The counters of load_trades_into_table: rows with exactly one cell per header column are
   * trades; a trade whose P&L is positive is a win, one whose P&L is negative a loss.
   */
  function Tally(header: Row, rows: seq<Row>, plSign: string -> PnlSign): (t: Totals)
    ensures t.winning + t.losing <= t.total <= |rows|
    ensures IndexOf(header, "P&L").None? ==> t.winning == 0 && t.losing == 0
  {
    if rows == [] then Totals(0, 0, 0)
    else
      var t := Tally(header, rows[..|rows| - 1], plSign);
      var row := rows[|rows| - 1];
      if |row| != |header| then t
      else match IndexOf(header, "P&L")
        case None => Totals(t.total + 1, t.winning, t.losing)
        case Some(p) =>
          var sign := plSign(row[p]);
          Totals(t.total + 1,
                 t.winning + (if sign == Positive then 1 else 0),
                 t.losing + (if sign == Negative then 1 else 0))
  }

  function Sum(a: Totals, b: Totals): (t: Totals) {
    Totals(a.total + b.total, a.winning + b.winning, a.losing + b.losing)
  }

  /** The counts over two stretches of the file add up. */
  lemma {:induction false} TallyAppend(header: Row, a: seq<Row>, b: seq<Row>, plSign: string -> PnlSign)
    ensures Tally(header, a + b, plSign) == Sum(Tally(header, a, plSign), Tally(header, b, plSign))
    decreases |b|
  {
    if b == [] {
      assert a + b == a;
    } else {
      var init, last := b[..|b| - 1], b[|b| - 1];
      assert b == init + [last];
      assert a + b == (a + init) + [last];
      TallySnoc(header, a + init, last, plSign);
      TallySnoc(header, init, last, plSign);
      TallyAppend(header, a, init, plSign);
    }
  }

  /** One more row adds its own count to the counts so far. */
  lemma TallySnoc(header: Row, rows: seq<Row>, row: Row, plSign: string -> PnlSign)
    ensures Tally(header, rows + [row], plSign) == Sum(Tally(header, rows, plSign), Tally(header, [row], plSign))
  {
    assert (rows + [row])[..|rows|] == rows;
    assert [row][..0] == [];
  }

  /** A trade whose P&L is positive counts as one trade and one win. */
  lemma TallyWin(header: Row, row: Row, p: nat, plSign: string -> PnlSign)
    requires IndexOf(header, "P&L") == Some(p) && |row| == |header|
    requires plSign(row[p]) == Positive
    ensures Tally(header, [row], plSign) == Totals(1, 1, 0)
  {
    assert [row][..0] == [];
  }

  /** A trade whose P&L is negative counts as one trade and one loss. */
  lemma TallyLoss(header: Row, row: Row, p: nat, plSign: string -> PnlSign)
    requires IndexOf(header, "P&L") == Some(p) && |row| == |header|
    requires plSign(row[p]) == Negative
    ensures Tally(header, [row], plSign) == Totals(1, 0, 1)
  {
    assert [row][..0] == [];
  }

  /** A trade whose P&L is zero or not a number counts as a trade, neither a win nor a loss. */
  lemma TallyNeither(header: Row, row: Row, p: nat, plSign: string -> PnlSign)
    requires IndexOf(header, "P&L") == Some(p) && |row| == |header|
    requires plSign(row[p]) == Zero || plSign(row[p]) == Unparsable
    ensures Tally(header, [row], plSign) == Totals(1, 0, 0)
  {
    assert [row][..0] == [];
  }

  /** Appending a win to the file adds one trade and one win and leaves the losses alone. */
  lemma TallyAddWin(header: Row, rows: seq<Row>, row: Row, p: nat, plSign: string -> PnlSign)
    requires IndexOf(header, "P&L") == Some(p) && |row| == |header|
    requires plSign(row[p]) == Positive
    ensures var t, t' := Tally(header, rows, plSign), Tally(header, rows + [row], plSign);
      t' == Totals(t.total + 1, t.winning + 1, t.losing)
  {
    TallySnoc(header, rows, row, plSign);
    TallyWin(header, row, p, plSign);
  }

  /** Appending a loss to the file adds one trade and one loss and leaves the wins alone. */
  lemma TallyAddLoss(header: Row, rows: seq<Row>, row: Row, p: nat, plSign: string -> PnlSign)
    requires IndexOf(header, "P&L") == Some(p) && |row| == |header|
    requires plSign(row[p]) == Negative
    ensures var t, t' := Tally(header, rows, plSign), Tally(header, rows + [row], plSign);
      t' == Totals(t.total + 1, t.winning, t.losing + 1)
  {
    TallySnoc(header, rows, row, plSign);
    TallyLoss(header, row, p, plSign);
  }

  /** Appending a trade whose P&L is zero or not a number adds one trade and nothing else. */
  lemma TallyAddNeither(header: Row, rows: seq<Row>, row: Row, p: nat, plSign: string -> PnlSign)
    requires IndexOf(header, "P&L") == Some(p) && |row| == |header|
    requires plSign(row[p]) == Zero || plSign(row[p]) == Unparsable
    ensures var t, t' := Tally(header, rows, plSign), Tally(header, rows + [row], plSign);
      t' == Totals(t.total + 1, t.winning, t.losing)
  {
    TallySnoc(header, rows, row, plSign);
    TallyNeither(header, row, p, plSign);
  }

  /**
   * Four trades whose P&L cells read as positive, negative, zero and not a number make four
   * trades, one win and one loss.
   */
  lemma TallyFourTrades(header: Row, rows: seq<Row>, p: nat, plSign: string -> PnlSign)
    requires IndexOf(header, "P&L") == Some(p)
    requires |rows| == 4 && forall i :: 0 <= i < 4 ==> |rows[i]| == |header|
    requires plSign(rows[0][p]) == Positive && plSign(rows[1][p]) == Negative
    requires plSign(rows[2][p]) == Zero && plSign(rows[3][p]) == Unparsable
    ensures Tally(header, rows, plSign) == Totals(4, 1, 1)
  {
    var none: seq<Row> := [];
    assert rows[..1] == none + [rows[0]];
    TallyAddWin(header, none, rows[0], p, plSign);
    assert rows[..2] == rows[..1] + [rows[1]];
    TallyAddLoss(header, rows[..1], rows[1], p, plSign);
    assert rows[..3] == rows[..2] + [rows[2]];
    TallyAddNeither(header, rows[..2], rows[2], p, plSign);
    assert rows == rows[..3] + [rows[3]];
    TallyAddNeither(header, rows[..3], rows[3], p, plSign);
  }

  /** When every row has one cell per header column, every row is counted as a trade. */
  lemma {:induction false} TallyCountsEveryFullRow(header: Row, rows: seq<Row>, plSign: string -> PnlSign)
    requires forall i :: 0 <= i < |rows| ==> |rows[i]| == |header|
    ensures Tally(header, rows, plSign).total == |rows|
    decreases |rows|
  {
    if rows != [] {
      TallyCountsEveryFullRow(header, rows[..|rows| - 1], plSign);
    }
  }

  /** A row of the wrong width is skipped: it is not a trade, a win or a loss. */
  lemma {:induction false} TallySkipsMalformed(header: Row, rows: seq<Row>, plSign: string -> PnlSign)
    requires forall i :: 0 <= i < |rows| ==> |rows[i]| != |header|
    ensures Tally(header, rows, plSign) == Totals(0, 0, 0)
    decreases |rows|
  {
    if rows != [] {
      TallySkipsMalformed(header, rows[..|rows| - 1], plSign);
    }
  }
}
