/**
 * The tracker's operations on its trade file. The file is an object whose header and rows the
 * operations read and rewrite; the widgets that collect the inputs and show the results are
 * not modelled, so each operation takes what the user typed as parameters.
 */
module Tracker {
  import opened Wrappers
  import opened Text
  import opened TradeTable
  import opened TradeForm

  /** Why a keyed operation did nothing. */
  datatype LookupError = MissingKey | NotFound

  /** What an existing file holds: its first line and the lines after it, already split into cells. */
  datatype Contents = Contents(header: Row, rows: seq<Row>)

  /** The blank-entry scans of add_trade: the first of `fields` whose stripped entry is blank. */
  method FindBlank(vals: seq<string>, fields: seq<Field>) returns (missing: Option<nat>)
    requires |vals| == FormSize
    ensures missing == FirstBlank(vals, fields)
  {
    for k := 0 to |fields|
      invariant forall j :: 0 <= j < k ==> vals[fields[j]] != ""
    {
      if vals[fields[k]] == "" {
        return Some(k);
      }
    }
    return None;
  }

  /** The trade file: its header line and its rows, in file order. */
  class TradeFile {
    var header: Row
    var rows: seq<Row>

    /** initialize_file: a missing file is created holding only the header; an existing one is kept. */
    constructor Initialize(existing: Option<Contents>)
      ensures existing.None? ==> header == Header && rows == []
      ensures existing.Some? ==> header == existing.value.header && rows == existing.value.rows
    {
      match existing
      case None =>
        header, rows := Header, [];
      case Some(c) =>
        header, rows := c.header, c.rows;
    }

    /**
     * add_trade: checks the required entries, then the key against every row, then the hedge
     * details, and appends the new row only when all three pass.
     */
    method Add(form: seq<string>) returns (result: Result<Row, AddError>)
      requires |form| == FormSize && Keyed(rows)
      modifies this
      ensures result == AddDecision(form, old(rows))
      ensures header == old(header)
      ensures rows == if result.Success? then old(rows) + [result.value] else old(rows)
      ensures Keyed(rows)
      ensures UniqueKeys(old(rows)) ==> UniqueKeys(rows)
    {
      FieldPositions();
      var vals := StripAll(form);
      var missing := FindBlank(vals, Required);
      if missing.Some? {
        return Failure(MissingField(Labels[Required[missing.value]]));
      }
      assert Required[0] == 0 && Required[1] == 1 && Required[2] == 2;
      var duplicate := Contains(Key(vals[0], vals[1], vals[2]));
      if duplicate {
        return Failure(DuplicateTrade);
      }
      var details: seq<string>;
      if Lower(vals[HedgeAnswer]) == "y" {
        var gap := FindBlank(vals, HedgeFields);
        if gap.Some? {
          return Failure(IncompleteHedge);
        }
        details := vals[11..15];
      } else {
        details := [Placeholder, Placeholder, Placeholder, Placeholder];
      }
      var row := NewRow(vals, details);
      result := Success(row);
      if UniqueKeys(rows) {
        AddKeepsUnique(form, rows);
      }
      rows := rows + [row];
    }

    /** The duplicate scan of add_trade: some row already has the key. */
    method Contains(key: Key) returns (found: bool)
      requires Keyed(rows)
      ensures found <==> HasKey(rows, key)
    {
      for i := 0 to |rows|
        invariant forall j :: 0 <= j < i ==> !Matches(rows[j], key)
      {
        if rows[i][0] == key.strategy && rows[i][1] == key.date && rows[i][2] == key.instrument {
          return true;
        }
      }
      return false;
    }

    /**
     * delete_selected_trade, given the key of the selected row: rewrites the file without every
     * row that has the key, or reports that none has it and leaves the file alone.
     */
    method Delete(key: Key) returns (deleted: bool)
      requires Keyed(rows)
      modifies this
      ensures deleted == HasKey(old(rows), key)
      ensures header == old(header)
      ensures rows == WithoutKey(old(rows), key)
      ensures !deleted ==> rows == old(rows)
      ensures UniqueKeys(old(rows)) ==> UniqueKeys(rows)
    {
      var newRows := WithoutKey(rows, key);
      if UniqueKeys(rows) {
        WithoutKeyKeepsUnique(rows, key);
      }
      if |newRows| == |rows| {
        return false;
      }
      rows := newRows;
      return true;
    }

    /**
     * save_updated_trade: merges the update form's entries into every row with the original
     * key, keeping a cell wherever its entry is blank, and rewrites the file only if some row
     * had that key. The edited key is not checked against the other rows.
     */
    method Update(strategy: string, date: string, instrument: string, entries: map<string, string>)
      returns (result: Result<(), LookupError>)
      requires IsComplete(KeyOf(strategy, date, instrument)) ==>
        Keyed(rows) && CoversHeader(rows, KeyOf(strategy, date, instrument), header, StripValues(entries))
      modifies this
      ensures header == old(header)
      ensures !IsComplete(KeyOf(strategy, date, instrument)) ==>
        result == Failure(MissingKey) && rows == old(rows)
      ensures IsComplete(KeyOf(strategy, date, instrument)) && !HasKey(old(rows), KeyOf(strategy, date, instrument)) ==>
        result == Failure(NotFound) && rows == old(rows)
      ensures IsComplete(KeyOf(strategy, date, instrument)) && HasKey(old(rows), KeyOf(strategy, date, instrument)) ==>
        result == Success(()) &&
        rows == UpdateAll(old(rows), KeyOf(strategy, date, instrument), header, StripValues(entries))
    {
      var updatedVals := StripValues(entries);
      var key := KeyOf(strategy, date, instrument);
      if !IsComplete(key) {
        return Failure(MissingKey);
      }
      var newRows, updated := Rewritten(key, updatedVals);
      if updated {
        rows := newRows;
        result := Success(());
      } else {
        result := Failure(NotFound);
      }
    }

    /**
     * The loop of save_updated_trade: the rows with every match merged, and whether there was
     * a match.
     */
    method Rewritten(key: Key, updatedVals: map<string, string>) returns (newRows: seq<Row>, updated: bool)
      requires Keyed(rows) && CoversHeader(rows, key, header, updatedVals)
      ensures newRows == UpdateAll(rows, key, header, updatedVals)
      ensures updated <==> HasKey(rows, key)
    {
      newRows, updated := [], false;
      PrefixCovers(rows, key, header, updatedVals, 0);
      for i := 0 to |rows|
        invariant Keyed(rows[..i]) && CoversHeader(rows[..i], key, header, updatedVals)
        invariant newRows == UpdateAll(rows[..i], key, header, updatedVals)
        invariant updated == HasKey(rows[..i], key)
      {
        UpdateAllStep(rows, key, header, updatedVals, i);
        if Matches(rows[i], key) {
          newRows := newRows + [MergeRow(rows[i], header, updatedVals)];
          updated := true;
        } else {
          newRows := newRows + [rows[i]];
        }
      }
      assert rows[..|rows|] == rows;
    }

    /** clear_all_records: the file is rewritten holding only the header. */
    method Clear()
      modifies this
      ensures header == Header && rows == []
      ensures forall plSign :: Tally(header, rows, plSign) == Totals(0, 0, 0)
    {
      header, rows := Header, [];
    }

    /** The scan both lookups share: the first row in file order with the key, if any. */
    method FirstRow(key: Key) returns (found: Option<Row>)
      requires Keyed(rows)
      ensures found.None? <==> !HasKey(rows, key)
      ensures found.Some? ==> found.value == rows[FirstMatch(rows, key).value]
    {
      found := None;
      var i := 0;
      while i < |rows|
        invariant 0 <= i <= |rows|
        invariant forall j :: 0 <= j < i ==> !Matches(rows[j], key)
      {
        if Matches(rows[i], key) {
          found := Some(rows[i]);
          break;
        }
        i := i + 1;
      }
    }

    /** search_trade: a key with a blank part is refused; otherwise the first row with the key. */
    method Search(strategy: string, date: string, instrument: string) returns (result: Result<Row, LookupError>)
      requires IsComplete(KeyOf(strategy, date, instrument)) ==> Keyed(rows)
      ensures result.Success? <==>
        IsComplete(KeyOf(strategy, date, instrument)) && HasKey(rows, KeyOf(strategy, date, instrument))
      ensures result == Failure(MissingKey) <==> !IsComplete(KeyOf(strategy, date, instrument))
      ensures result == Failure(NotFound) <==>
        IsComplete(KeyOf(strategy, date, instrument)) && !HasKey(rows, KeyOf(strategy, date, instrument))
      ensures result.Success? ==>
        result.value == rows[FirstMatch(rows, KeyOf(strategy, date, instrument)).value]
    {
      var key := KeyOf(strategy, date, instrument);
      if !IsComplete(key) {
        return Failure(MissingKey);
      }
      var found := FirstRow(key);
      if found.None? {
        return Failure(NotFound);
      }
      return Success(found.value);
    }

    /**
     * find_trade_for_update: the same lookup; when it succeeds, the update form's entries
     * start out holding the found row's cells under the first 17 column names.
     */
    method FindForUpdate(strategy: string, date: string, instrument: string)
      returns (result: Result<map<string, string>, LookupError>)
      requires IsComplete(KeyOf(strategy, date, instrument)) ==> Keyed(rows)
      ensures result.Success? <==>
        IsComplete(KeyOf(strategy, date, instrument)) && HasKey(rows, KeyOf(strategy, date, instrument))
      ensures result == Failure(MissingKey) <==> !IsComplete(KeyOf(strategy, date, instrument))
      ensures result == Failure(NotFound) <==>
        IsComplete(KeyOf(strategy, date, instrument)) && !HasKey(rows, KeyOf(strategy, date, instrument))
      ensures result.Success? ==>
        result.value == Prefill(header, rows[FirstMatch(rows, KeyOf(strategy, date, instrument)).value])
    {
      var key := KeyOf(strategy, date, instrument);
      if !IsComplete(key) {
        return Failure(MissingKey);
      }
      var found := FirstRow(key);
      if found.None? {
        return Failure(NotFound);
      }
      return Success(Prefill(header, found.value));
    }

    /**
     * The counters of load_trades_into_table: every row as wide as the header is a trade, and
     * its P&L cell, when the header has a "P&L" column, makes it a win or a loss.
     */
    method LoadTotals(plSign: string -> PnlSign) returns (totals: Totals)
      ensures totals == Tally(header, rows, plSign)
      ensures totals.winning + totals.losing <= totals.total <= |rows|
    {
      var plIndex := IndexOf(header, "P&L");
      var total, winning, losing := 0, 0, 0;
      for i := 0 to |rows|
        invariant Totals(total, winning, losing) == Tally(header, rows[..i], plSign)
      {
        assert rows[..i + 1][..i] == rows[..i];
        var row := rows[i];
        if |row| == |header| {
          total := total + 1;
          if plIndex.Some? {
            var sign := plSign(row[plIndex.value]);
            if sign == Positive {
              winning := winning + 1;
            } else if sign == Negative {
              losing := losing + 1;
            }
          }
        }
      }
      assert rows[..|rows|] == rows;
      totals := Totals(total, winning, losing);
    }
  }
}
