/**
 * The "Add Trade" form and the decision add_trade takes on it: which entries must be filled,
 * when a trade is a duplicate, when the hedge details are required, and the row it appends.
 */
module TradeForm {
  import opened Wrappers
  import opened Text
  import opened TradeTable

  /** The add tab's eighteen entries, in the order they are laid out. */
  const Labels: seq<string> := [
    "Strategy Name", "Trade Date (YYYY-MM-DD)", "Instrument", "Strike Price", "Buy/Sell",
    "Expiry Date (YYYY-MM-DD)", "Type (CE/PE)", "Lots", "Entry Price", "Exit Price",
    "Have you hedged your position? (y/n)",
    "Hedged Strike Price", "Hedged Buy/Sell", "Hedged Entry Price", "Hedged Exit Price",
    "Margin Used", "Holding Period (Days)", "P&L"]

  /** The number of entries on the add tab. */
  const FormSize: nat := 18

  /** The position of an entry on the add tab. */
  type Field = k: nat | k < FormSize

  /**
   * The thirteen entries that must never be blank, in the order they are checked: the ten
   * trade entries, then margin used, holding period and P&L (positions 0-9 and 15-17).
   */
  const Required: seq<Field> := [0, 1, 2, 3, 4, 5, 6, 7, 8, 9, 15, 16, 17]

  /** The "Have you hedged your position? (y/n)" entry. */
  const HedgeAnswer: Field := 10

  /** The four hedge entries, required only when the answer is "y". */
  const HedgeFields: seq<Field> := [11, 12, 13, 14]

  /** The positions both lists name, as arithmetic on the list index. */
  lemma FieldPositions()
    ensures |Required| == 13 && |HedgeFields| == 4 && |Labels| == FormSize
    ensures forall k :: 0 <= k < |Required| ==> Required[k] == if k < 10 then k else k + 5
    ensures forall k :: 0 <= k < |HedgeFields| ==> HedgeFields[k] == k + 11
  {
  }

  /** What an unhedged trade stores in each of its four hedge columns. */
  const Placeholder: string := "-"

  datatype AddError =
    | MissingField(field: string)   // a required entry is blank; names the first one
    | DuplicateTrade                // a row with the same key is already in the file
    | IncompleteHedge               // answered "y" but left a hedge entry blank

  /** The stripped entries, `vals` in add_trade. */
  function StripAll(form: seq<string>): (vals: seq<string>)
    ensures |vals| == |form|
  {
    seq(|form|, i requires 0 <= i < |form| => Strip(form[i]))
  }

  /** The position in `fields` of the first entry that is empty. */
  function FirstBlank(vals: seq<string>, fields: seq<Field>): (r: Option<nat>)
    requires |vals| == FormSize
    ensures r.Some? ==> r.value < |fields| && vals[fields[r.value]] == ""
    ensures r.Some? ==> forall k :: 0 <= k < r.value ==> vals[fields[k]] != ""
    ensures r.None? <==> forall k :: 0 <= k < |fields| ==> vals[fields[k]] != ""
  {
    if fields == [] then None
    else if vals[fields[0]] == "" then Some(0)
    else
      assert forall k :: 1 <= k < |fields| ==> fields[k] == fields[1..][k - 1];
      match FirstBlank(vals, fields[1..])
      case None => None
      case Some(k) => Some(k + 1)
  }

  /** A blank entry with every earlier one filled is the first blank one. */
  lemma FirstBlankAt(vals: seq<string>, fields: seq<Field>, k: nat)
    requires |vals| == FormSize && k < |fields| && vals[fields[k]] == ""
    requires forall j :: 0 <= j < k ==> vals[fields[j]] != ""
    ensures FirstBlank(vals, fields) == Some(k)
  {
  }

  /** Every stripped entry named in `fields` is non-empty. */
  predicate Filled(vals: seq<string>, fields: seq<Field>)
    requires |vals| == FormSize
  {
    forall k :: 0 <= k < |fields| ==> vals[fields[k]] != ""
  }

  /** The trade's key: its stripped strategy name, trade date and instrument. */
  function FormKey(form: seq<string>): (k: Key)
    requires |form| >= 3
  {
    KeyOf(form[0], form[1], form[2])
  }

  /** The stripped hedge answer, lower-cased, is exactly "y". */
  predicate SaysHedged(vals: seq<string>)
    requires |vals| == FormSize
    ensures SaysHedged(vals) <==> vals[HedgeAnswer] == "y" || vals[HedgeAnswer] == "Y"
  {
    LowerIsY(vals[HedgeAnswer]);
    Lower(vals[HedgeAnswer]) == "y"
  }

  /** The row written for the trade: ten trade columns, four hedge columns, three closing columns. */
  function NewRow(vals: seq<string>, hedgeDetails: seq<string>): (row: Row)
    requires |vals| == FormSize && |hedgeDetails| == 4
    ensures |row| == 17 && row[0] == vals[0] && row[1] == vals[1] && row[2] == vals[2]
  {
    vals[..10] + hedgeDetails + vals[15..]
  }

  /**
   * The four hedge columns for the stripped entries: the hedge entries when the answer is "y"
   * and all four are filled, nothing when one of them is blank, the placeholders otherwise.
   */
  function HedgeDetails(vals: seq<string>): (d: Option<seq<string>>)
    requires |vals| == FormSize
    ensures d.None? <==> SaysHedged(vals) && !Filled(vals, HedgeFields)
    ensures d.Some? ==> |d.value| == 4
  {
    FieldPositions();
    if Lower(vals[HedgeAnswer]) == "y" then
      if FirstBlank(vals, HedgeFields).Some? then None else Some(vals[11..15])
    else Some([Placeholder, Placeholder, Placeholder, Placeholder])
  }

  /**
   * What add_trade does with the form: the first blank required entry, then a duplicate key,
   * then a missing hedge detail reject it; otherwise it yields the row to append.
   */
  function AddDecision(form: seq<string>, rows: seq<Row>): (r: Result<Row, AddError>)
    requires |form| == FormSize && Keyed(rows)
    ensures r.Success? <==>
      Filled(StripAll(form), Required) && !HasKey(rows, FormKey(form))
      && (SaysHedged(StripAll(form)) ==> Filled(StripAll(form), HedgeFields))
    ensures r.Success? ==> |r.value| == 17 && RowKey(r.value) == FormKey(form)
    ensures r.Success? ==> IsComplete(RowKey(r.value))
  {
    FieldPositions();
    var vals := StripAll(form);
    match FirstBlank(vals, Required)
    case Some(k) => Failure(MissingField(Labels[Required[k]]))
    case None =>
      assert Required[0] == 0 && Required[1] == 1 && Required[2] == 2;
      if HasKey(rows, Key(vals[0], vals[1], vals[2])) then Failure(DuplicateTrade)
      else match HedgeDetails(vals)
        case None => Failure(IncompleteHedge)
        case Some(details) => Success(NewRow(vals, details))
  }

  /** The hedge answer and the four hedge entries are exactly the entries not always required. */
  lemma RequiredFields()
    ensures |Labels| == FormSize && |Required| == 13
    ensures forall i :: 0 <= i < FormSize ==> (i in Required <==> i != HedgeAnswer && i !in HedgeFields)
  {
  }

  /** The first blank required entry, in checking order, is the one reported; nothing else matters. */
  lemma AddReportsFirstBlank(form: seq<string>, rows: seq<Row>, k: nat)
    requires |form| == FormSize && Keyed(rows)
    requires k < |Required| && Strip(form[Required[k]]) == ""
    requires forall j :: 0 <= j < k ==> Strip(form[Required[j]]) != ""
    ensures AddDecision(form, rows) == Failure(MissingField(Labels[Required[k]]))
  {
    var vals := StripAll(form);
    FirstBlankAt(vals, Required, k);
  }

  /** With the required entries filled, a key already in the file is rejected before the hedge check. */
  lemma AddRejectsDuplicate(form: seq<string>, rows: seq<Row>)
    requires |form| == FormSize && Keyed(rows)
    requires Filled(StripAll(form), Required) && HasKey(rows, FormKey(form))
    ensures AddDecision(form, rows) == Failure(DuplicateTrade)
  {
  }

  /** An answer of "y" (any case, any surrounding blanks) makes all four hedge entries required. */
  lemma AddHedgedNeedsDetails(form: seq<string>, rows: seq<Row>)
    requires |form| == FormSize && Keyed(rows)
    requires Filled(StripAll(form), Required) && !HasKey(rows, FormKey(form))
    requires SaysHedged(StripAll(form))
    ensures !Filled(StripAll(form), HedgeFields) ==> AddDecision(form, rows) == Failure(IncompleteHedge)
    ensures Filled(StripAll(form), HedgeFields) ==>
      AddDecision(form, rows).Success? &&
      AddDecision(form, rows).value[10..14] == StripAll(form)[11..15]
  {
    FieldPositions();
    var vals := StripAll(form);
    assert FirstBlank(vals, Required).None?;
    assert Required[0] == 0 && Required[1] == 1 && Required[2] == 2;
    assert FormKey(form) == Key(vals[0], vals[1], vals[2]);
    if Filled(vals, HedgeFields) {
      assert HedgeDetails(vals) == Some(vals[11..15]);
      assert AddDecision(form, rows) == Success(NewRow(vals, vals[11..15]));
      assert NewRow(vals, vals[11..15])[10..14] == vals[11..15];
    } else {
      assert HedgeDetails(vals).None?;
    }
  }

  /** Any other answer stores the placeholder in all four hedge columns, whatever was typed there. */
  lemma AddUnhedgedPlaceholders(form: seq<string>, rows: seq<Row>)
    requires |form| == FormSize && Keyed(rows)
    requires Filled(StripAll(form), Required) && !HasKey(rows, FormKey(form))
    requires Strip(form[HedgeAnswer]) != "y" && Strip(form[HedgeAnswer]) != "Y"
    ensures AddDecision(form, rows).Success?
    ensures AddDecision(form, rows).value[10..14] == [Placeholder, Placeholder, Placeholder, Placeholder]
  {
    LowerIsY(Strip(form[HedgeAnswer]));
  }

  /**
   * The appended row follows the header's column order: the ten trade entries, the four hedge
   * columns, then margin, holding period and P&L, each stripped.
   */
  lemma AddedRowColumns(form: seq<string>, rows: seq<Row>)
    requires |form| == FormSize && Keyed(rows) && AddDecision(form, rows).Success?
    ensures var row := AddDecision(form, rows).value;
      (forall j :: 0 <= j < 10 ==> row[j] == Strip(form[j]))
      && (forall j :: 14 <= j < 17 ==> row[j] == Strip(form[j + 1]))
      && (forall j :: 10 <= j < 14 ==>
            row[j] == (if SaysHedged(StripAll(form)) then Strip(form[j + 1]) else Placeholder))
  {
  }

  /** Every cell of an appended row is already stripped. */
  lemma AddedRowStripped(form: seq<string>, rows: seq<Row>)
    requires |form| == FormSize && Keyed(rows) && AddDecision(form, rows).Success?
    ensures var row := AddDecision(form, rows).value;
      forall j :: 0 <= j < |row| ==> Strip(row[j]) == row[j]
  {
    var row := AddDecision(form, rows).value;
    AddedRowColumns(form, rows);
    forall j | 0 <= j < |row| ensures Strip(row[j]) == row[j] {
      if j < 10 {
        StripIdempotent(form[j]);
      } else if j >= 14 || SaysHedged(StripAll(form)) {
        StripIdempotent(form[j + 1]);
      } else {
        assert row[j] == Placeholder;
      }
    }
  }

  /** Adding a trade keeps the unique-key invariant. */
  lemma AddKeepsUnique(form: seq<string>, rows: seq<Row>)
    requires |form| == FormSize && Keyed(rows) && UniqueKeys(rows)
    requires AddDecision(form, rows).Success?
    ensures var s := rows + [AddDecision(form, rows).value]; Keyed(s) && UniqueKeys(s)
  {
    var row := AddDecision(form, rows).value;
    var s := rows + [row];
    forall i, j | 0 <= i < j < |s| ensures RowKey(s[i]) != RowKey(s[j]) {
      if j == |rows| {
        assert s[i] == rows[i] && s[j] == row;
        assert !Matches(rows[i], FormKey(form));
      } else {
        assert s[i] == rows[i] && s[j] == rows[j];
      }
    }
  }

  /** A trade just added is the one found afterwards under its key. */
  lemma AddThenFind(form: seq<string>, rows: seq<Row>)
    requires |form| == FormSize && Keyed(rows) && AddDecision(form, rows).Success?
    ensures var s := rows + [AddDecision(form, rows).value];
      Keyed(s) && FirstMatch(s, FormKey(form)) == Some(|rows|)
  {
    var row := AddDecision(form, rows).value;
    var s := rows + [row];
    var key := FormKey(form);
    assert s[|rows|] == row && Matches(row, key);
    assert forall j :: 0 <= j < |rows| ==> s[j] == rows[j];
  }

  /** A trade appended under the tracker's own header counts as one more trade in the totals. */
  lemma AddedTradeCounted(form: seq<string>, rows: seq<Row>, plSign: string -> PnlSign)
    requires |form| == FormSize && Keyed(rows) && AddDecision(form, rows).Success?
    ensures Tally(Header, rows + [AddDecision(form, rows).value], plSign).total ==
      Tally(Header, rows, plSign).total + 1
  {
    var row := AddDecision(form, rows).value;
    TallyAppend(Header, rows, [row], plSign);
    assert [row][..0] == [];
  }
}
