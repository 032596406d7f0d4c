/** The history dialog: each stored request is listed as its timestamp and its
    text joined by " - ", and loading a row takes back the text after the first
    " - ". The Qt list widget is its sequence of item texts; the row the user
    has selected is a parameter. */
module HistoryDialogs {
  import opened Wrappers
  import opened Text

  /** One row of the history table: its id, the function text and the time it
      was stored, in the table's column order. */
  datatype HistoryRow = HistoryRow(id: int, functionText: string, timestamp: string)

  const Separator: string := " - "

  /** How a row is shown in the list. */
  function ItemText(row: HistoryRow): (item: string)
    ensures |item| == |row.timestamp| + |Separator| + |row.functionText|
    ensures StartsWith(item, row.timestamp) && EndsWith(item, row.functionText)
  {
    row.timestamp + Separator + row.functionText
  }

  /** The items listed for the history handed to the dialog: none for a missing
      or empty history, one per row in history order otherwise. */
  function Items(history: Option<seq<HistoryRow>>): (items: seq<string>)
    ensures history.None? ==> items == []
    ensures history.Some? ==> |items| == |history.value|
    ensures history.Some? ==>
      forall i :: 0 <= i < |items| ==> items[i] == ItemText(history.value[i])
  {
    if history.None? then []
    else seq(|history.value|, i requires 0 <= i < |history.value| => ItemText(history.value[i]))
  }

  /** The text `load_selected` takes from an item: what follows the first
      separator, and None where `split(" - ", 1)[1]` raises. */
  function ItemFunction(item: string): (text: Option<string>)
    ensures text.None? <==> !Contains(item, Separator)
    ensures text.Some? ==> EndsWith(item, text.value) && |text.value| + |Separator| <= |item|
  {
    match SplitOnce(item, Separator)
    case None => None
    case Some(parts) =>
      assert item[|item| - |parts.1|..] == parts.1 by {
        assert item == parts.0 + Separator + parts.1;
      }
      Some(parts.1)
  }

  /** Reading back a listed row gives its function text exactly when the
      separator does not occur in the timestamp followed by a space: a
      separator found earlier than the one the dialog inserted would make the
      text read back longer. The function text itself may contain the
      separator. */
  lemma ItemRoundTrip(row: HistoryRow)
    ensures ItemFunction(ItemText(row)) == Some(row.functionText)
            <==> !Contains(row.timestamp + " ", Separator)
  {
    var ts := row.timestamp;
    var item := ItemText(row);
    SeparatorInserted(row);
    if Contains(ts + " ", Separator) {
      var j := IndexOf(ts + " ", Separator).value;
      EarlierSeparator(row, j);
      var k := IndexOf(item, Separator).value;
      assert |ItemFunction(item).value| == |item| - k - 3;
    } else {
      NoEarlierSeparator(row);
      SplitOnceAt(item, Separator, |ts|);
      assert item[|ts| + 3..] == row.functionText;
    }
  }

  /** The separator the dialog inserts sits right after the timestamp. */
  lemma SeparatorInserted(row: HistoryRow)
    ensures OccursAt(ItemText(row), Separator, |row.timestamp|)
  {
    var ts := row.timestamp;
    assert ItemText(row)[|ts|..|ts| + 3] == Separator;
  }

  /** A separator within the timestamp followed by a space is one of the item too. */
  lemma EarlierSeparator(row: HistoryRow, j: nat)
    requires OccursAt(row.timestamp + " ", Separator, j)
    ensures j < |row.timestamp| && OccursAt(ItemText(row), Separator, j)
  {
    assert (row.timestamp + " ")[j..j + 3] == ItemText(row)[j..j + 3];
  }

  /** Without such a separator, the first one of the item is the inserted one. */
  lemma NoEarlierSeparator(row: HistoryRow)
    requires !Contains(row.timestamp + " ", Separator)
    ensures forall j :: 0 <= j < |row.timestamp| ==> !OccursAt(ItemText(row), Separator, j)
  {
    var ts := row.timestamp;
    var item := ItemText(row);
    forall j | 0 <= j < |ts|
      ensures !OccursAt(item, Separator, j)
    {
      if j + 3 <= |ts| + 1 {
        assert item[j..j + 3] == (ts + " ")[j..j + 3];
        assert !OccursAt(ts + " ", Separator, j);
      } else {
        assert item[j + 1] == ' ' != Separator[1];
      }
    }
  }

  /** A timestamp free of the separator that does not end in " -" (such as the
      "YYYY-MM-DD HH:MM:SS" stamps of the history table) always reads back. */
  lemma TimestampRoundTrip(row: HistoryRow)
    requires !Contains(row.timestamp, Separator) && !EndsWith(row.timestamp, " -")
    ensures ItemFunction(ItemText(row)) == Some(row.functionText)
  {
    var ts := row.timestamp;
    forall j | 0 <= j
      ensures !OccursAt(ts + " ", Separator, j)
    {
      NotBeforeSpace(ts, j);
    }
    ItemRoundTrip(row);
  }

  lemma NotBeforeSpace(ts: string, j: nat)
    requires !Contains(ts, Separator) && !EndsWith(ts, " -")
    ensures !OccursAt(ts + " ", Separator, j)
  {
    if j + 3 <= |ts| {
      assert (ts + " ")[j..j + 3] == ts[j..j + 3];
      assert !OccursAt(ts, Separator, j);
    } else if j + 3 == |ts| + 1 {
      assert (ts + " ")[j..j + 3][..2] == ts[|ts| - 2..];
      assert Separator[..2] == " -";
    }
  }

  /** A timestamp ending in " -" is one where the text read back differs. */
  lemma DashEndedTimestamp()
    ensures ItemFunction(ItemText(HistoryRow(1, "x", "t -"))) == Some("- x")
  {
    var item := ItemText(HistoryRow(1, "x", "t -"));
    assert item == "t - - x";
    assert OccursAt(item, Separator, 1);
    assert !OccursAt(item, Separator, 0);
    assert IndexOf(item, Separator) == Some(1);
  }

  class HistoryDialog {
    /** The texts of the list widget's items, top to bottom. */
    var items: seq<string>
    /** `selected_function`, absent until a row is loaded. */
    var selectedFunction: Option<string>
    /** Whether the dialog was accepted. */
    var accepted: bool
    /** Whether the "choose a function" warning was shown. */
    var warned: bool

    /** `__init__`: one item per history row, in order. */
    constructor(history: Option<seq<HistoryRow>>)
      ensures items == Items(history)
      ensures selectedFunction == None && !accepted && !warned
    {
      items := [];
      selectedFunction := None;
      accepted := false;
      warned := false;
      new;
      if history.Some? {
        var rows := history.value;
        for i := 0 to |rows|
          invariant selectedFunction == None && !accepted && !warned
          invariant |items| == i
          invariant forall j :: 0 <= j < i ==> items[j] == ItemText(rows[j])
        {
          items := items + [ItemText(rows[i])];
        }
      }
    }

    /** `load_selected`: with a row selected its text after the separator is
        stored and the dialog accepted; with none a warning is shown and
        nothing else changes. An item without the separator raises, and the
        slot changes nothing. */
    method LoadSelected(current: Option<nat>)
      requires current.Some? ==> current.value < |items|
      modifies this`selectedFunction, this`accepted, this`warned
      ensures current.None? ==>
        warned && selectedFunction == old(selectedFunction) && accepted == old(accepted)
      ensures current.Some? && ItemFunction(items[current.value]).Some? ==>
        selectedFunction == ItemFunction(items[current.value]) && accepted && warned == old(warned)
      ensures current.Some? && ItemFunction(items[current.value]).None? ==>
        selectedFunction == old(selectedFunction) && accepted == old(accepted) && warned == old(warned)
    {
      if current.Some? {
        var text := ItemFunction(items[current.value]);
        if text.Some? {
          selectedFunction := text;
          accepted := true;
        }
      } else {
        warned := true;
      }
    }
  }

  /** Loading row `i` of a dialog opened on `rows` stores that row's function
      text, whatever it contains, when its timestamp reads back cleanly. */
  lemma LoadsRowText(rows: seq<HistoryRow>, i: nat)
    requires i < |rows| && !Contains(rows[i].timestamp + " ", Separator)
    ensures ItemFunction(Items(Some(rows))[i]) == Some(rows[i].functionText)
  {
    ItemRoundTrip(rows[i]);
  }
}
