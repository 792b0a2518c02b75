/**
 * SpreadsheetService's row operations getRow, updateRow and deleteRow over a document
 * held as the sequence of its sheets.
 *
 * Every remote call that can throw is caught and becomes a failure response. Whether
 * `loadInfo()` or `getRows()` throws, and which row writes throw, is given by `Faults`.
 */
module Service {
  import opened Wrappers
  import opened JsValues
  import opened Matching
  import opened Sheets
  import opened Mutation

  /**
   * What threw inside a call. A failing save or delete is reported by the library's error
   * alone: the response does not say which row it was, nor how many writes succeeded.
   */
  datatype Cause = LoadInfoFailed | SheetMissing | GetRowsFailed | WriteFailed

  /** The `message` of a failure: a fixed text, or the error that was caught. */
  datatype Message = Text(text: string) | Caught(cause: Cause)

  /** `{success: true, message}`, `{success: true, data}` or `{success: false, message}`. */
  datatype Response = Success(message: string) | SuccessData(data: seq<Row>) | Failure(error: Message)

  /** The remote calls that throw during one operation. */
  datatype Faults = Faults(loadInfoFails: bool, getRowsFails: bool, writeFails: set<nat>)

  const NoMatchingRows := "No matching rows found"
  const RowsUpdated := "Rows updated successfully"
  const RowsDeleted := "Rows deleted successfully"

  /**
   * The error caught before any row is matched, if one is. The calls run in the order
   * `loadInfo()`, sheet selection, `getRows()`, so the first of them that fails names the
   * error; a missing sheet is caught only as the throw of `getRows()` on an undefined sheet.
   */
  function EarlyFailure(sheets: seq<Sheet>, title: Value, faults: Faults): (r: Option<Cause>)
    ensures r.None? <==> !faults.loadInfoFails && SelectByTruthiness(sheets, title).Some? && !faults.getRowsFails
    ensures faults.loadInfoFails ==> r == Some(LoadInfoFailed)
    ensures r == Some(SheetMissing) ==>
      if Truthy(title) then forall i :: 0 <= i < |sheets| ==> sheets[i].title != PropertyKey(title)
      else sheets == []
    ensures r == Some(GetRowsFailed) ==> !faults.loadInfoFails && SelectByTruthiness(sheets, title).Some?
  {
    if faults.loadInfoFails then Some(LoadInfoFailed)
    else if SelectByTruthiness(sheets, title).None? then Some(SheetMissing)
    else if faults.getRowsFails then Some(GetRowsFailed)
    else None
  }

  class SpreadsheetService {
    /** The document's sheets in `sheetsByIndex` order. */
    var sheets: seq<Sheet>

    constructor (sheets: seq<Sheet>)
      ensures this.sheets == sheets
    {
      this.sheets := sheets;
    }

    /** getRow: the rows of the selected sheet that match `where`, in order. */
    method GetRow(where: Where, title: Value, faults: Faults) returns (r: Response)
      ensures var early := EarlyFailure(sheets, title, faults);
        if early.Some? then r == Failure(Caught(early.value))
        else
          var rows := sheets[SelectByTruthiness(sheets, title).value].rows;
          && r.SuccessData?
          && r.data == Pick(rows, MatchingIndices(rows, where))
    {
      if faults.loadInfoFails {
        return Failure(Caught(LoadInfoFailed));
      }
      var choice := SelectByTruthiness(sheets, title);
      if choice.None? {
        return Failure(Caught(SheetMissing));
      }
      if faults.getRowsFails {
        return Failure(Caught(GetRowsFailed));
      }
      var rows := sheets[choice.value].rows;
      FilterPicksMatchingIndices(rows, where);
      r := SuccessData(Filter(rows, where));
    }

    /**
     * updateRow: assign `patch` to each matching row of the selected sheet and save it,
     * in ascending order, stopping at the first save that throws. `writes` lists the
     * saves issued.
     */
    method UpdateRow(where: Where, patch: Row, title: Value, faults: Faults)
      returns (r: Response, ghost writes: seq<nat>)
      modifies this
      ensures var early := EarlyFailure(old(sheets), title, faults);
        if early.Some? then
          r == Failure(Caught(early.value)) && sheets == old(sheets) && writes == []
        else
          var s := SelectByTruthiness(old(sheets), title).value;
          var rows := old(sheets)[s].rows;
          var targets := MatchingIndices(rows, where);
          var k := FirstFailure(targets, faults.writeFails);
          if targets == [] then
            r == Failure(Text(NoMatchingRows)) && sheets == old(sheets) && writes == []
          else
            && sheets == old(sheets)[s := old(sheets)[s].(rows := UpdatedRows(rows, targets[..k], patch))]
            && writes == (if k < |targets| then targets[..k + 1] else targets)
            && r == (if k < |targets| then Failure(Caught(WriteFailed)) else Success(RowsUpdated))
    {
      writes := [];
      if faults.loadInfoFails {
        return Failure(Caught(LoadInfoFailed)), [];
      }
      var choice := SelectByTruthiness(sheets, title);
      if choice.None? {
        return Failure(Caught(SheetMissing)), [];
      }
      if faults.getRowsFails {
        return Failure(Caught(GetRowsFailed)), [];
      }
      var s := choice.value;
      var rows := sheets[s].rows;
      var sheetData := new RowHandle[|rows|](i requires 0 <= i < |rows| => RowHandle(rows[i], false));
      assert sheetData[..] == Fetch(rows);
      var targets := MatchingIndices(rows, where);
      if |targets| == 0 {
        return Failure(Text(NoMatchingRows)), [];
      }
      var outcome;
      outcome, writes := UpdateMatched(sheetData, targets, patch, faults.writeFails);
      StoredAfterUpdate(rows, targets[..FirstFailure(targets, faults.writeFails)], patch);
      sheets := sheets[s := sheets[s].(rows := Stored(sheetData[..]))];
      r := match outcome
        case Completed => Success(RowsUpdated)
        case Aborted(_) => Failure(Caught(WriteFailed));
    }

    /**
     * deleteRow: delete each matching row of the selected sheet, in ascending order,
     * stopping at the first delete that throws. `writes` lists the deletes issued.
     */
    method DeleteRow(where: Where, title: Value, faults: Faults)
      returns (r: Response, ghost writes: seq<nat>)
      modifies this
      ensures var early := EarlyFailure(old(sheets), title, faults);
        if early.Some? then
          r == Failure(Caught(early.value)) && sheets == old(sheets) && writes == []
        else
          var s := SelectByTruthiness(old(sheets), title).value;
          var rows := old(sheets)[s].rows;
          var targets := MatchingIndices(rows, where);
          var k := FirstFailure(targets, faults.writeFails);
          if targets == [] then
            r == Failure(Text(NoMatchingRows)) && sheets == old(sheets) && writes == []
          else
            && sheets == old(sheets)[s := old(sheets)[s].(rows := RemainingRows(rows, targets[..k]))]
            && writes == (if k < |targets| then targets[..k + 1] else targets)
            && r == (if k < |targets| then Failure(Caught(WriteFailed)) else Success(RowsDeleted))
    {
      writes := [];
      if faults.loadInfoFails {
        return Failure(Caught(LoadInfoFailed)), [];
      }
      var choice := SelectByTruthiness(sheets, title);
      if choice.None? {
        return Failure(Caught(SheetMissing)), [];
      }
      if faults.getRowsFails {
        return Failure(Caught(GetRowsFailed)), [];
      }
      var s := choice.value;
      var rows := sheets[s].rows;
      var sheetData := new RowHandle[|rows|](i requires 0 <= i < |rows| => RowHandle(rows[i], false));
      assert sheetData[..] == Fetch(rows);
      var targets := MatchingIndices(rows, where);
      if |targets| == 0 {
        return Failure(Text(NoMatchingRows)), [];
      }
      var outcome;
      outcome, writes := DeleteMatched(sheetData, targets, faults.writeFails);
      StoredAfterDelete(rows, targets[..FirstFailure(targets, faults.writeFails)]);
      sheets := sheets[s := sheets[s].(rows := Stored(sheetData[..]))];
      r := match outcome
        case Completed => Success(RowsDeleted)
        case Aborted(_) => Failure(Caught(WriteFailed));
    }
  }
}
