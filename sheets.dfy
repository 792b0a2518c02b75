/**
 * The spreadsheet document as the service sees it after `loadInfo()`, and the two
 * ways the service picks the sheet an operation works on.
 */
module Sheets {
  import opened Wrappers
  import opened JsValues
  import opened Matching

  /** One worksheet: its title and its rows in order. */
  datatype Sheet = Sheet(title: string, rows: seq<Row>)

  /**
   * `sheetsByTitle[title]`: the position of the sheet with that title. Google Sheets
   * keeps the titles of a document's sheets unique, so at most one sheet qualifies;
   * should two share a title, this model takes the last of them.
   */
  function FindTitle(sheets: seq<Sheet>, title: string): (r: Option<nat>)
    ensures r.Some? ==> r.value < |sheets| && sheets[r.value].title == title
    ensures r.Some? ==> forall i :: r.value < i < |sheets| ==> sheets[i].title != title
    ensures r.None? <==> forall i :: 0 <= i < |sheets| ==> sheets[i].title != title
  {
    if sheets == [] then None
    else if sheets[|sheets| - 1].title == title then Some(|sheets| - 1)
    else FindTitle(sheets[..|sheets| - 1], title)
  }

  /** `sheetsByIndex[0]`, which is undefined when the document has no sheet. */
  function FirstSheet(sheets: seq<Sheet>): (r: Option<nat>)
    ensures r.Some? <==> sheets != []
    ensures r.Some? ==> r.value == 0
  {
    if sheets == [] then None else Some(0)
  }

  /**
   * getRow, updateRow, deleteRow: `!title ? sheetsByIndex[0] : sheetsByTitle[title]`.
   * A falsy title takes the first sheet, if there is one; any other title takes a sheet
   * whose title is the title's text, and nothing exactly when no sheet has that title.
   */
  function SelectByTruthiness(sheets: seq<Sheet>, title: Value): (r: Option<nat>)
    ensures r.Some? ==> r.value < |sheets|
    ensures !Truthy(title) ==> (r.Some? <==> sheets != []) && (r.Some? ==> r.value == 0)
    ensures Truthy(title) && r.Some? ==> r.value < |sheets| && sheets[r.value].title == PropertyKey(title)
    ensures Truthy(title) ==> (r.None? <==> forall i :: 0 <= i < |sheets| ==> sheets[i].title != PropertyKey(title))
  {
    if !Truthy(title) then FirstSheet(sheets) else FindTitle(sheets, PropertyKey(title))
  }

  /**
   * addRow, getRows: `title === "" || title === undefined ? sheetsByIndex[0] : sheetsByTitle[title]`.
   * Only "" and undefined take the first sheet; every other title, falsy or not, takes a
   * sheet whose title is the title's text, and nothing exactly when no sheet has that title.
   */
  function SelectByEmptyTitle(sheets: seq<Sheet>, title: Value): (r: Option<nat>)
    ensures r.Some? ==> r.value < |sheets|
    ensures title in {Undefined, Str("")} ==> (r.Some? <==> sheets != []) && (r.Some? ==> r.value == 0)
    ensures title !in {Undefined, Str("")} && r.Some? ==> r.value < |sheets| && sheets[r.value].title == PropertyKey(title)
    ensures title !in {Undefined, Str("")} ==> (r.None? <==> forall i :: 0 <= i < |sheets| ==> sheets[i].title != PropertyKey(title))
  {
    if title == Str("") || title == Undefined then FirstSheet(sheets)
    else FindTitle(sheets, PropertyKey(title))
  }

  /** The falsy titles, which make a row operation take the first sheet, are exactly these four. */
  lemma FalsyTitles(title: Value)
    ensures !Truthy(title) <==> title in {Undefined, Str(""), Num(0), Bool(false)}
  {
  }

  /**
   * The two selectors agree on every title that is a string or undefined, and differ
   * on the number 0: getRow takes the first sheet, getRows looks up the sheet titled "0".
   */
  lemma SelectorsAgreeOnStrings(sheets: seq<Sheet>, title: Value)
    requires title.Str? || title.Undefined?
    ensures SelectByTruthiness(sheets, title) == SelectByEmptyTitle(sheets, title)
  {
  }

  lemma SelectorsDifferOnZero()
    ensures var sheets := [Sheet("Sheet1", []), Sheet("0", [])];
      SelectByTruthiness(sheets, Num(0)) == Some(0) && SelectByEmptyTitle(sheets, Num(0)) == Some(1)
  {
  }
}
