# SpreadsheetService row matching and bulk mutation, in Dafny

`SpreadsheetService` (services/googlesheet.service.js) wraps a Google Sheets client.
Three of its operations do their own work on the rows they fetch:

- `getRow(where, title)` returns the rows of a sheet in which every `where` field is loosely equal (`==`) to its expected value.
- `updateRow(where, updateData, title)` calls `assign(updateData)` and then `save()` on each of those rows.
- `deleteRow(where, title)` calls `delete()` on each of those rows.

The rows are visited in ascending order, one remote call at a time. The first call that throws ends the loop. Nothing already written is undone.

This project models those three operations and what they depend on:

- `JsValues` (js_values.dfy): cell and request values (undefined, string, number, boolean), JavaScript's loose equality on them, and the truthiness and property-key conversions that sheet selection uses.
- `Matching` (matching.dfy): rows as field-to-value maps, the `where` test, `assign`, the `getRow` filter and the index computation of `updateRow` and `deleteRow`.
- `Sheets` (sheets.dfy): the document's sheets, `sheetsByTitle` and the two sheet selectors. Row operations select by truthiness (`!title`). `addRow` and `getRows` select by `title === "" || title === undefined`.
- `Mutation` (mutation.dfy): the update and delete loops. They run over an array of fetched row handles. A set of row indices says which remote writes throw. The module also states the effect of each loop on the sheet's rows.
- `Service` (service.dfy): the class `SpreadsheetService`. Its `sheets` field is the document as `loadInfo()` shows it. Its methods `GetRow`, `UpdateRow` and `DeleteRow` return `{success, message|data}` results as the JavaScript methods do. `Faults` says whether `loadInfo()` or `getRows()` throws and which writes throw.
- `Scenarios` (scenarios.dfy): three rows whose `id` cells hold text, selected with the number 1. It covers getRow, an update, a delete, and an update whose second save throws.

Loose equality follows the IsLooselyEqual operation of ECMA-262, the ECMAScript standard, for these four kinds of value:
- Values of the same kind compare strictly.
- `undefined` equals only `undefined`.
- A string, a number and a boolean of different kinds are all converted to numbers and then compared; NaN equals nothing.

So the cell text `"1"` matches the number `1`, `"01"` matches `1`, and `"TRUE"` does not match `true`. Numbers are integers. A string converts to a number when it is empty (giving 0) or is optionally signed decimal digits. Every other string converts to NaN. This is an approximation of JavaScript's conversion, described under "## Left out".

Notes on the code's behaviour:
- A title that names no sheet is not checked before matching. `sheet.getRows()` throws on the undefined sheet, and the catch block turns that into `success: false`.
- Row operations fall back to the first sheet for every falsy title (`undefined`, `""`, `0`, `false`). `addRow` and `getRows` fall back only for `""` and `undefined`.
- A successful update or delete reports a fixed message. The number of rows written is not reported.
- An empty patch is not a special case. Every matched row is still saved, and the rows do not change.
- A second run of the same fully successful update leaves the sheet as the first run left it, whatever the patch.

## Model

| member | source | states |
|---|---|---|
| JsValues.LooseEq | services/googlesheet.service.js:99 | `a == b` holds exactly when `a` and `b` are the same value, or are of different kinds and both convert to the same number (undefined converts to none) |
| JsValues.NumberTextRoundTrip | services/googlesheet.service.js:99 | converting the text of a number back to a number gives that number |
| JsValues.NumberMatchesItsText | services/googlesheet.service.js:99 | a cell holding the text of a number is loosely equal to that number, from either side |
| JsValues.LooseEqReflexive | services/googlesheet.service.js:99 | every value is loosely equal to itself (NaN never arises here) |
| JsValues.LooseEqSymmetric | services/googlesheet.service.js:99 | `a == b` exactly when `b == a` |
| JsValues.UndefinedMatchesOnlyUndefined | services/googlesheet.service.js:99 | a missing field (undefined) is loosely equal to undefined and to nothing else |
| JsValues.LooseEqQuirks | services/googlesheet.service.js:99 | `"01" == 1` although 1's text is "1"; `"" == 0` and `0 == "0"` but `"" != "0"` (not transitive); `"true" != true` but `"1" == true` |
| Matching.Get | services/googlesheet.service.js:99 | `row[key]` is undefined exactly when the field is missing or holds undefined; otherwise it is the field's value |
| Matching.Matches | services/googlesheet.service.js:99 | an empty `where` matches every row; a matching row lacks a field only where `where` expects undefined |
| Matching.Assign | services/googlesheet.service.js:129 | `assign(patch)` gives every patch field the patch's value, keeps every other field, and adds only the patch's keys |
| Matching.MatchingIndices | services/googlesheet.service.js:118-123 | the indices are strictly ascending and below the snapshot length; an index is present exactly when its row satisfies every `where` entry |
| Matching.Filter | services/googlesheet.service.js:96-100 | getRow's data is no longer than the snapshot and every row in it satisfies every `where` entry |
| Matching.FilterPicksMatchingIndices | services/googlesheet.service.js:96-100 | getRow's data is exactly the snapshot rows at the matching indices, in snapshot order |
| Matching.EmptyWhereSelectsAll | services/googlesheet.service.js:99 | with an empty `where` every index is targeted and getRow returns the whole snapshot |
| Sheets.FindTitle | services/googlesheet.service.js:93 | `sheetsByTitle[title]` finds a sheet with that title, and no later one has it; it finds nothing exactly when no sheet has that title |
| Sheets.SelectByTruthiness | services/googlesheet.service.js:91-93 | in row operations a falsy title picks the first sheet, and nothing exactly when there is no sheet; a truthy title picks a sheet whose title is the title's text, and nothing exactly when no sheet has that title |
| Sheets.FalsyTitles | services/googlesheet.service.js:91 | the falsy titles, which make a row operation take the first sheet, are exactly `undefined`, `""`, `0` and `false` |
| Sheets.SelectByEmptyTitle | services/googlesheet.service.js:39-42 | in addRow and getRows only `""` and `undefined` pick the first sheet, and nothing exactly when there is no sheet; every other title, `0` and `false` included, picks a sheet whose title is the title's text, and nothing exactly when no sheet has that title |
| Sheets.SelectorsAgreeOnStrings | services/googlesheet.service.js:56-59 | the two selectors pick the same sheet for every string title and for undefined |
| Sheets.SelectorsDifferOnZero | services/googlesheet.service.js:113-115 | for the title 0, a row operation takes the first sheet while getRows takes the sheet titled "0" |
| Mutation.FetchStoresRows | services/googlesheet.service.js:117 | the handles `getRows()` gives, with nothing written, hold exactly the sheet's rows in order |
| Mutation.FirstFailure | services/googlesheet.service.js:128-131 | the loop position of the first throwing write: every earlier write succeeds, and the write at that position throws unless every write succeeds |
| Mutation.UpdateMatched | services/googlesheet.service.js:128-131 | the handles before the first failing save are patched and every other handle is unchanged; the saves issued are the targets in order up to and including the failing one; the outcome names the failing row |
| Mutation.DeleteMatched | services/googlesheet.service.js:159-162 | the handles before the first failing delete are deleted and every other handle is unchanged; the deletes issued are the targets in order up to and including the failing one; the outcome names the failing row |
| Mutation.StoredAfterUpdate | services/googlesheet.service.js:128-131 | after the update loop the sheet holds every row in place, with exactly the saved rows patched |
| Mutation.StoredAfterDelete | services/googlesheet.service.js:159-162 | after the delete loop the sheet holds exactly the rows not deleted, in their original order |
| Mutation.RemainingRowsLength | services/googlesheet.service.js:159-162 | deleting k distinct rows leaves the sheet k rows shorter |
| Mutation.DeleteAllLeavesUnmatched | services/googlesheet.service.js:149-164 | when every delete succeeds, exactly the rows that do not match remain, in their original order |
| Mutation.AbortedUpdateSplits | services/googlesheet.service.js:128-139 | when the k-th save aborts the loop, the targets before k are patched, and the targets from k on and every unmatched row are unchanged |
| Mutation.AbortedDeleteCount | services/googlesheet.service.js:159-170 | when the k-th delete aborts the loop, exactly k rows are gone |
| Mutation.AssignTwice | services/googlesheet.service.js:129 | assigning the same patch twice is the same as assigning it once |
| Mutation.UpdateIdempotent | services/googlesheet.service.js:118-131 | a second fully successful update with the same `where` and patch leaves the sheet as the first one left it |
| Service.EarlyFailure | services/googlesheet.service.js:90-95 | no error is caught before matching exactly when `loadInfo()` succeeds, a sheet is selected and `getRows()` succeeds; a failing `loadInfo()` is the error whatever follows; a missing sheet means no sheet has the title's text (or, for a falsy title, the document has no sheet); a failing `getRows()` is reported only once a sheet was selected |
| Service.SpreadsheetService.GetRow | services/googlesheet.service.js:88-108 | a failing loadInfo, a missing sheet or a failing getRows gives `success: false` with that error; otherwise the data is the selected sheet's matching rows in order; nothing changes |
| Service.SpreadsheetService.UpdateRow | services/googlesheet.service.js:110-140 | an early error gives `success: false` with no write; no match gives "No matching rows found" with no write; otherwise the saves run in ascending order up to the first that throws. The rows saved before it are patched and all other rows keep their values. The result is "Rows updated successfully", or `success: false` with the library's error, which names neither the failing row nor how many saves succeeded; the saves issued, the failing one last, are the ghost output `writes` |
| Service.SpreadsheetService.DeleteRow | services/googlesheet.service.js:141-171 | an early error gives `success: false` with no write; no match gives "No matching rows found" with no write; otherwise the deletes run in ascending order up to the first that throws. Exactly the rows deleted before it are gone and the others keep their order. The result is "Rows deleted successfully", or `success: false` with the library's error, which names neither the failing row nor how many deletes succeeded; the deletes issued, the failing one last, are the ghost output `writes` |
| Scenarios.PeopleWithIdOne | services/googlesheet.service.js:118-123 | rows with id cells "1", "2", "1" and `where {id: 1}` give the indices [0, 2], and getRow returns rows 0 and 2 in order |
| Scenarios.PeopleRenamed | services/googlesheet.service.js:128-131 | renaming rows 0 and 2 sets their names to "z" and leaves row 1 unchanged |
| Scenarios.PeopleDeleted | services/googlesheet.service.js:159-162 | deleting rows 0 and 2 leaves only row 1 |
| Scenarios.SecondSaveFails | services/googlesheet.service.js:128-139 | with rows 0 and 2 targeted and the save of row 2 throwing, both saves are issued, row 0 is renamed, and rows 1 and 2 keep their values |

## Left out

- The constructor's credential setup is not modelled. This covers JWT creation, environment variables, private-key un-escaping and `checkValueExist`, which comes from a utils file that is not part of this model. It is configuration and foreign code.
- `addSheet`, `addRow`, `getRows`, `updateSheet` and `deleteSheet` are single calls into the client library. They are not modelled. Only the sheet selector of `addRow` and `getRows` is (`Sheets.SelectByEmptyTitle`).
- The network, authentication and quotas are not modelled. `loadInfo()` and `getRows()` are reduced to "may throw", and each save or delete is a step that throws when its row index is in `Faults.writeFails`.
- The client library's row-number bookkeeping after a delete is not modelled. A deleted handle is marked deleted, and the sheet is the handles not deleted, in order.
- `async`/`await` is not modelled; the loops are ordinary sequential loops. Concurrent changes to the sheet between fetch and write are not modelled either, since the source gives no isolation.
- `console.log` output is not modelled.
- Error messages are opaque. `err.response?.data ?? err.message ?? err` is reduced to the cause of the error (`Service.Cause`).
- After a failed `save()`, the handle in memory keeps the assigned values. The snapshot is discarded when the call returns, so the model keeps only what the store holds.
- The store is assumed to give back, through `getRows()` and `toObject()`, exactly the values `assign` and `save()` wrote. The model stores a patch's values as they are, with their JavaScript kinds, and later matching sees them that way. A store that turns a saved number into text, or formats it, is not modelled.
- JavaScript numbers are modelled as exact unbounded integers: no fractions, no NaN value, no infinities and no double-precision rounding. Above 2^53 JavaScript rounds, so `"9007199254740993" == 9007199254740992` is true in JavaScript but false under `JsValues.LooseEq`.
- Number text has no exponent form in the model. JavaScript writes integers from 10^21 on as, for example, "1e+21", so `JsValues.NumberToString`, and with it `JsValues.PropertyKey` of a numeric title, differ from JavaScript there.
- JavaScript's string-to-number conversion is modelled only for the empty string and optionally signed decimal digits. Surrounding whitespace, fractions, exponents, hexadecimal and "Infinity" convert to NaN in the model, although JavaScript converts them to numbers.
- `null`, objects and arrays as `where` values, patch values or titles are not modelled.
- Matching.Get: names a plain JavaScript object inherits from Object.prototype (`toString`, `constructor`, `valueOf`, `hasOwnProperty`, `__proto__`) are not modelled. `row[key]` finds a function there even when the sheet has no such column, but the model reads such a name as undefined. So `where = {toString: undefined}` matches no row in JavaScript and every row in the model.
- Matching.Matches: its contract states two consequences of `every` (an empty `where` matches, a missing field matches only undefined), not the whole condition. The whole condition is the definition of `Matching.Matches`, which is transparent, and the contracts of `Matching.MatchingIndices` and `Matching.Filter` are stated through it.
- A `where` that is itself `undefined` or `null` is not modelled, because `Matching.Where` is always a map. In the source `Object.entries(where)` then throws inside the filter callback, at lines 99, 121 and 152. With at least one row in the sheet, the operation answers `success: false`. With no rows the callback never runs: getRow answers `success: true` with no data, and updateRow and deleteRow answer "No matching rows found".
- `assign` is modelled as field-wise overwrite of the row's record. What the client library does with a patch field that is not a header of the sheet is not modelled.
- A document in which two sheets share a title is not modelled faithfully: `Sheets.FindTitle` then takes the last of them. Google Sheets keeps the titles of a document's sheets unique.
