# App_Bank account store, modelled in Dafny

App_Bank is a browser page for keeping a list of bank accounts. This project
models its account store: the `accounts` list and the `editingAccountId`
marker that the page's event handlers update, the rules for a form submit,
entering and leaving edit mode, delete, search, the summary figures, the
per-keystroke numeric filter, and the code-to-label lookups.

Modules, one per part of the script:

- `Text` (text.dfy): `trim`, `toLowerCase` and `includes` with their JavaScript meaning.
- `NumberInput` (number_input.dfy): the `/[^\d.]/g` cleaning shared by `parseNumber` and
  `formatNumberInput`, `split`/`join` on one separator, and `formatNumberInput` itself.
- `Labels` (labels.dfy): the bank, account-type and status lookups, and the currency
  symbol of `formatCurrency`.
- `Accounts` (accounts.dfy): the record types, `findIndex`, `filter` (behind delete and
  search), search, and the `reduce` behind the summary.
- `Submission` (submission.dfy): the rules of `handleFormSubmit` as a step function
  `Submit` on the state (list, marker), with its lemmas.
- `Store` (store.dfy): the class `AccountStore` with the fields the handlers update in
  place. It also has a ghost copy of the storage slot. Its methods are proved against
  `Submit`, `RemoveId` and the marker rules. Three short client sessions end the file.

Inputs the page takes from the browser are parameters. `freshId` is the
`Date.now()` id, `now` is the ISO time stamp, `confirmed` is the answer to the
delete dialog, and `storageOk` says whether `localStorage.setItem` succeeds. A
balance is a `Number`: an integer value (read as cents), or `NaN` for a stored
value that `isNaN` rejects.

The model follows the code as written, including where it departs from the page's evident intent:

- A search term made only of spaces is used as a filter, not treated as empty
  (only `''` shows the whole list).
- A failed storage write on submit is not rolled back.
- An edit whose id is gone does nothing and reports no error.
- The duplicate check is skipped entirely while editing (see Findings).

## Model

| member | source | states |
|---|---|---|
| Text.Trim | script.js:74-77 | the trimmed field is an infix of the input with only white space cut off on either side, and it neither starts nor ends with white space |
| Text.TrimEmptyIff | script.js:92 | a field is empty after trimming exactly when it holds only white space |
| Text.Lower | script.js:337 | lower-casing keeps the length and maps each character by the Latin-1 lower-case rule |
| Text.LowerIdempotent | script.js:345-347 | lower-casing twice gives the same text as lower-casing once |
| Text.ContainsIff | script.js:345-347 | `includes` holds exactly when the needle occurs at some offset of the text |
| Text.SkipSpace | script.js:74-77 | the scan from a start index stops at the first non-space character or at the end, passing only white space |
| NumberInput.Clean | script.js:430 | the cleaned text holds only digits and points |
| NumberInput.CleanCount | script.js:421 | cleaning keeps every digit and point of the input, with its multiplicity, and no other character |
| NumberInput.CleanNumeric | script.js:430 | text that is already digits and points is left unchanged by cleaning |
| NumberInput.CleanAppend | script.js:430 | cleaning distributes over concatenation, so the kept characters stay in order |
| NumberInput.Split | script.js:433 | `split('.')` gives at least one piece, and no piece holds the separator |
| NumberInput.SplitCount | script.js:433-434 | a split gives exactly one more piece than there are separators, so `parts.length > 2` means two or more points |
| NumberInput.SplitChars | script.js:433 | every character of a piece comes from the split text |
| NumberInput.SplitJoin | script.js:433-435 | joining the pieces of a split with the separator gives back the text |
| NumberInput.JoinSplit | script.js:433-435 | splitting the join of separator-free pieces gives back the pieces |
| NumberInput.FormatNumberInput | script.js:425-444 | the filtered text holds only digits and at most one point, for every input; with no point after cleaning it is the cleaned text itself |
| NumberInput.FormatNumberInputOneDot | script.js:438-441 | with exactly one point after cleaning, the whole part is kept and the fraction is kept whole when it has at most two digits, else cut to exactly its first two |
| NumberInput.FormatNumberInputManyDots | script.js:433-436 | with two or more points, exactly one point remains, the whole part is kept, the later pieces are glued in order into the fraction, and no digit is dropped |
| NumberInput.FormatNumberInputIdempotent | script.js:430-441 | with at most one point after cleaning, filtering the filtered text changes nothing |
| NumberInput.FormatNumberInputTwoPoints | script.js:433-441 | pasting `a.b.c` gives `a.bc`, and when `bc` has more than two digits a second pass cuts it, so the filter is not idempotent there |
| NumberInput.FormatNumberInputTwoDecimals | script.js:438-441 | the intended filter leaves digits, at most one point and at most two fraction digits on every input |
| NumberInput.TwoDecimalsIsSecondPass | script.js:433-441 | the intended filter gives exactly what two passes of the written one give: the whole part, one point, and the first two digits of the glued fraction |
| NumberInput.TwoDecimalsIdempotent | script.js:438-441 | the intended filter is idempotent on every input |
| NumberInput.TwoDecimalsAgrees | script.js:433-441 | the intended filter agrees with the written one on text with at most one point |
| Labels.Lookup | script.js:372 | `table[code] \|\| code` returns the code itself exactly when the code is unknown, and the label when it is known |
| Labels.BankName | script.js:363-373 | a bank code maps to its label when known, and only an unknown code maps to itself |
| Labels.AccountTypeName | script.js:375-383 | an account-type code maps to its label when known, and only an unknown code maps to itself |
| Labels.StatusName | script.js:385-393 | a status code maps to its label when known, and only an unknown code maps to itself |
| Labels.CurrencySymbol | script.js:407-409 | the symbol is `$` exactly for USD, `€` exactly for EUR, and `S/` exactly for every other code |
| Labels.FormatCurrency | script.js:406-409 | USD shows `$` before the formatted amount, EUR shows `€`, and every other code shows `S/` |
| Labels.FormatCurrencyDistinguishes | script.js:407-409 | two currencies show the same text exactly when both are USD, both are EUR, or neither is |
| Accounts.Any | script.js:155-158 | `some` holds exactly when some element passes the test |
| Accounts.FilterSound | script.js:328 | every element `filter` keeps is in the list and passes the test, and every element that passes is kept |
| Accounts.FindIndex | script.js:127 | the result is the first position holding the id, or -1 exactly when no record has it |
| Accounts.FilterMembership | script.js:344-348 | an element is kept by `filter` exactly when it is in the list and passes the test |
| Accounts.FilterSubsequence | script.js:328 | `filter` keeps the list's order: its result is a subsequence of the list |
| Accounts.FilterAll | script.js:328 | a list whose elements all pass is kept whole |
| Accounts.FilterIdempotent | script.js:328 | filtering twice with the same test equals filtering once |
| Accounts.FilterAppend | script.js:344-348 | filtering distributes over concatenation |
| Accounts.RemoveId | script.js:328 | after a delete no record has the id, every record left comes from the list, and every other record is kept |
| Accounts.RemoveIdOrder | script.js:328 | a delete keeps the remaining records in their order |
| Accounts.RemoveIdIdempotent | script.js:328 | deleting the same id twice equals deleting it once |
| Accounts.RemoveIdAbsent | script.js:328 | deleting an id no record has leaves the list unchanged |
| Accounts.RemoveIdTotal | script.js:356-359 | after a delete the total drops by exactly the balances of the removed records |
| Accounts.Search | script.js:336-351 | an empty term shows the whole list; otherwise every record shown is from the list and matches the lower-cased term in bank code, number or holder |
| Accounts.SearchMembership | script.js:344-348 | a record is shown exactly when it is in the list and, for a non-empty term, the lower-cased term occurs in its lower-cased bank code, number or holder |
| Accounts.SearchOrder | script.js:344-350 | the records shown keep the list's order |
| Accounts.SearchIgnoresCase | script.js:337 | a term and its lower-cased form show the same records |
| Accounts.SearchCaseExample | script.js:337-348 | "BCP" and "bcp" show the same records |
| Accounts.TotalNonNegative | script.js:356-359 | with no negative balance the total is not negative |
| Accounts.TotalAllNaN | script.js:356-359 | with no numeric balance the total is 0 |
| Accounts.UpdateSummary | script.js:353-359 | the count is the number of records and the total is the sum of the numeric balances only |
| Accounts.TotalAppend | script.js:356-359 | the total of two lists joined is the sum of their totals |
| Accounts.TotalIgnoresNaN | script.js:357 | a NaN balance adds nothing: the total equals the total of the records with numeric balances |
| Accounts.TotalSplit | script.js:356-359 | the total is the sum of the totals of the records passing a test and of those failing it |
| Submission.MissingRequired | script.js:92 | a submit lacks a required field exactly when bank code, number or holder holds only white space |
| Submission.IsDuplicate | script.js:154-158 | a number is a duplicate exactly when some record other than the marked one has it |
| Submission.MakeAccount | script.js:104-123 | the new record carries the given id, the trimmed bank code, number and holder, every other field of the form unchanged, and the time stamp |
| Submission.Submit | script.js:70-152 | the state is left unchanged exactly when the submit is refused as incomplete or as a duplicate; `Saved` only when the write succeeds, `SaveFailed` only when it fails |
| Submission.SubmitMissingField | script.js:92-95 | a submit is refused as incomplete exactly when bank code, number or holder is blank, and then nothing changes |
| Submission.SubmitDuplicate | script.js:98-101 | a submit is refused as a duplicate exactly when the fields are present, the marker is not set, and another record has the trimmed number; then nothing changes; while editing it is never refused as a duplicate |
| Submission.SubmitAppends | script.js:104-134 | a new record is appended after the untouched records, carrying the new id and all eighteen fields as `MakeAccount` builds them from the draft; the count grows by one and the total by the balance; the marker clears only after a successful write |
| Submission.SubmitReplaces | script.js:104-131 | an edit replaces the first record with the marked id by a record carrying that id and all eighteen fields built from the draft, keeps every other record, the length and the order, and clears the marker |
| Submission.SubmitEditMissing | script.js:127-131 | an edit whose id no record has leaves the list unchanged and clears the marker |
| Submission.SubmitNoRollback | script.js:137-145 | a failed storage write leaves the list as a successful one would, and the outcome is never `Saved` |
| Submission.SubmitKeepsIdsUnique | script.js:105 | a submit keeps ids unique when the new id is not taken, since an edit reuses the id it replaces |
| Submission.EditCanDuplicateNumber | script.js:98 | as written, an edit that takes another record's number is saved and leaves two records with one number |
| Submission.SubmitChecked | script.js:154-158 | the intended submit leaves the state unchanged exactly when it refuses; it refuses as a duplicate exactly when the fields are present and some record other than the one being edited has the trimmed number, whether or not an edit is under way |
| Submission.SubmitCheckedAgrees | script.js:98 | whenever no edit is under way, the intended submit gives exactly what the written one gives |
| Submission.SubmitCheckedKeepsNumbersUnique | script.js:154-158 | the intended submit keeps account numbers unique for new records and edits alike |
| Store.AccountStore.constructor | script.js:18-28 | page load takes the stored list, or an empty list when nothing usable is stored, with no edit under way |
| Store.AccountStore.HandleFormSubmit | script.js:70-152 | the list, the marker and the outcome end as `Submit` gives them; the storage slot receives the new list only on a successful write |
| Store.AccountStore.Save | script.js:103-151 | once the checks pass, the list becomes the committed one, the outcome follows the write, the slot receives the list only on success, and the marker clears on an edit or a successful write |
| Store.AccountStore.ApplyDraft | script.js:103-135 | after the checks, the edited record is replaced in place or the new one appended, and an edit clears the marker |
| Store.AccountStore.ClearForm | script.js:161-163 | clearing the form leaves edit mode |
| Store.AccountStore.CloseEditModal | script.js:321-324 | closing the edit dialog leaves edit mode |
| Store.AccountStore.EditAccount | script.js:223-227 | edit mode is entered for an id only when some record has it, and otherwise the marker is unchanged |
| Store.AccountStore.DeleteAccount | script.js:326-334 | a confirmed delete drops every record with the id and writes the new list when storage succeeds; an unconfirmed one changes nothing |

## Left out

- Rendering, HTML templates, event wiring, modal and field-group visibility (script.js:34-62, 170-221, 229-319) are UI with no state of the store.
- `JSON.parse`/`JSON.stringify` and `localStorage` are browser I/O. Loading takes the parsed list as `Option<seq<Account>>`: None stands for a missing, empty or malformed slot. A slot that parses to something other than a list is not modelled. Writes are the `storageOk` parameter plus the ghost `persisted` copy.
- The clock (`Date.now()`, `toISOString`) supplies `freshId` and `now`. Two adds within one millisecond would get the same id; `Submission.SubmitKeepsIdsUnique` therefore assumes a fresh id.
- `alert` and `confirm` are the outcome value and the `confirmed` parameter. The alert texts are not modelled. Among them, the success alert (script.js:140) reads the marker after line 131 cleared it, so it always says "registrada".
- `parseFloat`, `Intl.NumberFormat`, `toFixed` and `Number.prototype.toString` are floating-point and locale library calls. So `formatNumberOnBlur`, `handleNumberFocus`, the number parsing after the cleaning step of `parseNumber`, and `getNumberValue` are left out. The draft's numeric fields are already numbers. `formatCurrency` takes the formatted amount as text, and its `toFixed` fallback is not modelled.
- Numbers are integers, not IEEE doubles: rounding in the summary total is not modelled.
- Accounts.UpdateSummary: a stored balance that `isNaN` lets through but `parseFloat` reads as NaN (`null`, `""`, `" "`) makes the whole total NaN, which `formatCurrency` then shows as 0.00; `Number` has no such case, so the total is always the sum of the numeric balances. The page can store one itself: a digit run too long for a double parses to `Infinity`, which `JSON.stringify` writes as `null`.
- Loaded records are assumed to carry every field, with the text fields as strings. A stored record without `bankName`, `accountNumber` or `accountHolder` (or with a non-string there) makes `searchAccounts` throw at script.js:345-347; the model has no such records, so that failure is not modelled.
- Text.Lower: lower-cases Basic Latin and Latin-1 capitals only; other scripts and the length-changing mappings of `toLowerCase` are not modelled.
- Labels.Lookup: keys that a JavaScript object inherits from its prototype (`constructor`, `toString`, ...) are not modelled; the tables are plain maps.
- Copying the modal's values into the main form (script.js:301-311) is DOM plumbing; the edit takes the whole draft directly.
- The store does not keep account numbers unique as a class invariant: stored data may already break it, and edits can break it (see Findings).

## Findings

| source | as written | input that shows it | evidently intended | confidence | as-written member | corrected member |
|---|---|---|---|---|---|---|
| script.js:433-441 | with two or more points the later pieces are glued onto the fraction and the two-digit cut is skipped | pasting `1.2.345` leaves `1.2345`, four fraction digits; the next keystroke's pass cuts it to `1.23` | at most two fraction digits whatever is pasted ("Limitar a 2 decimales") | medium, not executed | NumberInput.FormatNumberInputTwoPoints | NumberInput.FormatNumberInputTwoDecimals |
| script.js:98 | `isDuplicateAccount(...) && !editingAccountId` skips the duplicate check for every edit | records `001` (id 1) and `002` (id 2); edit id 2 and save number `001`: both records now have `001` | the check runs for edits too, skipping only the edited record, as the self-exclusion in `isDuplicateAccount` (script.js:154-158) shows | medium, not executed | Submission.EditCanDuplicateNumber | Submission.SubmitCheckedKeepsNumbersUnique |

The intended definitions (`NumberInput.FormatNumberInputTwoDecimals` and
`Submission.SubmitChecked`) sit beside the written ones. The store class
follows the code as written.
