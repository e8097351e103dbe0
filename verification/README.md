# Admin table state machine

A Dafny model of the client-side state of a single-page admin table (`src/App.jsx`).
The page loads a list of members (`id`, `name`, `email`, `role`), adds a per-record
`selected` flag, and lets the user search, tick rows, edit a row in place, and delete
one row, the selected rows, or all rows. All of this lives in one component's state:

- the ordered record list (`userData`),
- the id being edited (`editing`) and the draft of pending values (`editedValues`),
- the select-all flag (`selectAllChecked`),
- the search text (`searchText`).

Every handler is modelled as a pure function from state to state (`Table`); the two
guarded deletes also return the alert they raise (`Reply`). `Machine` puts the
handlers behind one `Step` function, says when the page offers each event, and proves
the page invariant (unique ids, a draft that belongs to the edit session).

Modules:

- `Optional` (`optional.dfy`): `Option`, for `null` and absent object keys.
- `Seqs` (`seqs.dfy`): `Filter` (`Array.prototype.filter`) and the subsequence relation.
- `Text` (`text.dfy`): `trim`, ASCII `toLowerCase`, `includes`, `String()` of ids and booleans.
- `Records` (`records.dfy`): records, fetched rows, the draft, merging a draft into a record.
- `Table` (`table.dfy`): the state and every handler, the visible set, the as-written
  Delete Selected.
- `Machine` (`machine.dfy`): events, `Step`, the invariant, the walk-through example.

Behaviour worth knowing:

- Select-all sets the flag of every record of the whole list, not only the rows the search shows.
- Deleting the record being edited does not end the edit session; a later Save of that
  id finds no record and leaves the list alone (`Table.SaveAfterDelete`).
- The draft is a full copy of the row, `selected` included, so Save restores the
  selection the row had when the edit began (`Table.SaveRevertsSelection`); the select-all
  flag can then be set while a record is unselected (`Table.SaveDesynchronisesSelectAll`).
- Ids are not checked for uniqueness by the page; `Machine.Enabled` takes unique ids
  of the fetched members as the data source's promise, and the handlers keep them unique.

## Model

| member | source | states |
|---|---|---|
| Records.WithSelection | src/App.jsx:55-58 | every fetched member becomes a record with the same member data and `selected = false`, same length and order |
| Records.LoadRoundTrip | src/App.jsx:55-58 | stripping the selection flags from the loaded records gives back exactly the fetched members |
| Records.LoadUniqueIds | src/App.jsx:55-58 | the loaded records have unique ids exactly when the fetched members do |
| Table.Loaded | src/App.jsx:49-63 | a successful fetch replaces the list by the fetched members, all unselected; a failed fetch changes nothing |
| Table.ToggleSelected | src/App.jsx:69-77 | flips `selected` on exactly the records with the given id, member data, length and order kept; the flag then equals "every record is selected" (true for an empty list) |
| Table.ToggleTwice | src/App.jsx:69-74 | toggling the same id twice gives back the original records |
| Table.ToggleSelectAll | src/App.jsx:79-87 | every record of the whole list gets `selected` = the negated old flag, member data and order kept; the flag is negated |
| Table.SelectAllAgrees | src/App.jsx:79-87 | after select-all a set flag means every record is selected and a cleared flag means none is |
| Table.SelectAllTwice | src/App.jsx:79-87 | select-all twice restores the flag, keeps member data, and leaves every record's selection equal to the old flag |
| Records.CopyOf | src/App.jsx:104 | the draft copied from a row holds every key, so merging it onto any record yields that row |
| Table.BeginEdit | src/App.jsx:102-105 | the session is for the row's id, the draft reproduces the row, the list is untouched |
| Text.Trim | src/App.jsx:126 | the result is the contiguous middle of the input, everything cut off is JavaScript whitespace, and it neither starts nor ends with whitespace |
| Text.TrimIdempotent | src/App.jsx:126 | trimming twice equals trimming once |
| Records.SetField | src/App.jsx:127 | the new value is stored under exactly one key; every other key, present or absent, is unchanged |
| Table.EditChange | src/App.jsx:125-128 | the trimmed input is stored under one draft key, the other keys, the session and the list are unchanged |
| Table.Cancel | src/App.jsx:107-110 | the session ends with an empty draft and the list unchanged |
| Table.BeginCancelRoundTrip | src/App.jsx:102-110 | from an idle page, Edit then Cancel gives back the same state |
| Records.Merge | src/App.jsx:116 | every key present in the draft overrides the record's value, every absent key keeps it |
| Records.MergeEmpty | src/App.jsx:116 | merging an empty draft changes nothing |
| Table.Save | src/App.jsx:112-123 | records with the saved id are merged with the draft, all others and the order kept; no matching id leaves the list unchanged; the session is cleared |
| Table.EditSaveUnchanged | src/App.jsx:102-123 | Edit then Save without typing leaves the list as it was |
| Table.EditFieldThenSave | src/App.jsx:102-128 | Edit, change one field, Save updates that field of that record only |
| Table.SaveRevertsSelection | src/App.jsx:79-123 | for every list with unique ids, Edit on a row, select-all, then Save gives back that row exactly as it was when the edit began (its edit-start selection included), while the flag stays negated |
| Table.SaveDesynchronisesSelectAll | src/App.jsx:79-123 | on a one-record list, that sequence leaves the select-all flag set while the record is unselected |
| Table.DeleteOne | src/App.jsx:130-136 | keeps exactly the records with a different id, each as often as before, in order; an absent id changes nothing; the flag is cleared; the edit session is kept |
| Table.DeleteOneIdempotent | src/App.jsx:130-136 | deleting an id twice equals deleting it once |
| Table.SaveAfterDelete | src/App.jsx:112-136 | saving an id after deleting it leaves the list as the delete left it |
| Table.DeleteSelected | src/App.jsx:137-149 | with nothing selected: the "no rows selected" alert and no change; otherwise exactly the unselected records of the whole list remain, in order, and the flag is cleared |
| Table.DeleteSelectedTwice | src/App.jsx:137-149 | after a successful Delete Selected, repeating it raises the alert |
| Table.DeleteSelectedAsWrittenNeverDeletes | src/App.jsx:137-149 | for every list with a selected record, the handler as written throws a ReferenceError and deletes nothing, while the intended one raises no alert and removes that record |
| Table.DeleteAll | src/App.jsx:161-169 | an empty list gives the "no rows to delete" alert and no change; otherwise the list becomes empty and the flag is cleared |
| Table.DeleteAllTwice | src/App.jsx:161-169 | after a successful Delete All, repeating it raises the alert |
| Table.Search | src/App.jsx:151-153 | typing in the search box changes only the search text |
| Seqs.Filter | src/App.jsx:145 | the result is a subsequence holding exactly the elements that pass, each as often as in the input |
| Seqs.FilterMembers | src/App.jsx:145 | an element is kept exactly when it is in the input and passes |
| Seqs.FilterIdempotent | src/App.jsx:145 | filtering twice with one predicate equals filtering once |
| Text.Lower | src/App.jsx:157 | lower-casing keeps the length and maps each character through ASCII lower-casing |
| Text.LowerCharMeaning | src/App.jsx:157 | a lower-cased character is no upper-case ASCII letter, other characters are kept, letters shift by 32 |
| Text.LowerIdempotent | src/App.jsx:157 | lower-casing twice equals lower-casing once |
| Text.Includes | src/App.jsx:157 | true exactly when the needle occurs at some position of the haystack |
| Text.IncludesEmpty | src/App.jsx:157 | every string includes the empty string |
| Text.NatToString | src/App.jsx:157 | `String(id)` is a non-empty digit string without leading zeros that reads back as the id |
| Text.BoolToString | src/App.jsx:157 | `String(b)` is "true" exactly when b holds and "false" otherwise |
| Records.FieldStrings | src/App.jsx:156-157 | the five string forms of a record: its canonical decimal id (non-empty digits, no leading zero, reading back as the id), name, email, role, and "true" when selected and "false" otherwise |
| Table.VisibleOf | src/App.jsx:155-159 | the shown rows are an order-preserving subsequence holding exactly the matching records, each as often as in the list |
| Table.VisibleMembers | src/App.jsx:155-159 | a record is shown exactly when it is in the list and some key's lower-cased string contains the lower-cased search text |
| Table.MatchesEmpty | src/App.jsx:155-159 | the empty search text matches every record |
| Table.MatchesField | src/App.jsx:155-159 | a record whose name, email or role contains the search text, case aside, matches |
| Table.VisibleEmptySearch | src/App.jsx:155-159 | an empty search shows the whole list in order |
| Table.SearchThenClear | src/App.jsx:151-159 | searching and then clearing the search shows the full list again |
| Table.VisibleIdempotent | src/App.jsx:155-159 | filtering the shown rows again by the same text shows the same rows |
| Table.SearchIgnoresCase | src/App.jsx:155-159 | "ADMIN" matches the role "Administrator" |
| Machine.InitialValid | src/App.jsx:5-9 | the mount state satisfies the page invariant |
| Machine.SubsequenceUniqueIds | src/App.jsx:130-149 | any subsequence of a list with unique ids has unique ids, so the deletes keep ids unique |
| Machine.SaveUniqueIds | src/App.jsx:112-123 | saving the session's own id keeps ids unique |
| Machine.StepPreservesValid | src/App.jsx:49-169 | every event the page offers keeps ids unique, keeps the draft's id equal to the edited id, and keeps an idle draft empty |
| Machine.FirstDoesNotMatchUser | src/App.jsx:155-159 | the first example member has no key containing "user" ("false" included) |
| Machine.VisibleOfUser | src/App.jsx:155-159 | with the two example members, the search "user" shows only the second |
| Machine.DeleteSecondOfTwo | src/App.jsx:137-149 | on a two-record list whose second record alone is selected, Delete Selected raises no alert and keeps the first |
| Machine.Walkthrough | src/App.jsx:55-159 | load two members, search "user", tick the one shown, Delete Selected: only the first member remains |

## Findings

| source | as written | input that shows it | evidently intended | confidence | as-written member | corrected member |
|---|---|---|---|---|---|---|
| src/App.jsx:139 | `console.log(row.selected)` names `row`, which is not in scope in the handler, so every call throws a ReferenceError before the guard and before any state update | any state with a selected record: nothing is deleted | log (or not) and go on to the "nothing selected" guard and the delete of lines 140-148 | high; not executed | Table.DeleteSelectedAsWritten, shown by Table.DeleteSelectedAsWrittenNeverDeletes | Table.DeleteSelected |

## Left out

- The network fetch, JSON parsing and the `try`/`catch` with `console.error` (src/App.jsx:49-67): I/O; the fetch outcome is a parameter of `Table.Loaded` (`None` for a failure).
- React hooks, re-rendering, the column definitions and the `DataTable` grid with pagination, hover highlight and row-selection UI (src/App.jsx:11-47, 171-212): presentation and a foreign library. `Machine.Enabled` keeps only which buttons and inputs exist for which row.
- The grid is never wired to `handleCheckboxChange` or `handleSelectAllCheckboxChange`; both are modelled as standalone transitions that no button of the page raises.
- The input's display fallback `editedValues[key] || row[key]` (src/App.jsx:94): presentation only; an emptied field is stored and saved as "".
- `alert` and `console.log`: an alert is the `alert` field of `Table.Reply`; logging is not modelled.
- React's batching of state updates: each handler runs atomically on the latest state, as on the single-threaded event loop.
- Keys other than `id`, `name`, `email`, `role` in a fetched member: the data source sends only these four.
- Text.Lower: lower-cases ASCII letters only, not the full Unicode case mapping of `toLowerCase`.
- Text.NatToString: ids are modelled as non-negative integers rendered in decimal; a string id or any other `String()` coercion is not modelled.
- Table.DeleteSelected: models the intended handler; the handler as written always throws (see Findings).
