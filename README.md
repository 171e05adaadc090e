# Data table editor: validation engine and state reducer

This project models the core of the raw-table data editor. The editor loads
person records from a CSV file and validates them. Each record has a NIC (national
identity number), a first and last name, a gender and an age. The user can edit
cells, page through the table 100 rows at a time, and select valid rows.

The core is a pure validation engine plus a reducer over the editor state:

- `buildIndexes` makes one pass over the records. It builds two maps from a
  normalised key to the ids of the records that share it: trimmed lower-cased
  NIC, and trimmed lower-cased `first|last` name pair.
- `validateRow` gives one record its error map. NIC, the two names, gender and
  age each have a "required" rule. NIC and the name pair must also be unique in
  the index. Gender must be exactly `M` or `F`. Age must be a whole number
  above zero.
- `runFullValidation` rebuilds both indexes from the whole record set and
  re-validates every record. `isRowValid` holds exactly when the error map is
  empty.
- `tableReducer` handles six actions: LOAD, UPDATE_CELL, SET_PAGE,
  TOGGLE_SELECT, SELECT_PAGE_ALL and DESELECT_ALL. It works over the state
  `{records, currentPage, selectedIds}`.
- `totalPages`, `pageRecords`, `pageValidIds` and `pageAllSelected` are the
  page slice the table renders, and the header checkbox that goes with it.

Modules, in dependency order:

- `Wrappers`: `Option`.
- `Text`: ASCII `trim` / `toLowerCase`, and `Number()` restricted to decimal
  integers.
- `Records`: the record, its five editable fields and its error map.
- `Indexes`: `buildIndexes`.
- `Validation`: `validateRow`, `runFullValidation`, `isRowValid`, and the rules
  and dataset-level uniqueness properties.
- `Pagination`: the page slice.
- `Reducer`: `tableReducer` and the invariant every reachable state keeps.
- `Scenarios`: a worked example with three records, then one edit.

Each `forEach` loop of the source, and the section-by-section filling of the
error object in `validateRow`, is a method whose `ensures` ties it to a
functional definition:

| method | functional definition |
|---|---|
| `BuildIndexes` | `IndexOf` |
| `ValidateRow` | `RowErrors` |
| `RunFullValidation` | `Revalidate` |
| `PruneInvalid` | `InvalidIds` |
| `ApplyPageSelection` | `TogglePage` |
| `TableReducer` | `Reduce` |

The properties are proved about those functions. The source's `map`,
`filter` and `every` calls are plain functions (`EditRecords`, `Annotate`,
`PageValidIds`, `EverySelected`, `PageAllSelected`).

The name key joins the two normalised names with one `|`, and the names may
contain `|` themselves. So two different pairs can share a key: `a|b` with `c`
and `a` with `b|c` both give `a|b|c`. The source then treats the two records as
holders of one pair and flags both. The model keeps this behaviour
(`Scenarios.NameKeyCollision`).

I/O, clocks and randomness do not occur in the core. File reading,
CSV parsing and rendering stay outside the model (see "Left out").

## Model

| member | source | states |
|---|---|---|
| Text.Trim | src/raw-table/data-table-editor.jsx:23 | `trim()`: the result is empty exactly when the string is all white space; otherwise it starts and ends with a non-space; it is never longer than the input |
| Text.TrimSlice | src/raw-table/data-table-editor.jsx:23 | the trim is the slice of the input between an all-space prefix and an all-space suffix, so with `Trim`'s contract it is the input with its leading and trailing white space removed |
| Text.TrimIdempotent | src/raw-table/data-table-editor.jsx:43 | trimming an already trimmed cell changes nothing |
| Text.TrimNoSpace | src/raw-table/data-table-editor.jsx:43 | a string that starts and ends with a non-space is its own trim |
| Text.LowerAt | src/raw-table/data-table-editor.jsx:47 | `toLowerCase()` works character by character: capitals become small letters, all else is kept |
| Text.DecimalString | src/raw-table/data-table-editor.jsx:71 | the decimal rendering of a number is a non-empty string of digits |
| Text.DigitsValueOfDecimal | src/raw-table/data-table-editor.jsx:71 | reading a rendered number back gives the number |
| Text.ParseDecimalRoundTrip | src/raw-table/data-table-editor.jsx:71 | `Number` of a rendered number is that number, unsigned, with `+`, and with `-` negated |
| Text.TrimDecimal | src/raw-table/data-table-editor.jsx:71 | a rendered number has no white space to trim |
| Records.WithField | src/raw-table/data-table-editor.jsx:130 | `{...r, [field]: value}` sets exactly that field to the value; every other field, the id and the error map are kept |
| Indexes.Push | src/raw-table/data-table-editor.jsx:27-28 | pushing an id under a key appends it to that key's list, creates the key if missing, and leaves every other key's list alone |
| Indexes.PushInPlace | src/raw-table/data-table-editor.jsx:27-28 | the `has`/`set`/`get().push` statements compute `Push` |
| Indexes.IndexOfPrefix | src/raw-table/data-table-editor.jsx:22-34 | the index of one more record is the old index after one `forEach` step |
| Indexes.BuildIndexes | src/raw-table/data-table-editor.jsx:18-37 | the loop leaves exactly the NIC index and the name index of all the records |
| Indexes.LookupIndexOf | src/raw-table/data-table-editor.jsx:18-37 | under every key the index lists the ids of the records entered under that key, in record order; a key is present exactly when that list is non-empty |
| Indexes.HoldersMembership | src/raw-table/data-table-editor.jsx:22-34 | an id is listed under a key exactly when some record with that id is entered under it |
| Indexes.HoldersNonEmpty | src/raw-table/data-table-editor.jsx:22-34 | a key's list is non-empty exactly when some record is entered under it |
| Indexes.HoldersMoreThanOne | src/raw-table/data-table-editor.jsx:48-49 | for a record entered under a key, the key lists more than one id exactly when another record (another position) is entered under it too |
| Indexes.IdIndexedUnderOwnKey | src/raw-table/data-table-editor.jsx:22-34 | with distinct ids, a record's id is listed under a key exactly when that key is its non-empty normalised NIC (NIC index), or its name key with one name present (name index) |
| Indexes.KeyIgnoresErrors | src/raw-table/data-table-editor.jsx:23-30 | a record's keys and whether it is indexed do not depend on its error map |
| Indexes.IndexOfIgnoresErrors | src/raw-table/data-table-editor.jsx:18-37 | the indexes never read error maps |
| Validation.ValidateRow | src/raw-table/data-table-editor.jsx:39-79 | the section-by-section statements compute `RowErrors`, the union of the four section maps |
| Validation.CheckNic | src/raw-table/data-table-editor.jsx:42-50 | the NIC section adds exactly the NIC section's errors |
| Validation.CheckNames | src/raw-table/data-table-editor.jsx:52-64 | the names section adds exactly the names section's errors; the uniqueness message is only written when both names are present, so it never replaces a "required" message |
| Validation.CheckGender | src/raw-table/data-table-editor.jsx:66-68 | the gender section adds exactly the gender section's errors |
| Validation.CheckAge | src/raw-table/data-table-editor.jsx:70-76 | the age section adds exactly the age section's errors |
| Validation.IsRowValid | src/raw-table/data-table-editor.jsx:89-91 | `Object.keys(errors).length === 0` holds exactly when the error map is empty |
| Validation.SectionUnion | src/raw-table/data-table-editor.jsx:39-79 | the four sections write disjoint fields, so each field of the union comes from its own section |
| Validation.RowErrorsFields | src/raw-table/data-table-editor.jsx:39-79 | each of the five fields of a row's error map is exactly what its section wrote |
| Validation.NicRule | src/raw-table/data-table-editor.jsx:42-50 | "NIC is required" exactly when the trimmed NIC is empty; "NIC must be unique" exactly when it is not and the NIC index lists more than one id under its lower-cased form; no other NIC message |
| Validation.NameRule | src/raw-table/data-table-editor.jsx:52-64 | each empty trimmed name gets its "required" message; "Name combination must be unique" goes on both names exactly when both are present and the pair's key lists more than one id; a name field has no error exactly when the name is present and the pair is not duplicated |
| Validation.GenderRule | src/raw-table/data-table-editor.jsx:66-68 | "Gender is required" exactly for the empty cell; "Must be M or F" for any other value than exactly `M` or `F`; no error exactly for `M` or `F` |
| Validation.AgeRule | src/raw-table/data-table-editor.jsx:70-76 | "Age is required" exactly for the empty cell; "Must be a whole number > 0" exactly for a non-empty cell that is not a whole number above zero; both messages differ |
| Validation.PositiveAgeAccepted | src/raw-table/data-table-editor.jsx:74 | a positive decimal number is a valid age, also with `+` and with surrounding spaces |
| Validation.NonPositiveAgeRejected | src/raw-table/data-table-editor.jsx:74 | zero and negative numbers are rejected |
| Validation.RowValidIff | src/raw-table/data-table-editor.jsx:39-79 | a row is valid exactly when every rule passes: NIC present and listed at most once, both names present and the pair listed at most once, gender `M` or `F`, age a whole number above zero |
| Validation.Annotate | src/raw-table/data-table-editor.jsx:83-86 | `records.map(...)` against fixed indexes keeps the length, the order and every non-error field |
| Validation.Revalidate | src/raw-table/data-table-editor.jsx:81-87 | revalidation keeps the length, the order and every non-error field; only error maps change |
| Validation.RunFullValidation | src/raw-table/data-table-editor.jsx:81-87 | builds both indexes from the whole sequence, then validates each record in turn; this computes `Revalidate` |
| Validation.AnnotateAt | src/raw-table/data-table-editor.jsx:83-86 | position `i` of the mapped sequence is record `i` with its `validateRow` error map |
| Validation.RevalidateAt | src/raw-table/data-table-editor.jsx:81-87 | after revalidation, record `i` carries the error map `validateRow` gives it against the indexes of the whole sequence |
| Validation.RowErrorsIgnoresErrors | src/raw-table/data-table-editor.jsx:39-79 | `validateRow` never reads the old error map |
| Validation.AnnotateIgnoresErrors | src/raw-table/data-table-editor.jsx:83-86 | the mapping step never reads old error maps |
| Validation.RevalidateIgnoresErrors | src/raw-table/data-table-editor.jsx:81-87 | sequences that differ only in error maps revalidate to the same result |
| Validation.RevalidateIdempotent | src/raw-table/data-table-editor.jsx:81-87 | revalidating twice gives what revalidating once gives |
| Validation.RevalidateCurrent | src/raw-table/data-table-editor.jsx:81-87 | after revalidation every error map is current |
| Validation.CurrentIff | src/raw-table/data-table-editor.jsx:81-87 | a sequence is current exactly when every error map is what `validateRow` gives its record against the indexes of the whole sequence |
| Validation.NicKeyEmpty | src/raw-table/data-table-editor.jsx:23 | the normalised NIC is empty exactly when the trimmed NIC is |
| Validation.NameKeyParts | src/raw-table/data-table-editor.jsx:24 | the name key is the trimmed first name lower-cased character by character, then one `\|`, then the trimmed last name lower-cased character by character |
| Validation.RevalidatedNicNotUnique | src/raw-table/data-table-editor.jsx:46-49 | after revalidation a record carries "NIC must be unique" exactly when its NIC is present and the whole-set NIC index lists more than one id under it |
| Validation.NicUniqueInDataset | src/raw-table/data-table-editor.jsx:46-49 | after revalidation a record carries "NIC must be unique" exactly when its NIC is present and another record has the same normalised NIC |
| Validation.RevalidatedNameNotUnique | src/raw-table/data-table-editor.jsx:57-63 | after revalidation both names carry the pair message exactly when both are present and the whole-set name index lists more than one id under the record's name key |
| Validation.NameUniqueInDataset | src/raw-table/data-table-editor.jsx:57-63 | after revalidation both names carry the pair message exactly when both are present and another record has the same name key (two different pairs can share one, see `Scenarios.NameKeyCollision`) |
| Validation.NicDuplicatesFlaggedOnBothSides | src/raw-table/data-table-editor.jsx:46-49 | two records with the same present NIC are both flagged |
| Pagination.TotalPages | src/raw-table/data-table-editor.jsx:289 | `Math.ceil(n / PAGE_SIZE)`: zero exactly for no records, otherwise the least page count whose pages hold all records |
| Pagination.PageRecords | src/raw-table/data-table-editor.jsx:290-293 | the slice holds at most `PAGE_SIZE` rows: positions `page * PAGE_SIZE` onward, cut off at the end, empty past the last page |
| Pagination.PageValidIds | src/raw-table/data-table-editor.jsx:296-299 | the page's valid ids are exactly the ids of the page's valid rows |
| Pagination.RecordOnItsPage | src/raw-table/data-table-editor.jsx:289-293 | record `i` is row `i % PAGE_SIZE` of page `i / PAGE_SIZE`, and that page exists |
| Pagination.PageAllSelectedIff | src/raw-table/data-table-editor.jsx:301-302 | the header checkbox is checked exactly when the page has at least one valid row and every valid row on it is selected |
| Reducer.Reduce | src/raw-table/data-table-editor.jsx:116-166 | LOAD resets page and selection; no other action changes the record count; only LOAD and SET_PAGE move the page; only LOAD and UPDATE_CELL change records; UPDATE_CELL and DESELECT_ALL only shrink the selection |
| Reducer.InvalidIdsPrefix | src/raw-table/data-table-editor.jsx:137-139 | the invalid ids of one more record are the old ones plus that record's id if it is invalid |
| Reducer.PruneInvalid | src/raw-table/data-table-editor.jsx:136-139 | the `forEach`/`delete` loop leaves the old selection minus the ids of invalid records |
| Reducer.ApplyPageSelection | src/raw-table/data-table-editor.jsx:155-158 | the `every` test and the add/delete loops compute `TogglePage` |
| Reducer.TableReducer | src/raw-table/data-table-editor.jsx:116-166 | the reducer as written, copying the selection and updating the copy in place, computes `Reduce` |
| Reducer.InvalidIdsMembership | src/raw-table/data-table-editor.jsx:137-139 | an id is pruned exactly when some record carrying it is invalid |
| Reducer.LoadSpec | src/raw-table/data-table-editor.jsx:118-125 | LOAD keeps the rows' order and data, makes every error map current, shows page 0 and selects nothing |
| Reducer.EditRecordsKeepsIds | src/raw-table/data-table-editor.jsx:129-131 | the edit's `map` keeps every id in place |
| Reducer.UpdateCellRecords | src/raw-table/data-table-editor.jsx:126-133 | only records with the given id get the value in the given cell; every other record and cell is kept, in place; every error map is current afterwards; the page is unchanged |
| Reducer.UpdateCellSelection | src/raw-table/data-table-editor.jsx:135-141 | an id stays selected exactly when it was selected and no record carrying it is invalid after revalidation |
| Reducer.NoInvalidRowStaysSelected | src/raw-table/data-table-editor.jsx:135-139 | after an edit no selected id belongs to an invalid record |
| Reducer.SetPageSpec | src/raw-table/data-table-editor.jsx:143-144 | SET_PAGE moves to the page and keeps records and selection |
| Reducer.ToggleSelectSpec | src/raw-table/data-table-editor.jsx:145-152 | with `valid` false the state is unchanged; otherwise exactly the given id flips; records and page are kept |
| Reducer.ToggleSelectTwice | src/raw-table/data-table-editor.jsx:145-152 | toggling the same id twice restores the state |
| Reducer.SelectPageAllSpec | src/raw-table/data-table-editor.jsx:153-160 | if every given id is selected, all are deselected; otherwise all are selected; other ids, the records and the page are kept |
| Reducer.DeselectAllSpec | src/raw-table/data-table-editor.jsx:161-162 | DESELECT_ALL empties the selection and keeps records and page |
| Reducer.HeaderCheckboxFlips | src/raw-table/data-table-editor.jsx:316-318 | on a page with a valid row, the header checkbox's SELECT_PAGE_ALL flips whether the checkbox is checked |
| Reducer.RowToggleAllowed | src/raw-table/data-table-editor.jsx:194-195 | a row checkbox's TOGGLE_SELECT on a valid row names a valid record |
| Reducer.PageValidIdIsValid | src/raw-table/data-table-editor.jsx:296-299 | every id the page lists as valid belongs to a valid record |
| Reducer.PageSelectAllowed | src/raw-table/data-table-editor.jsx:316-318 | the header checkbox's SELECT_PAGE_ALL names only valid records |
| Reducer.InitialStateInv | src/raw-table/data-table-editor.jsx:168 | the initial state satisfies the invariant |
| Reducer.UpdateCellKeepsIds | src/raw-table/data-table-editor.jsx:129-133 | UPDATE_CELL keeps every record's id in place |
| Reducer.UpdateCellSelectsOnlyValid | src/raw-table/data-table-editor.jsx:135-141 | if only valid records were selected before an edit, only valid records are selected after it |
| Reducer.UpdateCellKeepsInv | src/raw-table/data-table-editor.jsx:126-142 | UPDATE_CELL keeps the invariant |
| Reducer.LoadKeepsInv | src/raw-table/data-table-editor.jsx:118-125 | LOAD of rows with distinct ids establishes the invariant |
| Reducer.SelectPageAllKeepsInv | src/raw-table/data-table-editor.jsx:153-160 | SELECT_PAGE_ALL of valid ids keeps the invariant |
| Reducer.InvariantPreserved | src/raw-table/data-table-editor.jsx:116-166 | every action the controls can dispatch keeps the invariant: distinct ids, current error maps, only valid records selected, an existing page |
| Reducer.EditPropagates | src/raw-table/data-table-editor.jsx:126-142 | giving one record another record's non-blank NIC flags both of them, and neither stays selected |
| Scenarios.ExampleNicKeys | src/raw-table/data-table-editor.jsx:23 | the example's NICs `NIC1`, `NIC3` and the new `NIC2` normalise to different keys |
| Scenarios.ExampleNameKeys | src/raw-table/data-table-editor.jsx:24 | `Ann Lee` and `Bob Ray` normalise to different name keys |
| Scenarios.ExampleAgeAccepted | src/raw-table/data-table-editor.jsx:74 | age `25` is accepted |
| Scenarios.ExampleAgeRejected | src/raw-table/data-table-editor.jsx:74 | age `-5` is rejected |
| Scenarios.ExampleNamesPresent | src/raw-table/data-table-editor.jsx:53-56 | every name in the example is present |
| Scenarios.ExampleIdsDistinct | src/raw-table/data-table-editor.jsx:102 | the example's ids `row-1`, `row-2`, `row-3` are distinct |
| Scenarios.ExampleHasShape | src/raw-table/data-table-editor.jsx:39-79 | the three example records have the shape the scenario lemmas assume, and `NIC2` is a fresh NIC for the second |
| Scenarios.LoadFlagsNic | src/raw-table/data-table-editor.jsx:46-49 | after LOAD the two records sharing a NIC are both flagged, and the third is not |
| Scenarios.LoadFlagsNames | src/raw-table/data-table-editor.jsx:57-63 | after LOAD the two records sharing a name pair carry the pair message on both names, and the second carries it on neither name |
| Scenarios.LoadFlagsAge | src/raw-table/data-table-editor.jsx:74-75 | after LOAD the third record's age is rejected |
| Scenarios.LoadedRowsInvalid | src/raw-table/data-table-editor.jsx:89-91 | after LOAD all three records are invalid |
| Scenarios.LoadedRowsNotSelectable | src/raw-table/data-table-editor.jsx:145-147 | while those errors stand, a row checkbox's TOGGLE_SELECT changes nothing |
| Scenarios.AfterEditRecords | src/raw-table/data-table-editor.jsx:126-141 | the edit leaves the revalidated edited rows and an empty selection |
| Scenarios.EditClearsNic | src/raw-table/data-table-editor.jsx:46-49 | after the second record's NIC is made unique, neither of the two former duplicates is flagged |
| Scenarios.EditKeepsNameErrors | src/raw-table/data-table-editor.jsx:57-63 | the first and third records keep their name-pair errors |
| Scenarios.EditKeepsAgeError | src/raw-table/data-table-editor.jsx:74-75 | the third record keeps its age error |
| Scenarios.EditedNicCount | src/raw-table/data-table-editor.jsx:46-49 | after the edit the second record's NIC is listed exactly once |
| Scenarios.EditedNameCount | src/raw-table/data-table-editor.jsx:57-60 | after the edit the second record's name key is listed exactly once |
| Scenarios.EditMakesRowValid | src/raw-table/data-table-editor.jsx:89-91 | after the edit the second record is valid |
| Scenarios.EditedRowSelectable | src/raw-table/data-table-editor.jsx:145-152 | after the edit the second record's checkbox selects it |
| Scenarios.ExampleScenario | src/raw-table/data-table-editor.jsx:116-166 | for the three example rows: after LOAD no row is valid and nothing is selected; after row-2's NIC becomes `NIC2` only row-2 is valid and nothing is selected; its checkbox then selects exactly row-2 |
| Scenarios.NameKeyCollision | src/raw-table/data-table-editor.jsx:24 | the pairs `a\|b`, `c` and `a`, `b\|c` differ but have the same name key |

## Left out

- IsWholeNumberAboveZero: `Number(row.age)` is read as a decimal integer with an optional sign, after ASCII white space is trimmed. JavaScript's `Number` also accepts other forms, such as `3.0`, `1e2`, `0x10` and `0b11`, which the source therefore takes as whole numbers above zero. The model rejects them. The reverse also happens: a digit string whose value is above about 1.8e308 becomes `Infinity` in JavaScript, fails `Number.isInteger`, and gets "Must be a whole number > 0" from the source, while the model accepts it. Floating point is not modelled.
- Text.Trim, Text.Lower: ASCII only. JavaScript trims Unicode white space and lower-cases Unicode letters.
- Text.Lower: its own contract states only the length; the character-by-character behaviour is `Text.LowerAt`.
- Reducer.UpdateCellRecords: the field is one of the five editable cells. The source writes any property name it is given, but the editor only sends those five.
- `age === null` and `age === undefined` (line 72) cannot happen: cells are strings, so only the `=== ""` test is modelled.
- The `default` branch of `tableReducer` is not modelled. It returns the state for an unknown action type, and the closed `Action` datatype has no such action.
- `parseCSV` (lines 94-113) is not part of this model. The only thing LOAD uses from it is that the ids `row-<line>` are pairwise distinct. This is the LOAD case of `ActionAllowed`.
- `totalPages` follows the code: it is 0 for no records. The table and pager are only rendered when records exist, and `Inv` allows page 0 in every case.
- Pages are natural numbers. The pager never dispatches a negative page: "previous" is disabled on page 0.
- JavaScript `Map` and `Set` iteration order is not modelled: the indexes are maps and the selection is a set. The lists of ids inside the indexes do keep record order.
- The `selected` flag on a record is carried but never read or written, as in the core.
- Rendering, memoisation and the callbacks are left out. So are the pager's seven-button window (lines 541-556), the action log, `handleAction` and the bulk action, the CSV download, and file reading.
- The other files of the repository are not part of this model: the antd table, the editable pro-table, the home page, `App.jsx` and the CSV upload helper.
