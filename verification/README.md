# OLLI walks and hikes: a Dafny model of the schedule editor's core

The OLLI PDF generator is a single-page React app. A facilitator uses it to
plan a month of walks and hikes and to print the plan as a one-page PDF. It
keeps a directory of locations, each with a name, street address, town,
comments and meeting notes. The directory can be edited by hand or filled
from a spreadsheet. The editor's walks (one per Monday of the month) and
hikes are occurrences. Each occurrence is a date plus a snapshot of a
location's fields.

This project models the logic of `src/App.js` once the React, FileReader,
XLSX and jsPDF plumbing is removed. It also models the scenario script
`test_location_management.js`. All state is immutable: sequences of
`Location` and `Occurrence` records, and a spreadsheet as a sequence of rows
of cells. Every handler is a pure function or a short method with a
contract. Lemmas relate the handlers to each other and to independent
reference definitions.

| file | module | models |
|---|---|---|
| `results.dfy` | `Results` | `Option` and `Result`, which stand for `undefined` results, alerts and thrown errors |
| `locations.dfy` | `Records` | the location record (five fields) and the occurrence record |
| `text.dfy` | `Text` | `trim` (ECMAScript whitespace), ASCII `toLowerCase`, `startsWith`, `includes` |
| `collation.dfy` | `Collation` | the comparator of `sortLocations`, as a collation key compared lexicographically |
| `sorting.dfy` | `Sorting` | `sortLocations`: a stable sort by a total preorder |
| `lists.dfy` | `Lists` | index-based replace and `splice(index, 1)` |
| `directory.dfy` | `Directory` | `handleAddLocation`, `handleUpdateLocation` and `handleDeleteLocation` |
| `dedup.dfy` | `Dedup` | keep-the-first de-duplication under a key, with its reference definition |
| `sheet_import.dfy` | `SheetImport` | the header mapping and the row loop of `handleImportExcel` |
| `reconcile.dfy` | `Reconcile` | replace or merge of the imported records into the directory |
| `calendar.dfy` | `Calendar` | proleptic Gregorian dates, `getDay`, and `getMondaysInMonth`/`getThursdaysInMonth` |
| `schedule.dfy` | `Schedule` | `handleLocationChange`, `addEntry`, `removeEntry` and the default walks of a month |
| `layout.dfy` | `Layout` | the column geometry, row heights and vertical cursor of `generatePdf` |

Decisions worth knowing when reading the model:

- **Collation.** `localeCompare` with `sensitivity: 'base'`, `numeric: true` and `ignorePunctuation: true` is replaced by a concrete key, compared lexicographically:
  - whitespace and every ASCII character other than a letter or digit are dropped;
  - ASCII letters compare without case;
  - each run of digits compares as one number, and numbers come before letters.

  `Leq` is proved to be a total preorder. The sort is a stable insertion sort, matching `Array.prototype.sort`, which is stable.
- **Targets by index.** Update and delete find their target by object identity in the source. Here the target is an index. An index past the end stands for an object that is no longer in the list: update then only re-sorts, and delete changes nothing.
- **Cells.** A spreadsheet cell is one of three cases:
  - `Str(s)`, a string;
  - `Other(text)`, any other truthy value, together with the text its `toString()` gives;
  - `Missing`, an absent cell or a falsy value, which `|| ''` turns into "".

  A sheet with no row 0 is `Unreadable`, because reading the header row throws.
- **Mode.** The confirm dialog that chooses replace or merge becomes the `mode` parameter.
- **Text wrapping.** `splitTextToSize` enters the layout as the parameter `wrap`, giving the number of lines a text takes at a width. The row height starts from one line height and takes the maximum, as the source does, so a count of zero needs no special case.
- **Years 0 to 99.** `new Date(year, month - 1, 1)` reads these years as 1900 to 1999. `FullYear` models this quirk.

## Model

| member | source | states |
|---|---|---|
| Sorting.SortLocations | test_location_management.js:14-27 | sorting keeps the length of the list |
| Sorting.SortLocationsPermutes | src/App.js:67-75 | the sorted list is a permutation of the input: every record occurs as often as before |
| Sorting.SortLocationsSorted | src/App.js:67-75 | the sorted list is ordered by the collation comparator |
| Sorting.SortLocationsStable | src/App.js:67-75 | for every name, the records that compare equal to it appear in the same relative order as in the input |
| Sorting.SortIdempotent | src/App.js:67-75 | sorting a sorted directory again changes nothing |
| Sorting.SortOfSorted | src/App.js:67-75 | a list already ordered by the comparator is returned unchanged |
| Sorting.SortByPermutes | src/App.js:68 | the insertion sort is a permutation for any comparator |
| Sorting.SortSorted | src/App.js:68 | the insertion sort orders its result for any total preorder |
| Sorting.SortStable | src/App.js:68 | the insertion sort is stable for any total preorder |
| Sorting.CollationIsTotalPreorder | src/App.js:69-73 | the comparator is reflexive, total and transitive, which makes the sort well defined |
| Sorting.SortAfterAppend | src/App.js:174 | appending one record to a sorted directory and re-sorting places it after every entry not greater than it, with the other entries in their old order |
| Collation.LeqTotal | src/App.js:69-73 | any two names are comparable |
| Collation.LeqTransitive | src/App.js:69-73 | the comparator is transitive |
| Collation.EquivalentIffSameKey | src/App.js:69-73 | two names compare equal exactly when their collation keys are equal |
| Collation.CaseInsensitive | src/App.js:70 | `sensitivity: 'base'`: a name and its lower-case form compare equal |
| Collation.NumericAware | src/App.js:71 | `numeric: true`: "Location 2" sorts strictly before "Location 10" |
| Collation.IgnorableInsertion | src/App.js:72 | `ignorePunctuation: true`: inserting whitespace or an ASCII character other than a letter or digit, where it does not split a number, leaves the name equal under the comparator |
| Directory.AddLocation | src/App.js:168-184 | a name blank after trimming is refused; otherwise the directory gains exactly the candidate, untrimmed, and comes back sorted, one longer |
| Directory.UpdateLocation | src/App.js:191-210 | a blank name is refused; otherwise the target record is exchanged for the edited copy, nothing else changes, and the result is sorted and the same length |
| Directory.DeleteLocation | src/App.js:212-218 | once confirmed, exactly the target is removed and the rest keep their order; declining, or a target not in the list, changes nothing |
| Directory.AddKeepsDuplicates | src/App.js:174 | manual add does no duplicate check: adding a record already present leaves two copies |
| Directory.AddThenDeleteRestores | src/App.js:168-218 | adding a record to a sorted directory and deleting it at the position the add gave it returns the original directory |
| Directory.AddUpdateDeleteScenario | test_location_management.js:24-60 | sort, add, update the first entry, delete it: the count goes up by one and comes back, and the update touches only the first entry |
| Text.BlankIffAllWhitespace | src/App.js:169 | `!name.trim()` holds exactly when every character of the name is whitespace |
| Text.TrimSpec | src/App.js:281 | `trim` returns a slice of its input with no whitespace at either end |
| Text.TrimIdempotent | src/App.js:288-293 | trimming an already trimmed name changes nothing, so the stored trimmed name has the same key as the cell |
| Text.LowerTrimCommute | src/App.js:284-288 | lower-casing then trimming, as the banner check does, and trimming then lower-casing, as the key does, give the same text |
| SheetImport.HeaderRole | src/App.js:263-270 | a header cell is classified after lower-casing and trimming: "location", "street address"/"address", "town", any header containing both "meeting" and "notes", "comments", in that order of precedence; anything else is ignored |
| SheetImport.MapHeaderCorrect | src/App.js:261-270 | each field is mapped to the last header column with its role, and a field no header names stays unmapped |
| SheetImport.CandidateShape | src/App.js:276-296 | a row yields a record exactly when its name cell is a non-blank string whose lower-cased trimmed form is neither an "olli " banner nor "location"; the record's fields are the trimmed cells, and a field with no column is "" |
| SheetImport.ParseSheet | src/App.js:273-303 | the row loop with its seen-set returns the first record for each trimmed lower-case name, and refuses a sheet that yields none |
| SheetImport.ImportedProperties | src/App.js:273-297 | every imported record is clean, no two imported names share a key, and every key a data row offers is imported |
| SheetImport.NoNameColumnImportsNothing | src/App.js:263-281 | a header with no "location" column imports nothing |
| Dedup.FirstOccurrencesSelect | src/App.js:287-290 | the kept records are exactly the first record with each key, in row order |
| Dedup.FirstOccurrencesDistinct | src/App.js:287-290 | no two kept records share a key |
| Dedup.FirstOccurrencesKeys | src/App.js:287-290 | de-duplication drops no key: the kept keys are the offered keys |
| Reconcile.NewLocations | src/App.js:319-322 | a record is new exactly when it was imported and its key is not in the directory |
| Reconcile.NewLocationsFilters | src/App.js:319-322 | the new records are the import filtered by "key not in the directory": every such record, each as often as it was imported, in import order, and nothing else |
| Reconcile.Reconcile | src/App.js:299-327 | an empty import is refused and a non-empty one always succeeds; replace stores a permutation of the import; merge stores the directory plus the new records, reporting added = the new ones and added + skipped = the number imported |
| Reconcile.MergeInto | src/App.js:317-325 | the merge stores the old directory plus exactly the new records and counts added and skipped |
| Reconcile.ImportSheet | src/App.js:259-327 | an unreadable sheet or one with no valid rows is refused; a readable sheet's records are always reconciled, so the import succeeds exactly when the sheet is readable and yields a record |
| Reconcile.ReconcileSorted | src/App.js:327 | whichever mode is chosen, the stored directory is sorted |
| Reconcile.MergeKeyIsNameKey | src/App.js:288-321 | the merge key (lower-case then trim) and the import's de-duplication key (trim then lower-case) agree |
| Reconcile.NewLocationsDistinct | src/App.js:319-322 | filtering keeps keys distinct |
| Reconcile.MergedHoldsImport | src/App.js:317-327 | after a merge every imported key is present in the directory |
| Reconcile.MergeKeepsKeysDistinct | src/App.js:317-325 | when the directory and the import each have distinct keys, so does the merged list |
| Reconcile.MergeTwiceAddsNothing | src/App.js:317-327 | merging the same import twice adds nothing the second time and skips all of it |
| Reconcile.MergeScenario | src/App.js:317-327 | merging [B', C] into [A, B], where B' names B's place, stores A, B and C and reports one added and one skipped |
| Reconcile.ReplaceScenario | src/App.js:313-316 | replacing with one record stores just that record |
| Calendar.NextDayIsSuccessor | src/App.js:84 | `setDate(getDate() + 1)` moves to the day numbered one higher, across month and year ends and leap days |
| Calendar.NextWeekday | src/App.js:81-84 | the weekday advances by one, modulo 7, from each day to the next |
| Calendar.KnownWeekdays | src/App.js:81 | `getDay` agrees with the calendar on fixed dates: 1970-01-01 was a Thursday, 2000-03-01 a Wednesday, 2024-01-01 a Monday |
| Calendar.MatchingExactly | src/App.js:77-87 | the reference list holds, in ascending order, exactly the days of the month that fall on the weekday |
| Calendar.WeekdaysInMonth | src/App.js:77-99 | the day loop returns, in ascending order, exactly the days of the month on the target weekday, and nothing for a month outside 1..12 |
| Calendar.MondaysInMonth | src/App.js:77-87 | `getMondaysInMonth` returns exactly the month's Mondays in ascending order |
| Calendar.ThursdaysInMonth | src/App.js:89-99 | `getThursdaysInMonth` returns exactly the month's Thursdays in ascending order |
| Schedule.FindByName | src/App.js:123 | `find` returns the first record with exactly that name, or nothing when no record has it |
| Schedule.ChangeOccurrence | src/App.js:118-137 | the field is set; picking a known location copies its address, town, comments and meeting notes and keeps the date; otherwise only that field changes; other entries and the other list are untouched |
| Schedule.ChangeIdempotent | src/App.js:118-137 | making the same change twice is the same as making it once |
| Schedule.AddEntry | src/App.js:139-153 | one blank entry is appended to the chosen list, and the other list is untouched |
| Schedule.RemoveEntry | src/App.js:155-165 | exactly the entry at the index is removed and the others keep their order; an index past the end changes nothing |
| Schedule.AddThenRemoveRestores | src/App.js:139-165 | adding an entry then removing the last entry gives back the schedule |
| Schedule.DateLabelReadsBack | src/App.js:104 | the date label is "MM/DD/YY" and reads back to the date's month, day and two-digit year |
| Schedule.Regenerate | src/App.js:101-116 | a new month gets one blank walk, dated, for each of its Mondays in order, and no hikes |
| Layout.ColumnGeometry | src/App.js:355-364 | on a 792-point page the columns start at 40, 110, 245, 370 and 455, and the comments column ends 10 points inside the right margin |
| Layout.CommentsTextJoins | src/App.js:432-435 | the comments cell is the comments and the meeting notes, joined by one space only when both are present |
| Layout.TallestIsMaximum | src/App.js:410-440 | the running `Math.max` is at least its start and every cell, and equals one of them |
| Layout.RowHeightIsTallestCell | src/App.js:410-440 | a row is a whole number of lines tall, at least one line, at least each wrapped cell, and equal to one line or to one cell |
| Layout.LayoutRows | src/App.js:407-451 | each row starts at the cursor; between rows, and not after the last, a rule is drawn 5 points below the row and the next row starts 10 points below the rule; the table ends at its start plus its extent |
| Layout.LayoutTable | src/App.js:407-451 | the row loop over occurrences places the first row at the top, a rule 5 points below each row but the last and the next row 10 points below that rule, each row's height taken from its wrapped cells, and ends at the top plus the body height |
| Layout.RowsDescend | src/App.js:442-451 | consecutive rows start at least one line plus 15 points apart, and exactly the earlier row's height plus 15 apart |
| Layout.BodyHeightBounds | src/App.js:407-451 | a table of n rows spans at least 31n - 15 points, and exactly that when every row is one line |
| Layout.LayoutPage | src/App.js:347-527 | the walks heading sits at y = 127, each table is laid out row by row, as `LayoutTable` places it, from 36 points below its heading, 25 points separate the walks table from the hikes heading and the hikes table from the protocol line, and the protocol line sits at 249 plus the two table heights |

## Left out

- localStorage: loading at start-up (src/App.js:31-60) and saving after each change are I/O. Only the sort applied on load is modelled, as `Sorting.SortLocations`.
- Reading the file: `FileReader`, `XLSX.read`, the choice of sheet and `sheet_to_json` (src/App.js:240-257) are foreign libraries. The model starts from the row matrix they return.
- `localeCompare`: the locale's collation tables are foreign. The comparator is replaced by the simplified key described above. Non-ASCII punctuation, accents and other Unicode case mappings are not modelled, and `Text.Lower` lower-cases ASCII letters only. `Collation.IsIgnorable` also drops the ASCII symbols `$`, `+`, `<`, `=`, `>`, `^`, `|`, `~` and the backtick, although with ICU's punctuation-ignoring setting symbols still count; names that differ only in those symbols compare equal here.
- `splitTextToSize`: it measures glyphs, so the line count of a text at a width is the parameter `wrap`. Drawing, fonts, colours and `doc.save` are not modelled.
- Page size: the page height is read but never used, and the source does not paginate, so the model has no page-height bound.
- `toLocaleString` month names: the month title of the PDF and of the file name are locale-dependent display strings.
- `Schedule.DateLabel` takes the year modulo 100 with a non-negative remainder. For years before year 0, the locale's output is not modelled.
- Alerts and confirms: they become the `mode` and `confirmed` parameters and `Failure` results. The messages are not modelled.
- Reset to defaults (src/App.js:231-237): it only loads the bundled JSON and sorts it.
- Edit-session state: the edit form's state and `handleEditLocation`/`handleCancelEdit` are not modelled. The record being edited is named by its index.
- UI-only pieces: the hour and minute option lists, the start time text and all JSX are not modelled.
- Schedule.ChangeOccurrence: requires the index to be in range. With an index out of range the source reads `undefined` and throws, and that error path is not modelled.
- Schedule.ChangeOccurrence: the source shallow-copies the list and then writes the field into the shared entry object. The model produces a new entry and does not model that aliasing.
- Schedule.ChangeOccurrence: location fields that are absent in a stored record (`|| ''`) are not modelled. Every record here has all five string fields.
- Records: test_location_management.js:65-67 checks that a record has all five fields. That holds by construction of the `Location` datatype, so no member states it.
- `Other` cells: the text a non-string cell's `toString()` gives is part of the input, not computed.
