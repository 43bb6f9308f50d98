# Person directory: a Dafny model of its state and handlers

The directory app keeps an in-memory list of person records (id, name, age,
email, phone) in its `App` component. Event handlers add, edit, delete and
search the records. They also sort the list and move records between four
age columns by drag and drop. Each column (`AgeGroup`) shows the displayed
records whose age lies in its range `"lower-upper"`: 1-18, 19-24, 25-45 or
46-100.

This project models that core in Dafny:

- `app.dfy` (module `AppState`): the class `App`, whose fields are the
  component's state and whose methods are its handlers. Beside it are the
  pure functions that say what each handler makes of the list: delete, edit,
  add and drop. The lemmas about them are here too.
- `view.dfy` (module `View`): the search term normalisation and the search
  filter. Also the sort selector's parsing, the comparator's order, and the
  sort itself, an in-place sort of a copied array.
- `age_group.dfy` (module `AgeGroup`): the column filter, the parsing of its
  range string, and the partition of the list by the four columns.
- `strings.dfy` and `arrays.dfy`: the JavaScript built-ins the code relies
  on. These are `trim`, `toLowerCase`, `includes`, `split`, `Number`,
  `parseInt`, `toString` and string comparison, then `filter`, `findIndex`,
  `find` and `splice`.
- `people.dfy`, `optional.dfy`: the record types, the initial data, and an
  option type for `null`, `undefined` and `NaN`.

The model follows the code where it departs from the app's intended design:

- Ids are not unique. A new record's id is the list length plus one, which
  can repeat an existing id after a delete (`AddAfterDeleteRepeatsId`).
- Dropping a record on the column it is already in removes it from the list.
  `handleDrop` always splices it out and puts it back only when the clamped
  age differs (`DropSpec`, `DropOnColumnSpec`).
- When no record has the dragged id, `findIndex` gives -1 and `splice(-1, 1)`
  removes the last record. The model keeps this case, with no precondition on
  the id (`DraggedIndex`).
- With an empty list, `handleDrop` throws before it sets any state. The model
  leaves the state unchanged.
- The sort is not stable. The comparator never returns 0, so the model does
  not fix the order of equal keys.
- Editing an id that no record has leaves the list unchanged. Nothing signals
  an error.
- Dragging and editing share `editingPersonId`. A drag that ends outside a
  column leaves it set, so the next submitted form edits that record instead
  of adding one.
- Each column passes its drop event where `handleDrop` expects an index.
  `splice` reads that as 0, so `DropOnColumn` always inserts at the front.
- `if (editingPersonId)` is JavaScript truthiness, so an empty id counts as
  "not editing".

## Model

| member | source | states |
|---|---|---|
| `AppState.App.constructor` | src/App.js:10-22 | the state starts with the two initial records, the modal closed, no record being edited, an empty search term, no sort option and the ascending direction |
| `AppState.App.HandleSearch` | src/App.js:24-26 | the stored term is the input trimmed and lower-cased; nothing else changes |
| `View.NormalizeSearchSpec` | src/App.js:24-26 | the stored term has no upper-case letter and no surrounding blanks, is no longer than the input, and normalising it again changes nothing |
| `AppState.App.HandleSort` | src/App.js:28-38 | a value outside the four valid ones leaves the sort key and direction unchanged; a valid value sets both so that key name, `-` and direction name spell the value |
| `View.SortChoice` | src/App.js:28-38 | a value is accepted exactly when it is one of "name-asc", "name-desc", "age-asc", "age-desc", and the chosen key and direction written around a `-` give back the value |
| `View.SplitSortOption` | src/App.js:35 | each valid value splits at its `-` into exactly a key name and a direction name |
| `AppState.App.HandleDelete` | src/App.js:40-43 | the list becomes the list without the records that have the id |
| `AppState.DeleteSpec` | src/App.js:40-43 | deletion (`DeleteRecords`) keeps exactly the records with another id, in their original order, and shortens the list by the number of records with the id; a later lookup of the id finds nothing; an absent id leaves the list unchanged |
| `AppState.App.HandleEdit` | src/App.js:45-50 | the id becomes the record being edited and the modal opens |
| `AppState.App.HandleDrag` | src/App.js:52-54 | the id becomes the record being dragged, in the same field editing uses |
| `AppState.App.HandleDrop` | src/App.js:56-72 | an empty list leaves the state unchanged (the handler throws); otherwise the list becomes the drop result, nothing is dragged or edited any more, and the modal is closed |
| `AppState.DraggedIndex` | src/App.js:57-59 | the record spliced out is the first with the dragged id, or the last record when none has it; it is past the end only for an empty list |
| `AppState.Clamp` | src/App.js:61 | for lo <= hi the new age lies in [lo, hi], and it equals the old age exactly when the old age is already in [lo, hi]; an age below the range becomes lo, and one above it becomes hi |
| `AppState.DropSpec` | src/App.js:56-72 | for the drop result (`DropRecords`): when the age changes, the record moves to the clamped index with the clamped age, the length stays, and the other records keep their order; when it does not, the record is removed and the list is one shorter |
| `AppState.ColumnDropBounds` | src/App.js:60-61 | `parseInt` (`ParseIntValue`, as read by `DropBounds`) on the parts of each column's range string gives that column's bounds, the same ones the column's filter reads |
| `AppState.App.DropOnColumn` | src/AgeGroup.js:13 | a drop on column i calls the drop handler with index 0 and that column's own range |
| `AppState.DropOnColumnSpec` | src/AgeGroup.js:13 | a record dropped on a column it is not in lands at the front of the list inside that column, its age set to the column's lower bound if it was younger and to the upper bound if it was older; one dropped on its own column leaves the list, which gets one shorter |
| `AppState.App.ShowModal` | src/App.js:75-77 | the modal opens; nothing else changes |
| `AppState.App.HandleOk` | src/App.js:79-98 | failed validation changes nothing; when a record is being edited, the list becomes the edit result, nothing is edited any more, and the modal closes; otherwise one record is appended and the modal closes |
| `AppState.EditSpec` | src/App.js:81-86 | an edit (`EditRecords`) keeps the length, every id and every record with another id; records with the id take all form fields; a lookup of the id gives the first such record with the form applied; an absent id leaves the list unchanged; the edit is idempotent and deleting the id afterwards equals deleting it before |
| `AppState.AddSpec` | src/App.js:87-93 | adding (`AddRecords`) appends exactly one record with the form fields and the id "old length + 1", and keeps every earlier record; a lookup of the new id gives the new record if the id was free and the older record if it was not |
| `AppState.AddAfterDeleteRepeatsId` | src/App.js:90 | after deleting record "1" from the initial data, an added record gets id "2", which the remaining record already has |
| `AppState.App.HandleCancel` | src/App.js:100-104 | the modal closes and nothing is edited or dragged any more |
| `AppState.App.GetSortedData` | src/App.js:106-123 | with no sort option the result is the list itself; otherwise it is a permutation of the list, ordered non-decreasing (ascending) or non-increasing (descending) by the chosen key |
| `View.SortInPlace` | src/App.js:111-120 | the array sort (an insertion sort standing in for `Array.prototype.sort`) leaves the array ordered by the comparator and holding the same records as before |
| `View.SortedCopy` | src/App.js:111-120 | sorting a copy gives a permutation of the input, ordered by the comparator |
| `View.SortedMeaning` | src/App.js:115-119 | in a sorted list, earlier ages are at most (ascending) or at least (descending) later ones, and names compare the same way |
| `View.NotAfterTransitive` | src/App.js:115-119 | "not after" under the comparator is transitive for both keys and both directions |
| `View.AfterAsymmetric` | src/App.js:115-119 | the comparator never puts two records each after the other |
| `AppState.App.FilteredData` | src/App.js:125-127 | the displayed list holds exactly the search results, each as often as in the list: in list order with no sort option, sorted otherwise |
| `View.SearchFilterSpec` | src/App.js:125-127 | the search keeps exactly the records whose lower-cased name contains the term, in their original relative order; the empty term keeps everything; searching twice is searching once |
| `AppState.App.Columns` | src/App.js:170-203 | the four columns are the age-range filters of the displayed list, each an order-preserving subsequence of it; with no sort option each column is the range filter of the search result in list order; together they hold every displayed record with an age in [1, 100] exactly as often as the displayed list, each only records within its bounds that match the search, each sorted when the list is |
| `AgeGroup.MembersSpec` | src/AgeGroup.js:16-21 | a column (`Members`) keeps exactly the records whose age lies between the two bounds of its range string as `Bounds` reads them with `Number` (`NumberValue`), as an order-preserving subsequence; an unreadable range keeps nothing |
| `AgeGroup.BoundsOfDecimals` | src/AgeGroup.js:18 | a range written as two decimal numbers around `-` reads back as those two numbers |
| `AgeGroup.ColumnBounds` | src/App.js:173-197 | the four range strings read as the bounds (1, 18), (19, 24), (25, 45) and (46, 100) |
| `AgeGroup.InColumn` | src/AgeGroup.js:17-21 | a record is in column i exactly when it is in the list and its age is within column i's bounds |
| `AgeGroup.Partition` | src/AgeGroup.js:17-21 | a record with an age in [1, 100] is in exactly one of the four columns; a record with any other age is in none |
| `AgeGroup.ColumnOf` | src/App.js:173-197 | every age in [1, 100] is within the bounds of one column and no other |
| `AgeGroup.PartitionCounts` | src/AgeGroup.js:16-21 | counting duplicates, the four columns together equal the records of the list with an age in [1, 100] |
| `Strings.TrimSlice` | src/App.js:25 | `trim` (`Trim`) keeps a contiguous slice of its input, drops only whitespace around it, and leaves no whitespace at either end |
| `Strings.TrimIdempotent` | src/App.js:25 | trimming twice is trimming once |
| `Strings.ToLower` | src/App.js:25 | lower-casing keeps the length, leaves no upper-case letter, maps A to Z onto a to z and keeps every other character |
| `Strings.Includes` | src/App.js:126 | `includes` holds exactly when the term occurs at some position of the string |
| `Strings.Split` | src/AgeGroup.js:18 | `split` gives at least one part and no part contains the separator |
| `Strings.JoinSplit` | src/App.js:60 | joining the parts of a split with the separator restores the string |
| `Strings.SplitPair` | src/App.js:35 | a string made of two separator-free parts around the separator splits into exactly those two parts |
| `Strings.DecimalString` | src/App.js:90 | a number's decimal string is a non-empty run of digits with no leading zero unless the number is 0 |
| `Strings.DecimalRoundTrip` | src/App.js:90 | reading back a number's decimal string gives the number |
| `Strings.DecimalStringInjective` | src/App.js:90 | distinct list lengths give distinct new ids |
| `Strings.ReadDecimal` | src/AgeGroup.js:18 | `Number` and `parseInt` both read a number's decimal string as that number |
| `Strings.StrLessIrreflexive` | src/App.js:116 | no name is less than itself under string `<` (`StrLess`) |
| `Strings.StrLessTotal` | src/App.js:116 | any two different names compare one way or the other |
| `Strings.StrLessTransitive` | src/App.js:116 | string `<` is transitive |
| `Strings.StrLessAsymmetric` | src/App.js:118 | no two names are each less than the other |
| `Arrays.Filter` | src/App.js:41 | `filter` keeps exactly the elements that pass the test and never lengthens the array |
| `Arrays.FilterIsSubsequence` | src/AgeGroup.js:16-21 | `filter` keeps its survivors in their original relative order |
| `Arrays.FilterCount` | src/App.js:125-127 | `filter` keeps every copy of a passing element and no copy of a failing one |
| `Arrays.FindIndex` | src/App.js:57 | `findIndex` gives the first passing position, or -1 when none passes |
| `Arrays.Find` | src/App.js:46 | `find` gives the first element that passes, or `undefined` when none does |
| `Arrays.SpliceStart` | src/App.js:59 | `splice` counts a negative start from the end and clamps the start into the array |
| `Arrays.RemoveAt` | src/App.js:59 | removing position k shifts the later elements down and takes one copy of that element out |
| `Arrays.InsertAt` | src/App.js:65 | inserting at k puts the element there, shifts the later elements up and adds one copy of it |
| `Arrays.SpliceRoundTrip` | src/App.js:59-65 | removing what was just inserted restores the array, and so does re-inserting what was just removed |

## Left out

- Rendering: the JSX, the layout and the styling, and the antd `Modal`,
  `Form`, `Input`, `Search` and `Select` components.
- Form internals. `validateFields` becomes `HandleOk`'s `valid` flag and the
  values it resolves with become its `values` parameter. `setFieldsValue` and
  `resetFields` are not modelled.
- The form prefill in `handleEdit`. Its `find` result only goes to the form,
  so the handler models the id and the modal only.
- Ages are integers throughout. The app's form hands ages over as strings.
  For such a record, `newAge !== draggedItem.age` in `handleDrop` is always
  true, so a drop re-inserts it instead of removing it. The age sort would
  also compare those ages as strings.
- `toLowerCase` is modelled on the letters A to Z only. Other characters
  whose case JavaScript also maps are left unchanged.
- String `<` is modelled on Unicode scalar values. JavaScript compares UTF-16
  code units, which orders some characters outside the Basic Multilingual
  Plane differently.
- `Number` and `parseInt` are modelled on decimal digits with blanks around
  them. Signs, decimal points, exponents, hexadecimal and `Infinity` are left
  out. None of these occurs in the app's range strings.
- AppState.App.HandleDrop: requires a range string whose two parts `parseInt`
  can read. With one it cannot, the JavaScript stores a `NaN` age, which an
  integer age cannot hold. The four columns always pass readable ranges.
- AppState.App.GetSortedData: does not fix the order of records with equal
  keys. The comparator never returns 0, so the engine's sort algorithm
  decides that order. `SortInPlace` is an insertion sort that yields one of
  the allowed orders.
- `handleDrop` assigns the new age to the dragged record object, which the
  previous list shares. The model copies the record with the new age. The
  previous list is discarded, so the difference is not observable.
- React's batching of state updates: each handler is one atomic update.
- `console.error` in `handleSort`, `preventDefault` in `handleDragOver`, and
  the unused `react-dnd` import are left out.
- src/PersonCard.js is not part of this model. It only renders the fields and
  passes the record's id to the edit, delete and drag handlers.
