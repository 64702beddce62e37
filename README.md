# Todo list state machine, in Dafny

This project models the `Todos` component of a small single-page todo app
(`src/App.tsx`). The component keeps a list of `{ text, completed }` items and
the mode state around it: the status filter, the search text, the new-note
dialog and the row being edited. Its handlers add, delete, edit and toggle
items. The visible list is the backing list passed through a status filter
and then a case-insensitive substring search.

Files and modules:

- `text.dfy`, module `Text`: the three string operations the handlers use.
  `Trim` is `String.prototype.trim`. It strips the ECMAScript WhiteSpace and
  LineTerminator code points, found by scanning in from both ends.
  `Lower` is `toLowerCase`, restricted to ASCII (see Left out).
  `Includes` is `String.prototype.includes`.
- `sequences.dfy`, module `Sequences`: `Array.prototype.filter` (with and
  without the index argument) and `Array.prototype.map` with the index. It
  also defines order-preserving subsequences and the positions of kept
  elements. General lemmas about them live here.
- `todo_list.dfy`, module `TodoList`: the `Todo` datatype and the pure list
  transforms. Delete is a `filter` on the index. Toggle is a `map`. The
  visible list is two chained `filter`s. It also relates a row of the visible
  list to a position in the backing list.
- `todos_component.dfy`, module `TodosComponent`: class `Todos`. Its fields
  mirror the `useState` slots (`value`, `todos`, `newTodo`, `editIndex`,
  `editedTodo`, `searchQuery`, `isDialogOpen`). It has one method per handler.
  Each method's `modifies` clause names only the slots that handler sets.

Every handler that changes the list keeps `WellFormed`, meaning every stored
text is trimmed and not empty. This holds provided the list read at start-up
was already well formed.

Two behaviours of the code worth noting:

- Deleting an out-of-range index is not undefined. The `filter` keeps every
  item, so the list is unchanged.
- Malformed stored data is not turned into an empty list. `JSON.parse` at
  src/App.tsx:65 is unguarded and would throw.

## Model

| member | source | states |
|---|---|---|
| `Text.SkipLeading` | src/App.tsx:122 | the first non-whitespace position at or after `lo`; everything skipped is whitespace |
| `Text.SkipTrailing` | src/App.tsx:122 | the end of the last non-whitespace run, scanning back no further than `lo`; everything skipped is whitespace |
| `Text.Trim` | src/App.tsx:122-125 | `trim()` is empty exactly when the text is whitespace only; otherwise it neither starts nor ends with whitespace |
| `Text.SkipLeadingStopsAt` | src/App.tsx:122 | the leading scan stops at the first non-whitespace position and nowhere else |
| `Text.SkipTrailingStopsAt` | src/App.tsx:122 | the trailing scan stops just after the last non-whitespace character and nowhere else |
| `Text.TrimUnique` | src/App.tsx:125 | any split into whitespace, a middle with non-whitespace ends, and whitespace has that middle as its trimmed form |
| `Text.TrimIdempotent` | src/App.tsx:145 | trimming an already trimmed text changes nothing |
| `Text.LowerWithoutCapitals` | src/App.tsx:168 | a text with no capital letters is its own lower-case form |
| `Text.OccursShift` | src/App.tsx:168 | an occurrence one position in is an occurrence in the rest of the text |
| `Text.IncludesIff` | src/App.tsx:168 | `includes` holds exactly when the query occurs at some position of the text |
| `Text.Lower` | src/App.tsx:168 | definition of `toLowerCase` on ASCII; characterised by `Text.LowerWithoutCapitals` |
| `Text.Includes` | src/App.tsx:168 | `includes` never holds for a query longer than the text; characterised by `Text.IncludesIff` |
| `Sequences.Filter` | src/App.tsx:161-169 | `filter` returns no more elements than its input, each passing the test; characterised by `Sequences.FilterCounts` and `Sequences.FilterIsSubsequence` |
| `Sequences.FilterWithIndex` | src/App.tsx:133 | the index-aware `filter` returns no more elements than its input; characterised by `TodoList.RemoveAtSlices` |
| `Sequences.MapFrom` | src/App.tsx:155-157 | the index-aware `map`, visiting from the front: it keeps the length and puts `f(x, start + i)` at each offset `i` |
| `Sequences.MapWithIndex` | src/App.tsx:155-157 | definition of `map` with the index, as `MapFrom` starting at 0 |
| `Sequences.PositionsLength` | src/App.tsx:224 | there is one backing position per element `filter` keeps |
| `Sequences.PositionAt` | src/App.tsx:224 | the `k`-th kept element sits at `Positions[k]` of the input, which is at least `k` |
| `Sequences.PositionsAt` | src/App.tsx:224 | every entry of `Positions` locates its kept element in the input |
| `Sequences.PositionsIncreaseAt` | src/App.tsx:224 | a later entry of `Positions` is a later position of the input |
| `Sequences.PositionsIncreasing` | src/App.tsx:224 | the entries of `Positions` strictly increase |
| `Sequences.PositionsLocate` | src/App.tsx:161-169 | the `k`-th kept element sits at `Positions[k]` of the input; positions increase and none lies before its rank |
| `Sequences.FilterIsSubsequence` | src/App.tsx:161-169 | `filter` keeps the input's order |
| `Sequences.FilterCounts` | src/App.tsx:161-169 | `filter` keeps every copy of each passing element and no copy of a failing one |
| `Sequences.FilterMembers` | src/App.tsx:161-169 | an element is in the filtered list exactly when it is in the input and passes the test |
| `Sequences.FilterKeepsAll` | src/App.tsx:165 | a test that passes every element returns the input unchanged |
| `Sequences.FilterFilter` | src/App.tsx:161-169 | two chained filters equal one filter by the conjunction of the tests |
| `Sequences.FilterComplement` | src/App.tsx:163-164 | a test and its negation split the input's length between them |
| `Sequences.PositionsIdentityIff` | src/App.tsx:224 | every kept element sits at its own rank exactly when the filtered list is a prefix of the input |
| `TodoList.RemoveAt` | src/App.tsx:132-134 | definition of delete as the index filter; it never lengthens the list; characterised by `TodoList.RemoveAtSlices` |
| `TodoList.RemoveAtSlices` | src/App.tsx:132-134 | delete at an index in range drops that item and keeps the rest in order; an index out of range leaves the list unchanged |
| `TodoList.RemoveAtCounts` | src/App.tsx:132-134 | delete in range shortens the list by one and removes exactly one copy of the deleted item |
| `TodoList.ToggleAt` | src/App.tsx:153-159 | toggle flips only `completed` at the index and keeps its text, the length and every other item; an index out of range changes nothing |
| `TodoList.ToggleAtTwice` | src/App.tsx:153-159 | toggling the same index twice restores the list |
| `TodoList.AppendKeepsWellFormed` | src/App.tsx:121-126 | appending the trimmed text of a non-blank note keeps every stored text trimmed and not empty |
| `TodoList.RemoveAtKeepsWellFormed` | src/App.tsx:132-134 | delete keeps every stored text trimmed and not empty |
| `TodoList.ToggleAtKeepsWellFormed` | src/App.tsx:153-159 | toggle keeps every stored text trimmed and not empty |
| `TodoList.ReplaceTextKeepsWellFormed` | src/App.tsx:141-147 | replacing a text by a trimmed non-blank edit keeps every stored text trimmed and not empty |
| `TodoList.StatusShows` | src/App.tsx:162-166 | definition of the status test: `complete` shows completed items, `incomplete` open ones, any other value everything |
| `TodoList.SearchShows` | src/App.tsx:167-169 | definition of the search test: the lower-cased text includes the lower-cased query; characterised by `TodoList.SearchShowsMatches` |
| `TodoList.FilteredTodos` | src/App.tsx:161-169 | `filteredTodos` is no longer than the list and every item in it passes both tests; characterised by `TodoList.FilteredTodosExactly` |
| `TodoList.FilteredTodosOneFilter` | src/App.tsx:161-169 | the status filter followed by the search equals a single filter by both tests |
| `TodoList.FilteredTodosExactly` | src/App.tsx:161-169 | the visible list is an order-preserving subsequence holding every copy of each item that passes both tests and nothing else |
| `TodoList.EmptySearchShowsStatus` | src/App.tsx:167-169 | an empty search hides nothing, so the visible list is the status filter alone |
| `TodoList.CompleteShowsCompleted` | src/App.tsx:163 | under `complete` with no search: an order-preserving subsequence of completed items holding every completed item |
| `TodoList.IncompleteShowsIncomplete` | src/App.tsx:164 | under `incomplete` with no search: an order-preserving subsequence of open items holding every open item |
| `TodoList.CompleteIncompleteSplit` | src/App.tsx:163-164 | the `complete` and `incomplete` views together are as long as the list |
| `TodoList.OtherFilterShowsAll` | src/App.tsx:165 | any filter value other than `complete`/`incomplete`, with no search, shows the whole list |
| `TodoList.SearchShowsMatches` | src/App.tsx:167-169 | under an unrestricting filter, an item is shown exactly when its lower-cased text contains the lower-cased query at some position; order is kept |
| `TodoList.MissingFirstCharNotIncluded` | src/App.tsx:168 | a text without the query's first character does not include the query |
| `TodoList.SearchExample` | src/App.tsx:161-169 | `[Buy Milk, eat pizza (done)]` searched for `PIZ` under `all` shows only the pizza item |
| `TodoList.ShownIndex` | src/App.tsx:224 | the backing position of the item shown at a row holds that item and is at least the row number |
| `TodoList.ShownIndexIncreasing` | src/App.tsx:224 | later rows show items from later backing positions |
| `TodoList.RowsAreIndexesIff` | src/App.tsx:224-262 | row numbers equal backing positions for every row exactly when the visible list is a prefix of the backing list |
| `TodoList.WholeViewRowsAreIndexes` | src/App.tsx:224-262 | when nothing is filtered out, every row number is the item's backing position |
| `TodoList.RowDeleteRemovesHiddenItem` | src/App.tsx:252 | deleting row 0 of an `incomplete` view applies index 0 to the backing list and removes a hidden item |
| `TodoList.RowToggleFlipsHiddenItem` | src/App.tsx:262 | toggling row 0 of an `incomplete` view flips a hidden item and leaves the shown one open |
| `TodoList.RemoveShown` | src/App.tsx:252 | deleting by row removes exactly one copy of the item shown in that row and keeps the rest in order |
| `TodoList.ToggleShown` | src/App.tsx:262 | toggling by row flips exactly the item shown in that row |
| `TodosComponent.Todos.constructor` | src/App.tsx:98-104 | the initial state: filter `all`, the stored list, empty texts, no edit, dialog closed |
| `TodosComponent.Todos.Shown` | src/App.tsx:161-169 | definition: the component's `filteredTodos`, the view of its current slots |
| `TodosComponent.Todos.HandleChange` | src/App.tsx:117-119 | the filter select sets `value` and nothing else |
| `TodosComponent.Todos.SetSearchQuery` | src/App.tsx:202 | the search field sets `searchQuery` and nothing else |
| `TodosComponent.Todos.SetNewTodo` | src/App.tsx:297 | the dialog field sets `newTodo` and nothing else |
| `TodosComponent.Todos.SetEditedTodo` | src/App.tsx:268 | the edit field sets `editedTodo` and nothing else |
| `TodosComponent.Todos.SetDialogOpen` | src/App.tsx:286-306 | the add button opens the dialog and close/cancel close it; nothing else changes |
| `TodosComponent.Todos.HandleAddTodo` | src/App.tsx:121-130 | a non-blank note appends `{trim(note), false}` after the unchanged items, clears `newTodo` and closes the dialog; a blank note changes nothing; well-formedness is kept |
| `TodosComponent.Todos.HandleDeleteTodo` | src/App.tsx:132-134 | an in-range backing index removes that item, keeping the rest in order; any other index changes nothing; only `todos` changes |
| `TodosComponent.Todos.HandleEditTodo` | src/App.tsx:136-139 | sets `editIndex` to the index and `editedTodo` to that item's text; the list is untouched |
| `TodosComponent.Todos.HandleSaveEdit` | src/App.tsx:141-151 | while editing with non-blank text: only the edited item's text changes, to the trimmed text, keeping its flag; then edit mode ends. Otherwise nothing changes |
| `TodosComponent.Todos.HandleToggleComplete` | src/App.tsx:153-159 | flips only `completed` at an in-range backing index; any other index changes nothing; only `todos` changes |
| `TodosComponent.Todos.HandleDeleteShownTodo` | src/App.tsx:252 | corrected delete: removes exactly one copy of the item shown in the clicked row |
| `TodosComponent.Todos.HandleToggleShownTodo` | src/App.tsx:262 | corrected toggle: flips exactly the item shown in the clicked row |
| `TodosComponent.TaskNamesTrimmed` | src/App.tsx:125 | `Task A` and `Task B` are their own trimmed forms |
| `TodosComponent.AddToggleFilterScenario` | src/App.tsx:121-169 | start empty, add `Task A` and `Task B`, toggle index 0, choose `complete`: the view is `[Task A (done)]` and the list is `[Task A (done), Task B]` |

## Findings

| source | as written | input that shows it | evidently intended | confidence | as-written member | corrected member |
|---|---|---|---|---|---|---|
| src/App.tsx:252 | the delete button passes its row number in `filteredTodos` to `handleDeleteTodo`, which removes that position of `todos` | `todos = [{a, done}, {b, open}]`, filter `incomplete`; delete the only row, which shows `b` | remove the item shown in the clicked row | high; not executed | `TodoList.RowDeleteRemovesHiddenItem` | `TodoList.RemoveShown` |
| src/App.tsx:262 | the checkbox passes its row number in `filteredTodos` to `handleToggleComplete`, which flips that position of `todos` | the same list and filter; tick the only row, which shows `b` | flip the item shown in the clicked row | high; not executed | `TodoList.RowToggleFlipsHiddenItem` | `TodoList.ToggleShown` |

The class uses the corrected definitions in `HandleDeleteShownTodo` and
`HandleToggleShownTodo`. `HandleDeleteTodo` and `HandleToggleComplete` keep
the behaviour as written, taking a backing-list index. `RowsAreIndexesIff`
says when the two agree: exactly when the visible list is a prefix of the
backing list. The most common such case is when nothing is filtered out.

## Left out

- Persistence: `loadFromLocalStorage`, `saveToLocalStorage` and the effect that writes after every change (src/App.tsx:63-70, 107-109) are browser I/O and `JSON` calls. The constructor takes the list read at start-up as a parameter.
- Products page, home page, routing, the colour-mode toggle and the early `return null` while the mode is unknown (src/App.tsx:86-94, 171-173, 212-218, 316-359): UI wiring and a network fetch with no list logic.
- Rendering: the JSX is not modelled. Only the row numbers it passes to the handlers are (lines 224, 245, 252, 262).
- Text.Lower: `toLowerCase` is modelled for ASCII only. `A`-`Z` map to `a`-`z` and every other character is unchanged, so non-ASCII case folding is not captured.
- Text.Trim: strings are sequences of Unicode scalar values rather than UTF-16 code units. Every whitespace code point `trim` strips is in the Basic Multilingual Plane, so this does not change the result.
- TodosComponent.Todos.HandleEditTodo: an index outside the list makes the source throw when it reads `.text` (src/App.tsx:138). The model requires an in-range index instead of modelling the exception.
- TodosComponent.Todos.HandleSaveEdit: an `editIndex` outside the list makes the source throw on assignment (src/App.tsx:145). The model requires it to be in range whenever the save branch is taken.
- Aliasing in `handleSaveEdit`: `[...prevTodos]` is a shallow copy, so the assignment also mutates the item object the previous state shares (src/App.tsx:144-145). The model uses value semantics and states only the new list's contents.
- Edit by row: `handleEditTodo` also receives a row number (src/App.tsx:245), and the render compares `editIndex` with row numbers (src/App.tsx:232, 264). Only the handler is modelled, as written. No corrected edit is given because its fix would need the render.
- Delete while editing does not adjust `editIndex`, so it can then name a different item or fall off the end. The model keeps this as written: `HandleDeleteTodo` leaves `editIndex` alone.
- React's batching of state updates: each handler is modelled as running to completion on the current state, which is what the updater functions compute.
