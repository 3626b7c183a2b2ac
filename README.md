# Todo list widget: a Dafny model

The widget is a single React component (`App`) that keeps a list of todo
items in the browser's local storage. Each item has an id, a text, a
`completed` flag, a creation time and a priority (low, medium or high). The
user can add items, toggle them, delete them, edit their text, complete or
reopen all of them at once, and clear the completed ones. The list on screen
is derived from the stored list. It is filtered by a tab (all, active,
completed) and by a case-insensitive search, then sorted: open items first,
newest first within each group.

The model has five modules:

- `Text` (`text.dfy`): JavaScript's `trim` (the exact set of white-space and
  line-terminator code points), `toLowerCase` on ASCII letters, and
  `includes`.
- `Todos` (`todos.dfy`): the `Item`, `Priority` and `Filter` types. It also
  holds the list transformations the handlers use and the two counters.
  The handlers build new lists with `map` and `filter`, so these are pure
  functions, and the lemmas about them sit beside them.
- `View` (`view.dfy`): the comparator, a stable sort, and `visibleTodos`.
- `Store` (`store.dfy`): loading the list from storage, with its fallbacks,
  and saving it.
- `App` (`app.dfy`): the component's state. Each `useState` slot is a field of
  class `TodoApp`. Each event handler is a method that sets exactly the
  slots the handler sets (`modifies this\`field`). Each method's contract
  gives the new state in terms of the old one and the list functions above.

`crypto.randomUUID()` and `Date.now()` become the parameters `id` and `now`
of `AddTodo`. `AddTodo` requires `id` to be fresh, which stands for the
uniqueness of a random UUID. `JSON.parse` and `JSON.stringify` are passed to
`Load` and `Save` as functions.

The model follows the code in these easily misread places:

- `saveEdit` with text that trims to nothing returns without touching
  anything, so the edit stays open (`App.tsx:89`).
- `startEdit` receives the item itself and does not check that it is still
  in the list (`App.tsx:81-84`).
- `if (!editingId)` also treats an empty-string id as "no edit"
  (`App.tsx:87`), so `SaveEdit` does nothing for `Some("")`.
- `if (!raw)` treats an empty stored string like a missing one
  (`App.tsx:21`).

## Model

| member | source | states |
|---|---|---|
| Text.Trim | todo-app/src/App.tsx:57 | the trimmed string has no white space at either end; it is a slice of the input with only white space around it; it is empty exactly when the input is all white space |
| Text.TrimOfPadded | todo-app/src/App.tsx:57 | the converse: trimming white space wrapped around a string with non-white ends gives back that string |
| Text.TrimIdempotent | todo-app/src/App.tsx:88 | trimming a trimmed text changes nothing, so stored texts stay trimmed |
| Text.Lower | todo-app/src/App.tsx:51 | lower-casing keeps the length and maps each character by itself (ASCII capitals to small letters) |
| Text.Contains | todo-app/src/App.tsx:51 | `includes` holds exactly when the needle occurs at some index of the haystack |
| Text.EmptyIsContained | todo-app/src/App.tsx:51 | every text includes the empty string |
| Todos.Map | todo-app/src/App.tsx:74 | `map` keeps the length and applies the function at every index |
| Todos.Keep | todo-app/src/App.tsx:78 | `filter` keeps an item exactly when it is in the input and passes the test, and never grows the list |
| Todos.KeepMultiset | todo-app/src/App.tsx:78 | `filter` keeps every copy of a passing item and no copy of any other |
| Todos.KeepConcat | todo-app/src/App.tsx:78 | filtering a concatenation is the concatenation of the filtered parts, so kept items stay in order |
| Todos.KeepAll | todo-app/src/App.tsx:78 | filtering returns the list unchanged exactly when every item passes |
| Todos.KeepIdempotent | todo-app/src/App.tsx:102 | filtering twice by the same test equals filtering once |
| Todos.Toggle | todo-app/src/App.tsx:73-75 | `toggleTodo` keeps length and order, flips `completed` on exactly the items with the given id, and leaves every other field alone |
| Todos.ToggleTwice | todo-app/src/App.tsx:73-75 | toggling the same id twice gives back the original list |
| Todos.Delete | todo-app/src/App.tsx:77-79 | `deleteTodo` keeps every copy of each item with another id and none with this id; an unknown id leaves the list unchanged |
| Todos.DeleteKeepsOrder | todo-app/src/App.tsx:77-79 | deleting distributes over concatenation, so the remaining items keep their order |
| Todos.Rename | todo-app/src/App.tsx:91 | the edit's `map` gives the new text to exactly the items with the edited id and keeps everything else |
| Todos.AnyActive | todo-app/src/App.tsx:97 | `some(!completed)` says whether some item is still open |
| Todos.ToggleAll | todo-app/src/App.tsx:96-99 | `toggleAll` keeps length, order, ids, texts, priorities and creation times; if any item was open every item ends completed, otherwise every item ends open |
| Todos.ToggleAllTwice | todo-app/src/App.tsx:96-99 | two `toggleAll` calls give back the list exactly when all items started with the same flag |
| Todos.ClearCompleted | todo-app/src/App.tsx:101-103 | `clearCompleted` keeps every copy of each open item and no completed item |
| Todos.ClearCompletedKeepsOrder | todo-app/src/App.tsx:101-103 | clearing distributes over concatenation, so the open items keep their order |
| Todos.ClearCompletedCounts | todo-app/src/App.tsx:41-42 | after clearing, the completed count is 0 and the remaining count is unchanged |
| Todos.Remaining | todo-app/src/App.tsx:41 | `remaining` never exceeds the list's length |
| Todos.CompletedCount | todo-app/src/App.tsx:41-42 | `completedCount`, computed as the total minus `remaining`, is the number of completed items |
| Todos.CountsPartition | todo-app/src/App.tsx:41 | the open items and the completed items together make up the whole list |
| Todos.KeepWellFormed | todo-app/src/App.tsx:77-79 | filtering keeps ids unique and texts trimmed and non-empty |
| Todos.KeepUniqueIds | todo-app/src/App.tsx:102 | a filtered list of items with unique ids still has unique ids |
| Todos.PrependWellFormed | todo-app/src/App.tsx:60-68 | putting an item with a fresh id and a trimmed non-empty text in front keeps ids unique and texts clean |
| Todos.ToggleWellFormed | todo-app/src/App.tsx:74 | toggling keeps ids unique and texts clean |
| Todos.ToggleAllWellFormed | todo-app/src/App.tsx:98 | `toggleAll` keeps ids unique and texts clean |
| Todos.RenameWellFormed | todo-app/src/App.tsx:91 | giving items a trimmed non-empty text keeps ids unique and texts clean |
| Todos.KeepSwap | todo-app/src/App.tsx:52 | two neighbours of which at most one passes a test can swap without changing the filtered list |
| View.Compare | todo-app/src/App.tsx:52 | an open item sorts before a completed one; between two items in the same state the newer sorts first, and only equal creation times tie |
| View.CompareConsistent | todo-app/src/App.tsx:52 | the comparator is antisymmetric and "sorts no later than" is transitive, so `sort` has a defined result |
| View.Insert | todo-app/src/App.tsx:52 | inserting adds exactly one copy of the item and changes nothing else in the multiset |
| View.InsertSorted | todo-app/src/App.tsx:52 | inserting into a sorted list gives a sorted list |
| View.Sort | todo-app/src/App.tsx:52 | `sort` returns a permutation of its input in which each item sorts no later than every item after it |
| View.InsertStable | todo-app/src/App.tsx:52 | insertion keeps tied items in the order they came in |
| View.SortStable | todo-app/src/App.tsx:52 | items that the comparator ties keep their input order |
| View.InTab | todo-app/src/App.tsx:46-50 | the `all` tab passes every item; `active` and `completed` pass exactly the items in the state they name |
| View.Matches | todo-app/src/App.tsx:51 | an item matches exactly when the trimmed, lower-cased query occurs somewhere in its lower-cased text |
| View.Visible | todo-app/src/App.tsx:44-53 | `visibleTodos` is sorted and holds every copy of each item that passes the tab and the search, and nothing else |
| View.VisibleTabs | todo-app/src/App.tsx:46-50 | `active` shows only open items, `completed` only completed items, and every item passing the tab and the search is shown |
| View.BlankQueryShowsTab | todo-app/src/App.tsx:51 | an empty or all-white-space search hides nothing: the view is a permutation of the tab's items |
| View.VisibleOrder | todo-app/src/App.tsx:52 | in the view no completed item comes before an open one, and within each group creation times do not increase |
| Store.Load | todo-app/src/App.tsx:16-28 | the list is read from the one key `modern-todolist-v1` (`Store.StorageKey`); a missing or empty entry, text that fails to parse and a parsed non-array all give `[]`; a parsed array is returned as it is |
| Store.Save | todo-app/src/App.tsx:37-39 | saving writes the serialised list under the storage key and leaves every other key alone |
| Store.LoadAfterSave | todo-app/src/App.tsx:19-39 | if the serialiser's output is non-empty and parses back to the same array, loading after saving returns the saved list |
| App.IsSet | todo-app/src/App.tsx:87 | an edit is open exactly when `editingId` is neither `null` nor the empty string, the two falsy values it can hold |
| App.TodoApp.VisibleTodos | todo-app/src/App.tsx:44-53 | the view of the current state is sorted and holds exactly the listed items that pass the selected tab and the search text |
| App.TodoApp.constructor | todo-app/src/App.tsx:19-35 | the list is loaded from storage; draft, search and edit text are empty, the priority is medium, the tab is `all`, no edit is open |
| App.TodoApp.AddTodo | todo-app/src/App.tsx:55-71 | a draft that trims to nothing changes nothing; otherwise the list becomes the new open item with the trimmed text and the chosen priority followed by the old list, the draft is cleared and the priority reset to medium; unique ids and clean texts are kept |
| App.TodoApp.ToggleTodo | todo-app/src/App.tsx:73-75 | the list becomes `Toggle` of the old list; the invariants are kept; no other slot changes |
| App.TodoApp.DeleteTodo | todo-app/src/App.tsx:77-79 | the list becomes `Delete` of the old list; the invariants are kept; no other slot changes |
| App.TodoApp.StartEdit | todo-app/src/App.tsx:81-84 | the edit slots hold the item's id and text, replacing any edit in progress; the list is untouched |
| App.TodoApp.SaveEdit | todo-app/src/App.tsx:86-94 | with no edit open (null or empty id), or text that trims to nothing, nothing changes and the edit stays open; otherwise matching items get the trimmed text and the edit closes |
| App.TodoApp.CancelEdit | todo-app/src/App.tsx:181-184 | Escape clears both edit slots and touches no item |
| App.TodoApp.ToggleAll | todo-app/src/App.tsx:96-99 | the list becomes `ToggleAll` of the old list, decided on the current list; the invariants are kept |
| App.TodoApp.ClearCompleted | todo-app/src/App.tsx:101-103 | the list keeps only its open items; afterwards the completed count is 0 and the remaining count is unchanged |
| App.TodoApp.SetDraft | todo-app/src/App.tsx:116 | typing in the add box sets only the draft |
| App.TodoApp.SetPriority | todo-app/src/App.tsx:121 | the priority selector sets only the priority |
| App.TodoApp.SetSearch | todo-app/src/App.tsx:134 | typing in the search box sets only the search text |
| App.TodoApp.SetFilter | todo-app/src/App.tsx:145 | a tab button sets only the filter |
| App.TodoApp.SetEditingText | todo-app/src/App.tsx:177 | typing in the edit box sets only the edit text |

## Left out

- Rendering, CSS and DOM event wiring (`App.tsx:105-211`) are presentation. The handlers are methods called directly. The `disabled` guards on the two bulk buttons (`:154`, `:157`) only stop presses in the browser. The handler methods carry no such guard because the handler code has none.
- React's hook machinery is left out: batching of `useState` updates, the `prev =>` updater form, `useMemo` caching and `useEffect` scheduling. Every handler runs to completion before the next, so `prev` and the current `todos` are the same list. For `toggleAll` this means the decision taken on `todos` applies to the list being mapped.
- The write effect (`:37-39`) is modelled as `Store.Save`, but the class does not call it. The effect writes the whole list whenever `todos` changes, so a `TodoApp`'s `todos` is what storage holds after each handler.
- `localStorage`, `JSON.parse` and `JSON.stringify` are foreign library calls. The storage is a map; parsing and serialising are function parameters. The cast `as TodoItem[]` checks nothing, so the elements of a parsed array may be any JSON values. `Store.Parsed` can only hold a sequence of well-typed items, so malformed records inside a stored array are not represented.
- App.TodoApp.AddTodo: the id returned by `crypto.randomUUID()` appears as a parameter required to differ from every stored id. `Date.now()` appears as the parameter `now`.
- Text.Lower: only ASCII capitals are lower-cased. Unicode case mapping is not modelled, including mappings that change a string's length.
- Strings are sequences of Unicode scalar values, whereas JavaScript strings are UTF-16 code units. All the characters `trim` strips are single code units, so trimming agrees. Lone surrogates cannot be represented.
- `createdAt` is an unbounded integer. A JavaScript number is a double, so `b.createdAt - a.createdAt` could round for huge values or be `NaN` for a malformed record; neither is modelled.
- View.Sort: the model's sort is one particular stable insertion sort. The sort is proved sorted, a permutation of its input, and stable. The model does not prove that these three properties fix the result, which is how any stable engine sort would give the same list.
