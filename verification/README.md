# To-do list core, modelled in Dafny

This project models the in-memory logic of a browser to-do list widget, the
`TodoApp` class of `script.js`. The app keeps an ordered list of records in
`this.todos`. Each record has an `id` (the millisecond clock at creation),
a `text`, a `completed` flag and a `createdAt` timestamp. Four operations
change the list: adding a record, toggling one, deleting by id and clearing
the completed ones. Every change is followed by a write of the whole list
to browser storage. The summary line under the list and the visibility of
the "clear completed" control are computed from the list, and record texts
are HTML-escaped before rendering.

Modules:

- `Seqs` (`seqs.dfy`): order-preserving `Filter` (JavaScript's
  `Array.prototype.filter`) and `Count`. It also proves that `Filter` is
  the only subsequence that keeps exactly the selected elements.
- `Text` (`text.dfy`): `String.prototype.trim` over ECMAScript whitespace
  and line terminators, and the decimal rendering of counts.
- `Escape` (`escape.dfy`): `escapeHtml` as the chain of five global
  replacements, a per-character reference definition and a decoder.
- `Todos` (`todos.dfy`): the `Todo` record, pure descriptions of toggling,
  deletion and clearing, and the `TodoApp` class. The class's methods update
  `todos` and a ghost counter `saves` of storage writes.
- `Stats` (`stats.dfy`): the counting and label rule of `updateStats`.

What `script.js` does, and therefore what the model does:

- records have no `order` field, and there is no editing and no
  drag-to-reorder;
- `addTodo` puts the new record at the head of the list without re-sorting;
- nothing keeps ids distinct;
- `deleteTodo` removes every record with the id, and saves even when no
  record matched.

## Model

| member | source | states |
|---|---|---|
| `Seqs.Filter` | script.js:50 | the result holds only selected elements of the input, and every selected element of the input occurs in it |
| `Seqs.FilterLength` | script.js:91 | the length of a filtered list is the number of selected elements |
| `Seqs.FilterIsSubsequence` | script.js:50 | filtering keeps the relative order of the kept elements |
| `Seqs.FilterUnique` | script.js:56 | any subsequence holding only selected elements, as many as the input has, equals the filter |
| `Seqs.FilterIdempotent` | script.js:56 | filtering twice with one selector equals filtering once |
| `Seqs.FilterKeepsAll` | script.js:50 | when every element is selected, the filter returns its input |
| `Seqs.CountComplement` | script.js:92 | two complementary selectors' counts add up to the length |
| `Seqs.CountZero` | script.js:102 | the count is zero exactly when no element is selected |
| `Text.Trim` | script.js:24 | the result is empty exactly when the input is blank, and otherwise starts and ends with non-whitespace |
| `Text.TrimIsSlice` | script.js:24 | the result is a contiguous slice of the input, and everything before and after it is whitespace |
| `Text.TrimFixesTrimmed` | script.js:24 | text without surrounding whitespace is returned unchanged |
| `Text.TrimIdempotent` | script.js:24 | trimming twice equals trimming once |
| `Text.NatToString` | script.js:99 | a count renders as a non-empty digit run, without a leading zero, one digit long exactly below ten |
| `Text.NatToStringRoundTrip` | script.js:99 | reading the rendered digits gives back the count |
| `Escape.ReplaceAll` | script.js:125 | replacing a character with a non-empty reference never shortens the text |
| `Escape.EscapeHtml` | script.js:123-130 | the escaped text is at least as long as the input |
| `Escape.ReplaceAllAbsent` | script.js:125-129 | a replacement step for a character that does not occur changes nothing |
| `Escape.EscapeHtmlChar` | script.js:124-129 | on one character, the chain yields that character's reference, or the character itself |
| `Escape.EscapeHtmlIsPerChar` | script.js:123-130 | because `&` is replaced first, the chain equals escaping each character once; no reference is escaped again |
| `Escape.EscapeHtmlInert` | script.js:123-130 | text without any of the five reserved characters is returned unchanged |
| `Escape.EscapeHtmlNoMarkup` | script.js:123-130 | the output contains no `<`, `>`, `"` or `'` |
| `Escape.UnescapeEscapeHtml` | script.js:123-130 | decoding the five references in the output gives back the input, so escaping loses nothing |
| `Todos.FindIndex` | script.js:41 | the position of the first record with the id, or none exactly when no record has it |
| `Todos.Flip` | script.js:43 | the record keeps its id, text and timestamp, and its completion flag is inverted |
| `Todos.ToggledAt` | script.js:40-46 | toggling changes only the record found first by id and leaves the list alone when the id is absent |
| `Todos.ToggledTwice` | script.js:40-46 | toggling one id twice restores the original list |
| `Todos.ToggledKeepsRecords` | script.js:40-46 | toggling keeps the order and every record's id, text and timestamp |
| `Todos.WithoutId` | script.js:50 | no kept record has the id, and every record with another id is kept |
| `Todos.WithoutIdIsRemoval` | script.js:50 | deletion is an order-preserving removal of all records with the id, duplicates included |
| `Todos.WithoutAbsentId` | script.js:50 | deleting an id that no record has leaves the list unchanged |
| `Todos.ActiveOnly` | script.js:56 | every kept record is active, and every active record is kept |
| `Todos.ActiveOnlyIsRemoval` | script.js:56 | clearing is an order-preserving removal of the completed records, and a second clear changes nothing |
| `Todos.TodoApp.constructor` | script.js:2-3 | the list starts as the sequence read from storage, with no writes yet |
| `Todos.TodoApp.AddTodo` | script.js:23-38 | blank input leaves the list as it was and does not save; otherwise an active record with the trimmed text is put at the head, the old list follows it, and exactly one save happens; the stored texts stay trimmed and non-empty |
| `Todos.TodoApp.ToggleTodo` | script.js:40-47 | the list becomes the reference toggle of the old list; one save happens exactly when the id is present |
| `Todos.TodoApp.DeleteTodo` | script.js:49-53 | the list becomes the old list without the id's records, and one save always happens |
| `Todos.TodoApp.ClearCompleted` | script.js:55-59 | the list becomes the old list's active records, and one save always happens |
| `Stats.Summarize` | script.js:89-100 | the total is the number of records, the active and completed counts add up to it, and the caption is the label for the total and the active count |
| `Stats.SummarizeCounts` | script.js:90-102 | the completed count is the number of completed records and the active count the number of active ones; the clear control is shown exactly when some record is completed |
| `Stats.Label` | script.js:93-99 | the label opens with the rendered total, followed by " items" for none, " item" for one, and " items (", the rendered active count and " active)" from two on |
| `Stats.LabelShowsTotal` | script.js:94-100 | every label starts with the total it reports |
| `Stats.LabelShowsActive` | script.js:98-99 | from two records on, the number after "items (" is the active count |
| `Stats.LabelSingular` | script.js:94-99 | the label is "1 item" exactly when there is one record |
| `Stats.SummaryAfterClear` | script.js:55-59 | after clearing, the completed count is zero, the control is hidden, and the total is the old active count |
| `Stats.SummaryAfterAdd` | script.js:27-34 | adding an active record adds one to the total and to the active count |
| `Stats.SummaryAfterToggle` | script.js:40-46 | toggling keeps the total; a present id moves exactly one record between completed and active |
| `Stats.ToggledDoneCount` | script.js:40-46 | toggling a present id changes the number of completed records by exactly one, and an absent id changes nothing |

## Left out

- DOM access and rendering are not modelled. This covers `init`, the event
  listeners, `render` with its markup and the empty-state placeholder, and
  the inline `onchange`/`onclick` attributes (script.js:4-21, 61-87,
  133-135). Of `updateStats`, only the counts, the label text and the
  visibility decision are kept.
- Clearing the entry field after an add (script.js:35) is a DOM write. The
  input text is a parameter of `AddTodo`, and its result `added` says when
  the field would be cleared.
- `saveTodos` and `loadTodos` are not modelled: they call `localStorage`
  and `JSON` (script.js:105-121). A save is one increment of the ghost
  counter `saves`. A load is the constructor's argument, an arbitrary list
  of well-formed records. Malformed stored data and the `console.error`
  paths are outside the model.
- `Date.now()` and `new Date().toISOString()` (script.js:28, 31) are clock
  calls. They become the `now` and `stamp` parameters of `AddTodo`. Nothing
  is claimed about ids being distinct, because the code does not ensure it.
- `toggleTodo` mutates the found record object in place. The model
  replaces that record's value in the sequence. The two differ only if one
  object sat in the list twice, which none of these operations can cause.
- JavaScript strings are UTF-16 code units, but the model's strings are
  sequences of Unicode scalar values. Every character that `trim` removes
  and every reserved markup character lies in the Basic Multilingual
  Plane, so the modelled behaviour is the same for well-formed text. A
  JavaScript string holding an unpaired surrogate cannot be written as a
  Dafny `string`, so such strings are outside the model.
- Editing, drag-to-reorder and an `order` field are not in `script.js`,
  so they are not modelled.
