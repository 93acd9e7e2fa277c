# Data-file editor: a Dafny model of its core

This project models the core of a desktop editor for JSON, YAML, XML and CSV
files. The editor is built with React and Electron. The model covers five parts:

- **The editor session** (`App.tsx`): the open tabs and the active tab, the view and view mode, and the pending conversion target. It also covers each file's undo history and the handlers that change a file: load, close, raw edit, value edit, format, minify, the four cleanup tools, undo/redo, convert, rename and tab drag-and-drop.
- **The recent-files and favourites lists** kept by the Electron main process (`electron/main.js`), and the save-dialog filters.
- **The tree view's logic** (`components/TreeViewer.tsx`): the JavaScript accessor shown for a node's path, the context-menu highlight test, and the error/empty/tree states.
- **The table view's logic** (`components/TableViewer.tsx`): rows, headers, the case-insensitive row filter and the cell highlight.
- **The raw editor's text logic** (`components/CodeEditor.tsx`): HTML escaping, gutter line numbers, the caret's line and the search scroll.

Files:

| file | module | what it holds |
|---|---|---|
| `results.dfy` | `Results` | `Option` and `Result` |
| `seqs.dfy` | `Seqs` | `Filter`, subsequences, `RemoveAt`/`InsertAt` (the two `splice` calls) |
| `text.dfy` | `Text` | the JavaScript string operations used: `trim`, an ASCII `toLowerCase`, `split`/`join` on one character, `indexOf`, `includes`, number formatting |
| `json.dfy` | `Json` | the value type, paths, formats, and `Codecs`: the parse/stringify/minify/detect/sort/update helpers the editor calls, passed as parameters |
| `transforms.dfy` | `Transforms` | `recursiveRemoveNulls` and `recursiveTrimStrings` |
| `history.dfy` | `UndoHistory` | the snapshot list with its cursor and its 50-entry cap |
| `editor_file.dfy` | `Editor` | one open file and every per-file update of `App.tsx` |
| `session.dfy` | `Workspace` | the tab list and the class `Session`, one method per handler |
| `recent_files.dfy` | `RecentFiles` | the class `Store` (the two persisted lists) and the IPC handlers' list logic |
| `tree_viewer.dfy` | `PathDisplay` | the tree view's logic |
| `table_viewer.dfy` | `Table` | the table view's logic |
| `code_editor.dfy` | `EditorText` | the raw editor's text logic |

Modelling choices:

- A file record is a value: every handler builds a new record with a spread update. The session changes in place, so it is a class whose `files` and `activeFileId` fields the handlers reassign.
- Its invariant is `TabsValid`:
  - ids are distinct and non-empty;
  - there is an active tab exactly when a file is open;
  - the active tab names an open file.
- Every session method keeps this invariant. Its `ensures` ties the new tab list to the per-file function of `Editor` that the handler applies.
- The parsers and writers in `utils/` are not part of this model. They are the fields of a `Codecs` record of total functions. A helper that throws returns `Err`.
- Properties that need the codecs to read back what they write assume `RoundTrips`.
- `Object.keys` and `Object.values` throw on `null`. That is `None` here.
- Integers in JSON values are unbounded `int`. `lastOpened` is a millisecond timestamp.

## Model

| member | source | states |
|---|---|---|
| UndoHistory.Fresh | App.tsx:242-245 | a new history holds the loaded text alone, with nothing to undo or redo |
| UndoHistory.Push | App.tsx:364-379 | after `addToHistory` the new text is current, there is nothing to redo, at most 50 snapshots are kept, and the kept snapshots before the new one are exactly the ones up to the old cursor, oldest dropped first |
| UndoHistory.Undo | App.tsx:652-675 | undo moves the cursor back by one over the same snapshots, and changes nothing at the first snapshot |
| UndoHistory.Redo | App.tsx:677-700 | redo moves the cursor forward by one over the same snapshots, and changes nothing at the last snapshot |
| UndoHistory.PushThenUndo | App.tsx:364-379 | undo right after a push always brings back the text that was current before it: the cap never evicts that snapshot |
| UndoHistory.PushAllWindow | App.tsx:364-379 | after any sequence of pushes the history is the last 50 of the snapshots up to the old cursor followed by every pushed text, with the cursor on the last one |
| Editor.AddToHistory | App.tsx:364-379 | no contract of its own: `addToHistory` replaces the file's history by `Push` of it; `RawEdited`, `ValueUpdated` and `ToolApplied` state the pushed history |
| Editor.KeyCount | App.tsx:215 | `Object.keys(v).length` throws exactly for null, and is 0 exactly for booleans, numbers, "", [] and {} |
| Editor.LoadedFile | App.tsx:210-259 | the load fails exactly when non-empty raw content meets a null value or when the stringify fails; otherwise the record is clean, error-free, synced with a one-snapshot history, and has the detected format; its value is the parse of the raw content when that content is non-empty, the loaded value has no keys and the parse succeeds, and the loaded value otherwise; its text is the raw content, or the stringified value when there is none |
| Editor.LoadedFileReparses | App.tsx:215-222 | a file opened with non-empty content and an empty value holds the parse of the content when it parses, and the empty value otherwise |
| Editor.InitialViewMode | App.tsx:251-255 | no contract of its own; `InitialViewModeBlank` states that it is raw mode exactly for all-whitespace text |
| Editor.InitialViewModeBlank | App.tsx:251-255 | a loaded file opens in raw mode exactly when its text is all whitespace |
| Editor.RawEdited | App.tsx:403-425 | a raw edit always takes and pushes the text, marks the file dirty, and leaves value, text and error agreeing; a failed parse keeps the last good value |
| Editor.ValueUpdated | App.tsx:381-401 | a value edit happens exactly when the path update and the stringify succeed; the new value is the updated one, the new text its rendering, pushed onto the history (`Push`) and shown; the error, id, name, path and format are untouched |
| Editor.Formatted | App.tsx:427-437 | formatting happens exactly when the text parses and re-renders; the value becomes the parse, the error is cleared, the history is untouched, and with round-tripping codecs the file agrees with its text |
| Editor.Minified | App.tsx:439-450 | YAML is never minified; otherwise minifying happens exactly when parse and minify succeed, with the compact text, the parse as value, the error cleared and the history untouched |
| Editor.ToolAppliedAsWritten | App.tsx:453-474 | the tool as written applies exactly when the corrected tool does, and gives the same record except that the error recorded before it is kept |
| Editor.ToolApplied | App.tsx:453-474 | a tool applies exactly when its transform and the stringify succeed; the value is the transform's result, the text its rendering (pushed), the error cleared, and with round-tripping codecs the file agrees with its text |
| Editor.ToolKeepsStaleError | App.tsx:453-474 | after a raw edit that does not parse, removing nulls writes a text that parses, yet the tool as written keeps the stale syntax error; the corrected tool leaves the file agreeing |
| Editor.Undone | App.tsx:652-675 | undo shows the previous snapshot, or changes nothing at the first snapshot; value, text and error agree, and when that snapshot does not parse the last good value is kept; id, name, path and format are kept |
| Editor.Redone | App.tsx:677-700 | redo shows the next snapshot, or changes nothing at the last snapshot; value, text and error agree, and when that snapshot does not parse the last good value is kept; id, name, path and format are kept |
| Editor.UndoThenRedo | App.tsx:652-700 | undo then redo restores the text, history and error of a synced, agreeing file, and its value whenever the text parses |
| Editor.RedoThenUndo | App.tsx:652-700 | redo then undo restores the text, history and error, and the value whenever the text parses |
| Editor.RawEditThenUndo | App.tsx:403-425 | a raw edit followed by undo shows the text from before the edit, agreeing with the value and error |
| Editor.ShowSnapshot | App.tsx:656-673 | no contract of its own; `Undone` and `Redone` state what showing a snapshot does |
| Editor.ExtensionFor | App.tsx:536-540 | the extension written by a conversion is the target format's name |
| Editor.ConvertedName | App.tsx:533-543 | no contract of its own; `ConvertedNameShape` and `ConvertedNameExtension` characterise it |
| Editor.ConvertedNameShape | App.tsx:533-543 | the converted name is the old name up to its last dot, a dot and the target's extension, or the whole name with ".ext" appended when it has no dot |
| Editor.ConvertedNameExtension | App.tsx:533-543 | a converted name always ends with a dot and the target's extension |
| Editor.ConvertFile | App.tsx:519-562 | a conversion fails exactly when the stringify fails, is refused exactly for a blank CSV, and otherwise sets format, text, name, a fresh history and no error while keeping id and value |
| Editor.Renamed | App.tsx:741-749 | a rename is ignored exactly for an all-whitespace name; otherwise the trimmed name is stored, it begins and ends with a non-space, and the format is detected from it |
| Workspace.IndexOfId | App.tsx:342 | the first position holding the id, or -1 exactly when no file has it |
| Workspace.FindById | App.tsx:172 | the file found is the one at the id's first position, and none exactly when no file has it |
| Workspace.WithoutKeepsOthers | App.tsx:343 | closing keeps exactly the files with another id, in their order |
| Workspace.Without | App.tsx:343 | no contract of its own; `WithoutKeepsOthers`, `WithoutRemovesFile`, `WithoutSize` and `WithoutDistinctIds` characterise the filter |
| Workspace.WithoutRemovesFile | App.tsx:342-343 | with distinct ids, closing removes exactly the file at the id's position |
| Workspace.WithoutSize | App.tsx:342-343 | with distinct ids, closing removes one file when the id is open and none otherwise |
| Workspace.NextActive | App.tsx:346-352 | no contract of its own; `NextActiveNeighbour` states which tab it names |
| Workspace.NextActiveNeighbour | App.tsx:346-352 | closing the active tab activates its left neighbour, or its right one when it was first, or nothing when it was the last tab |
| Workspace.MoveTab | App.tsx:813-815 | no contract of its own; `MoveTabPermutes`, `MoveTabKeepsIds` and `MoveTabValid` characterise the two splices |
| Workspace.MapWhere | App.tsx:361 | no contract of its own; `Session.UpdateActiveFile` states that with distinct ids it replaces exactly the active position |
| Workspace.MoveTabPermutes | App.tsx:802-818 | dropping a tab is a permutation: the dragged tab lands at the target position, the others keep their relative order, and ids stay distinct |
| Workspace.MoveTabKeepsIds | App.tsx:802-818 | a drop keeps every id open and every id non-empty |
| Workspace.MoveTabValid | App.tsx:802-818 | a drop keeps the tabs valid with the same active tab |
| Workspace.AppendValid | App.tsx:247-248 | opening a file with a new id and activating it keeps the tabs valid |
| Workspace.ReplaceValid | App.tsx:359-362 | replacing the active file by one with the same id keeps the tabs valid |
| Workspace.CloseValid | App.tsx:341-357 | closing a tab and moving the active tab as the handler does keeps the tabs valid |
| Workspace.WithoutDistinctIds | App.tsx:343 | closing keeps the remaining ids distinct |
| Workspace.Session.constructor | App.tsx:36-42 | the session starts with no file and no active tab, on the home page, in tree mode, with no pending conversion |
| Workspace.Session.ActiveFile | App.tsx:172 | the active file exists exactly when an id is active, has that id and is open |
| Workspace.Session.ActiveIndex | App.tsx:172 | the active file's position, or -1 exactly when no id is active |
| Workspace.Session.FileLoaded | App.tsx:210-259 | a successful load appends the record, activates it and opens the editor in raw mode for blank text and tree mode otherwise; a failed load changes nothing; the tabs stay valid |
| Workspace.Session.Open | App.tsx:246-255 | the file is appended and activated, the editor opens in the given mode, and the tabs stay valid |
| Workspace.Session.PerformCloseFile | App.tsx:341-357 | the file is removed; a closed active tab passes to its neighbour; the home page shows when no file is left; the tabs stay valid |
| Workspace.Session.CloseFile | App.tsx:327-339 | a dirty file asks to save and stays open, and an unknown id changes nothing; a clean file is closed exactly as `PerformCloseFile` closes it: removed, a closed active tab passes to its neighbour, home shows when no file is left, and the mode and pending target are kept |
| Workspace.Session.SelectTab | App.tsx:1023 | clicking a tab activates it; the tabs, view, mode and pending target are unchanged |
| Workspace.Session.UpdateActiveFile | App.tsx:359-362 | exactly the active file's position is replaced by the updater's result; every other session field is unchanged; the tabs stay valid |
| Workspace.Session.RawChange | App.tsx:403-425 | the active file becomes its raw edit; no other tab and no other session field changes |
| Workspace.Session.UpdateValue | App.tsx:381-401 | the active file becomes its value edit, or nothing changes when the edit throws; no other session field changes |
| Workspace.Session.FormatText | App.tsx:427-437 | the active file becomes its formatted form, or nothing changes on failure; no other session field changes |
| Workspace.Session.Minify | App.tsx:439-450 | the active file becomes its minified form, or nothing changes for YAML or on failure; no other session field changes |
| Workspace.Session.ApplyTool | App.tsx:453-474 | the active file becomes the corrected tool's result, or nothing changes on failure; no other session field changes |
| Workspace.Session.Undo | App.tsx:652-675 | the active file becomes its undo; no other tab and no other session field changes |
| Workspace.Session.Redo | App.tsx:677-700 | the active file becomes its redo; no other tab and no other session field changes |
| Workspace.Session.InitiateConvert | App.tsx:515-517 | the target is remembered; the tabs, active tab, view and mode are untouched |
| Workspace.Session.PerformConversion | App.tsx:519-562 | with no active file or no pending target nothing changes; otherwise the target is cleared, and a successful conversion replaces the active file and switches to raw mode while a failed one keeps the tabs and mode; the active tab and view never change |
| Workspace.Session.SaveRename | App.tsx:741-749 | the active file takes the trimmed name and its detected format, or nothing changes for a blank name; no other session field changes |
| Workspace.Session.Drop | App.tsx:802-818 | the dragged tab moves to the target's position, the tab multiset is unchanged, the same or an unknown tab changes nothing, and no other session field changes |
| RecentFiles.WithoutPath | electron/main.js:227 | the filtered list keeps, in order, exactly the entries with another path |
| RecentFiles.IndexOfPath | electron/main.js:257 | the first entry with the path, or -1 exactly when there is none |
| RecentFiles.Toggled | electron/main.js:254-263 | toggling removes the first entry with the item's path, or puts the item in front when there is none |
| RecentFiles.ToggleTwice | electron/main.js:254-263 | toggling an item twice on a list without its path gives the list back |
| RecentFiles.ToggleRemovesFirstOnly | electron/main.js:254-263 | toggling removes only the first match: entries before and after it keep their places |
| RecentFiles.InsertByRecency | electron/main.js:211 | inserting into a most-recent-first list keeps it ordered and adds exactly the item |
| RecentFiles.SortByRecency | electron/main.js:211 | the sorted list is most-recent-first and a permutation of the stored list |
| RecentFiles.FilterForFormats | electron/main.js:185-191 | YAML offers yaml and yml, XML xml, CSV csv, and every other name the JSON filter with json; each supported format's own extension comes first |
| RecentFiles.FilterFor | electron/main.js:185-190 | no contract of its own; `FilterForFormats` gives its value for every name |
| RecentFiles.Store.constructor | electron/main.js:207-263 | both lists start empty |
| RecentFiles.Store.GetHistory | electron/main.js:207-215 | the returned list is most-recent-first and a permutation of the stored history |
| RecentFiles.Store.AddToHistory | electron/main.js:217-232 | the stamped item comes first, no later entry has its path, the rest are the old entries with other paths in order, and at most 50 are kept |
| RecentFiles.Store.RemoveHistoryItems | electron/main.js:234-241 | an entry is kept, as often as it occurred and in order, exactly when its path is not listed |
| RecentFiles.Store.ClearHistory | electron/main.js:243-245 | the history is emptied and the favourites untouched |
| RecentFiles.Store.GetFavorites | electron/main.js:247-252 | the stored favourites are returned |
| RecentFiles.Store.ToggleFavorite | electron/main.js:254-263 | the favourites become the toggled list, which is returned; the history is untouched |
| RecentFiles.SaveFilters | electron/main.js:185-191 | the dialog offers the format's filter, then "All Files" |
| PathDisplay.PathStringAppend | components/TreeViewer.tsx:40-57 | a child's accessor is its parent's accessor followed by the child's segment |
| PathDisplay.PathStringIsSegments | components/TreeViewer.tsx:40-57 | the accessor is the concatenation of every key's segment at its position |
| PathDisplay.PathStringCases | components/TreeViewer.tsx:40-57 | the root is "", an index adds `[n]`, an identifier is itself first and `.key` later, and any other key adds `["key"]` |
| PathDisplay.PathString | components/TreeViewer.tsx:40-57 | no contract of its own; `PathStringCases`, `PathStringAppend` and `PathStringIsSegments` characterise the fold |
| PathDisplay.IsNodeSelected | components/TreeViewer.tsx:77-82 | a node is highlighted exactly when a context menu is open on its own path |
| PathDisplay.IsDataEmpty | components/TreeViewer.tsx:98-103 | empty data is exactly null, false, 0, "", [] or {} |
| PathDisplay.RenderState | components/TreeViewer.tsx:85-116 | a non-empty error shows the error state whatever the data; otherwise empty data shows the empty state and anything else the tree |
| Table.TableRows | components/TableViewer.tsx:11-14 | the rows are the array's elements, and there are none for any other value |
| Table.ObjectKeys | components/TableViewer.tsx:16-19 | `Object.keys` throws exactly on null and gives an object's keys in order |
| Table.ObjectValues | components/TableViewer.tsx:21-29 | `Object.values` throws exactly on null; it gives nothing for a boolean or number, an array's elements, a string's characters, and for an object the value of each key in key order |
| Table.Headers | components/TableViewer.tsx:16-19 | the headers are the first row's keys, none without rows |
| Table.JsString | components/TableViewer.tsx:26 | no contract of its own: `String(v)` for each kind of value, as JavaScript writes it; `ValueMatches` and `CellIsMatch` use it |
| Table.AnyMatches | components/TableViewer.tsx:24-27 | some value's string contains the query |
| Table.FilteredRows | components/TableViewer.tsx:21-29 | an empty query shows every row; otherwise the filter throws exactly when a row is null |
| Table.FilteredRowsSpec | components/TableViewer.tsx:21-29 | the shown rows are a subsequence of the rows, and a row is shown, as often as it occurs, exactly when one of its values contains the query ignoring case |
| Table.CellIsMatch | components/TableViewer.tsx:70 | a cell is highlighted exactly when the query is non-empty and occurs in the cell's string ignoring case |
| Table.Lookup | components/TableViewer.tsx:69 | a property is undefined exactly when the row has no such key |
| Table.LookupFinds | components/TableViewer.tsx:69 | with distinct keys, each key reads its own value |
| Table.RowMatchesIffSomeCell | components/TableViewer.tsx:21-29 | an object row passes the filter exactly when one of its cells is highlighted |
| EditorText.EscapeHtmlIsEscapeEach | components/CodeEditor.tsx:98-105 | because `&` is replaced first, the chained replacements escape each character on its own, and no entity is escaped twice |
| EditorText.EscapeHtmlSafe | components/CodeEditor.tsx:98-105 | escaped text holds no `<`, `>`, `"` or `'` and is never shorter |
| EditorText.UnescapeEscape | components/CodeEditor.tsx:98-105 | escaping loses nothing: decoding the five entities gives the text back |
| EditorText.EscapeHtml | components/CodeEditor.tsx:98-105 | no contract of its own; `EscapeHtmlIsEscapeEach`, `EscapeHtmlSafe` and `UnescapeEscape` characterise it |
| EditorText.LineNumbers | components/CodeEditor.tsx:92-96 | the gutter numbers 1 to the number of lines (newlines plus one), or nothing when hidden |
| EditorText.ActiveLine | components/CodeEditor.tsx:74-80 | the caret's line is the number of newlines before the (clamped) caret |
| EditorText.ActiveLineNumbered | components/CodeEditor.tsx:74-80 | the caret is always on a line the gutter numbers |
| EditorText.SearchScroll | components/CodeEditor.tsx:31-58 | no scroll exactly for an empty term, empty text or no case-insensitive match; otherwise the line of the match and 24 pixels per line less 100, never negative |
| EditorText.SearchScrollFirstMatch | components/CodeEditor.tsx:31-58 | the scroll goes to the first match: no match comes earlier, and its line is at most any match's line |
| Transforms.RemoveNullsNull | App.tsx:476-491 | removing nulls gives null only for null itself |
| Transforms.RemoveNullsLeavesNoNulls | App.tsx:476-491 | no null is left inside an array or object after removing nulls |
| Transforms.RemoveNullsFixesNoNulls | App.tsx:476-491 | a value without nested nulls is left alone |
| Transforms.RemoveNullsIdempotent | App.tsx:476-491 | removing nulls twice is removing them once |
| Transforms.RemoveNullsKeepsKeyOrder | App.tsx:476-491 | an object keeps exactly its members whose value is not null, in their order and each occurrence, and each kept member has its key and its value cleaned |
| Transforms.RemoveNullsKeepsItemOrder | App.tsx:476-491 | an array keeps its non-null items in their order, each cleaned |
| Transforms.RemoveNullsWellFormed | App.tsx:476-491 | removing nulls keeps object keys distinct |
| Transforms.RemoveNulls | App.tsx:476-491 | no contract of its own; the `RemoveNulls…` lemmas above characterise it |
| Transforms.TrimStringsIsTrimmedCopy | App.tsx:493-507 | trimming strings changes no array length, key or non-string leaf, and replaces every string leaf by its trim |
| Transforms.TrimStringsAllTrimmed | App.tsx:493-507 | after trimming, no string anywhere begins or ends with whitespace |
| Transforms.TrimStringsFixesTrimmed | App.tsx:493-507 | a value whose strings are all trimmed is left alone |
| Transforms.TrimStringsIdempotent | App.tsx:493-507 | trimming strings twice is trimming them once |
| Transforms.TrimStrings | App.tsx:493-507 | no contract of its own; `TrimStringsIsTrimmedCopy` characterises it |

## Left out

- The parsers, writers, format detection, key sort and path update in `utils/` are not part of this model. They are parameters (`Codecs`). Their own behaviour is assumed only where a lemma says so (`RoundTrips`).
- Numbers are integers; floating point is not modelled.
- `toLowerCase` folds ASCII letters only, and `trim` removes a fixed set of whitespace characters. Full Unicode case folding can change a string's length; that is not modelled.
- The file's `meta` block is not modelled: the byte size from `Blob`, `Date.now()` and the item count. `crypto.randomUUID()` is an `id` parameter that must be fresh and non-empty.
- In `add-to-history`, the size read from disk and the clock are the parameters `size` and `now`. Reading and writing the JSON store files, `JSON.parse` failures and the empty-list fallbacks after an I/O error are not modelled.
- The `addToHistory` IPC call made by `handleFileLoaded`, and the asynchrony of the favourites handlers, are left out. Both are messages to the main process, and `Store` models what the main process does with them.
- Rendering, modals, alerts, confirmations, console logging, clipboard, keyboard shortcuts, saving and exporting files, and the window controls are user interface and I/O.
- `highlightCode` is left out: it is a regex-driven syntax colouring of the text with no state.
- The scroll DOM effects are left out. `SearchScroll` computes the offset they are given.
- The fallback of `addToHistory` for a file without a history (`file.history || …`) is left out. Every record built here has one: the history is a field of type `ValidHistory`.
- Strings are sequences of characters, while JavaScript strings are sequences of UTF-16 code units. `ActiveLine`'s caret offset (`substring(0, selectionStart)`) and `SearchScroll`'s match index therefore count a different prefix when a character outside the Basic Multilingual Plane comes before them.
- Property lookups that reach JavaScript prototypes are not modelled (for example a key named `constructor`). Neither is the `window.electron` guard.
- `RecentFiles.SortByRecency`: the `Array.prototype.sort` comparator is modelled as a stable insertion sort. The permutation and ordering are proved; which of two equally recent entries comes first is not. Dates that do not parse (NaN comparisons) are not modelled.
- `Editor.Formatted` and `Editor.Minified` do not push onto the history, exactly as `handleFormat` and `handleMinify` do not.
- `Workspace.Session.ApplyTool` applies the corrected tool (see Findings). The tool as written is `Editor.ToolAppliedAsWritten`.

## Findings

| source | as written | input that shows it | evidently intended | confidence | as-written member | corrected member |
|---|---|---|---|---|---|---|
| App.tsx:453-474 | `applyJsonTool` writes a freshly rendered text for the transformed value but never clears `error` | a raw edit to `{` records "Unexpected token"; then Remove Nulls rewrites the text as `{}`, which parses, yet the file still shows the syntax error and the tree view stays in its error state | clear `error`, as `handleFormat`, `handleMinify` and `performConversion` do when they write a rendered text | not executed | Editor.ToolAppliedAsWritten (counterexample: Editor.ToolKeepsStaleError) | Editor.ToolApplied |
