# CodeMate code editor — a Dafny model

This project models the core of the CodeMate editor page
(`src/pages/CodeEditor.tsx`). The page keeps an ordered list of open files
and the id of the active one. It drives one long-lived CodeMirror widget
that shows the active file. Its handlers create, import, close and cycle
files, and a change listener copies what the user types back into the file
list. It also has a wrap-around text search, lookup tables from file names
to languages, widget modes and MIME types, and a theme setting that follows
the operating system when set to "device".

The model has six modules:

- `Wrappers`: `Option`.
- `Languages`: the extension → language, language → mode and extension →
  MIME tables. The extension is taken after the last dot and lower-cased.
- `Settings`: the editor settings, their defaults, start-up loading, and the
  themes the settings resolve to.
- `Search`: the wrap-around search as a pure function of the buffer, the
  query and a start offset.
- `Session`: the file list and active id as a value. Each handler is one
  atomic transition, and lemmas prove the session invariant (unique ids; the
  active id names an open file, and there is one whenever a file is open)
  and the properties of each handler.
- `Editor`: the page as a class `CodeEditor` that owns a class `Widget`.
  Each handler updates the fields in place and is proved to perform the
  `Session` transition. The reconciliation effect is proved to leave the
  widget showing the active file with the options the settings call for.
  It builds the widget once, and rewrites the buffer only when it differs.

Ids are supplied by the caller, who must pass one that is not in use. The
source builds them from the clock and a random number.

## Model

| member | source | states |
|---|---|---|
| `Languages.LastSegment` | src/pages/CodeEditor.tsx:324 | the result is a suffix of the name with no dot, and a dot precedes it whenever it is not the whole name (`split(".").pop()`) |
| `Languages.LastSegmentNoDot` | src/pages/CodeEditor.tsx:324 | a name without a dot is its own last segment |
| `Languages.LastSegmentAfterDot` | src/pages/CodeEditor.tsx:324 | the segment of `prefix.ext` is `ext`, whatever the prefix holds |
| `Languages.Extension` | src/pages/CodeEditor.tsx:324 | the extension is the lower-cased text after the last dot, or the whole name lower-cased when there is no dot |
| `Languages.LanguageOfExtension` | src/pages/CodeEditor.tsx:326-342 | plain text exactly for extensions outside js, html, htm, css, py, php, sql; html exactly for html and htm |
| `Languages.LanguageByFileName` | src/pages/CodeEditor.tsx:323-343 | plain text exactly when the name's extension is not a known one; html exactly for the extensions html and htm |
| `Languages.ModeByLanguage` | src/pages/CodeEditor.tsx:303-320 | "null" exactly for plain text, "htmlmixed" exactly for html, and otherwise the language's own name |
| `Languages.MimeTypeByExtension` | src/pages/CodeEditor.tsx:346-364 | one of six MIME types, case-insensitive; "text/plain" exactly for extensions outside js, html, htm, css, php, sql (py included); "text/html" exactly for html and htm |
| `Languages.ModeOfFileName` | src/pages/CodeEditor.tsx:116 | a file gets highlighting exactly when its extension is a known one, and html/htm files get "htmlmixed" |
| `Languages.LanguageOfDottedName` | src/pages/CodeEditor.tsx:323-343 | the language of `prefix.ext` depends only on `ext`, whatever its case |
| `Languages.DottedUpperCaseExample` | src/pages/CodeEditor.tsx:324-328 | "app.min.JS" is JavaScript |
| `Languages.ScriptJsExample` | src/pages/CodeEditor.tsx:324-328 | "script.js" is JavaScript |
| `Languages.UndottedExample` | src/pages/CodeEditor.tsx:324-341 | "Makefile" is plain text |
| `Settings.ResolveTheme` | src/pages/CodeEditor.tsx:84-89 | dark exactly for "dark", or for "device" on a dark OS; light likewise; nothing applied only for "device" when `window.matchMedia` is missing |
| `Settings.OsThemeChange` | src/pages/CodeEditor.tsx:93-97 | the OS theme-change listener applies something exactly under "device", and then the appearance the new OS flag resolves to |
| `Settings.StaleThemeListenerIgnoresDevice` | src/pages/CodeEditor.tsx:91-97 | the listener as registered tests the first render's preference, the default "dark", so it applies nothing even after the user picks "device" |
| `Settings.AppearanceTheme` | src/pages/CodeEditor.tsx:298 | "material" exactly for the dark appearance, "eclipse" otherwise |
| `Settings.WidgetTheme` | src/pages/CodeEditor.tsx:146 | "material" exactly for the "dark" preference, "eclipse" otherwise |
| `Settings.DeviceThemeDisagreesOnDarkOs` | src/pages/CodeEditor.tsx:84-89 | on a dark OS, "device" applies "material" to the page while reconciliation pushes "eclipse" to the widget |
| `Settings.Load` | src/pages/CodeEditor.tsx:73-81 | a parsed stored entry replaces the settings; an absent or malformed one keeps them |
| `Search.FindFrom` | src/pages/CodeEditor.tsx:272 | the first occurrence at or after the start offset, and None exactly when there is none |
| `Search.Find` | src/pages/CodeEditor.tsx:267-285 | an empty query does nothing, and Skipped happens only for it; Found is the first occurrence from the start; WrappedFound is the first occurrence overall and none lies at or after the start; NotFound exactly when the query occurs nowhere, with the selection unchanged |
| `Search.WrapFindsFirstOccurrence` | src/pages/CodeEditor.tsx:275-280 | when every occurrence lies before the start, the search wraps and selects the first occurrence in the buffer |
| `Search.WrapFindsOnlyOccurrence` | src/pages/CodeEditor.tsx:276-280 | with a single occurrence before the start, the search wraps and selects it |
| `Search.SearchFromStartNeverWraps` | src/pages/CodeEditor.tsx:270-278 | a search from offset 0 never needs the second attempt |
| `Search.SearchAdvancesPastSelection` | src/pages/CodeEditor.tsx:267-285 | a search from the end of the selection finds an occurrence that lies after it |
| `Search.SearchFromStartRepeats` | src/pages/CodeEditor.tsx:270-273 | a search from offset 0 that found something selects the same occurrence when repeated |
| `Search.RepeatedSearchExample` | src/pages/CodeEditor.tsx:270-273 | in "abab" with [0,2) selected, a search from 0 selects [0,2) again; one from 2 selects [2,4) |
| `Session.IndexOfId` | src/pages/CodeEditor.tsx:392 | the first index holding the id, and -1 exactly when no file has it |
| `Session.IndexOfName` | src/pages/CodeEditor.tsx:194 | the first index holding the name, and -1 exactly when no file has it |
| `Session.Lookup` | src/pages/CodeEditor.tsx:109 | a file exactly when the id is set and open, and that file is the first one with the id |
| `Session.LookupUnique` | src/pages/CodeEditor.tsx:109 | with unique ids, lookup by a file's id finds that file at its index |
| `Session.ReplaceById` | src/pages/CodeEditor.tsx:198-200 | same length; every file with the given id is swapped, every other file kept |
| `Session.UpdateContent` | src/pages/CodeEditor.tsx:130-134 | same length; files with the id get the new content, every other file kept |
| `Session.RemoveId` | src/pages/CodeEditor.tsx:251 | keeps exactly the files whose id differs, and nothing changes when the id is absent |
| `Session.RemoveIdAt` | src/pages/CodeEditor.tsx:251 | with unique ids, removing the id at index i removes exactly that element and keeps the order |
| `Session.RemoveIdKeepsUnique` | src/pages/CodeEditor.tsx:251 | removing files keeps ids unique |
| `Session.ReplaceByIdAt` | src/pages/CodeEditor.tsx:197-200 | with unique ids, replacing by the id at index i changes that element only |
| `Session.Create` | src/pages/CodeEditor.tsx:162-174 | appends a blank "untitled.txt" plain-text file, makes it active, keeps the files before it, and keeps the session valid |
| `Session.Import` | src/pages/CodeEditor.tsx:188-212 | the file list grows by at most one, and with a fresh id the active file is the imported one: its name, its text, and the language inferred from its name |
| `Session.Store` | src/pages/CodeEditor.tsx:193-212 | an open name: the first file of that name is overwritten in place, keeps its id and becomes active, and files with other ids are kept; a new name: appended under the fresh id and made active |
| `Session.StoreExisting` | src/pages/CodeEditor.tsx:194-201 | importing an open name overwrites the first file of that name in place with the new content and language, keeps its id, makes it active, leaves every other file alone, and keeps the session valid |
| `Session.StoreNew` | src/pages/CodeEditor.tsx:202-211 | importing a name that is not open appends a new file with the fresh id and makes it active, keeping the session valid |
| `Session.StoreKeepsValid` | src/pages/CodeEditor.tsx:193-212 | either branch of an import keeps the session valid |
| `Session.ImportTwice` | src/pages/CodeEditor.tsx:193-212 | importing the same new name twice leaves one file of that name, under the first id, holding the second content |
| `Session.RestoreLast` | src/pages/CodeEditor.tsx:194-201 | re-importing the name of the last file, when no other file has it, rewrites only that file |
| `Session.Close` | src/pages/CodeEditor.tsx:250-264 | removes the file; if it was active, the first remaining file becomes active, or a fresh untitled file when none remains; otherwise the active id is kept |
| `Session.CloseKeepsSessionUsable` | src/pages/CodeEditor.tsx:250-264 | after a close, the session is valid, a file is open and active, and the closed id is gone |
| `Session.Select` | src/pages/CodeEditor.tsx:589 | the clicked file becomes active, the files are unchanged, and validity is kept |
| `Session.Next` | src/pages/CodeEditor.tsx:388-395 | with at most one file nothing changes; otherwise the active id becomes an open file's id, and the first file's when the active id is missing or matches no file |
| `Session.NextStep` | src/pages/CodeEditor.tsx:390-394 | one Ctrl+Tab moves the active index on by one, wrapping from the last file to the first, and keeps the session valid |
| `Session.NextNStep` | src/pages/CodeEditor.tsx:390-394 | k <= n presses of Ctrl+Tab move the active index on by k, wrapped once past the end |
| `Session.NextCyclesBack` | src/pages/CodeEditor.tsx:390-394 | n presses of Ctrl+Tab with n files return to the file that was active |
| `Session.NextThreeFiles` | src/pages/CodeEditor.tsx:390-394 | with [A, B, C] and A active, two presses reach C and a third returns to A |
| `Session.ContentChanged` | src/pages/CodeEditor.tsx:125-135 | only the content of the target file changes, to the widget's text; with no target nothing changes |
| `Session.ContentChangedKeepsValid` | src/pages/CodeEditor.tsx:125-135 | the change listener keeps the session valid |
| `Session.ListenerOnActiveFileSyncs` | src/pages/CodeEditor.tsx:125-135 | a listener aimed at the active file leaves that file holding the typed text and every other file as it was |
| `Session.ListenerElsewhereKeepsActive` | src/pages/CodeEditor.tsx:125-135 | a listener aimed at any file but the active one leaves the active file as it was |
| `Session.StaleListenerMissesActiveFile` | src/pages/CodeEditor.tsx:125-135 | a listener aimed at the file active when the widget was built writes into that file after a switch, and the active file keeps its old text |
| `Session.CreateThenImportScenario` | src/pages/CodeEditor.tsx:162-212 | start-up then importing "script.js" gives [untitled, script.js], with the import active in mode "javascript" |
| `Editor.OptionsFor` | src/pages/CodeEditor.tsx:114-122 | the widget's mode is the language's mode, its theme is "material" exactly for the dark preference, it indents with tabs exactly when spaces are off, and the other options are copied from the settings |
| `Editor.Widget.constructor` | src/pages/CodeEditor.tsx:114-123 | a new widget holds the given text and options, with the cursor at the start |
| `Editor.Widget.SetValue` | src/pages/CodeEditor.tsx:140 | replaces the buffer, moves the cursor to the start, and counts one write |
| `Editor.Widget.Type` | src/pages/CodeEditor.tsx:125 | a keystroke replaces the buffer |
| `Editor.Widget.SetOption` | src/pages/CodeEditor.tsx:142-150 | sets exactly one option |
| `Editor.Widget.SetSelection` | src/pages/CodeEditor.tsx:273 | sets the selection |
| `Editor.CodeEditor.constructor` | src/pages/CodeEditor.tsx:47-58 | no files, no active id, default settings, no widget |
| `Editor.CodeEditor.Mount` | src/pages/CodeEditor.tsx:64-81 | an empty session gets a blank file, and a parsed stored entry replaces the settings |
| `Editor.CodeEditor.CreateNewFile` | src/pages/CodeEditor.tsx:162-174 | performs `Session.Create` in place and keeps the session valid |
| `Editor.CodeEditor.OpenFile` | src/pages/CodeEditor.tsx:188-212 | performs the import in place, with the language inferred from the name, and keeps the session valid |
| `Editor.CodeEditor.StoreFile` | src/pages/CodeEditor.tsx:193-212 | overwrites the open file of that name or appends a new one, in place, keeping the session valid |
| `Editor.CodeEditor.CloseFile` | src/pages/CodeEditor.tsx:250-264 | performs `Session.Close` in place; afterwards a file is open and active and the closed id is gone |
| `Editor.CodeEditor.SelectFile` | src/pages/CodeEditor.tsx:632 | performs `Session.Select` in place |
| `Editor.CodeEditor.NextFile` | src/pages/CodeEditor.tsx:388-395 | performs `Session.Next` in place and keeps the session valid |
| `Editor.CodeEditor.Edit` | src/pages/CodeEditor.tsx:125-135 | a keystroke stored into the file active at the time of the edit, which then holds the typed text |
| `Editor.CodeEditor.EditAsWritten` | src/pages/CodeEditor.tsx:125-135 | a keystroke stored into the file whose id the listener captured when the widget was built |
| `Editor.CodeEditor.Reconcile` | src/pages/CodeEditor.tsx:106-154 | does nothing without an active file; otherwise the widget shows the active file with the settings' options, is built once and captures the active id, and the buffer is rewritten only when it differs (the selection is kept when it is not) |
| `Editor.CodeEditor.HandleSearch` | src/pages/CodeEditor.tsx:267-285 | the search from the end of the selection: only the selection changes, to what `Search.Find` selects |
| `Editor.CodeEditor.HandleSearchAsWritten` | src/pages/CodeEditor.tsx:267-285 | the search from offset 0: only the selection changes, to what `Search.Find` selects from 0 |
| `Editor.CodeEditor.SearchFrom` | src/pages/CodeEditor.tsx:272-283 | the two `findNext` attempts select what `Search.Find` selects |
| `Editor.ReconcileTwice` | src/pages/CodeEditor.tsx:138-141 | two reconciliations in a row write the buffer at most once, in the first pass and only when it differed from the active file; the second pass writes nothing |
| `Editor.TypeThenReconcile` | src/pages/CodeEditor.tsx:125-141 | with the corrected listener (`Edit`), typing then reconciling keeps the widget and does not rewrite the buffer |
| `Editor.StaleEditReverted` | src/pages/CodeEditor.tsx:125-141 | with the listener as written, typing after a switch leaves the active file's text unchanged, and the next reconciliation writes that old text back into the buffer: the keystroke disappears |
| `Editor.StartUpEditGoesToUntitled` | src/pages/CodeEditor.tsx:64-141 | from start-up, with the listener as written: after importing a.js and typing, the untitled file holds the typed text, a.js keeps "A", and the next reconciliation shows "A" again |
| `Editor.SwitchAndBack` | src/pages/CodeEditor.tsx:106-143 | for a widget whose `setValue` fires no change event, switching to another file and back keeps the widget, the files and the active id, and the widget shows the active file |

## Left out

- Rendering: the JSX layout, the settings panel, the mobile layout, the
  font size written to the container's style (line 153), `scrollbarStyle`,
  and `scrollIntoView`.
- Toasts and console messages. They carry no state.
- The durable store: reading and writing the "codemate-settings" entry. The
  entry arrives already classified as absent, malformed or parsed. JSON
  parsing and the missing validation of the parsed object are not modelled.
- The file picker, `selectedFile.text()` and the download in `saveFile`
  (lines 177-247). Only the import of an already chosen name and text is
  modelled. `saveFile` always writes "text/plain" and never calls the MIME
  table, so `Languages.MimeTypeByExtension` is modelled but used nowhere.
- `window.matchMedia` itself, and registering and removing the OS
  theme-change listener (lines 91-102). The OS flag is a parameter of
  `Settings.ResolveTheme` and `Settings.OsThemeChange`. Writing the `dark`
  class on the page root is not modelled either.
- Settings.ResolveTheme: its None case follows the `window.matchMedia`
  guard of the mount effect (line 84). The theme select handler (line 509)
  calls `window.matchMedia` without that guard and would fail where it is
  missing; that failure is not modelled.
- The mount effect applies the theme from the first render's settings, not
  the loaded ones, so at mount it always applies the dark theme; this is
  not modelled.
- Editor.CodeEditor.Mount: the mount effect does nothing at all without the
  widget library or the container element (line 65). This early return is
  not modelled.
- Editor.CodeEditor.Reconcile: the reconciliation effect likewise returns
  early without the widget library or the container element (line 107).
  This early return is not modelled.
- Id generation from `Date.now()` and `Math.random()`. A fresh id is a
  parameter.
- React's state scheduling. Each handler is one atomic transition. In the
  source, `closeFile`, the import and Ctrl+Tab read `files` from the last
  render; under one transition per event this is the same list.
- Editor.CodeEditor.Reconcile: CodeMirror's own rendering and its "change"
  event on `setValue` are not part of this model. Under CodeMirror 5,
  `setValue` also fires the change listener, and with the stale capture
  below that copies the new file's text into the captured file.
- Editor.CodeEditor.EditAsWritten: the listener's `!activeFileId` test also
  treats an empty id as absent. Generated ids are never empty, so the model
  tests only for a missing id.
- Editor.Widget.Type: a keystroke replaces the buffer but leaves the
  selection where it was, while CodeMirror moves the cursor to the edit.
  After typing, `Editor.CodeEditor.HandleSearch` therefore starts from the
  selection held before the keystroke.
- Languages.Extension: lower-casing covers ASCII A-Z only, while
  `toLowerCase` folds all of Unicode.
- Search.Find: positions are offsets in the flat buffer rather than
  CodeMirror's line/column pairs, and matching is case-sensitive, as
  CodeMirror's cursor is by default.

## Findings

| source | as written | input that shows it | evidently intended | confidence | as-written member | corrected member |
|---|---|---|---|---|---|---|
| src/pages/CodeEditor.tsx:125-135 | the change listener is registered once, when the widget is built, and keeps the active id of that render | at start-up the widget is built on untitled.txt and its listener keeps that id; open a.js and type: the text is stored in untitled.txt (or in no file once it is closed), a.js keeps its old content, and the next reconciliation writes a.js's old text back into the buffer, so the keystroke vanishes in every file but the start-up one (`Editor.StartUpEditGoesToUntitled`, `Editor.StaleEditReverted`) | edits go to the file that is active when they happen | high, not executed | `Session.StaleListenerMissesActiveFile` | `Editor.CodeEditor.Edit` |
| src/pages/CodeEditor.tsx:270 | `getSearchCursor(query)` is given no start position, so every search starts at the top of the buffer | buffer "abab", query "ab", first "ab" selected: searching again selects [0,2) again, never [2,4) | each search moves on past the current selection, wrapping at the end | medium (relies on CodeMirror 5's default start position), not executed | `Search.RepeatedSearchExample` | `Search.SearchAdvancesPastSelection` |
| src/pages/CodeEditor.tsx:93-97 | the OS theme-change listener is registered once at mount and tests the preference of the first render, which is always the default "dark" | choose "device" in the settings, then switch the OS to dark mode: nothing is applied | under "device" the page follows every OS change | high, not executed | `Settings.StaleThemeListenerIgnoresDevice` | `Settings.OsThemeChange` |
