# gedit core, modelled in Dafny

This project models the parts of gedit that are not widget plumbing and proves properties about them. gedit is the GNOME text editor, and the model covers its older GTK1 code and its later GTK2 code. Each source file in the model becomes one Dafny module, and the model keeps the source's names for its entities:

- **Editing engine.**
  - The undo manager: `gedit/gedit-undo-manager.c`, modelled as the module `GeditUndo`. It holds a stack of insert and delete actions with a redo cursor, typing-merge rules, `order_in_group` grouping and a limit on the number of groups.
  - The plain-text search and replace: `gedit/gedit-search.c`, as `GeditSearch`.
  - The GTK1 views and commands: `gedit/view.c`, `src/view.c` and `src/commands.c`, as `GeditLegacyView`, `GeditSrcView` and `GeditCommands`. The widget state they share is in `LegacyText`. They mirror edits into every view, copy the indentation of the current line and normalise selections.
- **Document state.**
  - `gedit/gedit-text-buffer.c` and `gedit/gedit-document.c`, as `GeditTextBuffer` and `GeditDocument`. They cover marks and the cursor, `goto_line`, the search text and the replace-all loop. The buffer geometry they rely on is in `GtkText`.
  - The untitled-number allocator, as `GeditUntitled`.
  - The saver's decisions: `gedit/gedit-document-saver.c`, as `GeditDocumentSaver`.
  - The preference codecs and guarded setters: `gedit/gedit-prefs-manager.c`, as `GeditPrefsManager`.
- **Tabs and windows.**
  - The tab and view-container state machines with their autosave timer: `gedit/gedit-tab.c` and `gedit/gedit-view-container.c`, as `GeditTab` and `GeditViewContainer`.
  - The search and goto-line popups: `gedit/gedit-view-frame.c` and `gedit/gedit-text-view.c`, as `GeditViewFrame` and `GeditTextView`. The logic the two share is in `GeditSearchEntry`.
  - The notebook's page list and focus history: `gedit/gedit-notebook.c`, as `GeditNotebook`.
  - The print preview's pagination: `gedit/gedit-print-job-preview.c`, as `GeditPrintJobPreview`.
  - The single-instance D-Bus protocol: `gedit/gedit-dbus.c`, as `GeditDBus`.
- **Utilities.**
  - `gedit/gedit-utils.c`, as `GeditUtils`.
  - `gedit/file.c`, as `GeditFile`.
- **File browser plugin.**
  - The tree store: `plugins/filebrowser/gedit-file-browser-store.c`, as `GeditFileBrowserStore`. It covers visibility, paths and iterators over visible nodes, the dummy child and the sort order.
  - The widget's filters and location history: `plugins/filebrowser/gedit-file-browser-widget.c`, as `GeditFileBrowserWidget`.
- **Snippets plugin.**
  - The two placeholder controllers: `plugins/snippets/snippets/Document.py` and `SnippetController.py`, as `SnippetsDocument` and `SnippetsController`. What they share is in `SnippetsCommon`; the path arithmetic is in `SnippetsPaths`.
  - The snippet catalog: `SnippetsLibrary.py`, as `SnippetsLibrary`.

The model keeps each source file's form:

- Objects whose fields the C or Python code updates in place are classes. Their methods carry `modifies` frames and state the whole new state.
- Loops are methods with invariants, proved against specification functions.
- Pure computations are functions. Round trips, preserved invariants and agreement with independent definitions are lemmas.

Integer widths are written out where they matter:

- `guint32` wrap-around in the D-Bus wait ids and the startup timestamp.
- Signed one-bit fields in the notebook.
- The `gulong` to `gint` casts in the print preview.
- Unsigned comparisons in `goto_line`.

I/O, timers, GConf, GTK calls the code only consults and the snippet parser all become parameters, or abstract records of outcomes.

## Model

| member | source | states |
|---|---|---|
| GeditUndo.TextDocument.constructor | gedit/gedit-undo-manager.c:259-287 | the abstract document the manager edits starts with the given text and the cursor at 0 |
| GeditUndo.InsertAt | gedit/gedit-undo-manager.c:389-398 | inserting at a valid offset keeps the text before it, puts the new text there and shifts the rest; an invalid offset leaves the text as it is |
| GeditUndo.DeleteRange | gedit/gedit-undo-manager.c:400-404 | deleting a valid range keeps the text before it and joins the text after it; an invalid range leaves the text as it is |
| GeditUndo.RedoUndoOne | gedit/gedit-undo-manager.c:386-410 | undoing one recorded action and then redoing it gives the text back |
| GeditUndo.UndoRedoOne | gedit/gedit-undo-manager.c:452-476 | redoing one action and then undoing it gives the text back |
| GeditUndo.RedoUndoSeq | gedit/gedit-undo-manager.c:386-410 | undoing a whole group of actions and then redoing it gives the text back |
| GeditUndo.UndoRedoSeq | gedit/gedit-undo-manager.c:452-476 | redoing a whole group and then undoing it gives the text back |
| GeditUndo.GroupCount | gedit/gedit-undo-manager.c:541-542 | the number of actions that open a group never exceeds the number of actions |
| GeditUndo.GroupCountAppend | gedit/gedit-undo-manager.c:726-727 | the group count of two lists put together is the sum of their counts |
| GeditUndo.GroupCountSplit | gedit/gedit-undo-manager.c:770-771 | cutting the list anywhere splits the group count between the two parts |
| GeditUndo.UndoStop | gedit/gedit-undo-manager.c:379-417 | undo stops at the first action at or after its start that opens a group, or at the end of the list; every action it passes continues its group |
| GeditUndo.RedoStop | gedit/gedit-undo-manager.c:484-491 | redo stops at a group boundary or at -1; every action it passes continues its group |
| GeditUndo.RedoStopAt | gedit/gedit-undo-manager.c:484-491 | redo from `j` stops exactly at `k` when `k` is a boundary and every action between continues its group |
| GeditUndo.UndoThenRedoStops | gedit/gedit-undo-manager.c:366-507 | after undo has stopped, redo from there stops again at the redo cursor undo started from |
| GeditUndo.Merge | gedit/gedit-undo-manager.c:797-910 | only mergeable actions of the same kind merge; an insertion merges only right after the last one and not across a blank-to-word boundary; a merged action concatenates the text and sums the lengths; a refused merge leaves the last action unmergeable |
| GeditUndo.MergeInsertBoundaries | gedit/gedit-undo-manager.c:824-838 | an insertion that does not continue the last one, or starts a word after a blank, is never merged; every other mergeable pair is |
| GeditUndo.MergeDeleteBoundaries | gedit/gedit-undo-manager.c:840-880 | a deletion merges only when it touches the last deletion at its start (delete key) or its end (backspace), and not across a word start |
| GeditUndo.MergeKinds | gedit/gedit-undo-manager.c:814-819 | an insertion and a deletion never merge |
| GeditUndo.MergePreservesUndo | gedit/gedit-undo-manager.c:881-903 | undoing a merged action does what undoing the two actions one after the other does |
| GeditUndo.InsertAfterInsert | gedit/gedit-undo-manager.c:881-890 | text typed right after an insertion reads as one insertion and deleting both leaves what deleting the first left |
| GeditUndo.InsertConcat | gedit/gedit-undo-manager.c:891-903 | inserting `x + y` at an offset is inserting `y` and then `x` at that offset (a merged backspace deletion re-inserted) |
| GeditUndo.InsertSplit | gedit/gedit-undo-manager.c:881-890 | inserting `x + y` at an offset is inserting `x` and then `y` right after it |
| GeditUndo.DropRedo | gedit/gedit-undo-manager.c:661-672 | with the redo cursor at `n >= 0` the `n + 1` most recent actions go; with `n < 0` nothing goes |
| GeditUndo.PushedOrders | gedit/gedit-undo-manager.c:674-692 | recording keeps every order in group positive; the list grows by one exactly when the action was not merged, and a merge needs a previous action |
| GeditUndo.DropGroupsSpec | gedit/gedit-undo-manager.c:748-784 | the size check keeps the longest proper prefix at which its loop stops, or nothing |
| GeditUndo.TrimOldestBound | gedit/gedit-undo-manager.c:748-784 | with a limit of at least one, the trimmed list is a prefix holding at most `limit` groups whose oldest action opens a group |
| GeditUndo.TrimOldestOrders | gedit/gedit-undo-manager.c:748-784 | trimming keeps every order positive |
| GeditUndo.UndoManager.constructor | gedit/gedit-undo-manager.c:258-287 | a new manager has no action, no group, redo cursor 0 and neither undo nor redo possible |
| GeditUndo.UndoManager.BeginNotUndoableAction | gedit/gedit-undo-manager.c:289-298 | the not-undoable nesting count goes up by one |
| GeditUndo.UndoManager.EndNotUndoableActionInternal | gedit/gedit-undo-manager.c:300-311 | the nesting count goes down by one and never below zero |
| GeditUndo.UndoManager.EndNotUndoableAction | gedit/gedit-undo-manager.c:313-341 | ending the outermost not-undoable action forgets every action and clears can-undo and can-redo; an inner one changes nothing else |
| GeditUndo.UndoManager.FreeActionList | gedit/gedit-undo-manager.c:509-549 | the list and the group count are emptied |
| GeditUndo.UndoManager.FreeFirstNActions | gedit/gedit-undo-manager.c:701-736 | the `n` most recent actions (all when fewer) go and the group count stays the number of group openers |
| GeditUndo.UndoManager.CheckListSize | gedit/gedit-undo-manager.c:738-784 | the list becomes TrimOldest of the list and the group count stays exact |
| GeditUndo.UndoManager.PushAction | gedit/gedit-undo-manager.c:674-692 | the action is merged into the most recent one or pushed with the next order in group; the group count stays exact |
| GeditUndo.UndoManager.AddAction | gedit/gedit-undo-manager.c:646-699 | the redo history goes, the action is merged or pushed, the list is trimmed; the redo cursor becomes -1, can-undo is set and can-redo cleared |
| GeditUndo.UndoManager.InsertTextHandler | gedit/gedit-undo-manager.c:551-578 | an insertion is ignored while a not-undoable action runs; otherwise it is recorded, mergeable only when it is one character other than a newline |
| GeditUndo.UndoManager.DeleteRangeHandler | gedit/gedit-undo-manager.c:580-618 | a deletion is ignored while a not-undoable action runs; otherwise the deleted text is recorded with its range in order |
| GeditUndo.UndoManager.BeginUserActionHandler | gedit/gedit-undo-manager.c:620-632 | a user action starts a new group unless a not-undoable action runs |
| GeditUndo.UndoManager.Undo | gedit/gedit-undo-manager.c:366-432 | refused without can-undo; otherwise the group is reverted, the redo cursor stops where UndoStop says, can-redo is set and can-undo cleared once the cursor reaches the oldest action |
| GeditUndo.UndoManager.UndoGroup | gedit/gedit-undo-manager.c:376-431 | with can-undo set: the group up to UndoStop is reverted, the not-undoable counter is restored unless the list ran out first, can-redo is set and can-undo cleared at the oldest action |
| GeditUndo.UndoManager.RevertGroup | gedit/gedit-undo-manager.c:376-417 | the not-undoable counter goes up by one and the group is reverted as RevertActions states |
| GeditUndo.UndoManager.RevertActions | gedit/gedit-undo-manager.c:379-417 | the text becomes the undo of the actions from the cursor to UndoStop, the cursor is at the last edit's start, and the result says whether a group boundary was reached |
| GeditUndo.UndoManager.RevertOne | gedit/gedit-undo-manager.c:386-410 | one more action is reverted and the cursor put at its start |
| GeditUndo.UndoManager.Redo | gedit/gedit-undo-manager.c:434-507 | refused without can-redo; otherwise the group is re-applied, the redo cursor stops where RedoStop says, can-undo is set and can-redo cleared once the cursor is below 0 |
| GeditUndo.UndoManager.ReapplyGroup | gedit/gedit-undo-manager.c:444-491 | the text becomes the redo of the actions from RedoStop to the cursor, the cursor is at the first edit's start |
| GeditUndo.UndoManager.ReapplyOne | gedit/gedit-undo-manager.c:452-476 | one more action is re-applied and the redo cursor moves down by one |
| GeditUndo.UndoRangeIsUndoSeq | gedit/gedit-undo-manager.c:379-417 | reverting an index range action by action is undoing that slice as a group |
| GeditUndo.RedoRangeIsRedoSeq | gedit/gedit-undo-manager.c:444-491 | re-applying an index range is redoing that slice as a group |
| GeditUndo.UndoRedoGroupRoundTrip | gedit/gedit-undo-manager.c:366-507 | undo followed by redo of the most recent group restores the text and puts the redo cursor back where it was |
| GeditUndo.RangeRoundTrip | gedit/gedit-undo-manager.c:366-507 | undoing a run of actions over the text they produced and redoing it gives the text back |
| GeditUtils.EscapeAppend | gedit/gedit-utils.c:297-342 | escaping works character by character: the escape of a concatenation is the concatenation of the escapes |
| GeditUtils.EscapeSearchText | gedit/gedit-utils.c:297-342 | NULL gives NULL; otherwise newline, carriage return and tab become two-character escapes and every other character is copied |
| GeditUtils.EscapeRemovesControls | gedit/gedit-utils.c:297-342 | an escaped text holds no newline, carriage return or tab, and a text without them escapes to itself |
| GeditUtils.UnescapeNonEmpty | gedit/gedit-utils.c:344-416 | unescaping a non-empty text never gives an empty one |
| GeditUtils.UnescapeSearchText | gedit/gedit-utils.c:344-416 | NULL gives NULL; otherwise `\n`, `\r`, `\t` and `\\` are decoded, an unknown escape keeps its backslash and character, a trailing backslash is kept |
| GeditUtils.UnescapeEscape | gedit/gedit-utils.c:297-416 | for a text without backslashes, unescaping its escape gives it back |
| GeditUtils.DoubleUnderscoresAppend | gedit/gedit-utils.c:501-538 | doubling underscores works character by character |
| GeditUtils.EscapeUnderscores | gedit/gedit-utils.c:501-538 | every underscore of the given span (the whole text for a negative length) is doubled and everything else copied |
| GeditUtils.DoubleUnderscoresReads | gedit/gedit-utils.c:501-538 | a mnemonic label reader shows the escaped text as the original, and the result is longer by the number of underscores |
| GeditUtils.EscapeSlashes | gedit/gedit-utils.c:543-575 | every slash of the span becomes `-`, everything else is copied, the length is kept and no slash is left |
| GeditUtils.StrMiddleTruncate | gedit/gedit-utils.c:579-623 | a limit below 3 or a short enough string gives a copy; otherwise exactly `limit` characters: the first `(limit-1)/2` characters, an ellipsis and the end of the string |
| GeditUtils.StrMiddleTruncateBounds | gedit/gedit-utils.c:579-623 | with a limit of 3 or more the result is never longer than the limit and keeps the first and the last character |
| GeditUtils.MakeValidUtf8 | gedit/gedit-utils.c:625-662 | the loop builds Repaired: the valid runs copied and each bad byte replaced by U+FFFD |
| GeditUtils.RepairedIsValid | gedit/gedit-utils.c:625-662 | the repaired bytes are always valid UTF-8, and valid input comes back unchanged |
| GeditUtils.ValidConcat | gedit/gedit-utils.c:625-662 | valid UTF-8 followed by valid UTF-8 is valid |
| GeditUtils.ValidPrefixIsValid | gedit/gedit-utils.c:634-640 | the prefix g_utf8_validate accepts is valid UTF-8 |
| GeditUtils.ReplaceHomeDirWithTilde | gedit/gedit-utils.c:689-732 | without a home the URI is kept; the home itself becomes `~`, home + `/` + rest becomes `~/rest`, anything else is kept |
| GeditUtils.TildeRoundTrip | gedit/gedit-utils.c:689-732 | expanding the tilde again gives back any URI that did not start with `~` |
| GeditUtils.HasValidScheme | gedit/gedit-utils.c:824-846 | true exactly when the URI starts with one or more scheme characters followed by `:` |
| GeditUtils.IsValidUri | gedit/gedit-utils.c:848-879 | true exactly when the URI is non-NULL, has a scheme, every byte is in 33..127 and every `%` is followed by two hex digits |
| GeditFile.Absolutise | gedit/file.c:1073-1078 | an absolute name is kept; a relative one is put after the current directory and a slash |
| GeditFile.LastSlashBefore | gedit/file.c:1094-1096 | the last slash before a position, with no slash between it and the position; none when there is no slash |
| GeditFile.RemoveLastDirectory | gedit/file.c:1091-1097 | the output index goes back to the slash that opens the last directory written |
| GeditFile.ConvertToFullPathname | gedit/file.c:1061-1117 | NULL gives NULL; otherwise, for any name, the loop writes exactly Normalise of the absolutised name (`./` dropped, `../` removing the previous component, and a `../` at the root staying at the root), which is NULL only for a name that is still not absolute |
| GeditFile.RewriteStep | gedit/file.c:1085-1110 | one pass of the loop keeps the buffer starting with `/`, makes progress and leaves the rest of the rewrite unchanged |
| GeditFile.RewriteCopies | gedit/file.c:1110 | characters that start neither `../` nor `./` are copied as they are |
| GeditFile.NormaliseKeepsPlainName | gedit/file.c:1085-1113 | an absolute name without `./` or `../` comes out unchanged |
| GeditFile.NormaliseShape | gedit/file.c:1080-1113 | a name is normalised exactly when it is absolute, and then the output starts with `/` and is never longer than the input |
| GeditFile.DocExampleDot | gedit/file.c:1050 | the first documented example: every `./` segment is dropped |
| GeditFile.DocExampleDotDot | gedit/file.c:1051 | the second documented example: each `../` removes one component |
| GeditFile.DotSlashInsideName | gedit/file.c:1103-1107 | `./` is dropped even at the end of a component name: `/a./b` becomes `/ab` |
| GeditFile.RewriteShape | gedit/file.c:1085-1110 | from an absolute name the loop always finishes, on the last character or just past it, with an output that starts with `/` and is no longer than the input read |
| GeditFile.BackUpAsWrittenAgrees | gedit/file.c:1094-1097 | wherever it starts past the root, the back-up loop as written stops on the last slash before the output's last character |
| GeditFile.ClimbAboveRootAsWritten | gedit/file.c:1091-1098 | as written, `/../a` meets its `../` with only `/` written, and the back-up loop then reads the byte before the buffer; the model stays at the root and gives `/a` |
| GeditSearch.PosToLine | gedit/gedit-search.c:112-133 | the line count is the number of newlines; the line is the number of newlines up to and including `pos`, or 0 when `pos` is outside the text |
| GeditSearch.GetLineCount | gedit/gedit-search.c:160-179 | 0 for an empty text, otherwise 1 plus the newlines among the first `length - 2` characters |
| GeditSearch.LastPosOfLine | gedit/gedit-search.c:136-158 | the last offset (up to the bound) that lies on the line, with none after it on that line; 0 when there is none |
| GeditSearch.LineToPos | gedit/gedit-search.c:135-158 | an empty text gives 0 and leaves the count; otherwise the count is the line count and the position is the last offset on the asked line |
| GeditSearch.LineToPosAgreesWithPosToLine | gedit/gedit-search.c:112-158 | the position found for a line lies on that line as pos_to_line counts lines |
| GeditSearch.GetChars | gedit/gedit-search.c:983 | a valid range gives exactly the text between its ends |
| GeditSearch.MatchAtMeans | gedit/gedit-search.c:977-992 | `search` compares exactly the length of the searched text at `pos`, without case iff SEARCH_NOCASE |
| GeditSearch.NoMatchPastEnd | gedit/gedit-search.c:977-992 | nothing matches where the searched text would run past the end |
| GeditSearch.FirstMatch | gedit/gedit-search.c:217-222 | the least matching position in the range, or -1 when none matches |
| GeditSearch.LastMatch | gedit/gedit-search.c:224-230 | the greatest matching position up to the start, or -1 when none matches |
| GeditSearch.SearchSearch | gedit/gedit-search.c:204-233 | the loops compute SearchResult |
| GeditSearch.SearchResultMeans | gedit/gedit-search.c:204-233 | forwards: -1 iff nothing matches from `pos`, else the least match at or after `pos`; backwards: the greatest match starting at or before `pos - len`, or -1 |
| GeditSearch.LineStart | gedit/gedit-search.c:367-389 | the start of the line holding `pos`: 0 or the newline before it, with no newline in between |
| GeditSearch.GetStartIndexOfLine | gedit/gedit-search.c:367-389 | the backward scan stops at LineStart |
| GeditSearch.FindInFileSearch | gedit/gedit-search.c:425-468 | an empty or too short text gives no hit; otherwise one hit per (possibly overlapping, case-sensitive) match, with its line, and the counter is the number of hits |
| GeditSearch.MatchPositions | gedit/gedit-search.c:425-468 | every listed position lies in the searched range and holds a match |
| GeditSearch.MatchPositionsComplete | gedit/gedit-search.c:425-468 | every match position in the range is listed |
| GeditSearch.MatchPositionsIncreasing | gedit/gedit-search.c:425-468 | the positions are listed in strictly increasing order, the order the search loop visits them |
| GeditSearch.HitsFromMeans | gedit/gedit-search.c:425-468 | the hits the loop reports are exactly those of the match positions, each with its line and line start |
| GeditSearch.Editable.DeleteText | gedit/gedit-search.c:241-251 | the clamped range is removed from the text |
| GeditSearch.Editable.InsertText | gedit/gedit-search.c:241-251 | the text is inserted at the clamped position |
| GeditSearch.Editable.SearchReplace | gedit/gedit-search.c:241-251 | the text becomes Replaced: `[pos, pos+len)` deleted and the replacement inserted at `pos` |
| GeditSearch.ReplacedMeans | gedit/gedit-search.c:241-251 | within the text, the replacement sits at `pos` between the untouched prefix and the rest after the old match |
| GeditSearch.AdvanceGuards | gedit/gedit-search.c:907-916 | the guard as written, `!(options \| SEARCH_BACKWARDS)`, is never true; the intended `&` guard is true iff not searching backwards |
| GeditSearch.ReplaceAllAsWrittenLoops | gedit/gedit-search.c:899-920 | as written, replacing `a` by `ab` in `a` followed by `k` b's restarts at 0 on a text that again starts with `a` |
| GeditSearch.ReplaceAll | gedit/gedit-search.c:895-921 | an empty search text replaces nothing and returns 0; otherwise, with the intended guard, the replace-all loop ends and leaves ReplaceAllFrom of the text |
| GeditSearch.EmptySearchRoundRepeats | gedit/gedit-search.c:895-921 | as written, an empty search text always matches at the search position, so each round inserts the replacement and finds a next start, and the loop never ends |
| GeditSearch.ReplaceRoundDecreases | gedit/gedit-search.c:899-920 | with the intended guard each round decreases the measure, so replace-all terminates |
| GeditSearch.ReplaceAllKeepsPrefix | gedit/gedit-search.c:899-920 | going forwards, replace-all never touches the text before the starting position |
| GeditUntitled.LeastFree | gedit/gedit-text-buffer.c:173-196 | the number handed out is the least number from 1 up that is not in use |
| GeditUntitled.UntitledNumbers.constructor | gedit/gedit-text-buffer.c:170 | the table of numbers in use starts empty |
| GeditUntitled.UntitledNumbers.GetUntitledNumber | gedit/gedit-text-buffer.c:173-196 | the loop returns LeastFree of the numbers in use and adds it to them |
| GeditUntitled.UntitledNumbers.ReleaseUntitledNumber | gedit/gedit-text-buffer.c:198-203 | the number leaves the table and nothing else changes |
| GeditUntitled.ReleasedNumberIsReused | gedit/gedit-text-buffer.c:173-203 | once a number is released while every smaller one is in use, the next document gets that number again |
| GeditUntitled.TakeThenRelease | gedit/gedit-text-buffer.c:173-203 | taking a number and releasing it leaves the table as it was |
| GeditUntitled.NumbersAreDistinct | gedit/gedit-text-buffer.c:173-196 | two documents opened one after the other get different numbers |
| GtkText.LineCount | gedit/gedit-text-buffer.c:750 | a buffer always has at least one line, even when empty |
| GtkText.LineAtMonotone | gedit/gedit-text-buffer.c:2159 | a later position is never on an earlier line |
| GtkText.LineStartOf | gedit/gedit-text-buffer.c:760-762 | the start of a line is on that line, at the text start or right after a newline, and every position before it is on an earlier line |
| GtkText.LineStartAt | gedit/gedit-text-buffer.c:2159 | the start of the line holding a position is on the same line, not after the position, and at the text start or right after a newline |
| GtkText.CharsInLine | gedit/gedit-text-buffer.c:779-783 | the line's characters, counted from its start, stay inside the text |
| GtkText.IterAtLine | gedit/gedit-text-buffer.c:760-762 | the iterator for any line, even one out of range, is a position inside the text |
| GtkText.AsGuintFacts | gedit/gedit-text-buffer.c:745-752 | compared with the `guint` line count, a non-negative `gint` line keeps its value and a negative one becomes at least 2^31 |
| GtkText.FindFrom | gedit/gedit-text-buffer.c:1661-1666 | the forward search finds the first occurrence at or after the iterator, or none exists |
| GtkText.ReplaceAllFromLength | gedit/gedit-text-buffer.c:1661-1687 | each replacement changes the length of the text by the difference between the replacement and the searched text |
| GtkText.ReplaceAllFromKeepsPrefix | gedit/gedit-text-buffer.c:1661-1687 | replace-all never touches the text before the position it starts from |
| GtkText.ReplaceAllFromNone | gedit/gedit-text-buffer.c:1661-1687 | the count is 0 exactly when there is no occurrence, and then the text is unchanged |
| GtkText.ShiftMark | gedit/gedit-text-buffer.c:1674-1683 | a mark before the replaced range stays, one after it moves by the change in length, one inside it ends after the inserted text |
| LegacyText.SetPoint | gedit/view.c:216 | the point moves to an index inside the text and stays put for one past the end; text, cursor and selection are untouched |
| LegacyText.InsertAtPoint | gedit/view.c:217-218 | the new text sits at the old point, everything before and after it is kept, and the point ends after the new text |
| LegacyText.ForwardDelete | gedit/view.c:252-253 | a count that fits removes exactly that many characters at the point; a zero count or one past the end changes nothing |
| LegacyText.Inserted | gedit/view.c:211-220 | for a position inside the text, the text gets the insertion there and the point ends after it; cursor and selection are untouched |
| LegacyText.Deleted | gedit/view.c:246-256 | for a range inside the text, exactly that range is removed and the point is left at its start |
| LegacyText.InsertThenDelete | gedit/view.c:211-256 | mirroring an insertion and then deleting the same range gives the text back |
| LegacyText.CharAt | gedit/view.c:350 | one character of the text, or NUL past the end |
| LegacyText.LineStartBefore | gedit/view.c:346-369 | the offset after the last newline before `k`, with no newline between it and `k` |
| LegacyText.BlankRun | gedit/view.c:373-386 | the run of spaces and tabs copied from `from`, stopping at the first other character, at the end of the text or past `limit` |
| LegacyText.ScanIndentation | gedit/view.c:346-386 | the two loops compute Indentation |
| LegacyText.ScanBack | gedit/view.c:346-369 | the backward loop stops at ScanFrom with `newline_1` the start of the line before `pos` |
| LegacyText.CollectBlanks | gedit/view.c:373-386 | the forward loop copies exactly BlankRun |
| LegacyText.IndentationAfterNewline | gedit/view.c:318-397 | right after a typed newline, the indentation inserted is exactly the leading spaces and tabs of the line the newline ends |
| LegacyText.IndentationFirstLine | gedit/view.c:346-386 | with no newline before the cursor, at most one blank is copied |
| LegacyText.SelectionOf | gedit/view.c:816-850 | the selection runs from the smaller end to the larger, and is active iff the two ends differ |
| LegacyText.Applied | gedit/view.c:1104-1128 | TRUE and FALSE set the flag (the widgets follow only when it changes), UNCHANGED and an unknown state change nothing, REFRESH makes both widgets show the flag |
| LegacyText.AppliedKeepsSync | gedit/view.c:1104-1128 | widgets that show the flag keep showing it whatever state is applied |
| LegacyText.AppliedIdempotent | gedit/view.c:1104-1128 | applying the same state twice is the same as applying it once |
| GeditLegacyView.Document.ViewsInsert | gedit/view.c:185-209 | the first edit of an unchanged document with views marks it changed and disconnects the first view's handler; every view but the excluded one gets the insertion; with no view excluded, views that showed the same text still do |
| GeditLegacyView.Document.InsertIntoViews | gedit/view.c:198-206 | every view but the excluded one gets the insertion, the excluded one is untouched |
| GeditLegacyView.Document.ViewsDelete | gedit/view.c:222-244 | an empty or reversed range changes nothing; otherwise every view but the excluded one loses the range, and views that showed the same text still do |
| GeditLegacyView.Document.DeleteFromViews | gedit/view.c:234-243 | every view but the excluded one loses the range, the excluded one is untouched |
| GeditLegacyView.Document.InsertText | gedit/view.c:258-285 | an undo record of the inserted text is appended only when asked, its range ending at the position plus the UTF-8 byte length of the text; the insertion reaches every view, or every view but the one it was typed in |
| GeditLegacyView.Document.DeleteText | gedit/view.c:288-315 | an empty range records and changes nothing; otherwise the deleted characters are recorded for undo when asked and the deletion reaches every view, or all but the typing one |
| GeditLegacyView.View.constructor | gedit/view.c:629-645 | the new view joins the end of the document's views, starts empty with its changed handler connected |
| GeditLegacyView.View.TextChanged | gedit/view.c:127-148 | afterwards the document is changed; the handler is disconnected only by the first change |
| GeditLegacyView.View.Insert | gedit/view.c:211-220 | the widget becomes Inserted at the position |
| GeditLegacyView.View.Delete | gedit/view.c:246-256 | the widget becomes Deleted at the position |
| GeditLegacyView.View.GetPosition | gedit/view.c:755-767 | the larger end of an active selection, otherwise the point |
| GeditLegacyView.View.GetSelection | gedit/view.c:816-850 | the ends in order, active iff they differ |
| GeditLegacyView.View.SetUndo | gedit/view.c:1074-1160 | each switch gets its own state Applied |
| GeditLegacyView.View.ShowUndoState | gedit/view.c:111-120 | afterwards each switch's flag and both its widgets show whether there is something to undo, or to redo |
| GeditLegacyView.View.AutoIndent | gedit/view.c:318-397 | handled iff auto-indent is on, exactly a newline was typed and the text has more than one character; then a non-empty Indentation is inserted at the cursor, otherwise the widget is unchanged |
| GeditSrcView.Document.ViewsInsert | src/view.c:560-589 | an empty insertion changes nothing; otherwise the first edit of an unchanged document with views marks it changed and disconnects the first view's handler, every view but the excluded one gets the insertion, and views that showed the same text still do |
| GeditSrcView.Document.InsertIntoViews | src/view.c:580-588 | every view but the excluded one gets the (non-empty) insertion, the excluded one is untouched |
| GeditSrcView.Document.ViewsDelete | src/view.c:665-682 | an empty or reversed range changes nothing; otherwise every view but the excluded one loses the range, and views that showed the same text still do |
| GeditSrcView.Document.DeleteFromViews | src/view.c:676-681 | every view is visited; all but the excluded one lose the range |
| GeditSrcView.Document.InsertText | src/view.c:591-615 | an undo record of the insertion is appended only when asked, its range ending at the position plus the UTF-8 byte length of the text; the insertion reaches every view, or all but the typing one |
| GeditSrcView.Document.DeleteText | src/view.c:684-711 | an empty range records and changes nothing; otherwise the deleted characters are recorded for undo when asked and the deletion reaches every view, or all but the typing one |
| GeditSrcView.View.constructor | src/view.c:890-914 | the new view joins the end of the document's views with its handler connected; it starts empty when it is the only view or the document is empty, and otherwise holds the document's text with the point after it |
| GeditSrcView.View.TextChanged | src/view.c:849-872 | afterwards the document is changed; the handler is disconnected only by the first change |
| GeditSrcView.View.Insert | src/view.c:540-558 | an empty text leaves the widget; otherwise it becomes Inserted at the position |
| GeditSrcView.View.Delete | src/view.c:636-662 | the excluded view keeps its widget; any other becomes Deleted at the position |
| GeditSrcView.View.GetPosition | src/view.c:325-346 | the larger end of an active selection, otherwise the editable's cursor |
| GeditSrcView.View.GetSelection | src/view.c:264-294 | the ends in order, active iff they differ |
| GeditSrcView.View.SetUndo | src/view.c:1134-1228 | each switch gets its own state Applied |
| GeditSrcView.View.ShowUndoState | src/view.c:813-842 | afterwards each switch's flag and both its widgets show whether there is something to undo, or to redo |
| GeditSrcView.View.SetTabSize | src/view.c:1238-1254 | the widget ends with exactly 50 tab stops, all of the given size |
| GeditCommands.NewlinesFromOneIsLine | src/commands.c:608-624 | inside the text, `point_to_line` gives the 0-based line of the position, except that a newline at offset 0 is not counted |
| GeditCommands.LineBegin | src/commands.c:660-671 | the first offset from `i` inside the text whose 1-based line is `n`, which follows a newline when it is past `i`; none when no offset is on that line |
| GeditCommands.LineBeginOutside | src/commands.c:660-673 | a line number below 1 or past the last line selects nothing |
| GeditCommands.LineEnd | src/commands.c:674-679 | the first newline at or after `i`, or the end of the text |
| GeditCommands.SearchDialog.constructor | src/commands.c:630-652 | the dialog holds the toggles it is given |
| GeditCommands.Document.DocumentChanged | src/commands.c:28-36 | the document is marked changed and the handler disconnected |
| GeditCommands.Document.SaveNo | src/commands.c:50-56 | "don't save" clears the changed mark and asks for the document to be closed |
| GeditCommands.Document.EditableInsert | src/commands.c:680 | the widget becomes Inserted at the position, the offset after the new text is handed back, and the first edit marks the document changed |
| GeditCommands.Document.EditableDelete | src/commands.c:681 | the widget becomes Deleted over the range, and the first edit marks the document changed |
| GeditCommands.Document.AutoIndent | src/commands.c:231-291 | on Return with more than one character of text and auto-indent on, the Indentation from the cursor is inserted at the cursor (marking the document changed); otherwise nothing changes |
| GeditCommands.Document.PointToLine | src/commands.c:608-624 | the loop counts the newlines at offsets 1 to `point - 1` |
| GeditCommands.Document.SearchLine | src/commands.c:657-686 | a line number with no offset on it changes nothing; otherwise the text is unchanged, the point is at the line's first offset, the selection runs from there to the line's newline and the changed flag is put back |
| GeditCommands.Document.ScrollTo | src/commands.c:680-682 | inserting and deleting a space leaves the text, puts the point at the offset and restores the changed flag |
| GeditCommands.Document.SelectRegion | src/commands.c:683 | only the selection bounds change |
| GeditCommands.Document.SearchText | src/commands.c:692-731 | with no match from the start position nothing changes; otherwise the first match is selected, the point is after it, the text is unchanged and the changed flag is put back |
| GeditCommands.Document.SearchStart | src/commands.c:628-738 | `again` is cleared; a search text longer than the document changes nothing; in line mode the result is SearchLine's, otherwise SearchText's from the point (again), the cursor (start at cursor) or 0 |
| GeditDBus.LastOccurrence | gedit/gedit-dbus.c:223 | the last offset where the marker occurs (as `g_strrstr` finds it), with no occurrence after it; none when it does not occur |
| GeditDBus.RunLength | gedit/gedit-dbus.c:234 | the number of leading characters that are digits in the base, followed by a non-digit or the end |
| GeditDBus.BaseAt | gedit/gedit-dbus.c:234 | `strtoul` with base 0 picks base 8, 10 or 16 and starts the digits at or after the given offset |
| GeditDBus.StrToUL | gedit/gedit-dbus.c:232-236 | nothing converted gives value 0 without a range error; the end offset is inside the string; the value fits a 64-bit `gulong` |
| GeditDBus.StartupTimestamp | gedit/gedit-dbus.c:205-244 | the result fits a `guint32`; 0 when DESKTOP_STARTUP_ID is unset or holds no "_TIME" |
| GeditDBus.StrToULDecimal | gedit/gedit-dbus.c:234 | `strtoul` reads the decimal digits of a number back as that number and converts all of them |
| GeditDBus.TimestampAfterDecimal | gedit/gedit-dbus.c:229-243 | the decimal digits of a 32-bit number after the marker give that number |
| GeditDBus.StartupTimestampDecimal | gedit/gedit-dbus.c:205-244 | a DESKTOP_STARTUP_ID ending in "_TIME" and the decimal digits of a 32-bit timestamp gives that timestamp back |
| GeditDBus.StartupTimestampNoNumber | gedit/gedit-dbus.c:236-239 | when what follows the last "_TIME" cannot start a number, the timestamp is 0 |
| GeditDBus.LastTimeMarker | gedit/gedit-dbus.c:223 | in `prefix + "_TIME" + digits`, the last "_TIME" is the one after the prefix |
| GeditDBus.ExtractOptionalParameters | gedit/gedit-dbus.c:1220-1253 | each output holds its key's value when the key is in the table and is left alone otherwise; the answer is true iff some key was found |
| GeditDBus.Bus.constructor | gedit/gedit-dbus.c:942-948 | no WaitDone signal has been emitted yet |
| GeditDBus.WaitData.constructor | gedit/gedit-dbus.c:1438-1443 | the data holds its wait id and waits for nothing yet |
| GeditDBus.WaitData.InstallWaitHandler | gedit/gedit-dbus.c:980-990 | one more object is waited for |
| GeditDBus.WaitData.UnrefWaitHandler | gedit/gedit-dbus.c:960-978 | at 0 nothing happens; otherwise one object fewer is waited for, and the data is released with WaitDone emitted for its id exactly when it was the last one |
| GeditDBus.WaitData.InstallOnEach | gedit/gedit-dbus.c:1477-1484 | one handler per document is installed |
| GeditDBus.WaitData.ReleaseAll | gedit/gedit-dbus.c:960-978 | when every waited-for object goes away, WaitDone is emitted exactly once, with the data's id, and the data is released |
| GeditDBus.NextWaitId | gedit/gedit-dbus.c:1442 | the `guint32` counter goes up by one and wraps from 2^32-1 to 0 |
| GeditDBus.WaitIds | gedit/gedit-dbus.c:1442 | `n` waiting calls hand out `n` ids |
| GeditDBus.WaitIdsCount | gedit/gedit-dbus.c:1442 | until the counter wraps, the ids are the counter plus 1, 2, 3, ..., so from a fresh service none is 0 and no two are alike |
| GeditDBus.Service.constructor | gedit/gedit-dbus.c:101 | the wait id counter starts at 0 |
| GeditDBus.Service.Open | gedit/gedit-dbus.c:1411-1496 | a call that does not wait answers 0 and keeps the counter; a waiting call answers the next id and waits for each loaded document (and the new one when asked), or for the window when there is no document and no pipe |
| GeditDBus.Client.constructor | gedit/gedit-dbus.c:99 | the client holds wait id 0 and has not quit |
| GeditDBus.Client.OnReply | gedit/gedit-dbus.c:465-469 | the client remembers the wait id the service answered with |
| GeditDBus.Client.OnOpenProxySignal | gedit/gedit-dbus.c:479-497 | the client quits exactly on a WaitDone signal carrying its own wait id |
| GeditDBus.Client.ReceiveWaitDone | gedit/gedit-dbus.c:479-497 | after seeing the signals in order, the client has quit exactly when one of them carries its id |
| GeditDocument.GotoLineAsWritten | gedit/gedit-document.c:1196-1221 | as written, with `line > line_count` compared unsigned: the cursor always lands inside the text |
| GeditDocument.GotoLineAsWrittenAcceptsMissingLine | gedit/gedit-document.c:1192-1211 | as written, asking for the line numbered with the line count (which does not exist, lines count from 0) is reported as found, against the promise of the comment above the function |
| GeditDocument.Document.constructor | gedit/gedit-document.c:541-581 | a new document is empty with both marks at 0, untitled with the least free number (now in use), "text/plain", unmodified, writable, with the auto-save flag from its preference and the interval from its preference or the default when that is not positive, and no search text |
| GeditDocument.Document.SetUri | gedit/gedit-document.c:593-645 | an unacceptable URI changes nothing; an acceptable one becomes the URI, and a new URI releases the untitled number and sets the MIME type (given, else "text/plain"); without a URI only a titled document gets its MIME type reset; text, cursor and search text are untouched |
| GeditDocument.Document.EmitCursorMoved | gedit/gedit-document.c:291-300 | `cursor-moved` is emitted unless emission is held back |
| GeditDocument.Document.OnMarkSet | gedit/gedit-document.c:302-334 | a move of either selection mark makes `has-selection` say whether the marks differ and notifies only a change; only the insert mark emits `cursor-moved`; nothing else changes |
| GeditDocument.Document.MoveMark | gedit/gedit-document.c:302-334 | the moved mark is at the position, the other stays, `has-selection` follows and is notified on a change, and the insert mark emits `cursor-moved` |
| GeditDocument.Document.PlaceCursor | gedit/gedit-document.c:1217-1218 | both marks are at the position, there is no selection, a lost selection is notified once and `cursor-moved` is emitted once |
| GeditDocument.Document.SetReadonly | gedit/gedit-document.c:798-832 | the flag follows the value; a read-only document loses its pending auto-save, a writable one keeps what it had |
| GeditDocument.Document.GotoLine | gedit/gedit-document.c:1196-1221 | with the comparison the comment describes: TRUE iff the line exists, and then the cursor is at its start; a missing line (or -1) gives FALSE with the cursor on the last line; a line below -1 is refused and moves nothing; the text is unchanged |
| GeditDocument.Document.SetSearchText | gedit/gedit-document.c:1223-1259 | a non-empty text is stored unescaped, NULL or empty clears it; the flags are kept when DONT_SET_FLAGS is given; `can-search-again` is notified exactly when it flips |
| GeditDocument.Document.GetSearchText | gedit/gedit-document.c:1261-1271 | the stored search text comes back escaped, with the flags |
| GeditDocument.Document.ReplaceAll | gedit/gedit-document.c:1419-1521 | without a replacement or any search text nothing happens and 0 is returned; otherwise the text and count are ReplaceWordsFrom the start, `cursor-moved` is emitted exactly once at the end and emission is re-enabled |
| GeditDocument.Document.ReplaceLoop | gedit/gedit-document.c:1468-1506 | the loop computes ReplaceWordsFrom from the start and emits no `cursor-moved` while held back |
| GeditDocument.Document.ReplaceStep | gedit/gedit-document.c:1470-1504 | one pass either finds no match, and the text and count are then ReplaceWordsFrom's, or keeps the loop on the way to it and brings it closer to the end |
| GeditDocument.Document.ReplaceMatch | gedit/gedit-document.c:1486-1500 | one replacement keeps the loop on the way to ReplaceWordsFrom and brings it closer to the end |
| GeditDocument.Document.DeleteAndInsert | gedit/gedit-document.c:1491-1498 | the match is replaced, both right-gravity marks move as ShiftMark says, and each of the two edits emits `cursor-moved` unless held back |
| GeditDocument.Document.DeleteText | gedit/gedit-document.c:1495-1497 | the range is removed, a mark inside it ends at its start, a mark after it moves back by its length, and `cursor-moved` is emitted unless held back |
| GeditDocument.Document.InsertText | gedit/gedit-document.c:1499-1502 | the text is put in at the position, a mark at or after it moves past the new text, and `cursor-moved` is emitted unless held back |
| GtkText.ReplaceWordsPlain | gedit/gedit-document.c:1468-1506 | without entire-word matching the loop is the text buffer's plain replace-all loop |
| GtkText.ReplaceWordsAllWords | gedit/gedit-document.c:1477-1488 | when every match is a word, entire-word matching changes nothing |
| GtkText.ReplaceWordsNoWords | gedit/gedit-document.c:1477-1488 | when no match is a word, entire-word matching replaces nothing |
| GeditDocument.Document.IsUntitled | gedit/gedit-document.c:1164-1171 | in a valid document, untitled exactly when it holds a positive untitled number, which only a document without a URI holds |
| GeditDocument.Document.IsUntouched | gedit/gedit-document.c:1155-1163 | a document is untouched exactly when it has no URI and is unmodified, so an untouched document is untitled |
| GeditDocument.Document.CanSearchAgain | gedit/gedit-document.c:1274-1279 | in a valid document, searching again is possible exactly when a non-empty search text is set |
| GeditTextBuffer.StepColumnBounds | gedit/gedit-text-buffer.c:2164-2172 | every character advances the column by at least one and at most a tab stop |
| GeditTextBuffer.ExpandedWidthBounds | gedit/gedit-text-buffer.c:2160-2173 | the column is at least the number of characters before the cursor on its line and at most that many tab stops |
| GeditTextBuffer.ExpandedWidthNoTabs | gedit/gedit-text-buffer.c:2160-2173 | without tabs the column is the number of characters before the cursor on its line |
| GeditTextBuffer.ExpandedWidthTabStop | gedit/gedit-text-buffer.c:2168 | after a tab the column is the next multiple of the tab size |
| GeditTextBuffer.StepColumnTab | gedit/gedit-text-buffer.c:2168 | a tab moves the column to the next multiple of the tab size |
| GeditTextBuffer.TextBuffer.constructor | gedit/gedit-text-buffer.c:1008-1060 | a new buffer is empty, untitled with the least free number (now in use), unmodified, with no search text, the given encoding and nothing notified |
| GeditTextBuffer.TextBuffer.SetUri | gedit/gedit-text-buffer.c:542-563 | an unacceptable or unchanged URI changes nothing; an acceptable new one becomes the URI and releases the untitled number; the buffer is titled afterwards iff it was or the URI was acceptable |
| GeditTextBuffer.TextBuffer.EmitCursorMoved | gedit/gedit-text-buffer.c:340-349 | `cursor-moved` is emitted unless emission is held back |
| GeditTextBuffer.TextBuffer.PlaceCursor | gedit/gedit-text-buffer.c:351-367 | the cursor is at the position and `cursor-moved` is emitted once unless held back; nothing else changes |
| GeditTextBuffer.TextBuffer.GotoLine | gedit/gedit-text-buffer.c:740-768 | TRUE iff the line exists, and then the cursor is at its start; otherwise (including negative lines, compared unsigned) FALSE with the cursor at the end of the text |
| GeditTextBuffer.TextBuffer.GotoLineOffset | gedit/gedit-text-buffer.c:770-796 | on the line (the last one when it does not exist), TRUE iff the offset is within the line's characters and the cursor is there; otherwise FALSE with the cursor at the line start |
| GeditTextBuffer.TextBuffer.GetCursorPosition | gedit/gedit-text-buffer.c:2146-2176 | the row is the cursor's line and the column is the width of the text before the cursor on that line with tabs expanded |
| GeditTextBuffer.TextBuffer.SetSearchText | gedit/gedit-text-buffer.c:1369-1429 | a non-empty text is stored unescaped, an empty one is stored as empty, NULL keeps the old one; the flags are kept with DONT_SET_FLAGS; the search region is refreshed once when the text or the flags change; `can-search-again` is notified exactly when it flips |
| GeditTextBuffer.TextBuffer.GetSearchText | gedit/gedit-text-buffer.c:1431-1441 | the stored search text comes back escaped, with the flags |
| GeditTextBuffer.TextBuffer.ReplaceAll | gedit/gedit-text-buffer.c:1590-1705 | with nothing to search for nothing happens and 0 is returned; otherwise the text and count are ReplaceWordsFrom the start for the unescaped texts, skipping a match that is not a word when GEDIT_SEARCH_ENTIRE_WORD is set, `cursor-moved` is emitted exactly once, and both highlightings are restored |
| GeditTextBuffer.TextBuffer.ReplaceMatches | gedit/gedit-text-buffer.c:1649-1687 | the loop computes ReplaceWordsFrom from the start, with or without entire-word matching, emitting no `cursor-moved` while held back |
| GeditTextBuffer.TextBuffer.ReplaceStep | gedit/gedit-text-buffer.c:1651-1685 | one pass either finds no match, and the text and count are then ReplaceWordsFrom's, or keeps the loop on the way to it (stepping over a non-word match or replacing the match) and brings it closer to the end |
| GeditTextBuffer.TextBuffer.ReplaceMatch | gedit/gedit-text-buffer.c:1669-1682 | one replacement of a match that entire-word matching accepts keeps the loop on the way to ReplaceWordsFrom and brings it closer to the end |
| GeditTextBuffer.TextBuffer.DeleteAndInsert | gedit/gedit-text-buffer.c:1673-1680 | the match is replaced, the cursor moves as ShiftMark says and each edit emits `cursor-moved` unless held back |
| GeditTextBuffer.TextBuffer.SetEncoding | gedit/gedit-text-buffer.c:952-978 | the same encoding changes nothing; a new one is stored and notified once, and written to the metadata with the URI only when set by the user |
| GeditTextBuffer.TextBuffer.IsUntitled | gedit/gedit-text-buffer.c:706-712 | in a valid buffer, untitled exactly when it holds a positive untitled number, which only a buffer without a URI holds |
| GeditTextBuffer.TextBuffer.IsUntouched | gedit/gedit-text-buffer.c:698-704 | a buffer is untouched exactly when it has no URI and is unmodified, so an untouched buffer is untitled |
| GeditTextBuffer.TextBuffer.CanSearchAgain | gedit/gedit-text-buffer.c:1443-1450 | searching again needs a non-empty search text; a set search text that does not allow it is empty |
| GeditTextBuffer.GotoLineLands | gedit/gedit-text-buffer.c:740-768 | goto-line succeeds exactly for an existing line and then lands at that line's start, right after a newline or at 0; otherwise it lands at the end of the text |
| GeditTextBuffer.GotoLineOffsetLands | gedit/gedit-text-buffer.c:770-796 | goto-line-offset stays within the line asked for, or the last line when it does not exist; it succeeds exactly when the offset is within the line's characters and then lands at that offset, otherwise at the line start |
| GeditDocumentSaver.WrittenUtf8 | gedit/gedit-document-saver.c:184-293 | in UTF-8 the file holds the contents plus at most one newline: empty iff the contents are, otherwise ending in a newline, one longer exactly when a newline was needed, and saving it again writes the same bytes |
| GeditDocumentSaver.PayloadWritten | gedit/gedit-document-saver.c:184-293 | the pieces written together make up Written, and they exist exactly when Written does |
| GeditDocumentSaver.WrittenPart | gedit/gedit-document-saver.c:234-290 | a short or failed write leaves a prefix of the bytes it was given |
| GeditDocumentSaver.WriteDocumentContents | gedit/gedit-document-saver.c:184-293 | success iff every I/O step succeeds and the contents convert to the encoding, and then the file holds Written; a failed conversion, seek or truncation leaves the file as it was; a later write failure leaves a prefix of Written, since the file was already truncated |
| GeditDocumentSaver.BackupExt | gedit/gedit-document-saver.c:322-326 | the backup extension is never empty: the configured one, or `~` |
| GeditDocumentSaver.Variant | gedit/gedit-document-saver.c:336-340 | the variant name is as long as the path plus the extension |
| GeditDocumentSaver.GetBackupFilename | gedit/gedit-document-saver.c:317-356 | when the backup is kept or `path + ext` is free, that name; otherwise, for a path of at least two characters, the variant with the greatest letter in `b`..`z` that is free while every greater one exists, or none when they all exist down to `b`; a one-character path gives none |
| GeditDocumentSaver.RemoveFile | gedit/gedit-document-saver.c:359-367 | removing succeeds unless `unlink` failed for a reason other than a missing file |
| GeditDocumentSaver.Refusal | gedit/gedit-document-saver.c:499-545 | a directory, a non-regular file and a file without any write bit are refused in that order; a writable regular file is refused as externally modified iff the document has an mtime, the file's differs and IGNORE_MTIME is not set; otherwise nothing is refused |
| GeditDocumentSaver.DocumentSaver.constructor | gedit/gedit-document-saver.c:155-179 | the saver starts with the original file's bytes, no error, no strategy, no backup and no completion signal |
| GeditDocumentSaver.DocumentSaver.Setup | gedit/gedit-document-saver.c:1344-1397 | the URI, flags and mtime are stored; a backup is kept iff the preference says so and the save does not PRESERVE_BACKUP; backups live next to the file; a missing encoding means UTF-8 |
| GeditDocumentSaver.DocumentSaver.SaveExistingLocalFile | gedit/gedit-document-saver.c:476-877 | exactly one completion signal; a failed stat or a refusal leaves the file alone; the tmp-file strategy is used only when it applies and the tmp file was prepared; a backup that cannot be made stops the fallback before the original is touched; a copy-and-overwrite save that reaches the original leaves it unchanged or holding a prefix of Written; on success the file holds Written, the mtime is the new one, and the old contents survive as the backup iff it is kept |
| GeditDocumentSaver.DocumentSaver.TmpFileSave | gedit/gedit-document-saver.c:624-720 | on success the file holds Written with the new mtime and the backup holds the old contents iff kept; the original is left as it was unless writing the tmp file and both renames succeed |
| GeditDocumentSaver.DocumentSaver.CopyAndOverwriteSave | gedit/gedit-document-saver.c:722-862 | unless IGNORE_BACKUP, a failed backup copy stops the save with the original unchanged; once the original is overwritten it stays as it was after a failed conversion, seek or truncation and otherwise holds a prefix of Written, all of it on success; the backup holds the old contents iff kept; with IGNORE_BACKUP the backup is untouched |
| GeditPrefsManager.WrapModeFromString | gedit/gedit-prefs-manager.c:626-644 | a stored name never reads as WORD_CHAR, and any name other than NONE and CHAR reads as WORD |
| GeditPrefsManager.WrapModeRoundTrip | gedit/gedit-prefs-manager.c:626-688 | a wrap mode stored and read back is the same mode, except WORD_CHAR, which comes back as WORD; storing what was read stores the same name again |
| GeditPrefsManager.PrintWrapModeFromString | gedit/gedit-prefs-manager.c:809-833 | the print wrap mode never reads as WORD_CHAR, and any name other than NONE and WORD reads as CHAR |
| GeditPrefsManager.PrintWrapModeRoundTrip | gedit/gedit-prefs-manager.c:809-858 | a print wrap mode stored and read back is the same mode, except WORD_CHAR, which comes back as CHAR |
| GeditPrefsManager.WrapDefaultsDiffer | gedit/gedit-prefs-manager.c:626-644 | the same unknown name reads as WORD for the editor and as CHAR for printing |
| GeditPrefsManager.SaveEncodingFromString | gedit/gedit-prefs-manager.c:552-581 | any name other than the three locale/original-encoding settings reads as always-UTF-8 |
| GeditPrefsManager.SaveEncodingRoundTrip | gedit/gedit-prefs-manager.c:552-611 | every save-encoding setting reads back as itself, and distinct settings are stored under distinct names |
| GeditPrefsManager.ToolbarStyleFromString | gedit/gedit-prefs-manager.c:727-757 | any name other than the three explicit styles reads as the system style |
| GeditPrefsManager.ToolbarStyleRoundTrip | gedit/gedit-prefs-manager.c:727-786 | every toolbar style reads back as itself, and distinct styles are stored under distinct names |
| GeditPrefsManager.HexDigit | gedit/gedit-prefs-manager.c:303-312 | a digit below 16 prints as a lowercase hexadecimal character |
| GeditPrefsManager.Hex4 | gedit/gedit-prefs-manager.c:303-312 | `%04x` of a 16-bit component is exactly four characters |
| GeditPrefsManager.HexDigitValue | gedit/gedit-prefs-manager.c:303-312 | the printed digit denotes the digit's value |
| GeditPrefsManager.Hex4RoundTrip | gedit/gedit-prefs-manager.c:303-339 | the four printed digits denote the component again |
| GeditPrefsManager.ColorToString | gedit/gedit-prefs-manager.c:303-312 | a colour prints as `#` and twelve lowercase hex digits |
| GeditPrefsManager.ColorToStringRoundTrip | gedit/gedit-prefs-manager.c:303-339 | the red, green and blue components can be read back from their four-digit groups |
| GeditPrefsManager.GetBool | gedit/gedit-prefs-manager.c:1122-1154 | the stored boolean when the key holds one, else the default |
| GeditPrefsManager.GetInt | gedit/gedit-prefs-manager.c:1181-1213 | the stored integer when the key holds one, else the default |
| GeditPrefsManager.GetString | gedit/gedit-prefs-manager.c:1156-1179 | the stored string when the key holds one, else the default |
| GeditPrefsManager.StoredValuesReadBack | gedit/gedit-prefs-manager.c:207-290 | a value stored under a key is read back under its own type whatever the default, and a value of another type gives the default |
| GeditPrefsManager.EncodingsOf | gedit/gedit-prefs-manager.c:923-968 | the encoding list is never longer than the stored charset list |
| GeditPrefsManager.EncodingsOfAppend | gedit/gedit-prefs-manager.c:923-968 | mapping a charset list maps each part independently, so the loop can extend its result one charset at a time |
| GeditPrefsManager.Charsets | gedit/gedit-prefs-manager.c:970-1003 | one charset per encoding, in list order |
| GeditPrefsManager.EncodingsRoundTrip | gedit/gedit-prefs-manager.c:923-1003 | a list of known encodings written and read back is the same list |
| GeditPrefsManager.PrefsManager.constructor | gedit/gedit-prefs-manager.c:165-194 | the manager starts on the given store and writable keys |
| GeditPrefsManager.PrefsManager.SetBool | gedit/gedit-prefs-manager.c:251-262 | only a writable key is written, with the boolean; the writable set is unchanged |
| GeditPrefsManager.PrefsManager.SetInt | gedit/gedit-prefs-manager.c:264-275 | only a writable key is written, with the integer |
| GeditPrefsManager.PrefsManager.SetString | gedit/gedit-prefs-manager.c:277-290 | only a writable key is written, with the string |
| GeditPrefsManager.PrefsManager.SetWrapMode | gedit/gedit-prefs-manager.c:665-688 | a writable key stores the mode's name, and reading it back gives the mode unless it was WORD_CHAR |
| GeditPrefsManager.PrefsManager.SetPrintWrapMode | gedit/gedit-prefs-manager.c:835-858 | a writable key stores the print mode's name, and reading it back gives the mode unless it was WORD_CHAR |
| GeditPrefsManager.PrefsManager.SetSaveEncoding | gedit/gedit-prefs-manager.c:584-611 | a writable key stores the setting, which then reads back as itself |
| GeditPrefsManager.PrefsManager.SetToolbarStyle | gedit/gedit-prefs-manager.c:759-786 | a writable key stores the style, which then reads back as itself |
| GeditPrefsManager.PrefsManager.GetEncodings | gedit/gedit-prefs-manager.c:923-968 | the stored charsets mapped in order, `current` standing for the locale's charset and unknown ones dropped; no list stored gives the empty list |
| GeditPrefsManager.PrefsManager.SetEncodings | gedit/gedit-prefs-manager.c:970-1003 | a writable key stores the charsets of the encodings in order; otherwise nothing changes |
| GeditPrefsManager.PrefsManager.GetWrapMode | gedit/gedit-prefs-manager.c:647-663 | a wrap mode stored under its own name reads back as itself (WORD_CHAR is never read back); the result is never WORD_CHAR |
| GeditPrefsManager.PrefsManager.GetPrintWrapMode | gedit/gedit-prefs-manager.c:809-833 | a print wrap mode stored under its own name reads back as itself; the result is never WORD_CHAR |
| GeditPrefsManager.PrefsManager.GetSaveEncoding | gedit/gedit-prefs-manager.c:552-581 | a save-encoding setting stored under its own name reads back as itself |
| GeditPrefsManager.PrefsManager.GetToolbarStyle | gedit/gedit-prefs-manager.c:727-757 | a toolbar style stored under its own name reads back as itself |
| GeditTab.SavingErrorArea | gedit/gedit-tab.c:1260-1335 | a failed save shows the externally-modified area exactly for that error, the no-backup area exactly for a failed backup, the conversion area exactly for a conversion error, and the unrecoverable area for every other document error |
| GeditTab.CanClose | gedit/gedit-tab.c:2205-2233 | a tab loading, reverting or whose load failed can always close; one whose save failed never can; any other exactly when the document is neither modified nor deleted |
| GeditTab.CanCloseKeepsChanges | gedit/gedit-tab.c:2205-2233 | with unsaved changes or a deleted file, a tab can close exactly when its file is still being read or failed to load |
| GeditTab.TabName | gedit/gedit-tab.c:1481-1522 | the name is at most 40 characters after an optional `*` marking a modified document; a short name is kept whole, a long one keeps its first 19 characters, an ellipsis and its last 20 characters |
| GeditTab.Tab.constructor | gedit/gedit-tab.c:1352-1426 | a new tab is NORMAL with no timer and an untitled, unmodified document; autosave is on iff the preference is non-zero, and a non-positive interval is replaced by the default |
| GeditTab.Tab.ObserveDocument | gedit/gedit-tab.c:407-423 | the tab sees the document's new name, encoding and flags |
| GeditTab.Tab.SetState | gedit/gedit-tab.c:374-403 | the state becomes the new one, and the `state` property is notified only when it changed |
| GeditTab.Tab.AddTimeout | gedit/gedit-tab.c:100-125 | a new timer gets a fresh id with the given period |
| GeditTab.Tab.InstallAutoSaveTimeout | gedit/gedit-tab.c:100-125 | with no timer running and autosave on outside I/O, a timer with the interval in minutes is installed |
| GeditTab.Tab.InstallIfNeeded | gedit/gedit-tab.c:127-150 | in a settled state a timer is installed exactly when autosave is on and the document is titled and writable |
| GeditTab.Tab.RemoveAutoSaveTimeout | gedit/gedit-tab.c:152-163 | the timer is removed and its id cleared |
| GeditTab.Tab.Load | gedit/gedit-tab.c:1768-1796 | from NORMAL the tab enters LOADING with its timer removed, keeps the line position and encoding, and asks the document to load the URI |
| GeditTab.Tab.Revert | gedit/gedit-tab.c:1798-1828 | from NORMAL, for a titled document, the tab enters REVERTING and reloads its own URI in its own encoding at line 0 |
| GeditTab.Tab.Save | gedit/gedit-tab.c:1830-1855 | from a settled state the tab enters SAVING with the timer removed, keeps the document's URI and encoding, and asks for a save with the tab's flags |
| GeditTab.Tab.AutoSaveTick | gedit/gedit-tab.c:1857-1921 | an unmodified document keeps the timer and changes nothing; a modified one outside a settled state retries in 30 seconds; otherwise the document is saved preserving the backup and the timer stops |
| GeditTab.Tab.SaveAs | gedit/gedit-tab.c:1923-1955 | from a settled state the tab enters SAVING with the new URI and encoding and clears its kept flags |
| GeditTab.Tab.DocumentLoaded | gedit/gedit-tab.c:872-1039 | a failed load enters LOADING_ERROR or REVERTING_ERROR, a cancelled one with no message area; a successful one returns to NORMAL, drops the kept line and encoding, and installs a timer exactly when one is wanted |
| GeditTab.Tab.EndSaving | gedit/gedit-tab.c:1096-1106 | the kept URI and encoding are dropped and a timer runs exactly when one is wanted |
| GeditTab.Tab.DocumentSaved | gedit/gedit-tab.c:1242-1350 | a failed save enters SAVING_ERROR with the area SavingErrorArea chooses and keeps the URI for a retry; a successful one returns to NORMAL or the print preview and re-arms the timer exactly when wanted |
| GeditTab.Tab.GiveUpSaving | gedit/gedit-tab.c:1108-1127 | dismissing an unrecoverable save returns to NORMAL or the print preview, clears the area and re-arms the timer exactly when wanted |
| GeditTab.Tab.NoBackupResponse | gedit/gedit-tab.c:1129-1162 | saving anyway saves again with IGNORE_BACKUP added to the kept flags; declining ends the save without changing them |
| GeditTab.Tab.ExternallyModifiedResponse | gedit/gedit-tab.c:1164-1196 | saving anyway saves again ignoring the mtime for this save only; declining ends the save |
| GeditTab.Tab.ConversionErrorResponse | gedit/gedit-tab.c:1198-1240 | with an encoding chosen the save is retried as a save-as to the same URI in that encoding; otherwise the save ends |
| GeditTab.Tab.MarkForClosing | gedit/gedit-tab.c:2196-2203 | from NORMAL the tab enters CLOSING |
| GeditTab.Tab.SetAutoSaveEnabled | gedit/gedit-tab.c:2261-2307 | the same value changes nothing; disabling stops the timer; enabling starts one exactly when the document is titled, writable and not under I/O |
| GeditTab.Tab.SetAutoSaveInterval | gedit/gedit-tab.c:2337-2369 | the same interval changes nothing; a new one is stored and a running timer is restarted with it |
| GeditTab.Tab.StartSaving | gedit/gedit-tab.c:1845-1849 | the tab enters SAVING (notified only when it was not already saving) and keeps the document's URI and encoding for the save, with the requested flags |
| GeditViewContainer.SavingErrorArea | gedit/gedit-view-container.c:1421-1489 | the externally-modified area exactly for that document error, the no-backup area for a failed backup in either the document or the I/O domain, the conversion area exactly for a conversion error, and the unrecoverable area for every other failure |
| GeditViewContainer.SavingErrorAreaExtendsTab | gedit/gedit-view-container.c:1421-1489 | on every failure outside the I/O domain the container chooses the same area as the tab |
| GeditViewContainer.CanClose | gedit/gedit-view-container.c:2879-2907 | a container loading, reverting or whose load failed can close; one whose save failed cannot; any other exactly when nothing is modified or deleted |
| GeditViewContainer.FlagsForSave | gedit/gedit-view-container.c:2306-2323 | a save from the external-modification prompt adds IGNORE_MTIME to the kept flags and changes no other flag; from any other state the kept flags are used |
| GeditViewContainer.SaveAsFlagsAsWritten | gedit/gedit-view-container.c:2420-2447 | as written, save-as always passes the just-reset kept flags, whatever the state |
| GeditViewContainer.SaveAsAsWrittenChecksMtime | gedit/gedit-view-container.c:2420-2447 | as written, a save-as from the prompt checks the modification time again, although a plain save from the same prompt does not |
| GeditViewContainer.ViewContainer.constructor | gedit/gedit-view-container.c:1727-1810 | a new container is NORMAL, asks about external modifications, and autosaves iff the preference is on and saving to disk is not locked down; a non-positive interval becomes the default |
| GeditViewContainer.ViewContainer.ObserveDocument | gedit/gedit-view-container.c:512-528 | the container sees the document's new name, encoding and flags |
| GeditViewContainer.ViewContainer.SetState | gedit/gedit-view-container.c:479-510 | the state becomes the new one, notified only when it changed |
| GeditViewContainer.ViewContainer.AddTimeout | gedit/gedit-view-container.c:124-149 | a new timer gets a fresh id with the given period in seconds |
| GeditViewContainer.ViewContainer.InstallAutoSaveTimeout | gedit/gedit-view-container.c:124-149 | with autosave on outside I/O, a timer of the interval in minutes is installed |
| GeditViewContainer.ViewContainer.InstallIfNeeded | gedit/gedit-view-container.c:151-178 | a timer is installed exactly when the container is not closing, autosave is on and the document is titled and writable |
| GeditViewContainer.ViewContainer.RemoveAutoSaveTimeout | gedit/gedit-view-container.c:180-191 | the timer is removed |
| GeditViewContainer.ViewContainer.Load | gedit/gedit-view-container.c:2226-2249 | from NORMAL the container enters LOADING with no timer, keeps the line position and encoding and asks for the URI to be loaded |
| GeditViewContainer.ViewContainer.Revert | gedit/gedit-view-container.c:2251-2287 | from NORMAL or the prompt, the container enters REVERTING, hides the prompt, and reloads its own URI in its own encoding |
| GeditViewContainer.ViewContainer.Save | gedit/gedit-view-container.c:2289-2331 | the container enters SAVING with no timer; from the prompt the message is hidden and the save ignores the mtime |
| GeditViewContainer.ViewContainer.AutoSaveTick | gedit/gedit-view-container.c:2333-2397 | an unmodified document keeps the timer; a modified one outside NORMAL or the print preview retries in 30 seconds; otherwise it is saved preserving the backup |
| GeditViewContainer.ViewContainer.SaveAs | gedit/gedit-view-container.c:2399-2448 | the container enters SAVING with the new URI and encoding and reset flags, passing IGNORE_MTIME when saving from the prompt |
| GeditViewContainer.ViewContainer.DocumentLoaded | gedit/gedit-view-container.c:1003-1198 | a failed load enters the matching error state, a cancelled one without a message; a successful one returns to NORMAL, asks about external modifications again and re-arms the timer exactly when wanted |
| GeditViewContainer.ViewContainer.EndSaving | gedit/gedit-view-container.c:1256-1265 | the kept URI and encoding are dropped and a timer runs exactly when wanted |
| GeditViewContainer.ViewContainer.DocumentSaved | gedit/gedit-view-container.c:1401-1522 | a failed save enters SAVING_ERROR with the area SavingErrorArea chooses; a successful one returns to NORMAL or the preview, asks about external modifications again and re-arms the timer exactly when wanted |
| GeditViewContainer.ViewContainer.GiveUpSaving | gedit/gedit-view-container.c:1267-1286 | dismissing an unrecoverable save returns to NORMAL or the preview and re-arms the timer exactly when wanted |
| GeditViewContainer.ViewContainer.NoBackupResponse | gedit/gedit-view-container.c:1288-1321 | saving anyway keeps IGNORE_BACKUP in the flags and saves again; declining ends the save |
| GeditViewContainer.ViewContainer.ExternallyModifiedResponse | gedit/gedit-view-container.c:1323-1355 | saving anyway saves again ignoring the mtime this once; declining ends the save |
| GeditViewContainer.ViewContainer.ConversionErrorResponse | gedit/gedit-view-container.c:1357-1399 | with an encoding chosen the save is retried to the same URI in it; otherwise the save ends |
| GeditViewContainer.ViewContainer.ViewFocusedIn | gedit/gedit-view-container.c:1579-1618 | only in NORMAL, while the container still asks, and for a local file changed on disk is the prompt shown; otherwise nothing changes |
| GeditViewContainer.ViewContainer.NotificationResponse | gedit/gedit-view-container.c:1524-1547 | reloading reverts the document; ignoring returns to NORMAL and stops asking until the next load or save |
| GeditViewContainer.ViewContainer.MarkForClosing | gedit/gedit-view-container.c:2870-2877 | from NORMAL the container enters CLOSING |
| GeditViewContainer.ViewContainer.SetAutoSaveEnabled | gedit/gedit-view-container.c:2935-2987 | autosave becomes the request unless saving to disk is locked down; no change changes nothing; off stops the timer; on starts one exactly when the document is titled, writable and not under I/O |
| GeditViewContainer.ViewContainer.SetAutoSaveInterval | gedit/gedit-view-container.c:3017-3049 | the same interval changes nothing; a new one restarts a running timer with it |
| GeditViewContainer.ViewContainer.Name | gedit/gedit-view-container.c:1881-1924 | the tab name of the short name, at most 40 characters, preceded by `*` exactly when the document is modified |
| GeditViewFrame.ViewFrame.constructor | gedit/gedit-view-frame.c:1404-1453 | a new frame shows no popup, runs no timer, and keeps no old search text or flags |
| GeditViewFrame.ViewFrame.Selection | gedit/gedit-view-frame.c:1177-1199 | there is a selected text exactly when the two marks differ, and it is the text between them |
| GeditViewFrame.ViewFrame.AddTimeout | gedit/gedit-view-frame.c:1336-1338 | a new timer gets a fresh, positive id |
| GeditViewFrame.ViewFrame.Hide | gedit/gedit-view-frame.c:146-217 | while popdown is disabled nothing changes; otherwise the popup closes, its timer and start mark go, and a cancelled search puts the cursor back at the start mark |
| GeditViewFrame.ViewFrame.FlushTimeoutFired | gedit/gedit-view-frame.c:282-293 | the timer clears its id and closes the popup unless popdown is disabled, leaving the selection where it is |
| GeditViewFrame.ViewFrame.InitSearchEntry | gedit/gedit-view-frame.c:1201-1270 | the fresh entry is set to the 1-based line of the start mark (goto line) or to a selection of at most 160 characters, else empty (search); that setting has the effect SetTextOutcome gives, including the "changed" search or jump it runs; in search mode the document's search text is kept for Escape, even when it is missing, its non-zero flags too, and it goes into the completion list |
| GeditViewFrame.ViewFrame.KeepDocumentSearch | gedit/gedit-view-frame.c:1238-1251 | the kept search text becomes the document's search text, missing or not, so it never refers to a text already released; non-zero flags replace the kept flags; the text goes to the front of the completion list |
| GeditViewFrame.ViewFrame.SetEntryText | gedit/gedit-view-frame.c:1259-1266 | setting an unchanged text does nothing; otherwise the entry holds the text as the insert handler lets it in, the bell rings for a refused goto entry, and the "changed" handler runs on the result, as SetTextOutcome states; the document search text is set exactly when SetsSearchText says so |
| GeditViewFrame.ViewFrame.StartInteractiveSearch | gedit/gedit-view-frame.c:1272-1344 | a popup already open in the requested mode changes nothing; otherwise an open popup in the other mode is first hidden as cancelled, then the popup opens in the requested mode with a timer and its start mark at the selection bound (search) or the cursor (goto line); the entry shows the escaped selection or the line number, with the effect SetTextOutcome gives; a goto popup puts the cursor at the start of its line; the buffer text never changes |
| GeditViewFrame.ViewFrame.ShowPopup | gedit/gedit-view-frame.c:1295-1312 | the popup is shown in the requested mode with a new, empty entry, its start mark at the selection bound for a search and at the cursor for goto line |
| GeditViewFrame.ViewFrame.Open | gedit/gedit-view-frame.c:1295-1338 | the popup opens with a running timer, the entry initialised from the selection the frame had before, and the document search kept for Escape in search mode |
| GeditViewFrame.ViewFrame.InsertText | gedit/gedit-view-frame.c:726-819 | in goto-line mode an accepted insertion goes in and a refused one only rings the bell; in search mode the escaped text goes in |
| GeditViewFrame.ViewFrame.RunSearch | gedit/gedit-view-frame.c:332-452 | the match SearchResult gives is selected; without one, a search while typing goes back to the start mark and any other keeps the selection; the entry turns red exactly when a non-empty text is not found |
| GeditViewFrame.ViewFrame.SearchInit | gedit/gedit-view-frame.c:902-1022 | a running timer is restarted; in search mode the document's search text is set exactly when the text or flags differ; the marks and the entry colour become SearchInitEffect: the match is selected, or an unmatched search puts both marks at the start and turns the entry red; a goto-line entry moves both marks to where the jump to GotoLineTarget lands and is red exactly when the jump fails |
| GeditViewFrame.ViewFrame.JumpToEntry | gedit/gedit-view-frame.c:949-1020 | the cursor and the selection bound go where GotoJump puts them for GotoLineTarget of the entry from the start mark's line, and the entry is red exactly when the line or the column does not exist |
| GeditViewFrame.ViewFrame.EscapePressed | gedit/gedit-view-frame.c:509-578 | in search mode the kept search text and flags are handed back; the popup closes as cancelled, with the cursor at the start mark |
| GeditTextView.TextView.constructor | gedit/gedit-text-view.c:536-591 | a new view shows no search window, runs no timer, starts its searches at 0 and keeps no old search text or flags |
| GeditTextView.TextView.Selection | gedit/gedit-text-view.c:1533-1555 | there is a selected text exactly when the two marks differ, and it is the text between them |
| GeditTextView.TextView.AddTimeout | gedit/gedit-text-view.c:1776-1778 | a new timer gets a fresh, positive id |
| GeditTextView.TextView.Hide | gedit/gedit-text-view.c:917-953 | while popdown is disabled nothing changes; otherwise the window hides, its timer goes, and a cancelled search puts the cursor back where the search started |
| GeditTextView.TextView.InitSearchEntry | gedit/gedit-text-view.c:1557-1621 | the persistent entry is set to the 1-based line where the search started (goto line) or to a selection of at most 160 characters, else empty (search); that setting has the effect SetTextOutcome gives from the entry's previous text, so an unchanged text does nothing; in search mode the document's search text is kept for Escape, missing or not, its non-zero flags too, and it goes into the completion list |
| GeditTextView.TextView.KeepDocumentSearch | gedit/gedit-text-view.c:1589-1602 | the kept search text becomes the buffer's search text (a buffer that had one never loses it, so this agrees with the code's reassigning only when there is one); non-zero flags replace the kept flags; the text goes to the front of the completion list |
| GeditTextView.TextView.SetEntryText | gedit/gedit-text-view.c:1608-1617 | setting an unchanged text does nothing; otherwise the entry holds the text as the insert handler lets it in, the bell rings for a refused goto entry, and the "changed" handler runs on the result, as SetTextOutcome states; the document search text is set exactly when SetsSearchText says so |
| GeditTextView.TextView.StartInteractiveSearch | gedit/gedit-text-view.c:1737-1814 | the mode is set first; the result is TRUE exactly for an open window or a focused view, and then an open window or an unfocused view changes nothing else; otherwise the search starts at the start of the selection (search) or the cursor (goto line), the window opens with a timer, and the entry is set with the effect SetTextOutcome gives; a goto entry whose text changes puts the cursor at the start of its line; the buffer never changes |
| GeditTextView.TextView.ShowWindow | gedit/gedit-text-view.c:1749-1762 | the window is shown and the search starts at the start of the selection for a search and at the cursor for goto line |
| GeditTextView.TextView.Open | gedit/gedit-text-view.c:1749-1778 | the window opens with a running timer, the entry initialised from the selection the view had before, and the document search kept for Escape in search mode |
| GeditTextView.TextView.InsertText | gedit/gedit-text-view.c:1244-1336 | in goto-line mode an accepted insertion goes in and a refused one only rings the bell; in search mode the escaped text goes in |
| GeditTextView.TextView.RunSearch | gedit/gedit-text-view.c:774-889 | the match SearchResult gives is selected; without one, a search while typing goes back to where it started and any other keeps the selection; the entry turns red exactly when a non-empty text is not found |
| GeditTextView.TextView.SearchInit | gedit/gedit-text-view.c:1623-1735 | a running timer is restarted; in search mode the document's search text is set exactly when text or flags differ; the marks and the entry colour become SearchInitEffect: the match is selected, or an unmatched search puts both marks at the start and turns the entry red; a goto-line entry moves both marks to where the jump to GotoLineTarget lands and is red exactly when the jump fails |
| GeditTextView.TextView.JumpToEntry | gedit/gedit-text-view.c:1670-1733 | the cursor and the selection bound go where GotoJump puts them for GotoLineTarget of the entry from the line where the search started, and the entry is red exactly when the line or the column does not exist |
| GeditTextView.TextView.EscapePressed | gedit/gedit-text-view.c:1062-1132 | in search mode the kept search text and flags are handed back; the window closes as cancelled |
| GeditSearchEntry.DigitPrefix | gedit/gedit-view-frame.c:977-978 | the digit run at the front of a string: all digits, and followed by a non-digit or the end |
| GeditSearchEntry.DecimalString | gedit/gedit-view-frame.c:1217-1224 | `%d` of a non-negative number is a non-empty string of digits |
| GeditSearchEntry.DecimalStringValue | gedit/gedit-view-frame.c:1217-1224 | the digits `%d` writes denote the number again |
| GeditSearchEntry.LeadingNumberDecimal | gedit/gedit-view-frame.c:977-978 | reading the leading digits of `%d` output followed by a non-digit gives the number back |
| GeditSearchEntry.AtoiDecimal | gedit/gedit-view-frame.c:973-999 | atoi reads back what `%d` writes, negated after `-` and unchanged after `+` |
| GeditSearchEntry.BeforeColon | gedit/gedit-view-frame.c:962-971 | the first piece of the split is a colon-free prefix of the entry, the whole entry when it has no colon |
| GeditSearchEntry.AfterColon | gedit/gedit-view-frame.c:962-971 | there is a second piece exactly when the entry has a colon, and it holds no colon |
| GeditSearchEntry.GotoLineTarget | gedit/gedit-view-frame.c:947-1001 | the line a goto-line entry asks for is never negative |
| GeditSearchEntry.ColonSplit | gedit/gedit-view-frame.c:962-971 | splitting `a:b` with a colon-free `a` gives `a` and the first piece of `b` |
| GeditSearchEntry.GotoLineWithColumn | gedit/gedit-view-frame.c:962-999 | `n:c` asks for the 1-based line n, or the first line for 0, at column c |
| GeditSearchEntry.GotoLineBackward | gedit/gedit-view-frame.c:973-981 | `-k` goes k lines up from the current line, stopping at the first |
| GeditSearchEntry.GotoLineForward | gedit/gedit-view-frame.c:982-990 | `+k` goes k lines down from the current line |
| GeditSearchEntry.GotoLineBareSign | gedit/gedit-view-frame.c:973-990 | a bare `-` or `+` stays on the current line |
| GeditSearchEntry.GotoLinePrefillRoundTrip | gedit/gedit-view-frame.c:1217-1224 | the text a goto-line entry is pre-filled with leads back to the line it shows |
| GeditSearchEntry.ExemptPrefix | gedit/gedit-view-frame.c:748-766 | at most the whole insertion is exempt from the digits-only rule |
| GeditSearchEntry.GotoLineFilter | gedit/gedit-view-frame.c:733-783 | the character walk accepts the insertion exactly when InsertAccepted holds |
| GeditSearchEntry.InsertAcceptedIff | gedit/gedit-view-frame.c:733-783 | an insertion is accepted exactly when it is empty, or all its characters after the first are Unicode decimal digits and the first is such a digit, a sign typed at position 0, or a colon typed after the start into an entry without one |
| GeditSearchEntry.InsertKeepsOneColon | gedit/gedit-view-frame.c:733-783 | an accepted insertion never gives the entry a second colon |
| GeditSearchEntry.EscapeLength | gedit/gedit-view-frame.c:784-818 | escaping never shortens a text, and keeps it unchanged when the length is kept |
| GeditSearchEntry.SearchInsertion | gedit/gedit-view-frame.c:784-818 | whichever branch the handler takes, the search entry ends up holding the escaped text |
| GeditSearchEntry.StrnEqualPrefix | gedit/gedit-view-frame.c:855-876 | for NUL-free strings, strncmp over the first string's length agrees exactly when it is a prefix of the second |
| GeditSearchEntry.CompletionMatches | gedit/gedit-view-frame.c:821-877 | nothing is offered in goto-line mode, for an entry of at most three characters or an empty row; otherwise a row is offered exactly when the entry, or its case-folded key, is a prefix of the row's text, or of its folded form |
| GeditSearchEntry.MruAddNoDuplicates | gedit/gedit-view-frame.c:219-280 | adding to a list without duplicates keeps it without duplicates |
| GeditSearchEntry.MruAddContents | gedit/gedit-view-frame.c:219-280 | a text of three characters or more once unescaped ends up first; the list then holds exactly it and the old entries, one longer only when it was new |
| GeditSearchEntry.MruAddIdempotent | gedit/gedit-view-frame.c:219-280 | adding the same text twice is the same as adding it once |
| GeditSearchEntry.CompletionModel.constructor | gedit/gedit-view-frame.c:1121-1124 | the completion list starts empty |
| GeditSearchEntry.CompletionModel.AddSearchCompletionEntry | gedit/gedit-view-frame.c:219-280 | the list becomes MruAdd of the old one: the row holding the text moves to the front, or a new row is prepended |
| GeditSearchEntry.UnicodeDigitFacts | gedit/gedit-view-frame.c:768-782 | every ASCII digit passes the filter's `g_unichar_isdigit`; below U+0660 it accepts exactly the ASCII digits; `:`, `-` and `+` never pass |
| GeditSearchEntry.NonAsciiDigitGoesToFirstLine | gedit/gedit-view-frame.c:768-782 | the filter accepts ARABIC-INDIC DIGIT THREE, which atoi reads as no number, so that entry asks for the first line |
| GeditSearchEntry.ColonProbeAsWrittenFreesInside | gedit/gedit-view-frame.c:751-765 | as written, typing a second colon into `1:2` hands g_free a pointer one byte into the copied entry, and typing the first colon into `12` loses the copy |
| GeditSearchEntry.ColonProbe | gedit/gedit-view-frame.c:751-765 | the corrected colon test frees exactly the copy it takes, and takes one for the same insertions as the code |
| GeditSearchEntry.GotoJumpLands | gedit/gedit-view-frame.c:1004-1019 | a line below -1 moves nothing and fails; otherwise the jump succeeds exactly when the line exists and the column is within it, and then lands there; an existing line with a bad column lands at its start, and a missing line lands on the last line |
| GeditSearchEntry.PrefillJumpsToLineStart | gedit/gedit-view-frame.c:1217-1224 | the line number a goto entry is pre-filled with jumps back to the start of the line it was taken from |
| GeditSearchEntry.SelectedText | gedit/gedit-view-frame.c:1177-1199 | there is a selection exactly when the two marks differ, and it is as long as the distance between them |
| GeditSearchEntry.PrefillText | gedit/gedit-view-frame.c:1208-1266 | a goto entry is always pre-filled; a search entry is pre-filled with the selection when it has at most 160 characters, and with nothing else |
| GeditSearchEntry.FreshEntryOutcome | gedit/gedit-view-frame.c:1208-1266 | setting the pre-fill into an empty entry leaves it holding the pre-fill, escaped in search mode; an empty pre-fill changes nothing and sets no search text |
| GeditSearchEntry.GotoFillAccepted | gedit/gedit-view-frame.c:1217-1224 | the insert handler lets the whole goto pre-fill in, and it is never empty |
| GeditSearchEntry.GotoEntryLands | gedit/gedit-view-frame.c:1208-1227 | when the goto pre-fill changes the entry, the "changed" jump lands on the start of the line the popup opened on, with a normal background |
| GeditSearchEntry.SearchInitEffectFacts | gedit/gedit-view-frame.c:902-1022 | an empty search entry goes back to the start; an empty goto entry moves nothing; a goto jump leaves no selection; for a non-empty entry the background turns red exactly when the search finds nothing or the jump fails |
| GeditSearchEntry.InitSearchEntryAsWrittenDangles | gedit/gedit-view-frame.c:1238-1251 | as written, a popup opened over a document with no search text after one that had it leaves old_search_text freed, and a further such popup leaves it freed again |
| GeditNotebook.TabsShown | gedit/gedit-notebook.c:675-689 | the tabs show exactly when the preference asks for them or there is more than one page, counting a page about to be inserted |
| GeditNotebook.StepTarget | gedit/gedit-notebook.c:737-774 | without wrap-around the page asked for is current plus offset; with it, stepping before the first page gives the last and past the last gives the first |
| GeditNotebook.StepTargetWraps | gedit/gedit-notebook.c:737-774 | with wrap-around, back from the first page is the last, forward from the last is the first, and every step from a page lands on a page |
| GeditNotebook.CloseButtonAndCanClose | gedit/gedit-notebook.c:1186-1209 | a loading or reverting container, which can always close, has the notebook's setting on its button; one whose save failed, which cannot close, never has a sensitive button; a NORMAL one follows the setting |
| GeditNotebook.MoveToEndFacts | gedit/gedit-notebook.c:641-669 | the switch-page update keeps the focused-page list free of duplicates, ends it with the page switched to and keeps every other page it held |
| GeditNotebook.RemoveAt | gedit/gedit-notebook.c:1106-1134 | removing one page shortens the list by one |
| GeditNotebook.RemoveAtFacts | gedit/gedit-notebook.c:1106-1134 | the removed page is gone, the others stay, in order, shifted down after it |
| GeditNotebook.InsertAt | gedit/gedit-notebook.c:1011-1075 | inserting lengthens the list by one with the page at the index |
| GeditNotebook.InsertAtFacts | gedit/gedit-notebook.c:1011-1075 | inserting a new page keeps the pages distinct and in order around it |
| GeditNotebook.PageIndex | gedit/gedit-notebook.c:1143-1165 | the index of a page holds that page |
| GeditNotebook.PageIndexUnique | gedit/gedit-notebook.c:1143-1165 | in a list of distinct pages, the index of a page is the one position holding it |
| GeditNotebook.RemoveAllPagesAsWrittenKeepsRemovedPage | gedit/gedit-notebook.c:1173-1184 | as written, removing two pages with the first current leaves the removed second page in the focused-page list |
| GeditNotebook.SetCloseButtonsAsWrittenRewalks | gedit/gedit-notebook.c:1218-1234 | as written, the one-bit field set to TRUE reads back as -1, so setting TRUE again is not recognised as no change, while FALSE is |
| GeditNotebook.Notebook.constructor | gedit/gedit-notebook.c:691-720 | a new notebook has no page and no current page, always shows tabs, has sensitive close buttons and no drag |
| GeditNotebook.Notebook.SwitchPageCb | gedit/gedit-notebook.c:641-669 | the page switched to moves to the end of the focused-page list, which stays free of duplicates |
| GeditNotebook.Notebook.SetCurrentPage | gedit/gedit-notebook.c:737-774 | a page index is taken, a negative one means the last page, an index past the end is ignored; a real change of page runs the switch-page update |
| GeditNotebook.Notebook.ChangeCurrentPage | gedit/gedit-notebook.c:737-774 | with no current page only the bell rings; otherwise the page StepTarget asks for becomes current as gtk_notebook_set_current_page takes it |
| GeditNotebook.Notebook.NextPage | gedit/gedit-notebook.c:1086-1089 | the following page becomes current, nothing on the last one |
| GeditNotebook.Notebook.SetAlwaysShowTabs | gedit/gedit-notebook.c:991-1000 | the preference is stored and the tabs follow the visibility rule |
| GeditNotebook.Notebook.InsertPage | gedit/gedit-notebook.c:1027-1030 | the page is inserted at the index; it becomes current in an empty notebook, and otherwise the current page stays the same page |
| GeditNotebook.Notebook.AddPage | gedit/gedit-notebook.c:1011-1075 | the page goes at the position, or at the end for one out of range; the tabs are updated for it beforehand; with jump it becomes current and last focused and is marked, otherwise the current page stays |
| GeditNotebook.Notebook.SmartPageSwitchingOnClosure | gedit/gedit-notebook.c:1077-1104 | closing a current page that was added with `jump_to`, while some page was focused before, makes the page focused last current; otherwise the next page becomes current, or the current page stays when it is the last one; whichever page becomes current moves to the end of the focus history, and the closing page never enters it |
| GeditNotebook.Notebook.RemovePageAt | gedit/gedit-notebook.c:1106-1134 | the page leaves the list; the current index moves down past it; a removed current page gives way to the following page, or the preceding one when it was last |
| GeditNotebook.Notebook.RemovePage | gedit/gedit-notebook.c:1143-1165 | the page leaves both lists; another current page stays current; a closed current page gives way to the last focused page when it was jumped to, else to the following or preceding page |
| GeditNotebook.Notebook.RemoveAllPages | gedit/gedit-notebook.c:1173-1184 | no page, no current page and an empty focused-page list remain |
| GeditNotebook.Notebook.ReorderPage | gedit/gedit-notebook.c:349-375 | the same position changes nothing; otherwise the page moves there, the current page stays the same page, the set of pages is kept, and `page-reordered` is emitted unless a drag is under way |
| GeditNotebook.Notebook.DragStart | gedit/gedit-notebook.c:377-401 | a drag is under way |
| GeditNotebook.Notebook.DragStop | gedit/gedit-notebook.c:403-420 | the drag ends, and a drag that was under way emits `page-reordered` once |
| GeditNotebook.Notebook.MoveCurrentPage | gedit/gedit-notebook.c:425-444 | the current page stays the same page wherever it moves; the same position changes nothing; during a drag no signal is emitted |
| GeditNotebook.Notebook.SetCloseButtonsSensitive | gedit/gedit-notebook.c:1218-1234 | the setting is stored, and the buttons are re-evaluated exactly when it changed |
| GeditNotebook.MovePage | gedit/gedit-notebook.c:320-336 | the page leaves the source notebook and becomes the current page of the destination; no other page changes notebook |
| GeditPrintJobPreview.IntString | gedit/gedit-print-job-preview.c:140-141 | `%d` never prints an empty string |
| GeditPrintJobPreview.Clamp | gedit/gedit-print-job-preview.c:157-170 | a clamped value lies in the range, and a value in the range is kept |
| GeditPrintJobPreview.EntryTarget | gedit/gedit-print-job-preview.c:157-170 | the page the entry asks for is always a page of the job, and the entry's number minus one when it names one |
| GeditPrintJobPreview.EntryTargetRoundTrip | gedit/gedit-print-job-preview.c:129-170 | the entry text goto_page writes for a page is read back by change_page_cmd as that page |
| GeditPrintJobPreview.NextTarget | gedit/gedit-print-job-preview.c:343-357 | "next page" moves forward within the job, and stays put exactly on the last page or with an empty grid |
| GeditPrintJobPreview.PrevTargetAsWrittenOverflows | gedit/gedit-print-job-preview.c:359-373 | as written, with the largest grid the properties accept, "previous page" from the first page asks for page 131071 |
| GeditPrintJobPreview.PrevTarget | gedit/gedit-print-job-preview.c:359-373 | "previous page" moves back a screen of pages, reaching the first page exactly when at most a screen is left |
| GeditPrintJobPreview.PrevTargetAsWrittenAgrees | gedit/gedit-print-job-preview.c:359-373 | as written, the unsigned difference gives the intended page whenever the page and the screen size fit in a `gint` |
| GeditPrintJobPreview.SlotPage | gedit/gedit-print-job-preview.c:991-1027 | slot `i` shows the first page of the current page's screen plus `i` |
| GeditPrintJobPreview.SlotPagesCoverCurrent | gedit/gedit-print-job-preview.c:991-1027 | the slots show consecutive pages of one screen, and the current page is among them at its place in the screen |
| GeditPrintJobPreview.EntryInsertFilter | gedit/gedit-print-job-preview.c:559-582 | an insertion into the page entry goes through exactly when every character is a Unicode decimal digit |
| GeditPrintJobPreview.PrintJobPreview.constructor | gedit/gedit-print-job-preview.c:1130-1171 | a new preview shows page 1 of at least one page on a 1x1 grid, with "previous" insensitive, "next" sensitive exactly for a job of several pages, and an update scheduled |
| GeditPrintJobPreview.PrintJobPreview.GotoPage | gedit/gedit-print-job-preview.c:129-155 | a page outside the job is refused with nothing changed; otherwise it becomes current, the entry shows its number, the buttons follow it, and a change of page updates the slots |
| GeditPrintJobPreview.PrintJobPreview.Update | gedit/gedit-print-job-preview.c:991-1027 | each slot shows SlotPage when that page exists, rendered into it, and is hidden otherwise |
| GeditPrintJobPreview.PrintJobPreview.UpdateIdle | gedit/gedit-print-job-preview.c:892-901 | the scheduled update runs once and is no longer pending |
| GeditPrintJobPreview.PrintJobPreview.SetNxAndNy | gedit/gedit-print-job-preview.c:903-989 | the grid takes the new size with one slot per cell up to the number of pages, each at its cell; existing slots keep what they showed, new ones are shown and empty, and an update is scheduled |
| GeditPrintJobPreview.PrintJobPreview.ChangePageCmd | gedit/gedit-print-job-preview.c:157-170 | the page becomes EntryTarget of the entry and the entry is rewritten with its number |
| GeditPrintJobPreview.PrintJobPreview.NextPageCmd | gedit/gedit-print-job-preview.c:343-357 | with Shift the last page, otherwise NextTarget |
| GeditPrintJobPreview.PrintJobPreview.PrevPageCmd | gedit/gedit-print-job-preview.c:359-373 | with Shift the first page, otherwise PrevTarget, the intended target |
| GeditPrintJobPreview.PrintJobPreview.NavigateKey | gedit/gedit-print-job-preview.c:399-525 | Page Up at the top goes back one page and Page Down at the bottom forward one, within the job; Home goes to the first page and End to the last |
| GeditPrintJobPreview.PrintJobPreview.EntryFocusOut | gedit/gedit-print-job-preview.c:584-603 | after the entry loses focus it names the current page, and an entry that already did is left alone |
| GeditFileBrowserStore.HasParentDepth | plugins/filebrowser/gedit-file-browser-store.c:366-376 | an ancestor found by node_has_parent is a node of the tree strictly nearer the root, so no node is its own ancestor |
| GeditFileBrowserStore.HasParentTransitive | plugins/filebrowser/gedit-file-browser-store.c:366-376 | an ancestor of an ancestor is an ancestor |
| GeditFileBrowserStore.HasParentFrame | plugins/filebrowser/gedit-file-browser-store.c:366-376 | node_has_parent depends only on parent links, so a change that keeps them keeps the answer |
| GeditFileBrowserStore.VisibleOf | plugins/filebrowser/gedit-file-browser-store.c:384-401 | the visible part of a child list is no longer than the list and holds exactly the nodes of the list that model_node_visibility accepts |
| GeditFileBrowserStore.VisibleOfAppend | plugins/filebrowser/gedit-file-browser-store.c:384-401 | the visible part of a concatenation is the concatenation of the visible parts |
| GeditFileBrowserStore.VisibleOfNoDuplicates | plugins/filebrowser/gedit-file-browser-store.c:384-401 | the visible part of a list of distinct nodes has no repetitions, so visible positions name nodes uniquely |
| GeditFileBrowserStore.NodeAt | plugins/filebrowser/gedit-file-browser-store.c:435-488 | the node a path finds belongs to the tree |
| GeditFileBrowserStore.NodeAtDepth | plugins/filebrowser/gedit-file-browser-store.c:435-488 | a node found by a non-empty path is a descendant of the virtual root exactly as many levels down as the path is long |
| GeditFileBrowserStore.NodeAtPathOf | plugins/filebrowser/gedit-file-browser-store.c:435-550 | get_iter on the path get_path computes for a node finds that node again |
| GeditFileBrowserStore.PathOfNodeAt | plugins/filebrowser/gedit-file-browser-store.c:435-550 | get_path on the node get_iter finds for a path gives back that path |
| GeditFileBrowserStore.NodeAtPrefixNone | plugins/filebrowser/gedit-file-browser-store.c:453-477 | once a prefix of a path finds no node the whole path finds none, as get_iter returns FALSE at the first missing index |
| GeditFileBrowserStore.NextVisibleInList | plugins/filebrowser/gedit-file-browser-store.c:596-627 | in a list of distinct nodes the first visible node after the k-th visible one is the (k+1)-th visible one |
| GeditFileBrowserStore.NextSiblingEnumerates | plugins/filebrowser/gedit-file-browser-store.c:596-627 | starting from the k-th visible child of a directory, iter_next yields the (k+1)-th visible child, or nothing after the last |
| GeditFileBrowserStore.UpdatedNode | plugins/filebrowser/gedit-file-browser-store.c:830-853 | model_node_update_visibility sets the FILTERED bit from the filter mode and the filter function and changes nothing else of the node |
| GeditFileBrowserStore.UpdateIdempotent | plugins/filebrowser/gedit-file-browser-store.c:830-853 | recomputing the FILTERED bit twice gives the same node as once |
| GeditFileBrowserStore.VisibleAfterUpdate | plugins/filebrowser/gedit-file-browser-store.c:830-853 | after the update a node below the virtual root is visible exactly when it is not hidden under hide-hidden, not binary under hide-binary, and the filter function accepts it; dummies and the virtual root keep their visibility and the tree keeps its shape |
| GeditFileBrowserStore.SortDefault | plugins/filebrowser/gedit-file-browser-store.c:855-910 | dummies sort before directories and directories before files; within a class dummies are equal, a nameless node sorts first and named nodes follow the collation |
| GeditFileBrowserStore.SortDefaultAntisymmetric | plugins/filebrowser/gedit-file-browser-store.c:855-910 | with an antisymmetric collation, swapping the nodes flips the sign of the result, except two nameless nodes of one class which each compare below the other |
| GeditFileBrowserStore.CandidateInjective | plugins/filebrowser/gedit-file-browser-store.c:2152-2174 | different rounds of unique_new_name try different names |
| GeditFileBrowserStore.UniqueNewName | plugins/filebrowser/gedit-file-browser-store.c:2152-2174 | the name returned does not exist yet and every candidate of an earlier round does, so it is the first free one |
| GeditFileBrowserStore.DummyNode | plugins/filebrowser/gedit-file-browser-store.c:1476-1489 | a dummy is a childless, URI-less file flagged DUMMY, one level below its parent, hidden as asked |
| GeditFileBrowserStore.CheckedDummyOk | plugins/filebrowser/gedit-file-browser-store.c:1507-1577 | after model_check_dummy a directory's first child is a dummy that is shown exactly when the directory is visible and has no other visible child; the tree keeps its shape, the directory keeps its visibility and no other node changes |
| GeditFileBrowserStore.CheckedExistingDummy | plugins/filebrowser/gedit-file-browser-store.c:1517-1575 | the existing-dummy branch of model_check_dummy only sets the dummy's HIDDEN bit and establishes the dummy invariant |
| GeditFileBrowserStore.CheckedNewDummy | plugins/filebrowser/gedit-file-browser-store.c:1517-1575 | the new-dummy branch puts one fresh dummy in front of the children and establishes the dummy invariant |
| GeditFileBrowserStore.HiddenSetTwice | plugins/filebrowser/gedit-file-browser-store.c:1537-1575 | setting the HIDDEN bit twice leaves the second value, so hiding the dummy before the visibility probe is overwritten by the final setting |
| GeditFileBrowserStore.HiddenDummyChildren | plugins/filebrowser/gedit-file-browser-store.c:1537-1544 | with the dummy hidden, the directory's visible children are exactly the visible ones among its real children, which is what the probe in model_check_dummy asks about |
| GeditFileBrowserStore.PrependedHiddenDummy | plugins/filebrowser/gedit-file-browser-store.c:1491-1505 | a hidden dummy put in front of the children is the first child and does not change which children are visible |
| GeditFileBrowserStore.StoreOkNewDummy | plugins/filebrowser/gedit-file-browser-store.c:1491-1505 | adding a dummy under a directory with the next identifier keeps the store invariant |
| GeditFileBrowserStore.FileBrowserStore.constructor | plugins/filebrowser/gedit-file-browser-store.c:345-364 | a new store has no nodes, no root and no virtual root, the default filter mode and no filter function |
| GeditFileBrowserStore.FileBrowserStore.SetHidden | plugins/filebrowser/gedit-file-browser-store.c:1532-1575 | setting a node's HIDDEN bit changes that bit only and keeps the store invariant |
| GeditFileBrowserStore.FileBrowserStore.UpdateVisibility | plugins/filebrowser/gedit-file-browser-store.c:830-853 | the node's FILTERED bit is recomputed with the store's filter settings and the store invariant is kept |
| GeditFileBrowserStore.FileBrowserStore.NewDummy | plugins/filebrowser/gedit-file-browser-store.c:1476-1505 | the dummy takes the next identifier and goes in front of the directory's children, keeping the store invariant |
| GeditFileBrowserStore.FileBrowserStore.CheckDummy | plugins/filebrowser/gedit-file-browser-store.c:1507-1577 | the node table becomes the one model_check_dummy describes (see CheckedDummyOk) and the store invariant is kept |
| GeditFileBrowserStore.FileBrowserStore.UpdateDummy | plugins/filebrowser/gedit-file-browser-store.c:1532-1575 | the dummy ends hidden unless the directory is visible and has no other visible child; nothing else changes |
| GeditFileBrowserStore.FileBrowserStore.NthVisible | plugins/filebrowser/gedit-file-browser-store.c:462-477 | the scan returns the k-th visible node of the list, or nothing when there is none |
| GeditFileBrowserStore.FileBrowserStore.FirstVisible | plugins/filebrowser/gedit-file-browser-store.c:656-665 | the scan returns the first visible node of the list, if any |
| GeditFileBrowserStore.FileBrowserStore.GetIter | plugins/filebrowser/gedit-file-browser-store.c:435-488 | get_iter finds exactly the node NodeAt names, whose round trip with GetPath is proved |
| GeditFileBrowserStore.FileBrowserStore.VisiblePlace | plugins/filebrowser/gedit-file-browser-store.c:507-527 | a visible node's place is its index among the visible nodes of the list, and an invisible node has none |
| GeditFileBrowserStore.FileBrowserStore.GetPath | plugins/filebrowser/gedit-file-browser-store.c:490-550 | get_path computes exactly PathOf, whose round trip with GetIter is proved |
| GeditFileBrowserStore.FileBrowserStore.IterNext | plugins/filebrowser/gedit-file-browser-store.c:596-627 | the next visible sibling after the node, and nothing for a node without a parent |
| GeditFileBrowserStore.FileBrowserStore.IterChildren | plugins/filebrowser/gedit-file-browser-store.c:629-666 | the first visible child of the node, or of the virtual root for a NULL parent, and nothing without a virtual root |
| GeditFileBrowserStore.FileBrowserStore.HasChildReal | plugins/filebrowser/gedit-file-browser-store.c:668-684 | true exactly when the node has a visible child |
| GeditFileBrowserStore.FileBrowserStore.IterHasChild | plugins/filebrowser/gedit-file-browser-store.c:686-706 | true exactly when the node, or the virtual root for NULL, has a visible child |
| GeditFileBrowserStore.FileBrowserStore.IterNChildren | plugins/filebrowser/gedit-file-browser-store.c:708-739 | the number of visible children of the node, or of the virtual root for NULL |
| GeditFileBrowserStore.FileBrowserStore.CountVisible | plugins/filebrowser/gedit-file-browser-store.c:732-738 | the counting loop counts exactly the visible nodes of the list |
| GeditFileBrowserStore.FileBrowserStore.IterNthChild | plugins/filebrowser/gedit-file-browser-store.c:741-780 | the n-th visible child of the node, or of the virtual root for NULL, or nothing when n is out of range |
| GeditFileBrowserStore.FileBrowserStore.IterParent | plugins/filebrowser/gedit-file-browser-store.c:782-806 | a node's parent is returned exactly when the node lies below the virtual root |
| GeditFileBrowserWidget.GlobPasses | plugins/filebrowser/gedit-file-browser-widget.c:1286-1312 | without a pattern every node passes; directories and dummies always pass; any other node passes exactly when it has a name that matches the pattern |
| GeditFileBrowserWidget.FirstWithId | plugins/filebrowser/gedit-file-browser-widget.c:1795-1813 | the position found holds the identifier and no earlier filter has it, or no filter has it at all |
| GeditFileBrowserWidget.WithoutFirst | plugins/filebrowser/gedit-file-browser-widget.c:1795-1813 | removing a filter shortens the list by one exactly when a filter with that identifier exists |
| GeditFileBrowserWidget.WithoutFirstCutsFirst | plugins/filebrowser/gedit-file-browser-widget.c:1795-1813 | remove_filter cuts out exactly the first filter with the identifier and keeps the order of the others; an unknown identifier changes nothing |
| GeditFileBrowserWidget.WithoutFirstIncreasing | plugins/filebrowser/gedit-file-browser-widget.c:1775-1813 | removing a filter keeps the identifiers increasing and within the range handed out so far |
| GeditFileBrowserWidget.UpdatedFilterMode | plugins/filebrowser/gedit-file-browser-widget.c:1557-1581 | a toggle action sets its own hide bit to the opposite of its state and leaves the other bit alone |
| GeditFileBrowserWidget.UpdatedFilterModeIdempotent | plugins/filebrowser/gedit-file-browser-widget.c:1557-1581 | applying the same toggle state twice equals applying it once, and the two toggles commute |
| GeditFileBrowserWidget.NormalPattern | plugins/filebrowser/gedit-file-browser-widget.c:1583-1648 | an empty pattern counts as no pattern; any other pattern is kept as given |
| GeditFileBrowserWidget.PreviousSensitiveIffOlder | plugins/filebrowser/gedit-file-browser-widget.c:1989-1998 | "DirectoryPrevious" is sensitive exactly when there is a current location and a jump to an older location, one other than the current one, is possible |
| GeditFileBrowserWidget.NextSensitiveIffNewer | plugins/filebrowser/gedit-file-browser-widget.c:2000-2009 | for a current location in the history, "DirectoryNext" is sensitive exactly when there is one and a jump to a newer location, one other than the current one, is possible |
| GeditFileBrowserWidget.FileBrowserWidget.constructor | plugins/filebrowser/gedit-file-browser-widget.c:1167-1185 | a new widget has no filters, no pattern, no glob filter, no history and no current location |
| GeditFileBrowserWidget.FileBrowserWidget.FilterReal | plugins/filebrowser/gedit-file-browser-widget.c:990-1005 | a node is let through exactly when every filter in the list passes it |
| GeditFileBrowserWidget.FileBrowserWidget.AddFilter | plugins/filebrowser/gedit-file-browser-widget.c:1775-1793 | the new filter gets the next identifier, larger than every identifier in the list, and is appended at the end |
| GeditFileBrowserWidget.FileBrowserWidget.RemoveFilter | plugins/filebrowser/gedit-file-browser-widget.c:1795-1813 | the list loses the first filter with the identifier (see WithoutFirstCutsFirst) and the identifiers stay increasing |
| GeditFileBrowserWidget.FileBrowserWidget.SetFilterPattern | plugins/filebrowser/gedit-file-browser-widget.c:1583-1648 | the stored pattern becomes the normalised one; an unchanged pattern changes nothing; the glob filter is removed when the pattern goes away, appended with a fresh identifier when one arrives, and kept when one pattern replaces another |
| GeditFileBrowserWidget.FileBrowserWidget.ClearNextLocations | plugins/filebrowser/gedit-file-browser-widget.c:1523-1555 | every location newer than the current one is dropped and the current location becomes the newest; without a current location nothing changes; afterwards "DirectoryNext" is insensitive and "DirectoryPrevious" keeps its sensitivity |
| GeditFileBrowserWidget.FileBrowserWidget.PushLocation | plugins/filebrowser/gedit-file-browser-widget.c:1933-2008 | the newer locations are dropped, the new location goes in front and becomes current; "DirectoryNext" is then insensitive, and "DirectoryPrevious" is sensitive exactly when the history had a current location or any location before |
| GeditFileBrowserWidget.FileBrowserWidget.JumpToLocation | plugins/filebrowser/gedit-file-browser-widget.c:1446-1521 | walking the history one step at a time in the chosen direction ends with the target as the current location; "DirectoryPrevious" is then sensitive exactly when an older location exists beyond the target, and "DirectoryNext" exactly when the target is not the newest |
| SnippetsPaths.PathSplitComponents | plugins/snippets/snippets/Document.py:739-747 | on a relative path without empty components, path_split yields a non-empty list of non-empty, slash-free components |
| SnippetsPaths.PathSplitJoin | plugins/snippets/snippets/Document.py:739-747 | on such a path, joining the components path_split yields gives the path back (followed by the components it was handed) |
| SnippetsPaths.PathSplitTrailingSlash | plugins/snippets/snippets/Document.py:739-747 | a path ending in '/' comes back as one piece with the slash stripped, by the `not tail and head` branch |
| SnippetsPaths.MatchPrefix | plugins/snippets/snippets/Document.py:750-751 | the pattern matches exactly when the name starts with a lower-case scheme followed by "://" or with '/', and the groups are consecutive prefixes of the name |
| SnippetsPaths.CommonLength | plugins/snippets/snippets/Document.py:764-767 | the loop drops exactly the longest common prefix of the two component lists |
| SnippetsPaths.Ups | plugins/snippets/snippets/Document.py:777-782 | `'../' * n` has three characters per level and none for a negative count |
| SnippetsPaths.RelativeFilename | plugins/snippets/snippets/Document.py:749-790 | the loop that pops common components computes the relative name Relative defines |
| SnippetsPaths.ClimbLoop | plugins/snippets/snippets/Document.py:774-790 | the tail of relative_filename computes the climb Climb defines |
| SnippetsPaths.RelativeUnchanged | plugins/snippets/snippets/Document.py:753-772 | the second name comes back unchanged when either name lacks a scheme or a leading '/', the schemes differ, or more than three levels would have to be climbed |
| SnippetsPaths.RelativeIsClimb | plugins/snippets/snippets/Document.py:760-790 | otherwise the result is the climb from what is left of the two paths after the shared components |
| SnippetsPaths.ClimbShape | plugins/snippets/snippets/Document.py:774-790 | with components of the second name left, the result climbs one level fewer than the components left of the first and joins the rest; with none left it is "./" for a directory and the basename otherwise |
| SnippetsPaths.RelativeShape | plugins/snippets/snippets/Document.py:749-790 | relative_filename's result in terms of the two names: up one level fewer than the first's unshared components, then down the second's unshared components |
| SnippetsPaths.RelativeSibling | plugins/snippets/snippets/Document.py:749-790 | a file dropped from a sibling directory is named "../" followed by the sibling and the file, whatever the mime type |
| SnippetsCommon.FilterInMembers | plugins/snippets/snippets/Document.py:490-505 | the placeholders deactivate_snippet collects are exactly the snippet's placeholders that are still in use |
| SnippetsCommon.RemoveEachNoDup | plugins/snippets/snippets/Document.py:507-513 | removing each collected placeholder from a list without repetitions leaves exactly the placeholders not collected, still without repetitions |
| SnippetsCommon.RemoveEachSubset | plugins/snippets/snippets/Document.py:507-513 | list.remove never brings in a new element |
| SnippetsCommon.UpdateEffects | plugins/snippets/snippets/Document.py:606-607 | one content update per queued placeholder, in queue order |
| SnippetsCommon.RemovedEffects | plugins/snippets/snippets/Document.py:507-513 | one removal per collected placeholder, in order, with the force flag passed on |
| SnippetsCommon.DeactivatedFacts | plugins/snippets/snippets/Document.py:486-520 | deactivate_snippet keeps the controller's invariants, takes out exactly the snippet's placeholders and the snippet itself, clears the active placeholder exactly when it belonged to the snippet, dequeues only the snippet's own updates and only appends effects |
| SnippetsCommon.EndOwner | plugins/snippets/snippets/Document.py:313-318 | the first active snippet whose End placeholder is the given one, or none when no snippet has it |
| SnippetsCommon.FindEndOwner | plugins/snippets/snippets/Document.py:313-318 | the search loop stops at the first snippet EndOwner names, or runs off the end when there is none |
| SnippetsCommon.LastEnd | plugins/snippets/snippets/Document.py:296-311 | the End placeholder goto_placeholder finishes on is `next` when that is an End, else `current` when that is one, and none otherwise |
| SnippetsCommon.GotoFacts | plugins/snippets/snippets/Document.py:295-322 | goto_placeholder keeps the invariants, does not touch the idle callback or the jump queue, only appends effects, and away from End placeholders keeps snippets and placeholders and makes `next` active |
| SnippetsCommon.GotoEndsOwner | plugins/snippets/snippets/Document.py:313-318 | reaching an End placeholder deactivates the first snippet it ends, and none of that snippet's placeholders stays in use |
| SnippetsCommon.GotoAllFacts | plugins/snippets/snippets/Document.py:609-610 | replaying the queued jumps keeps the invariants and the callback id and only appends effects |
| SnippetsCommon.FlushFacts | plugins/snippets/snippets/Document.py:603-617 | after update_snippet_contents both queues are empty, no callback is pending, the invariants hold and every queued content update is asked for, in order, before anything a jump does |
| SnippetsCommon.DeactivateOutsideFacts | plugins/snippets/snippets/Document.py:636-645 | the cursor check deactivates exactly the snippets that lie outside the cursor and keeps the invariants, the callback and the jump queue |
| SnippetsCommon.InsertedFacts | plugins/snippets/snippets/Document.py:416-420 | registering a newly inserted snippet keeps the invariants, and the buffer signals were off exactly when it is the only active snippet |
| SnippetsCommon.CursorMovedRaisesExample | plugins/snippets/snippets/Document.py:637-638 | as written, a snippet whose bounding mark was deleted makes the handler call the missing method `deactivate`, so it raises instead of deactivating the snippet |
| SnippetsCommon.BackslashesBeforeRun | plugins/snippets/snippets/Document.py:372-379 | the run of backslashes in front of a position, all of it and no more |
| SnippetsCommon.UsesCurrentWord | plugins/snippets/snippets/Document.py:372-379 | a snippet uses the current word exactly when `$GEDIT_CURRENT_WORD` occurs with an even run of backslashes in front of it, that is, unescaped |
| SnippetsCommon.UsesCurrentWordExamples | plugins/snippets/snippets/Document.py:372-379 | a single backslash escapes the variable; a doubled one leaves it in use |
| SnippetsController.LastContaining | plugins/snippets/snippets/SnippetController.py:167-181 | the last placeholder in the list whose bounds hold the cursor, with no later one holding it, or none when no placeholder holds it |
| SnippetsController.PrevForward | plugins/snippets/snippets/SnippetController.py:191-209 | going forward, `prev` is a placeholder ending at or before the cursor with the largest such end, and none exactly when every placeholder ends after the cursor |
| SnippetsController.PrevBackward | plugins/snippets/snippets/SnippetController.py:191-209 | going backward, `prev` begins at or after the cursor, and none exactly when every placeholder begins before it |
| SnippetsController.Step | plugins/snippets/snippets/SnippetController.py:215-223 | the list neighbour in the direction of travel, present exactly when the list has one there |
| SnippetsController.AdvanceOldSpec | plugins/snippets/snippets/SnippetController.py:183-225 | Tab and Shift-Tab report current_placeholder's placeholder; the next one is listed, is the list neighbour of the current one when there is one, is the first placeholder when neither a current one nor `prev` exists, and does not exist without placeholders |
| SnippetsController.ChangedRestartFacts | plugins/snippets/snippets/SnippetController.py:607-617 | a change inside a placeholder queues it once more and replaces the pending flush by a fresh nonzero one; outside every placeholder nothing changes; the invariants hold |
| SnippetsController.ChangedTwiceQueuesTwice | plugins/snippets/snippets/SnippetController.py:607-617 | two changes in one placeholder queue it twice, as the queue takes duplicates |
| SnippetsController.CursorMovedRestartFacts | plugins/snippets/snippets/SnippetController.py:578-605 | after the cursor moves, exactly the snippets that still hold the cursor stay active, the current placeholder becomes active, and a jump is queued with a fresh flush exactly when the active placeholder changed from a previous one |
| SnippetsController.StaleUpdateAfterDeactivation | plugins/snippets/snippets/SnippetController.py:431-466 | a placeholder queued twice keeps one queued update after its snippet is deactivated, though it is no longer in use |
| SnippetsController.AfterInsertOldFacts | plugins/snippets/snippets/SnippetController.py:323-377 | inserting a snippet keeps the controller's invariants and brings in no placeholder but the snippet's own |
| SnippetsController.SnippetController.constructor | plugins/snippets/snippets/SnippetController.py:31-48 | a new controller has no placeholders, no active snippet or placeholder, empty queues, no pending flush and no effects |
| SnippetsController.SnippetController.CurrentPlaceholder | plugins/snippets/snippets/SnippetController.py:167-181 | the loop finds the last placeholder holding the cursor |
| SnippetsController.SnippetController.AdvancePlaceholder | plugins/snippets/snippets/SnippetController.py:183-225 | the single scan computes the current placeholder and the one to move to as AdvanceOld defines them |
| SnippetsController.SnippetController.SkipToPlaceholder | plugins/snippets/snippets/SnippetController.py:266-272 | the controller moves as goto_placeholder from the advanced pair, and reports a move exactly when there is a next placeholder |
| SnippetsController.SnippetController.GotoPlaceholder | plugins/snippets/snippets/SnippetController.py:237-264 | the controller's state becomes the one Goto describes, whose invariants GotoFacts and GotoEndsOwner prove; the answer says whether there was a next placeholder |
| SnippetsController.SnippetController.DeactivateSnippet | plugins/snippets/snippets/SnippetController.py:431-470 | the controller's state becomes the one Deactivated describes (see DeactivatedFacts) |
| SnippetsController.SnippetController.FinishDeactivation | plugins/snippets/snippets/SnippetController.py:458-466 | announcing, dropping the snippet and releasing the signals with the last one completes Deactivated |
| SnippetsController.SnippetController.CollectListed | plugins/snippets/snippets/SnippetController.py:435-449 | the first loop collects the snippet's placeholders still in use, applies and dequeues the queued updates among them, in order |
| SnippetsController.SnippetController.RemoveListed | plugins/snippets/snippets/SnippetController.py:451-456 | the second loop removes each collected placeholder from the list, clears the active one when it is among them and asks each to remove itself |
| SnippetsController.SnippetController.RemovePlaceholder | plugins/snippets/snippets/SnippetController.py:451-456 | one placeholder leaves the list, the active placeholder is cleared when it is that one, and the removal is asked for |
| SnippetsController.SnippetController.UpdateSnippetContents | plugins/snippets/snippets/SnippetController.py:549-563 | the idle callback leaves the state Flush describes (see FlushFacts) and does not ask to run again |
| SnippetsController.SnippetController.ApplyUpdates | plugins/snippets/snippets/SnippetController.py:552-553 | every queued placeholder is asked to update its contents, in queue order |
| SnippetsController.SnippetController.OnBufferChanged | plugins/snippets/snippets/SnippetController.py:607-617 | the state becomes ChangedRestart's, whose effect ChangedRestartFacts states |
| SnippetsController.SnippetController.OnBufferCursorMoved | plugins/snippets/snippets/SnippetController.py:578-605 | the state becomes CursorMovedRestart's, whose effect CursorMovedRestartFacts states |
| SnippetsController.SnippetController.DeactivateLeft | plugins/snippets/snippets/SnippetController.py:581-592 | the first loop deactivates, in order, the snippets that lie outside the cursor |
| SnippetsController.SnippetController.ApplySnippet | plugins/snippets/snippets/SnippetController.py:323-377 | an invalid snippet changes nothing and is refused; a valid one leaves the state AfterInsertOld describes, with the invariants kept |
| SnippetsController.SnippetController.RegisterAndJump | plugins/snippets/snippets/SnippetController.py:356-377 | the snippet is registered, the first jump is made, then the buffer signals are connected when it is the only active snippet |
| SnippetsController.SnippetController.RegisterSnippet | plugins/snippets/snippets/SnippetController.py:356-358 | the snippet's placeholders join the list and the snippet is appended to the active ones |
| SnippetsDocument.Containing | plugins/snippets/snippets/Document.py:198-205 | the `found` list holds exactly the listed placeholders whose range holds the cursor |
| SnippetsDocument.FirstContainingSpec | plugins/snippets/snippets/Document.py:198-210 | the first index holding the cursor, with no earlier one holding it, or none when no placeholder holds it |
| SnippetsDocument.CurrentOfSpec | plugins/snippets/snippets/Document.py:194-212 | current_placeholder is none exactly when no placeholder holds the cursor; otherwise it is a listed placeholder holding the cursor: the active one when it holds it, else the first one that does |
| SnippetsDocument.FoundForward | plugins/snippets/snippets/Document.py:232-252 | going forward, `found` is the placeholder with the smallest begin at or after the cursor, the earliest on ties, and none when every placeholder begins before the cursor |
| SnippetsDocument.FoundBackward | plugins/snippets/snippets/Document.py:237-252 | going backward, `found` is the placeholder with the largest begin at or before the cursor, the latest on ties, and none when every placeholder begins after it |
| SnippetsDocument.AdvanceAsWrittenAgrees | plugins/snippets/snippets/Document.py:214-280 | the code as written agrees with the guarded Advance wherever it does not raise, and raises exactly when, moving forward, a placeholder holds the cursor and none begins at or after it |
| SnippetsDocument.AdvanceAsWrittenRaises | plugins/snippets/snippets/Document.py:260-264 | with the cursor inside `${1:foo}` of `$0${1:foo}`, Tab makes the written hugging test read `found.begin_iter()` on None, while the guarded version moves to the End placeholder |
| SnippetsDocument.AdvanceSpec | plugins/snippets/snippets/Document.py:214-280 | Tab and Shift-Tab report a listed current placeholder exactly when one holds the cursor; the next one is listed, is missing only for an empty list or a current placeholder at the end in the direction of travel, and outside every placeholder is the nearest one ahead, or the first |
| SnippetsDocument.ChangedFacts | plugins/snippets/snippets/Document.py:659-668 | a change keeps the invariants; the queue gains the current placeholder at most once; a pending flush is kept and one is scheduled only when none was pending; outside every placeholder nothing changes |
| SnippetsDocument.CursorMovedFacts | plugins/snippets/snippets/Document.py:632-657 | with deleted-mark snippets deactivated, exactly the snippets that still hold the cursor stay active, the current placeholder becomes active, and a jump is queued exactly when the active placeholder changed from a previous one |
| SnippetsDocument.AfterInsertFacts | plugins/snippets/snippets/Document.py:404-429 | inserting a snippet keeps the controller's invariants |
| SnippetsDocument.Document.constructor | plugins/snippets/snippets/Document.py:36-56 | a new controller has no placeholders, no active snippet or placeholder, empty queues, no pending flush and no effects |
| SnippetsDocument.Document.CurrentPlaceholder | plugins/snippets/snippets/Document.py:194-212 | the loop computes current_placeholder as CurrentOf defines it |
| SnippetsDocument.Document.AdvancePlaceholder | plugins/snippets/snippets/Document.py:214-280 | the scan computes the guarded Advance and never dereferences a missing `found` |
| SnippetsDocument.Document.SkipToPlaceholder | plugins/snippets/snippets/Document.py:324-330 | after advancing, the controller moves as goto_placeholder from the advanced pair and reports a move exactly when there is a next placeholder; an exception changes nothing |
| SnippetsDocument.Document.UpdateSnippetContents | plugins/snippets/snippets/Document.py:603-617 | the idle callback leaves the state Flush describes (see FlushFacts) and does not ask to run again |
| SnippetsDocument.Document.ApplyUpdates | plugins/snippets/snippets/Document.py:606-607 | every queued placeholder is asked to update its contents, in queue order |
| SnippetsDocument.Document.OnBufferChanged | plugins/snippets/snippets/Document.py:659-668 | the state becomes Changed's, whose effect ChangedFacts states |
| SnippetsDocument.Document.OnBufferCursorMoved | plugins/snippets/snippets/Document.py:632-657 | the state becomes CursorMoved's, whose effect CursorMovedFacts states |
| SnippetsDocument.Document.Activate | plugins/snippets/snippets/Document.py:647-657 | a different current placeholder becomes active, after a jump from the previous active one is queued and a flush scheduled unless one is pending |
| SnippetsDocument.Document.DeactivateLeft | plugins/snippets/snippets/Document.py:636-645 | the first loop deactivates, in order, the snippets that lie outside the cursor or lost a mark |
| SnippetsDocument.Document.ApplySnippet | plugins/snippets/snippets/Document.py:381-432 | an invalid snippet is refused and changes nothing; otherwise the answer is the guarded Advance, and the state becomes AfterInsert's when it advanced and stays as it was when it raised |
| SnippetsDocument.Document.InsertInstance | plugins/snippets/snippets/Document.py:405-429 | an End placeholder left behind is gone to, the snippet's placeholders and the snippet are registered with the signals connected for the first one, and its first placeholder is entered |
| SnippetsDocument.Document.GotoPlaceholder | plugins/snippets/snippets/Document.py:295-322 | the state becomes Goto's (see GotoFacts and GotoEndsOwner); the answer says whether there was a next placeholder |
| SnippetsDocument.Document.DeactivateSnippet | plugins/snippets/snippets/Document.py:486-520 | the state becomes Deactivated's (see DeactivatedFacts) |
| SnippetsDocument.Document.FinishDeactivation | plugins/snippets/snippets/Document.py:515-520 | announcing and dropping the snippet, releasing the signals with the last one, completes Deactivated |
| SnippetsDocument.Document.CollectListed | plugins/snippets/snippets/Document.py:490-505 | the first loop collects the snippet's placeholders still in use, applies and dequeues the queued updates among them, in order |
| SnippetsDocument.Document.RemoveListed | plugins/snippets/snippets/Document.py:507-513 | the second loop removes each collected placeholder, clears the active one when it is among them and asks each to remove itself |
| SnippetsDocument.Document.RemovePlaceholder | plugins/snippets/snippets/Document.py:507-513 | one placeholder leaves the list, the active placeholder is cleared when it is that one, and the removal is asked for |
| SnippetsLibrary.NamespacedId | plugins/snippets/snippets/SnippetsLibrary.py:25-35 | no id exactly when the given id is empty; otherwise the id follows its namespace (the language, or "global") and a dash |
| SnippetsLibrary.NamespacedIdInjective | plugins/snippets/snippets/SnippetsLibrary.py:25-35 | within one namespace two ids give the same namespaced id only when they are equal, or both empty |
| SnippetsLibrary.NamespacedIdGlobal | plugins/snippets/snippets/SnippetsLibrary.py:25-35 | no namespace, the empty namespace and a language named "global" all give the same ids, which differ from those of a real language |
| SnippetsLibrary.FirstTextFound | plugins/snippets/snippets/SnippetsLibrary.py:72-89 | a child text is found exactly when some child element has the property's tag |
| SnippetsLibrary.InitProperties | plugins/snippets/snippets/SnippetsLibrary.py:62-99 | the properties are exactly the PROPS keys, each holding the text of the first child of that tag (accelerators normalised, invalid ones empty), else its default |
| SnippetsLibrary.StorePresent | plugins/snippets/snippets/SnippetsLibrary.py:72-89 | a property is stored exactly when some child has its tag, from the first such child, and struck off the remaining defaults; the defaults left keep their values |
| SnippetsLibrary.GetItem | plugins/snippets/snippets/SnippetsLibrary.py:101-108 | a property the snippet lacks reads as the empty string |
| SnippetsLibrary.InitLookup | plugins/snippets/snippets/SnippetsLibrary.py:62-108 | after init_snippet_data every PROPS key reads as its initial value and every other name as the empty string |
| SnippetsLibrary.Lookup | plugins/snippets/snippets/SnippetsLibrary.py:299-305 | a value never indexed yields no snippets |
| SnippetsLibrary.Indexed | plugins/snippets/snippets/SnippetsLibrary.py:230-250 | an empty value changes no list; otherwise the snippet is appended to its value's list and every other list is unchanged |
| SnippetsLibrary.Unindexed | plugins/snippets/snippets/SnippetsLibrary.py:252-271 | as intended: an empty value changes no list; otherwise the first occurrence of the snippet leaves its value's list and every other list is unchanged |
| SnippetsLibrary.IndexRoundTrip | plugins/snippets/snippets/SnippetsLibrary.py:230-271 | indexing a snippet not yet under a value and unindexing it again restores every lookup |
| SnippetsLibrary.PropChangedMoves | plugins/snippets/snippets/SnippetsLibrary.py:293-297 | a property change takes one occurrence of the snippet out of the old value's list and appends it to the new value's list |
| SnippetsLibrary.RemovedAsWritten | plugins/snippets/snippets/SnippetsLibrary.py:268-271 | as written, list.remove of an absent snippet raises ValueError, which the IndexError handler does not catch |
| SnippetsLibrary.UnindexedAsWrittenAgrees | plugins/snippets/snippets/SnippetsLibrary.py:252-271 | the written _remove_prop fails exactly when a non-empty value does not index the snippet, and otherwise agrees with the intended removal |
| SnippetsLibrary.RemoveAbsentRaises | plugins/snippets/snippets/SnippetsLibrary.py:284-291 | removing a snippet that was never added raises as written, while the intended removal leaves the list and the index unchanged |
| SnippetsLibrary.Lowered | plugins/snippets/snippets/SnippetsLibrary.py:747-751 | lower-casing keeps the length, leaves no capital letter and changes only capital letters |
| SnippetsLibrary.Normalize | plugins/snippets/snippets/SnippetsLibrary.py:747-751 | a language stays present or absent, and stays empty or non-empty, when normalised |
| SnippetsLibrary.NormalizeIdempotent | plugins/snippets/snippets/SnippetsLibrary.py:747-751 | normalising a language twice gives the same result as normalising it once |
| SnippetsLibrary.Shelved | plugins/snippets/snippets/SnippetsLibrary.py:691-698 | adding a file keeps every user file before every system file, a user file goes to the front and a system file to the back, and the files are the old ones plus the new one |
| SnippetsLibrary.AllUnloaded | plugins/snippets/snippets/SnippetsLibrary.py:449-454 | every file of the list is unloaded, in the same order |
| SnippetsLibrary.UserRun | plugins/snippets/snippets/SnippetsLibrary.py:620-625 | the length of the run of user files at the head of the list, ended by a system file or by the end of the list |
| SnippetsLibrary.LastModifier | plugins/snippets/snippets/SnippetsLibrary.py:620-623 | the chosen file is a modifiable user file of the list, and none is chosen exactly when the list has none |
| SnippetsLibrary.CreatedLanguage | plugins/snippets/snippets/SnippetsLibrary.py:333-337 | a file created for a named language takes that name in lower case; a missing or empty name gives the global language |
| SnippetsLibrary.Dropped | plugins/snippets/snippets/SnippetsLibrary.py:758-759 | an override key survives exactly when it was present and no removed snippet overrides it |
| SnippetsLibrary.ForgottenDropsIds | plugins/snippets/snippets/SnippetsLibrary.py:753-761 | removing a container leaves no loaded id of its snippets, adds no ids and keeps the loaded ids free of duplicates |
| SnippetsLibrary.LanguageContainer.constructor | plugins/snippets/snippets/SnippetsLibrary.py:223-228 | a new container is valid and empty, with both indexes empty and no references |
| SnippetsLibrary.LanguageContainer.AddProp | plugins/snippets/snippets/SnippetsLibrary.py:230-250 | the property's index gains the snippet under its value and the other index is unchanged |
| SnippetsLibrary.LanguageContainer.RemoveProp | plugins/snippets/snippets/SnippetsLibrary.py:252-271 | the property's index loses the snippet under its value, an absent one being ignored, and the other index is unchanged |
| SnippetsLibrary.LanguageContainer.Append | plugins/snippets/snippets/SnippetsLibrary.py:273-282 | the snippet is appended to the list and indexed under its tag and its accelerator, and is returned |
| SnippetsLibrary.LanguageContainer.Remove | plugins/snippets/snippets/SnippetsLibrary.py:284-291 | the first occurrence of the snippet leaves the list and both indexes, an absent one being ignored |
| SnippetsLibrary.LanguageContainer.PropChanged | plugins/snippets/snippets/SnippetsLibrary.py:293-297 | the changed index moves the snippet from its old value to its new one and the other index is unchanged |
| SnippetsLibrary.LanguageContainer.Ref | plugins/snippets/snippets/SnippetsLibrary.py:307-310 | one more reference, and the answer is true |
| SnippetsLibrary.LanguageContainer.Unref | plugins/snippets/snippets/SnippetsLibrary.py:312-316 | one reference fewer, never below zero, and the answer says whether references remain |
| SnippetsLibrary.LibraryImpl.constructor | plugins/snippets/snippets/SnippetsLibrary.py:558-572 | a new library has no files, containers, overrides, loaded ids or snippet data |
| SnippetsLibrary.LibraryImpl.Container | plugins/snippets/snippets/SnippetsLibrary.py:609-615 | returns the container of the normalised language: the existing one, or a new empty one that is then kept |
| SnippetsLibrary.LibraryImpl.AddSnippet | plugins/snippets/snippets/SnippetsLibrary.py:581-607 | the language's container exists afterwards and the snippet meets one of three fates: overridden, kept only as override data; a duplicate id, refused with nothing changed; otherwise appended to the container, its id loaded and its override recorded, the only case that returns a snippet |
| SnippetsLibrary.LibraryImpl.AddData | plugins/snippets/snippets/SnippetsLibrary.py:583-607 | the snippet's data is built from the element and meets the three fates of add_snippet; other languages' containers keep their snippets |
| SnippetsLibrary.LibraryImpl.Admit | plugins/snippets/snippets/SnippetsLibrary.py:583-607 | the three fates of add_snippet once the container exists, with the override data or the snippet data stored under the new reference |
| SnippetsLibrary.LibraryImpl.KeepOverride | plugins/snippets/snippets/SnippetsLibrary.py:663-673 | a new data object is made and recorded as the override of the id |
| SnippetsLibrary.LibraryImpl.Load | plugins/snippets/snippets/SnippetsLibrary.py:590-607 | a new data object joins the end of the language's container, its id is loaded and its override is recorded when not yet known, and other containers keep their snippets |
| SnippetsLibrary.LibraryImpl.Remember | plugins/snippets/snippets/SnippetsLibrary.py:590 | a new data object gets a fresh reference |
| SnippetsLibrary.LibraryImpl.RecordLoaded | plugins/snippets/snippets/SnippetsLibrary.py:601-605 | a present id joins the loaded ids, which stay free of duplicates, and a new override is recorded with no data |
| SnippetsLibrary.LibraryImpl.AppendTo | plugins/snippets/snippets/SnippetsLibrary.py:597 | the snippet joins the end of its language's container and other containers keep their snippets |
| SnippetsLibrary.LibraryImpl.AddLibrary | plugins/snippets/snippets/SnippetsLibrary.py:681-698 | a malformed file is ignored; otherwise it goes to the front of its language's list when it is a user file and to the back when it is a system file |
| SnippetsLibrary.LibraryImpl.GetUserLibrary | plugins/snippets/snippets/SnippetsLibrary.py:617-635 | the result is a user file: the last modifiable one before the first system file of the language when there is one, with nothing changed; otherwise a new user file for that language, added to the front of its list |
| SnippetsLibrary.LibraryImpl.EnsureContainers | plugins/snippets/snippets/SnippetsLibrary.py:799-809 | existing containers are kept; the global container and the language's exist afterwards when they have files, and only those two can be new and empty |
| SnippetsLibrary.LibraryImpl.FromProp | plugins/snippets/snippets/SnippetsLibrary.py:842-875 | nothing for a language without a container; otherwise the language's snippets for the value, or the global ones when it has none and the language is named |
| SnippetsLibrary.LibraryImpl.Ref | plugins/snippets/snippets/SnippetsLibrary.py:779-783 | the normalised language's container exists and has one reference more, starting from zero when it is new |
| SnippetsLibrary.LibraryImpl.Unref | plugins/snippets/snippets/SnippetsLibrary.py:785-797 | one reference less; when the last one goes and the language has files, its files are unloaded, its container removed, its ids unloaded and its overrides forgotten; otherwise nothing else changes |
| SnippetsLibrary.LibraryImpl.UnloadLibraries | plugins/snippets/snippets/SnippetsLibrary.py:794-795 | every file of the language is unloaded and the other languages are unchanged |
| SnippetsLibrary.LibraryImpl.RemoveContainer | plugins/snippets/snippets/SnippetsLibrary.py:753-761 | the container is removed, its snippets' ids unloaded and their overrides forgotten, so none of its ids remain loaded |
| SnippetsLibrary.LibraryImpl.ForgetSnippets | plugins/snippets/snippets/SnippetsLibrary.py:754-759 | the loaded ids lose each snippet's id once and the overrides lose each snippet's override, as Forgotten and Dropped say |

## Left out

- Widget construction, menus, dialogs, tooltips, cursors, signal wiring and rendering. This covers every file whose only content is user interface. The snippets `Manager.py` dialog is one of them.
- The snippet template parser, `Snippet.insert_into` and the Placeholder classes are not part of this model.
  - `apply_snippet` takes the inserted placeholders as a parameter.
  - What a placeholder does when it is entered, left, updated or removed is only recorded as an effect.
- Real I/O is abstract:
  - file operations (stat, rename, unlink, copy) and directory scanning;
  - the D-Bus connection, pipes and process spawning;
  - the GConf back end.

  The saver receives each system call's outcome as a parameter. The preference store is a map with a set of writable keys. The D-Bus service only keeps its counters.
- Timers and idle callbacks are never run as real time. A pending timeout is an id or a flag, and its firing is a method the caller invokes.
- Foreign calls become parameters or are left out:
  - GTK accelerator parsing, collation, `g_pattern_match` and gtksourceview's search;
  - the home directory and the current directory;
  - the language lookup in `set_uri`;
  - the document's answers to the view frame's searches.
- Floating-point and scrolling logic: print-preview zoom and canvas layout, `seek_to_line`, and the scrolling that `src/commands.c` triggers when it inserts and deletes a space.
- The GtkTextBuffer mark gravity is written out only where the replace loops move the cursor and the selection bound (`GtkText.ShiftMark`). Elsewhere the cursor is the offset it was last set to.
- GeditTextBuffer.TextBuffer.SetSearchText does not keep the number of lines of the search text. `compute_num_of_lines` counts them with Pango's paragraph boundaries.
- `line_pos_callback` of `src/commands.c` (the status-bar update) is not modelled.
- `src/commands.c` `search_start` replace mode is not modelled, and neither is the confirmation prompt of the `gedit/gedit-search.c` replace loop. Only the unconfirmed "Replace all" is modelled.
- GeditCommands.Document.SearchStart: the line number read by `sscanf` is a parameter, so the uninitialised value left by a failed `sscanf` is not modelled.
- GeditDBus: `g_variant` type mismatches in the optional parameters are not modelled.
- GeditDBus: the asynchronous pipe reader and the window closing in `wait_handler_dbus` are not modelled. `gulong` is taken to be 64 bits wide.
- GeditFileBrowserStore: row-inserted, row-deleted and row-changed signals, directory monitors and the loading of directories are not modelled. The store's nodes are identified by numbers rather than addresses.
- SnippetsLibrary:
  - XML loading and saving of snippet files (`parse_xml`, `load`, `save`, `SnippetsUserFile.remove`) is not modelled, and neither is the GTK accelerator group of a container.
  - `revert_snippet`, `remove_snippet`, `remove_library`, `new_snippet`, `get_snippets`, `get_accel_group`, `find_libraries`, `ensure_files` and `SnippetData.__setitem__`/`_override`/`revert` are not modelled.
  - SnippetsLibrary.LibraryImpl.AddLibrary: `library.ensure_language()` is not modelled. The file's language and `ok` flag come in already known.
- SnippetsDocument.Document.DeactivateSnippet: the `elif placeholder in self.jump_placeholders` branch (`Document.py`, lines 501-502) is never taken, because that queue holds (old, new) pairs and a pair never equals a placeholder. The model leaves the jump queue alone.
- SnippetsController.SnippetController.DeactivateSnippet: the same branch (`SnippetController.py`, lines 447-448) is treated the same way.
- GeditSearch.FindInFileSearch: the document name and the line text of each result entry are not modelled.
- GeditDocument.Document.ReplaceAll and GeditTextBuffer.TextBuffer.ReplaceAll: matching is exact. Without GEDIT_SEARCH_CASE_SENSITIVE the source asks gtksourceview for case-insensitive matching (its own case folding), and that is not captured.
- GeditDocument.Document.ReplaceAll and GeditTextBuffer.TextBuffer.ReplaceAll: a search text that unescapes to the empty string is excluded. What `gtk_source_iter_forward_search` does with an empty needle is gtksourceview's code, which is not part of this model.
- GeditSearchEntry.Atoi: the result is an unbounded integer. C's `atoi` overflows on digit strings beyond `G_MAXINT`, and that is not captured.
- GeditSearchEntry.GotoLineTarget: `cur_line + offset` and the 1-based line are unbounded, so the `gint` overflow of a very large goto entry is not captured.
- GeditFileBrowserStore.FileBrowserStore.IterHasChild, GeditFileBrowserStore.FileBrowserStore.IterNChildren and GeditFileBrowserStore.FileBrowserStore.IterNthChild require a node or a virtual root. With a NULL iterator and no virtual root the source dereferences NULL, and that crash is not captured.
- SnippetsDocument: `ordered_placeholders` (`Document.py`, lines 45, 512 and 681-705) and `on_buffer_insert_text` are not modelled. Nothing in `Document.py` adds to that list, so the handler only ever walks an empty list.
- GeditTextView.TextView.InitSearchEntry: in GTK 2 `gtk_entry_set_text` runs "changed" twice, once for the deletion and once for the insertion. The intermediate empty search text that the first run gives the document is not captured; only the final state is.
- GeditViewContainer.ViewContainer.Name: the document's short name (`gedit_document_get_short_name_for_display`) is a parameter.

## Findings

| source | as written | input that shows it | evidently intended | confidence | as-written member | corrected member |
|---|---|---|---|---|---|---|
| gedit/gedit-search.c:907-916 | `!(options \| SEARCH_BACKWARDS)` is never true, so "Replace all" never moves past a replacement | replace `a` by `ab` in the text `a`: every round finds the `a` it just inserted, and the loop does not end | `!(options & SEARCH_BACKWARDS)`: searching forwards, continue after the replacement | high; not executed | GeditSearch.ReplaceAllAsWrittenLoops | GeditSearch.ReplaceAll |
| gedit/gedit-document.c:1211 | `line > line_count` lets through `line == line_count`, a line that does not exist, and the call returns TRUE | a one-line document and `gedit_document_goto_line (doc, 1)` | `line >= line_count`, as the comment above the function says: a missing line puts the cursor on the last line and returns FALSE | medium; not executed | GeditDocument.GotoLineAsWrittenAcceptsMissingLine | GeditDocument.Document.GotoLine |
| gedit/gedit-view-container.c:2420-2447 | save-as computes `save_flags` with IGNORE_MTIME when it runs from the external-modification prompt, then passes the just-reset `priv->save_flags` | "Save As" while the container is in EXTERNALLY_MODIFIED_NOTIFICATION | pass the computed `save_flags` | high; not executed | GeditViewContainer.SaveAsAsWrittenChecksMtime | GeditViewContainer.ViewContainer.SaveAs |
| gedit/gedit-view-frame.c:1238-1246 | `old_search_text` is freed, and is only reassigned when the document has a search text | open the search popup on a document searched for "abc", empty the entry (which clears the document's search text), close, then open the popup again: the field points at freed memory, which Escape passes to `set_search_text` and the next popup frees again | set `old_search_text` to the document's search text, or NULL, after freeing it | high; not executed | GeditSearchEntry.InitSearchEntryAsWrittenDangles | GeditViewFrame.ViewFrame.KeepDocumentSearch |
| gedit/gedit-notebook.c:1218-1234 | `close_buttons_sensitive` is a signed one-bit field, so TRUE is stored as -1 and never equals the normalised `sensitive` value of 1 | `gedit_notebook_set_close_buttons_sensitive (nb, TRUE)` on a new notebook walks every page again | an unsigned bit field, so that setting an unchanged value returns early | medium; not executed | GeditNotebook.SetCloseButtonsAsWrittenRewalks | GeditNotebook.Notebook.SetCloseButtonsSensitive |
| gedit/gedit-notebook.c:1173-1184 | `focused_pages` is freed before the pages are removed, and each switch of the current page during the removal appends a page to it again | two pages with the first one current: the removed second page stays in `focused_pages` | empty the list after the pages are gone | medium; not executed | GeditNotebook.RemoveAllPagesAsWrittenKeepsRemovedPage | GeditNotebook.Notebook.RemoveAllPages |
| gedit/gedit-print-job-preview.c:359-373 | `(gint)(current_page - nx * ny)` is computed in `gulong` before the cast, so a screen larger than 2^31 pages wraps to a positive page number | `nx = ny = 65535` (the largest the properties accept), on the first page: "previous page" asks for page 131071 | go back a screen of pages and stop at the first page | low; not executed | GeditPrintJobPreview.PrevTargetAsWrittenOverflows | GeditPrintJobPreview.PrintJobPreview.PrevPageCmd |
| plugins/snippets/snippets/Document.py:260-264 | the hugging test reads `found.begin_iter()` when `found` is None | snippet `$0${1:foo}` with the cursor inside `foo`, then Tab: no placeholder begins after the cursor, and AttributeError is raised | test that `found` exists before comparing it | high; not executed | SnippetsDocument.AdvanceAsWrittenRaises | SnippetsDocument.Document.AdvancePlaceholder |
| plugins/snippets/snippets/Document.py:637-638 | a snippet whose begin or end mark was deleted is passed to `self.deactivate`, which the class does not define (SnippetController.py makes the same call) | an active snippet whose begin mark has been deleted from the buffer: the next cursor move raises AttributeError, and the snippet stays active | `self.deactivate_snippet(snippet)` | high; not executed | SnippetsCommon.CursorMovedRaisesExample | SnippetsDocument.Document.OnBufferCursorMoved |
| plugins/snippets/snippets/SnippetsLibrary.py:268-288 | `remove` and `_remove_prop` guard `list.remove` with `except IndexError`, but list.remove raises ValueError, and a missing value raises KeyError | `LanguageContainer.remove` of a snippet the container does not hold raises ValueError | catch ValueError (and KeyError), so that removing an absent snippet changes nothing | medium; not executed | SnippetsLibrary.RemoveAbsentRaises | SnippetsLibrary.LanguageContainer.Remove |
| gedit/gedit-view-frame.c:751-765 | `s` first holds a copy of the entry, then is overwritten with `g_utf8_strchr`'s answer, and that pointer is what `g_free` receives | type `:` at the end of the goto entry `1:2`: `g_free` gets a pointer one byte into the copy; typing `:` into `12` loses the copy (gedit-text-view.c lines 1269-1283 do the same) | keep the copy in its own variable and free that | high; not executed | GeditSearchEntry.ColonProbeAsWrittenFreesInside | GeditSearchEntry.ColonProbe |
| gedit/gedit-search.c:899-920 | nothing stops an empty "Search for" text, which matches at every position, so even with the guard corrected the loop never ends | an empty search text and "Replace all" on any document | refuse an empty search text, replacing nothing | medium; not executed | GeditSearch.EmptySearchRoundRepeats | GeditSearch.ReplaceAll |
| gedit/file.c:1091-1098 | a `../` met when only the root `/` has been written makes the back-up loop read `file_name_out[-1]` and go on before the buffer | `gedit_file_convert_to_full_pathname ("/../a")` | stay at the root, giving `/a` | medium; not executed | GeditFile.ClimbAboveRootAsWritten | GeditFile.ConvertToFullPathname |
