/** The interactive search window of gedit/gedit-text-view.c, the older
    sibling of the view frame's popup: it keeps a start iterator instead of
    a mark, refuses to open while the view lacks the focus, and takes the
    mode its caller sets even when the window is already open. The entry
    logic is the one of GeditSearchEntry. */
module GeditTextView {
  import opened Common
  import opened GtkText
  import opened GeditSearchEntry
  import GeditUtils

  /** GEDIT_TEXT_VIEW_SEARCH_DIALOG_TIMEOUT (line 55), in milliseconds. */
  const SearchDialogTimeoutMs: nat := 30 * 1000

  class TextView {
    var searchMode: SearchMode
    var windowVisible: bool
    var disablePopdown: bool

    /** The buffer: its text, the insert mark and the selection bound. */
    var bufferText: string
    var cursor: nat
    var selectionBound: nat
    /** start_search_iter: where the current search started. */
    var startSearchIter: nat

    /** The flush timer's source id, 0 when there is none. */
    var flushTimeout: nat
    var nextSourceId: nat

    var entryText: string
    var background: EntryBackground
    var bells: nat

    var searchFlags: bv32
    var wrapAround: bool
    var oldSearchText: Option<string>
    var oldSearchFlags: bv32

    /** The completion list shared by all text views. */
    const completion: CompletionModel

    predicate Valid()
      reads this
    {
      && cursor <= |bufferText| && selectionBound <= |bufferText| && startSearchIter <= |bufferText|
      && 0 < nextSourceId && flushTimeout < nextSourceId
    }

    constructor(text: string, insert: nat, bound: nat, completion: CompletionModel)
      requires insert <= |text| && bound <= |text|
      ensures Valid() && this.completion == completion
      ensures bufferText == text && cursor == insert && selectionBound == bound
      ensures !windowVisible && !disablePopdown && flushTimeout == 0 && startSearchIter == 0
      ensures searchMode == Search && entryText == [] && bells == 0
      ensures oldSearchText.None? && oldSearchFlags == 0
    {
      searchMode := Search;
      windowVisible := false;
      disablePopdown := false;
      bufferText := text;
      cursor := insert;
      selectionBound := bound;
      startSearchIter := 0;
      flushTimeout := 0;
      nextSourceId := 1;
      entryText := [];
      background := NormalBackground;
      bells := 0;
      searchFlags := 0;
      wrapAround := true;
      oldSearchText := None;
      oldSearchFlags := 0;
      this.completion := completion;
    }

    /** The selected text, when the two marks differ. */
    function Selection(): (r: Option<string>)
      reads this`bufferText, this`cursor, this`selectionBound
      requires cursor <= |bufferText| && selectionBound <= |bufferText|
      ensures r.Some? <==> cursor != selectionBound
      ensures r.Some? ==> r.value == bufferText[Min(cursor, selectionBound)..Max(cursor, selectionBound)]
    {
      SelectedText(bufferText, cursor, selectionBound)
    }

    method AddTimeout() returns (id: nat)
      requires Valid()
      modifies this`nextSourceId
      ensures Valid() && id == old(nextSourceId) && id > 0 && nextSourceId == id + 1
    {
      id := nextSourceId;
      nextSourceId := nextSourceId + 1;
    }

    /** hide_search_window (lines 917-953): a no-op while popdown is
        disabled; otherwise the flush timer goes, the window hides and a
        cancelled search puts the cursor back at the start iterator. */
    method Hide(cancel: bool)
      requires Valid()
      modifies this`windowVisible, this`flushTimeout, this`cursor, this`selectionBound
      ensures Valid()
      ensures old(disablePopdown) ==>
                windowVisible == old(windowVisible) && flushTimeout == old(flushTimeout)
                && cursor == old(cursor) && selectionBound == old(selectionBound)
      ensures !old(disablePopdown) ==> !windowVisible && flushTimeout == 0
      ensures !old(disablePopdown) && cancel ==>
                cursor == startSearchIter && selectionBound == startSearchIter
      ensures !old(disablePopdown) && !cancel ==>
                cursor == old(cursor) && selectionBound == old(selectionBound)
    {
      if disablePopdown {
        return;
      }
      if flushTimeout != 0 {
        flushTimeout := 0;
      }
      windowVisible := false;
      if cancel {
        cursor := startSearchIter;
        selectionBound := startSearchIter;
      }
    }

    /** init_search_entry (lines 1557-1621): the goto-line entry is set to
        the start iterator's 1-based line; the search entry to a selection
        of at most 160 characters, or emptied, after the document's search
        text joined the completion list and was kept for Escape. The entry
        is the one the window has kept since it was first built, so setting
        it to the text it already holds changes nothing and runs no search. */
    method InitSearchEntry(docSearchText: Option<string>, docSearchFlags: bv32,
                           searchForward: nat -> Option<Match>,
                           searchBackward: nat -> Option<Match>) returns (setSearchText: bool)
      requires Valid()
      requires Searcher(searchForward, |bufferText|) && Searcher(searchBackward, |bufferText|)
      modifies this`entryText, this`oldSearchText, this`oldSearchFlags, completion, this`bells,
               this`cursor, this`selectionBound, this`background, this`flushTimeout, this`nextSourceId
      ensures Valid() && bells == old(bells)
      ensures old(flushTimeout) == 0 <==> flushTimeout == 0
      ensures searchMode == GotoLine ==>
                oldSearchText == old(oldSearchText) && oldSearchFlags == old(oldSearchFlags)
                && completion.entries == old(completion.entries)
      ensures searchMode == Search ==>
                oldSearchText == docSearchText
                && oldSearchFlags == (if docSearchFlags != 0 then docSearchFlags else old(oldSearchFlags))
                && completion.entries == MruAdd(old(completion.entries), docSearchText)
      ensures var fill := PrefillText(searchMode, bufferText, startSearchIter, old(Selection()));
        && PopupState(entryText, cursor, selectionBound, background)
           == SetTextOutcome(searchMode, old(entryText), fill, bufferText, startSearchIter, old(cursor),
                             old(selectionBound), old(background), wrapAround, searchForward, searchBackward)
        && setSearchText == SetsSearchText(searchMode, old(entryText), fill, docSearchText, docSearchFlags,
                                           searchFlags)
    {
      var fill := PrefillText(searchMode, bufferText, startSearchIter, Selection());
      if searchMode == Search {
        KeepDocumentSearch(docSearchText, docSearchFlags);
      }
      setSearchText := SetEntryText(fill, docSearchText, docSearchFlags, searchForward, searchBackward);
    }

    /** The search-mode part of init_search_entry before the entry is set
        (lines 1587-1601). The code reassigns the kept text only when the
        buffer has one; a buffer keeps its search text once it has one
        (gedit-text-buffer.c lines 1384-1400 store "" for an empty text and
        ignore NULL), so assigning it in both cases is the same. */
    method KeepDocumentSearch(docSearchText: Option<string>, docSearchFlags: bv32)
      modifies this`oldSearchText, this`oldSearchFlags, completion
      ensures oldSearchText == docSearchText
      ensures oldSearchFlags == (if docSearchFlags != 0 then docSearchFlags else old(oldSearchFlags))
      ensures completion.entries == MruAdd(old(completion.entries), docSearchText)
    {
      oldSearchText := docSearchText;
      if docSearchText.Some? {
        completion.AddSearchCompletionEntry(docSearchText);
      }
      if docSearchFlags != 0 {
        oldSearchFlags := docSearchFlags;
      }
    }

    /** gtk_entry_set_text on the search entry, whose "changed" handler
        start_interactive_search_real has connected: nothing happens when
        the entry already reads `t`; otherwise the entry is emptied, `t` is
        inserted through search_entry_insert_text, and search_init runs on
        the new text when it differs from the old. */
    method SetEntryText(t: string, docSearchText: Option<string>, docSearchFlags: bv32,
                        searchForward: nat -> Option<Match>,
                        searchBackward: nat -> Option<Match>) returns (setSearchText: bool)
      requires Valid()
      requires Searcher(searchForward, |bufferText|) && Searcher(searchBackward, |bufferText|)
      modifies this`entryText, this`bells, this`cursor, this`selectionBound, this`background,
               this`flushTimeout, this`nextSourceId
      ensures Valid()
      ensures PopupState(entryText, cursor, selectionBound, background)
              == SetTextOutcome(searchMode, old(entryText), t, bufferText, startSearchIter, old(cursor),
                                old(selectionBound), old(background), wrapAround, searchForward, searchBackward)
      ensures setSearchText == SetsSearchText(searchMode, old(entryText), t, docSearchText, docSearchFlags,
                                              searchFlags)
      ensures bells == old(bells) + (if t != old(entryText) && searchMode == GotoLine
                                        && !InsertAccepted([], t, 0) then 1 else 0)
      ensures old(flushTimeout) == 0 <==> flushTimeout == 0
    {
      setSearchText := false;
      if t == entryText {
        return;
      }
      var before := entryText;
      entryText := [];
      InsertText(t, 0);
      assert [][..0] + t + [][0..] == t;
      assert [][..0] + GeditUtils.Escape(t) + [][0..] == GeditUtils.Escape(t);
      assert entryText == SetTextResult(searchMode, before, t);
      if before != [] || entryText != [] {
        var target;
        setSearchText, target := SearchInit(docSearchText, docSearchFlags, searchForward, searchBackward);
      }
    }

    /** start_interactive_search and start_interactive_goto_line with
        start_interactive_search_real (lines 1737-1814): the mode is set
        first; an open window is left as it is and reports TRUE, a view
        without the focus reports FALSE; otherwise the start iterator goes
        to the start of the selection (search) or the cursor (goto line),
        the window opens, the entry is filled and the flush timer starts. A
        goto-line entry that changes moves the cursor to the start of its
        line. */
    method StartInteractiveSearch(mode: SearchMode, hasFocus: bool,
                                  docSearchText: Option<string>, docSearchFlags: bv32,
                                  searchForward: nat -> Option<Match>,
                                  searchBackward: nat -> Option<Match>)
      returns (r: bool, setSearchText: bool)
      requires Valid()
      requires Searcher(searchForward, |bufferText|) && Searcher(searchBackward, |bufferText|)
      modifies this, completion
      ensures Valid() && searchMode == mode && bufferText == old(bufferText)
      ensures r <==> old(windowVisible) || hasFocus
      ensures old(windowVisible) || !hasFocus ==>
                && windowVisible == old(windowVisible) && startSearchIter == old(startSearchIter)
                && entryText == old(entryText) && flushTimeout == old(flushTimeout)
                && cursor == old(cursor) && selectionBound == old(selectionBound)
                && completion.entries == old(completion.entries) && !setSearchText
      ensures !old(windowVisible) && hasFocus ==>
        var fill := PrefillText(mode, bufferText, startSearchIter, SelectedText(bufferText, old(cursor), old(selectionBound)));
        && windowVisible && flushTimeout != 0
        && startSearchIter == (if mode == Search then Min(old(cursor), old(selectionBound)) as nat else old(cursor))
        && PopupState(entryText, cursor, selectionBound, background)
           == SetTextOutcome(mode, old(entryText), fill, bufferText, startSearchIter, old(cursor),
                             old(selectionBound), old(background), wrapAround, searchForward, searchBackward)
        && setSearchText == SetsSearchText(mode, old(entryText), fill, docSearchText, docSearchFlags, searchFlags)
        && (mode == GotoLine && fill != old(entryText) ==>
              cursor == selectionBound == LineStartAt(bufferText, old(cursor)) && background == NormalBackground)
        && (mode == Search ==>
              oldSearchText == docSearchText && completion.entries == MruAdd(old(completion.entries), docSearchText))
    {
      searchMode := mode;
      if windowVisible {
        return true, false;
      }
      if !hasFocus {
        return false, false;
      }
      ghost var insert, bound, before, background0 := cursor, selectionBound, entryText, background;
      ghost var selection := Selection();
      setSearchText := Open(docSearchText, docSearchFlags, searchForward, searchBackward);
      if mode == GotoLine {
        if PrefillText(GotoLine, bufferText, insert, selection) != before {
          GotoEntryLands(bufferText, insert, selection, before, bound, background0, wrapAround,
                         searchForward, searchBackward);
        }
      }
      return true, setSearchText;
    }

    /** The start iterator goes to the start of the selection (search) or
        the cursor (goto line) and the window shows (lines 1752-1762). */
    method ShowWindow()
      requires Valid()
      modifies this`startSearchIter, this`windowVisible
      ensures Valid() && windowVisible
      ensures startSearchIter == (if searchMode == Search then Min(cursor, selectionBound) as nat else cursor)
    {
      startSearchIter := if searchMode == Search then Min(cursor, selectionBound) as nat else cursor;
      windowVisible := true;
    }

    /** The opening half of start_interactive_search_real (lines
        1746-1775): the start iterator is placed, the window shows, the
        entry is filled through init_search_entry and the flush timer
        starts. */
    method Open(docSearchText: Option<string>, docSearchFlags: bv32,
                searchForward: nat -> Option<Match>,
                searchBackward: nat -> Option<Match>) returns (setSearchText: bool)
      requires Valid()
      requires Searcher(searchForward, |bufferText|) && Searcher(searchBackward, |bufferText|)
      modifies this`startSearchIter, this`windowVisible, this`entryText, this`background,
               this`bells, this`cursor, this`selectionBound, this`flushTimeout, this`nextSourceId,
               this`oldSearchText, this`oldSearchFlags, completion
      ensures Valid() && windowVisible && flushTimeout != 0
      ensures startSearchIter == (if searchMode == Search then Min(old(cursor), old(selectionBound)) as nat
                                  else old(cursor))
      ensures var fill := PrefillText(searchMode, bufferText, startSearchIter, old(Selection()));
        && PopupState(entryText, cursor, selectionBound, background)
           == SetTextOutcome(searchMode, old(entryText), fill, bufferText, startSearchIter, old(cursor),
                             old(selectionBound), old(background), wrapAround, searchForward, searchBackward)
        && setSearchText == SetsSearchText(searchMode, old(entryText), fill, docSearchText, docSearchFlags,
                                           searchFlags)
      ensures searchMode == Search ==>
                oldSearchText == docSearchText
                && completion.entries == MruAdd(old(completion.entries), docSearchText)
    {
      ShowWindow();
      setSearchText := InitSearchEntry(docSearchText, docSearchFlags, searchForward, searchBackward);
      flushTimeout := AddTimeout();
    }

    /** search_entry_insert_text (lines 1244-1336): the goto-line filter
        and the escaping of search text. */
    method InsertText(inserted: string, position: nat)
      requires Valid() && position <= |entryText|
      modifies this`entryText, this`bells
      ensures searchMode == GotoLine && InsertAccepted(old(entryText), inserted, position) ==>
                entryText == old(entryText)[..position] + inserted + old(entryText)[position..]
                && bells == old(bells)
      ensures searchMode == GotoLine && !InsertAccepted(old(entryText), inserted, position) ==>
                entryText == old(entryText) && bells == old(bells) + 1
      ensures searchMode == Search ==>
                entryText == old(entryText)[..position] + GeditUtils.Escape(inserted) + old(entryText)[position..]
                && bells == old(bells)
    {
      if searchMode == GotoLine {
        var ok := GotoLineFilter(entryText, inserted, position);
        if ok {
          entryText := entryText[..position] + inserted + entryText[position..];
        } else {
          bells := bells + 1;
        }
      } else {
        entryText := entryText[..position] + SearchInsertion(inserted) + entryText[position..];
      }
    }

    /** run_search (lines 774-889): a match is selected; a failed search
        while typing puts the cursor back at the start iterator; the entry
        shows not-found unless a match was found or the entry is empty. */
    method RunSearch(entry: string, backward: bool, wrap: bool, typing: bool,
                     searchForward: nat -> Option<Match>,
                     searchBackward: nat -> Option<Match>) returns (found: bool)
      requires Valid() && searchMode == Search && !(backward && typing)
      requires Searcher(searchForward, |bufferText|) && Searcher(searchBackward, |bufferText|)
      modifies this`cursor, this`selectionBound, this`background
      ensures Valid()
      ensures var m := SearchResult(entry, backward, wrap, typing, startSearchIter,
                                    old(cursor), old(selectionBound), |bufferText|,
                                    searchForward, searchBackward);
              && (found <==> m.Some?)
              && (found ==> cursor == m.value.start && selectionBound == m.value.end)
      ensures !found && typing ==> cursor == startSearchIter && selectionBound == startSearchIter
      ensures !found && !typing ==> cursor == old(cursor) && selectionBound == old(selectionBound)
      ensures background == if found || entry == [] then NormalBackground else NotFoundBackground
    {
      var m := SearchResult(entry, backward, wrap, typing, startSearchIter,
                            cursor, selectionBound, |bufferText|, searchForward, searchBackward);
      found := m.Some?;
      if found {
        cursor := m.value.start;
        selectionBound := m.value.end;
      } else if typing {
        cursor := startSearchIter;
        selectionBound := startSearchIter;
      }
      background := if found || entry == [] then NormalBackground else NotFoundBackground;
    }

    /** search_init (lines 1623-1735): the flush timer is renewed when it
        runs. In search mode the document is handed the entry's text when
        its own text or flags differ from the entry's, and a typing search
        runs from the start iterator. In goto-line mode a non-empty entry is
        read as a line and a column relative to the start iterator's line,
        the cursor jumps there through the text buffer's goto_line and
        goto_line_offset, and the entry shows not-found when either fails. */
    method SearchInit(docSearchText: Option<string>, docSearchFlags: bv32,
                      searchForward: nat -> Option<Match>,
                      searchBackward: nat -> Option<Match>)
      returns (setSearchText: bool, target: Option<GotoTarget>)
      requires Valid()
      requires Searcher(searchForward, |bufferText|) && Searcher(searchBackward, |bufferText|)
      modifies this`cursor, this`selectionBound, this`background, this`flushTimeout, this`nextSourceId
      ensures Valid()
      ensures old(flushTimeout) == 0 <==> flushTimeout == 0
      ensures setSearchText <==> searchMode == Search
                                 && (docSearchText != Some(entryText) || docSearchFlags != searchFlags)
      ensures (cursor, selectionBound, background)
              == SearchInitEffect(searchMode, entryText, bufferText, startSearchIter, old(cursor),
                                  old(selectionBound), old(background), wrapAround,
                                  searchForward, searchBackward)
      ensures target == if searchMode == GotoLine && entryText != []
                        then Some(GotoLineTarget(entryText, LineAt(bufferText, startSearchIter)))
                        else None
    {
      if flushTimeout != 0 {
        flushTimeout := AddTimeout();
      }
      setSearchText := false;
      target := None;
      if searchMode == Search {
        setSearchText := docSearchText.None? || docSearchText.value != entryText
                         || docSearchFlags != searchFlags;
        var _ := RunSearch(entryText, false, wrapAround, true, searchForward, searchBackward);
      } else if entryText != [] {
        target := JumpToEntry();
      }
    }

    /** The goto-line branch of search_init: the entry read as a line and
        a column relative to the start's line, the jump through goto_line
        and goto_line_offset, and the entry's colour after it. */
    method JumpToEntry() returns (target: Option<GotoTarget>)
      requires Valid() && searchMode == GotoLine && entryText != []
      modifies this`cursor, this`selectionBound, this`background
      ensures Valid()
      ensures var jump := GotoJump(bufferText, GotoLineTarget(entryText, LineAt(bufferText, startSearchIter)), old(cursor));
              && cursor == selectionBound == jump.1
              && background == if jump.0 then NormalBackground else NotFoundBackground
      ensures target == Some(GotoLineTarget(entryText, LineAt(bufferText, startSearchIter)))
    {
      var t := GotoLineTarget(entryText, LineAt(bufferText, startSearchIter));
      target := Some(t);
      var jump := GotoJump(bufferText, t, cursor);
      cursor := jump.1;
      selectionBound := jump.1;
      background := if !jump.0 then NotFoundBackground else NormalBackground;
    }

    /** The Escape key (lines 1079-1095): in search mode the search text
        and flags kept when the window opened are handed back, then the
        window hides as cancelled. */
    method EscapePressed() returns (restore: Option<(Option<string>, bv32)>)
      requires Valid()
      modifies this`windowVisible, this`flushTimeout, this`cursor, this`selectionBound
      ensures Valid()
      ensures searchMode == Search ==> restore == Some((oldSearchText, oldSearchFlags))
      ensures searchMode == GotoLine ==> restore.None?
      ensures !old(disablePopdown) ==>
                !windowVisible && cursor == startSearchIter && selectionBound == startSearchIter
    {
      restore := if searchMode == Search then Some((oldSearchText, oldSearchFlags)) else None;
      Hide(true);
    }
  }
}
