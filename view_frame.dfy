/** The search and goto-line popup of gedit/gedit-view-frame.c: the start
    mark it remembers, the entry it fills in and filters, the searches it
    runs while the user types and the way it closes. The buffer is seen
    through its text and its two selection marks; the document's searches
    are parameters standing for the document's answers, and its line jumps
    are those of the text buffer. */
module GeditViewFrame {
  import opened Common
  import opened GtkText
  import opened GeditSearchEntry
  import GeditUtils

  /** GEDIT_VIEW_FRAME_SEARCH_DIALOG_TIMEOUT (line 34), in milliseconds. */
  const SearchDialogTimeoutMs: nat := 30 * 1000

  class ViewFrame {
    var searchMode: SearchMode
    var requestSearchMode: SearchMode
    /** search_widget is set and shown. */
    var widgetVisible: bool
    var disablePopdown: bool

    /** The buffer: its text, the insert mark and the selection bound. */
    var bufferText: string
    var cursor: nat
    var selectionBound: nat
    /** start_mark, while the popup is open. */
    var startMark: Option<nat>

    /** The flush timer's source id, 0 when there is none; ids come from a
        counter. */
    var flushTimeout: nat
    var nextSourceId: nat

    var entryText: string
    var background: EntryBackground
    var bells: nat

    var caseSensitive: bool
    var searchFlags: bv32
    var wrapAround: bool
    var oldSearchText: Option<string>
    var oldSearchFlags: bv32

    /** The completion list shared by all frames. */
    const completion: CompletionModel

    /** The marks lie in the buffer and a popup is open exactly while the
        start mark exists. */
    predicate Valid()
      reads this
    {
      && cursor <= |bufferText| && selectionBound <= |bufferText|
      && (startMark.Some? ==> startMark.value <= |bufferText|)
      && (widgetVisible <==> startMark.Some?)
      && 0 < nextSourceId && flushTimeout < nextSourceId
    }

    constructor(text: string, insert: nat, bound: nat, completion: CompletionModel)
      requires insert <= |text| && bound <= |text|
      ensures Valid() && this.completion == completion
      ensures bufferText == text && cursor == insert && selectionBound == bound
      ensures !widgetVisible && !disablePopdown && flushTimeout == 0
      ensures searchMode == Search && requestSearchMode == Search
      ensures entryText == [] && background == NormalBackground && bells == 0
      ensures oldSearchText.None? && oldSearchFlags == 0
    {
      searchMode := Search;
      requestSearchMode := Search;
      widgetVisible := false;
      disablePopdown := false;
      bufferText := text;
      cursor := insert;
      selectionBound := bound;
      startMark := None;
      flushTimeout := 0;
      nextSourceId := 1;
      entryText := [];
      background := NormalBackground;
      bells := 0;
      caseSensitive := false;
      searchFlags := 0;
      wrapAround := true;
      oldSearchText := None;
      oldSearchFlags := 0;
      this.completion := completion;
    }

    /** The selected text, when the two marks differ. */
    function Selection(): (r: Option<string>)
      reads this`bufferText, this`cursor, this`selectionBound
      requires cursor <= |bufferText| && selectionBound <= |bufferText|
      ensures r.Some? <==> cursor != selectionBound
      ensures r.Some? ==> r.value == bufferText[Min(cursor, selectionBound)..Max(cursor, selectionBound)]
    {
      SelectedText(bufferText, cursor, selectionBound)
    }

    method AddTimeout() returns (id: nat)
      requires Valid()
      modifies this`nextSourceId
      ensures Valid() && id == old(nextSourceId) && id > 0 && nextSourceId == id + 1
    {
      id := nextSourceId;
      nextSourceId := nextSourceId + 1;
    }

    /** hide_search_widget (lines 146-217): nothing happens while popdown
        is disabled; otherwise the flush timer goes, the popup closes, a
        cancelled search puts the cursor back at the start mark, and the
        start mark is deleted. */
    method Hide(cancel: bool)
      requires Valid() && widgetVisible
      modifies this`widgetVisible, this`flushTimeout, this`startMark, this`cursor, this`selectionBound
      ensures Valid()
      ensures old(disablePopdown) ==>
                widgetVisible && startMark == old(startMark) && flushTimeout == old(flushTimeout)
                && cursor == old(cursor) && selectionBound == old(selectionBound)
      ensures !old(disablePopdown) ==> !widgetVisible && startMark.None? && flushTimeout == 0
      ensures !old(disablePopdown) && cancel ==>
                cursor == old(startMark).value && selectionBound == old(startMark).value
      ensures !old(disablePopdown) && !cancel ==>
                cursor == old(cursor) && selectionBound == old(selectionBound)
    {
      if disablePopdown {
        return;
      }
      if flushTimeout != 0 {
        flushTimeout := 0;
      }
      widgetVisible := false;
      if cancel {
        cursor := startMark.value;
        selectionBound := startMark.value;
      }
      startMark := None;
    }

    /** search_entry_flush_timeout (lines 282-293): the timer clears its id
        and closes the popup without cancelling. */
    method FlushTimeoutFired()
      requires Valid() && widgetVisible && flushTimeout != 0
      modifies this`widgetVisible, this`flushTimeout, this`startMark, this`cursor, this`selectionBound
      ensures Valid() && flushTimeout == 0
      ensures cursor == old(cursor) && selectionBound == old(selectionBound)
      ensures widgetVisible == old(disablePopdown)
    {
      flushTimeout := 0;
      Hide(false);
    }

    /** init_search_entry (lines 1201-1270). A goto-line entry is set to
        the 1-based line of the start mark. A search entry is set to the
        selection when there is one of at most 160 characters and emptied
        otherwise; the document's search text goes into the completion list
        and is kept to be restored by Escape, and its flags are kept when
        non-zero. Setting the entry runs the insert filter and, when the
        text changes, search_init. Its one caller hands it the new, empty
        entry create_search_widget has just made (lines 1313 and 1334). */
    method InitSearchEntry(docSearchText: Option<string>, docSearchFlags: bv32,
                           searchForward: nat -> Option<Match>,
                           searchBackward: nat -> Option<Match>) returns (setSearchText: bool)
      requires Valid() && widgetVisible && entryText == [] && background == NormalBackground
      requires Searcher(searchForward, |bufferText|) && Searcher(searchBackward, |bufferText|)
      modifies this`entryText, this`oldSearchText, this`oldSearchFlags, completion, this`bells,
               this`cursor, this`selectionBound, this`background, this`flushTimeout, this`nextSourceId
      ensures Valid() && bells == old(bells)
      ensures old(flushTimeout) == 0 <==> flushTimeout == 0
      ensures searchMode == GotoLine ==>
                oldSearchText == old(oldSearchText) && oldSearchFlags == old(oldSearchFlags)
                && completion.entries == old(completion.entries)
      ensures searchMode == Search ==>
                oldSearchText == docSearchText
                && oldSearchFlags == (if docSearchFlags != 0 then docSearchFlags else old(oldSearchFlags))
                && completion.entries == MruAdd(old(completion.entries), docSearchText)
      ensures var fill := PrefillText(searchMode, bufferText, startMark.value, old(Selection()));
        && PopupState(entryText, cursor, selectionBound, background)
           == SetTextOutcome(searchMode, [], fill, bufferText, startMark.value, old(cursor),
                             old(selectionBound), NormalBackground, wrapAround, searchForward, searchBackward)
        && setSearchText == SetsSearchText(searchMode, [], fill, docSearchText, docSearchFlags,
                                           searchFlags)
    {
      var fill := PrefillText(searchMode, bufferText, startMark.value, Selection());
      if searchMode == Search {
        KeepDocumentSearch(docSearchText, docSearchFlags);
      }
      setSearchText := SetEntryText(fill, docSearchText, docSearchFlags, searchForward, searchBackward);
    }

    /** The search-mode part of init_search_entry before the entry is set
        (lines 1236-1252): the document's search text is kept to be
        restored by Escape and offered for completion, and its flags are
        kept when non-zero. */
    method KeepDocumentSearch(docSearchText: Option<string>, docSearchFlags: bv32)
      modifies this`oldSearchText, this`oldSearchFlags, completion
      ensures oldSearchText == docSearchText
      ensures oldSearchFlags == (if docSearchFlags != 0 then docSearchFlags else old(oldSearchFlags))
      ensures completion.entries == MruAdd(old(completion.entries), docSearchText)
    {
      oldSearchText := docSearchText;
      if docSearchText.Some? {
        completion.AddSearchCompletionEntry(docSearchText);
      }
      if docSearchFlags != 0 {
        oldSearchFlags := docSearchFlags;
      }
    }

    /** gtk_entry_set_text on the search entry: nothing happens when the
        entry already reads `t`; otherwise the entry is emptied and `t`
        inserted through search_entry_insert_text, and the one "changed"
        signal at the end runs search_init when the text changed. */
    method SetEntryText(t: string, docSearchText: Option<string>, docSearchFlags: bv32,
                        searchForward: nat -> Option<Match>,
                        searchBackward: nat -> Option<Match>) returns (setSearchText: bool)
      requires Valid() && widgetVisible
      requires Searcher(searchForward, |bufferText|) && Searcher(searchBackward, |bufferText|)
      modifies this`entryText, this`bells, this`cursor, this`selectionBound, this`background,
               this`flushTimeout, this`nextSourceId
      ensures Valid()
      ensures PopupState(entryText, cursor, selectionBound, background)
              == SetTextOutcome(searchMode, old(entryText), t, bufferText, startMark.value, old(cursor),
                                old(selectionBound), old(background), wrapAround, searchForward, searchBackward)
      ensures setSearchText == SetsSearchText(searchMode, old(entryText), t, docSearchText, docSearchFlags,
                                              searchFlags)
      ensures bells == old(bells) + (if t != old(entryText) && searchMode == GotoLine
                                        && !InsertAccepted([], t, 0) then 1 else 0)
      ensures old(flushTimeout) == 0 <==> flushTimeout == 0
    {
      setSearchText := false;
      if t == entryText {
        return;
      }
      var before := entryText;
      entryText := [];
      InsertText(t, 0);
      assert [][..0] + t + [][0..] == t;
      assert [][..0] + GeditUtils.Escape(t) + [][0..] == GeditUtils.Escape(t);
      assert entryText == SetTextResult(searchMode, before, t);
      if before != [] || entryText != [] {
        var target;
        setSearchText, target := SearchInit(docSearchText, docSearchFlags, searchForward, searchBackward);
      }
    }

    /** start_interactive_search_real (lines 1272-1344): a popup already open
        in the requested mode is left as it is; one open in the other mode is
        closed as cancelled, which puts both marks at its start mark unless
        popdown is disabled, and the popup is opened again. */
    method StartInteractiveSearch(docSearchText: Option<string>, docSearchFlags: bv32,
                                  searchForward: nat -> Option<Match>,
                                  searchBackward: nat -> Option<Match>)
      returns (r: bool, setSearchText: bool)
      requires Valid()
      requires Searcher(searchForward, |bufferText|) && Searcher(searchBackward, |bufferText|)
      modifies this, completion
      ensures Valid() && r && bufferText == old(bufferText)
      ensures old(widgetVisible) && old(searchMode) == old(requestSearchMode) ==>
                unchanged(this) && unchanged(completion) && !setSearchText
      ensures !(old(widgetVisible) && old(searchMode) == old(requestSearchMode)) ==>
                && searchMode == old(requestSearchMode) && widgetVisible && flushTimeout != 0
                && startMark.Some?
      ensures !(old(widgetVisible) && old(searchMode) == old(requestSearchMode)) ==>
        var closed := old(widgetVisible) && !old(disablePopdown);
        var insert := if closed then old(startMark).value else old(cursor);
        var bound := if closed then old(startMark).value else old(selectionBound);
        var fill := PrefillText(searchMode, bufferText, startMark.value, SelectedText(bufferText, insert, bound));
        && startMark == Some(if searchMode == Search then bound else insert)
        && PopupState(entryText, cursor, selectionBound, background)
           == SetTextOutcome(searchMode, [], fill, bufferText, startMark.value, insert, bound,
                             NormalBackground, wrapAround, searchForward, searchBackward)
        && setSearchText == SetsSearchText(searchMode, [], fill, docSearchText, docSearchFlags, searchFlags)
        && entryText == (if searchMode == Search then GeditUtils.Escape(fill) else fill)
        && (searchMode == GotoLine ==>
              cursor == selectionBound == LineStartAt(bufferText, insert) && background == NormalBackground)
      ensures !(old(widgetVisible) && old(searchMode) == old(requestSearchMode)) && searchMode == Search ==>
                oldSearchText == docSearchText
                && completion.entries == MruAdd(old(completion.entries), docSearchText)
    {
      if widgetVisible {
        if searchMode != requestSearchMode {
          Hide(true);
        } else {
          return true, false;
        }
      }
      ghost var insert, bound := cursor, selectionBound;
      assert Selection() == SelectedText(bufferText, insert, bound);
      setSearchText := Open(docSearchText, docSearchFlags, searchForward, searchBackward);
      FreshEntryOutcome(searchMode, bufferText, startMark.value, SelectedText(bufferText, insert, bound),
                        insert, bound, NormalBackground, wrapAround, searchForward, searchBackward,
                        docSearchText, docSearchFlags, searchFlags);
      if searchMode == GotoLine {
        GotoEntryLands(bufferText, insert, SelectedText(bufferText, insert, bound), [], bound,
                       NormalBackground, wrapAround, searchForward, searchBackward);
      }
      return true, setSearchText;
    }

    /** The popup takes the requested mode and a start mark at the
        selection bound (search) or the cursor (goto line); create_search_widget
        gives it a new, empty entry (lines 1294-1313). */
    method ShowPopup()
      requires Valid()
      modifies this`searchMode, this`startMark, this`widgetVisible, this`entryText, this`background
      ensures Valid() && widgetVisible && searchMode == requestSearchMode
      ensures startMark == Some(if searchMode == Search then selectionBound else cursor)
      ensures entryText == [] && background == NormalBackground
    {
      searchMode := requestSearchMode;
      startMark := Some(if searchMode == Search then selectionBound else cursor);
      widgetVisible := true;
      entryText := [];
      background := NormalBackground;
    }

    /** The opening half of start_interactive_search_real (lines 1294-1343):
        the popup takes the requested mode, its start mark goes to the
        selection bound (search) or the cursor (goto line), a new, empty
        entry is created and filled through init_search_entry, and the
        flush timer starts. A goto-line popup so moves the cursor to the
        start of its line; a search popup over a short selection holds the
        escaped selection and runs the typing search for it. */
    method Open(docSearchText: Option<string>, docSearchFlags: bv32,
                searchForward: nat -> Option<Match>,
                searchBackward: nat -> Option<Match>) returns (setSearchText: bool)
      requires Valid()
      requires Searcher(searchForward, |bufferText|) && Searcher(searchBackward, |bufferText|)
      modifies this`searchMode, this`startMark, this`widgetVisible, this`entryText, this`background,
               this`bells, this`cursor, this`selectionBound, this`flushTimeout, this`nextSourceId,
               this`oldSearchText, this`oldSearchFlags, completion
      ensures Valid() && widgetVisible && flushTimeout != 0 && searchMode == requestSearchMode
      ensures startMark == Some(if searchMode == Search then old(selectionBound) else old(cursor))
      ensures var fill := PrefillText(searchMode, bufferText, startMark.value, old(Selection()));
        && PopupState(entryText, cursor, selectionBound, background)
           == SetTextOutcome(searchMode, [], fill, bufferText, startMark.value, old(cursor),
                             old(selectionBound), NormalBackground, wrapAround, searchForward, searchBackward)
        && setSearchText == SetsSearchText(searchMode, [], fill, docSearchText, docSearchFlags, searchFlags)
      ensures searchMode == Search ==>
                oldSearchText == docSearchText
                && completion.entries == MruAdd(old(completion.entries), docSearchText)
    {
      ShowPopup();
      setSearchText := InitSearchEntry(docSearchText, docSearchFlags, searchForward, searchBackward);
      flushTimeout := nextSourceId;
      nextSourceId := nextSourceId + 1;
    }

    /** search_entry_insert_text (lines 726-819). In goto-line mode an
        insertion the filter refuses is stopped with a bell. In search mode
        the entry always receives the escaped form of the typed text. */
    method InsertText(inserted: string, position: nat)
      requires Valid() && position <= |entryText|
      modifies this`entryText, this`bells
      ensures searchMode == GotoLine && InsertAccepted(old(entryText), inserted, position) ==>
                entryText == old(entryText)[..position] + inserted + old(entryText)[position..]
                && bells == old(bells)
      ensures searchMode == GotoLine && !InsertAccepted(old(entryText), inserted, position) ==>
                entryText == old(entryText) && bells == old(bells) + 1
      ensures searchMode == Search ==>
                entryText == old(entryText)[..position] + GeditUtils.Escape(inserted) + old(entryText)[position..]
                && bells == old(bells)
    {
      if searchMode == GotoLine {
        var ok := GotoLineFilter(entryText, inserted, position);
        if ok {
          entryText := entryText[..position] + inserted + entryText[position..];
        } else {
          bells := bells + 1;
        }
      } else {
        entryText := entryText[..position] + SearchInsertion(inserted) + entryText[position..];
      }
    }

    /** run_search (lines 332-452): a match is selected; a failed search
        while typing puts the cursor back at the start mark; the entry shows
        not-found unless a match was found or the entry is empty. */
    method RunSearch(entry: string, backward: bool, wrap: bool, typing: bool,
                     searchForward: nat -> Option<Match>,
                     searchBackward: nat -> Option<Match>) returns (found: bool)
      requires Valid() && searchMode == Search && startMark.Some? && !(backward && typing)
      requires Searcher(searchForward, |bufferText|) && Searcher(searchBackward, |bufferText|)
      modifies this`cursor, this`selectionBound, this`background
      ensures Valid()
      ensures var m := SearchResult(entry, backward, wrap, typing, startMark.value,
                                    old(cursor), old(selectionBound), |bufferText|,
                                    searchForward, searchBackward);
              && (found <==> m.Some?)
              && (found ==> cursor == m.value.start && selectionBound == m.value.end)
      ensures !found && typing ==> cursor == startMark.value && selectionBound == startMark.value
      ensures !found && !typing ==> cursor == old(cursor) && selectionBound == old(selectionBound)
      ensures background == if found || entry == [] then NormalBackground else NotFoundBackground
    {
      var m := SearchResult(entry, backward, wrap, typing, startMark.value,
                            cursor, selectionBound, |bufferText|, searchForward, searchBackward);
      found := m.Some?;
      if found {
        cursor := m.value.start;
        selectionBound := m.value.end;
      } else if typing {
        cursor := startMark.value;
        selectionBound := startMark.value;
      }
      background := if found || entry == [] then NormalBackground else NotFoundBackground;
    }

    /** search_init (lines 902-1022), run whenever the entry changes. The
        flush timer is renewed when running. In search mode the document's
        search text is replaced when it differs from the entry in text or
        flags, and a typing search runs. In goto-line mode a non-empty
        entry is read as a line and a column relative to the start mark's
        line, the cursor jumps there and the entry shows not-found when
        either jump fails. */
    method SearchInit(docSearchText: Option<string>, docSearchFlags: bv32,
                      searchForward: nat -> Option<Match>,
                      searchBackward: nat -> Option<Match>)
      returns (setSearchText: bool, target: Option<GotoTarget>)
      requires Valid() && widgetVisible
      requires Searcher(searchForward, |bufferText|) && Searcher(searchBackward, |bufferText|)
      modifies this`cursor, this`selectionBound, this`background, this`flushTimeout, this`nextSourceId
      ensures Valid()
      ensures old(flushTimeout) == 0 <==> flushTimeout == 0
      ensures setSearchText <==> searchMode == Search
                                 && (docSearchText != Some(entryText) || docSearchFlags != searchFlags)
      ensures (cursor, selectionBound, background)
              == SearchInitEffect(searchMode, entryText, bufferText, startMark.value, old(cursor),
                                  old(selectionBound), old(background), wrapAround,
                                  searchForward, searchBackward)
      ensures target == if searchMode == GotoLine && entryText != []
                        then Some(GotoLineTarget(entryText, LineAt(bufferText, startMark.value)))
                        else None
    {
      if flushTimeout != 0 {
        flushTimeout := AddTimeout();
      }
      setSearchText := false;
      target := None;
      if searchMode == Search {
        setSearchText := docSearchText.None? || docSearchText.value != entryText
                         || docSearchFlags != searchFlags;
        var _ := RunSearch(entryText, false, wrapAround, true, searchForward, searchBackward);
      } else if entryText != [] {
        target := JumpToEntry();
      }
    }

    /** The goto-line branch of search_init: the entry read as a line and
        a column relative to the start's line, the jump through goto_line
        and goto_line_offset, and the entry's colour after it. */
    method JumpToEntry() returns (target: Option<GotoTarget>)
      requires Valid() && widgetVisible && searchMode == GotoLine && entryText != []
      modifies this`cursor, this`selectionBound, this`background
      ensures Valid()
      ensures var jump := GotoJump(bufferText, GotoLineTarget(entryText, LineAt(bufferText, startMark.value)), old(cursor));
              && cursor == selectionBound == jump.1
              && background == if jump.0 then NormalBackground else NotFoundBackground
      ensures target == Some(GotoLineTarget(entryText, LineAt(bufferText, startMark.value)))
    {
      var t := GotoLineTarget(entryText, LineAt(bufferText, startMark.value));
      target := Some(t);
      var jump := GotoJump(bufferText, t, cursor);
      cursor := jump.1;
      selectionBound := jump.1;
      background := if !jump.0 then NotFoundBackground else NormalBackground;
    }

    /** The Escape key (lines 526-541): in search mode the document's
        search text and flags are handed back as they were when the popup
        opened, then the popup closes as cancelled. */
    method EscapePressed() returns (restore: Option<(Option<string>, bv32)>)
      requires Valid() && widgetVisible
      modifies this`widgetVisible, this`flushTimeout, this`startMark, this`cursor, this`selectionBound
      ensures Valid()
      ensures searchMode == Search ==> restore == Some((oldSearchText, oldSearchFlags))
      ensures searchMode == GotoLine ==> restore.None?
      ensures !old(disablePopdown) ==>
                !widgetVisible && cursor == old(startMark).value && selectionBound == old(startMark).value
    {
      restore := if searchMode == Search then Some((oldSearchText, oldSearchFlags)) else None;
      Hide(true);
    }
  }
}
