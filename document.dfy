/** The document state of gedit/gedit-document.c: text with its insert and
    selection-bound marks and the `has-selection` property kept from them,
    the URI and untitled number, the read-only flag and the auto-save timer,
    the search text, `goto_line` and the replace-all loop. */
module GeditDocument {
  import opened Common
  import opened GtkText
  import GeditUtils
  import opened GeditUntitled

  /** The marks whose `mark-set` the document handles. */
  datatype Mark = Insert | SelectionBound | OtherMark

  // ---------------------------------------------------------------------
  // goto_line

  /** `gedit_document_goto_line` as written (lines 1196-1221), for a line
      of at least -1: the returned flag and the new cursor. The line is
      compared as unsigned with the line count, and only a line strictly
      greater than the count is clamped and reported. */
  function GotoLineAsWritten(t: string, line: int): (r: (bool, nat))
    requires -1 <= line < 0x8000_0000
    ensures r.1 <= |t|
  {
    var lineCount := LineCount(t);
    if AsGuint(line) > lineCount then (false, IterAtLine(t, lineCount))
    else (true, IterAtLine(t, line))
  }

  /** The comment above the function promises FALSE for a line past the
      document's lines, but the line numbered with the line count itself
      (one past the last line, lines count from 0) is reported as found. */
  lemma GotoLineAsWrittenAcceptsMissingLine(t: string)
    requires |t| < 0x7fff_ffff
    ensures LineCount(t) < 0x8000_0000
    ensures GotoLineAsWritten(t, LineCount(t)).0
    ensures !(0 <= LineCount(t) < LineCount(t))
  {
    assert LineAt(t, |t|) <= |t|;
    AsGuintFacts(LineCount(t));
  }

  /** The ring of documents' untitled numbers is the one of
      gedit/gedit-document.c, lines 155-188. */
  class Document {
    var text: string
    var cursor: nat
    var selectionBound: nat
    var hasSelection: bool
    var hasSelectionNotifies: nat
    var stopCursorMovedEmission: bool
    var cursorMovedEmissions: nat

    var uri: Option<string>
    var mimeType: string
    var modified: bool
    var untitledNumber: int
    const numbers: UntitledNumbers

    var readonly: bool
    var autoSave: bool
    var autoSaveInterval: int
    /** The id of the pending auto-save source, 0 when there is none. */
    var autoSaveTimeout: nat

    var searchText: Option<string>
    var searchFlags: bv32
    var canSearchAgainNotifies: nat

    /** The marks lie in the text, a titled document holds no untitled
        number, and a stored search text is never empty. */
    predicate Valid()
      reads this`text, this`cursor, this`selectionBound, this`uri, this`untitledNumber, this`searchText
    {
      && cursor <= |text| && selectionBound <= |text|
      && (uri.None? ==> untitledNumber > 0)
      && (uri.Some? ==> untitledNumber == 0)
      && (searchText.Some? ==> searchText.value != "")
    }

    /** `gedit_document_init`, lines 545-581, with the two auto-save
        preferences and the default interval as parameters. */
    constructor(numbers: UntitledNumbers, autoSavePref: int, intervalPref: int, defaultInterval: int)
      modifies numbers
      ensures Valid() && this.numbers == numbers
      ensures untitledNumber == LeastFree(old(numbers.inUse))
      ensures numbers.inUse == old(numbers.inUse) + {untitledNumber}
      ensures text == [] && cursor == 0 && selectionBound == 0 && !hasSelection
      ensures uri.None? && mimeType == "text/plain" && !modified && !readonly
      ensures autoSave == (autoSavePref != 0)
      ensures autoSaveInterval == if intervalPref <= 0 then defaultInterval else intervalPref
      ensures autoSaveTimeout == 0 && searchText.None? && searchFlags == 0
      ensures !stopCursorMovedEmission && cursorMovedEmissions == 0
      ensures hasSelectionNotifies == 0 && canSearchAgainNotifies == 0
    {
      var n := numbers.GetUntitledNumber();
      this.numbers := numbers;
      text := [];
      cursor := 0;
      selectionBound := 0;
      hasSelection := false;
      hasSelectionNotifies := 0;
      stopCursorMovedEmission := false;
      cursorMovedEmissions := 0;
      uri := None;
      mimeType := "text/plain";
      modified := false;
      untitledNumber := n;
      readonly := false;
      autoSave := autoSavePref != 0;
      autoSaveInterval := if intervalPref <= 0 then defaultInterval else intervalPref;
      autoSaveTimeout := 0;
      searchText := None;
      searchFlags := 0;
      canSearchAgainNotifies := 0;
    }

    /** `gedit_document_is_untitled`, lines 1164-1170. */
    predicate IsUntitled()
      reads this
      ensures Valid() ==> (IsUntitled() <==> untitledNumber > 0)
    {
      uri.None?
    }

    /** `gedit_document_is_untouched`, lines 1155-1162. */
    predicate IsUntouched()
      reads this
      ensures IsUntouched() ==> IsUntitled()
    {
      uri.None? && !modified
    }

    /** `gedit_document_get_can_search_again`, lines 1274-1279. */
    predicate CanSearchAgain()
      reads this
      ensures Valid() ==> (CanSearchAgain() <==> searchText.Some? && searchText.value != "")
    {
      searchText.Some?
    }

    /** `set_uri`, lines 593-645 without the language lookup: an invalid
        URI is refused; a new URI releases the untitled number; the MIME
        type is only set when the document has a URI, and the guess from the
        file name is always "text/plain". */
    method SetUri(newUri: Option<string>, mime: Option<string>)
      requires Valid()
      modifies this, numbers
      ensures Valid()
      ensures newUri.Some? && !GeditUtils.AcceptableUri(newUri.value) ==>
        uri == old(uri) && mimeType == old(mimeType) && numbers.inUse == old(numbers.inUse)
      ensures newUri.Some? && GeditUtils.AcceptableUri(newUri.value) ==> uri == newUri && untitledNumber == 0
      ensures newUri.Some? && GeditUtils.AcceptableUri(newUri.value) && old(uri) != newUri ==>
        && numbers.inUse == (if old(untitledNumber) > 0 then old(numbers.inUse) - {old(untitledNumber)} else old(numbers.inUse))
        && mimeType == (if mime.Some? then mime.value else "text/plain")
      ensures newUri.None? ==> uri == old(uri) && untitledNumber == old(untitledNumber) && numbers.inUse == old(numbers.inUse)
      ensures newUri.None? ==> mimeType == if old(uri).None? then old(mimeType) else if mime.Some? then mime.value else "text/plain"
      ensures text == old(text) && cursor == old(cursor) && modified == old(modified) && searchText == old(searchText)
      ensures unchanged(this`selectionBound, this`readonly, this`autoSaveTimeout, this`cursorMovedEmissions)
    {
      if newUri.Some? {
        if !GeditUtils.AcceptableUri(newUri.value) {
          return;
        }
        if uri == newUri {
          return;
        }
        uri := newUri;
        if untitledNumber > 0 {
          numbers.ReleaseUntitledNumber(untitledNumber);
          untitledNumber := 0;
        }
      }
      if uri.None? {
        return;
      }
      mimeType := if mime.Some? then mime.value else "text/plain";
    }

    /** `emit_cursor_moved`, lines 291-300. */
    method EmitCursorMoved()
      modifies this`cursorMovedEmissions
      ensures cursorMovedEmissions == old(cursorMovedEmissions) + (if stopCursorMovedEmission then 0 else 1)
    {
      if !stopCursorMovedEmission {
        cursorMovedEmissions := cursorMovedEmissions + 1;
      }
    }

    /** The `mark-set` handler, lines 302-334, run after `mark` has moved:
        a move of either selection mark recomputes `has-selection` and
        notifies only a change; a move of the insert mark is a cursor move. */
    method OnMarkSet(mark: Mark)
      modifies this
      ensures mark != OtherMark ==> hasSelection == (cursor != selectionBound)
      ensures mark != OtherMark && old(hasSelection) != (cursor != selectionBound) ==>
        hasSelectionNotifies == old(hasSelectionNotifies) + 1
      ensures mark == OtherMark || old(hasSelection) == (cursor != selectionBound) ==>
        hasSelection == old(hasSelection) && hasSelectionNotifies == old(hasSelectionNotifies)
      ensures cursorMovedEmissions == old(cursorMovedEmissions) + (if mark == Insert && !stopCursorMovedEmission then 1 else 0)
      ensures unchanged(this`text, this`cursor, this`selectionBound, this`uri, this`untitledNumber)
      ensures unchanged(this`stopCursorMovedEmission, this`modified, this`searchText, this`searchFlags)
      ensures unchanged(this`readonly, this`autoSaveTimeout)
    {
      if mark == Insert || mark == SelectionBound {
        var sel := cursor != selectionBound;
        if sel != hasSelection {
          hasSelection := sel;
          hasSelectionNotifies := hasSelectionNotifies + 1;
        }
      }
      if mark == Insert {
        EmitCursorMoved();
      }
    }

    /** `gtk_text_buffer_move_mark` of one of the two selection marks. */
    method MoveMark(mark: Mark, pos: nat)
      requires Valid() && pos <= |text| && mark != OtherMark
      modifies this
      ensures Valid()
      ensures mark == Insert ==> cursor == pos && selectionBound == old(selectionBound)
      ensures mark == SelectionBound ==> selectionBound == pos && cursor == old(cursor)
      ensures hasSelection == (cursor != selectionBound)
      ensures hasSelectionNotifies == old(hasSelectionNotifies) + (if old(hasSelection) != hasSelection then 1 else 0)
      ensures cursorMovedEmissions == old(cursorMovedEmissions) + (if mark == Insert && !stopCursorMovedEmission then 1 else 0)
      ensures unchanged(this`text, this`uri, this`untitledNumber, this`stopCursorMovedEmission)
      ensures unchanged(this`modified, this`searchText, this`searchFlags, this`readonly, this`autoSaveTimeout)
    {
      if mark == Insert {
        cursor := pos;
      } else {
        selectionBound := pos;
      }
      OnMarkSet(mark);
    }

    /** `gtk_text_buffer_place_cursor`: both marks move to `pos`, then
        `mark-set` runs for the insert mark and for the selection bound. */
    method PlaceCursor(pos: nat)
      requires Valid() && pos <= |text|
      modifies this
      ensures Valid() && cursor == pos && selectionBound == pos && !hasSelection
      ensures hasSelectionNotifies == old(hasSelectionNotifies) + (if old(hasSelection) then 1 else 0)
      ensures cursorMovedEmissions == old(cursorMovedEmissions) + (if stopCursorMovedEmission then 0 else 1)
      ensures unchanged(this`text, this`uri, this`untitledNumber, this`stopCursorMovedEmission)
      ensures unchanged(this`modified, this`searchText, this`searchFlags, this`readonly, this`autoSaveTimeout)
    {
      cursor := pos;
      selectionBound := pos;
      OnMarkSet(Insert);
      OnMarkSet(SelectionBound);
    }

    /** `set_readonly`, lines 797-832: a read-only document loses its
        pending auto-save (installing one when it becomes writable is
        commented out in the source). */
    method SetReadonly(value: int)
      modifies this
      ensures readonly == (value != 0)
      ensures value != 0 ==> autoSaveTimeout == 0
      ensures value == 0 ==> autoSaveTimeout == old(autoSaveTimeout)
      ensures unchanged(this`text, this`cursor, this`selectionBound, this`uri, this`untitledNumber)
      ensures unchanged(this`autoSave, this`modified, this`searchText, this`cursorMovedEmissions)
    {
      var ro := value != 0;
      if ro {
        if autoSaveTimeout > 0 {
          autoSaveTimeout := 0;
        }
      }
      if readonly == ro {
        return;
      }
      readonly := ro;
    }

    /** `gedit_document_goto_line` with the comparison its comment
        describes: a line that does not exist is reported with FALSE and
        puts the cursor on the last line; a line below -1 is refused. */
    method GotoLine(line: int) returns (ret: bool)
      requires Valid() && |text| < 0x7fff_ffff && -0x8000_0000 <= line < 0x8000_0000
      modifies this
      ensures Valid()
      ensures text == old(text) && uri == old(uri) && searchText == old(searchText)
      ensures ret <==> 0 <= line < LineCount(text)
      ensures line < -1 ==> cursor == old(cursor) && selectionBound == old(selectionBound)
      ensures ret ==> cursor == LineStartOf(text, line) && !hasSelection
      ensures -1 <= line && !ret ==> cursor == LineStartOf(text, LineCount(text) - 1) && !hasSelection
      ensures cursorMovedEmissions == old(cursorMovedEmissions) + (if line < -1 || stopCursorMovedEmission then 0 else 1)
    {
      if line < -1 {
        return false;
      }
      ret := true;
      var lineCount := LineCount(text);
      assert LineAt(text, |text|) <= |text|;
      AsGuintFacts(line);
      var l := line;
      if AsGuint(line) >= lineCount {
        ret := false;
        l := lineCount;
      }
      var iter := IterAtLine(text, l);
      PlaceCursor(iter);
    }

    /** `gedit_document_set_search_text`, lines 1223-1262: NULL and the
        empty text both clear the search text, and `can-search-again` is
        notified when it flips. */
    method SetSearchText(newText: Option<string>, flags: bv32)
      requires Valid()
      modifies this
      ensures Valid()
      ensures newText.Some? && newText.value != "" ==> searchText == Some(GeditUtils.Unescape(newText.value))
      ensures newText.None? || newText == Some("") ==> searchText.None?
      ensures searchFlags == if IsDontSetFlags(flags) then old(searchFlags) else flags
      ensures canSearchAgainNotifies == old(canSearchAgainNotifies) + (if CanSearchAgain() != old(CanSearchAgain()) then 1 else 0)
      ensures unchanged(this`text, this`cursor, this`selectionBound, this`uri, this`untitledNumber)
      ensures unchanged(this`modified, this`readonly, this`cursorMovedEmissions)
    {
      var notify: bool;
      if newText.Some? && newText.value != "" {
        GeditUtils.UnescapeNonEmpty(newText.value);
        notify := searchText.None?;
        searchText := Some(GeditUtils.Unescape(newText.value));
      } else {
        notify := searchText.Some?;
        searchText := None;
      }
      if !IsDontSetFlags(flags) {
        searchFlags := flags;
      }
      if notify {
        canSearchAgainNotifies := canSearchAgainNotifies + 1;
      }
    }

    /** `gedit_document_get_search_text`, lines 1264-1272. */
    method GetSearchText() returns (r: Option<string>, flags: bv32)
      ensures searchText.None? ==> r.None?
      ensures searchText.Some? ==> r == Some(GeditUtils.Escape(searchText.value))
      ensures flags == searchFlags
    {
      r := GeditUtils.EscapeSearchText(searchText);
      flags := searchFlags;
    }

    /** `gedit_document_replace_all`, lines 1419-1521: every match from the
        start is replaced (with entire-word matching, a match `isWord`
        rejects is skipped), `cursor-moved` is held back for the whole run
        and emitted once, and the number of replacements is returned. A
        missing replacement or search text yields 0. */
    method ReplaceAll(find: Option<string>, replace: Option<string>, flags: bv32,
                      isWord: (string, nat, nat) -> bool) returns (cont: nat)
      requires Valid()
      // gtk_source_iter_forward_search is given an empty needle when the
      // unescaped text is empty; what it does then is gtksourceview's code,
      // which is not part of this model, so that call is not modelled.
      requires find.Some? ==> GeditUtils.Unescape(find.value) != ""
      modifies this`text, this`cursor, this`selectionBound, this`cursorMovedEmissions, this`stopCursorMovedEmission
      ensures Valid()
      ensures replace.None? || (find.None? && old(searchText).None?) ==>
        cont == 0 && text == old(text) && cursorMovedEmissions == old(cursorMovedEmissions)
      ensures replace.Some? && (find.Some? || old(searchText).Some?) ==>
        var s := if find.None? then old(searchText).value else GeditUtils.Unescape(find.value);
        && (text, cont) == ReplaceWordsFrom(old(text), s, GeditUtils.Unescape(replace.value), 0, IsEntireWord(flags), isWord)
        && !stopCursorMovedEmission && cursorMovedEmissions == old(cursorMovedEmissions) + 1
      ensures uri == old(uri) && searchText == old(searchText) && searchFlags == old(searchFlags)
    {
      if replace.None? {
        return 0;
      }
      if find.None? && searchText.None? {
        return 0;
      }
      var s := if find.None? then searchText.value else GeditUtils.Unescape(find.value);
      var rep := GeditUtils.Unescape(replace.value);
      stopCursorMovedEmission := true;
      cont := ReplaceLoop(s, rep, IsEntireWord(flags), isWord);
      stopCursorMovedEmission := false;
      EmitCursorMoved();
    }

    /** The do-while loop of `gedit_document_replace_all` (lines 1468-1506)
        from the start of the buffer, with `cursor-moved` held back. */
    method ReplaceLoop(s: string, rep: string, entireWord: bool, isWord: (string, nat, nat) -> bool) returns (cont: nat)
      requires Valid() && |s| > 0 && stopCursorMovedEmission
      modifies this`text, this`cursor, this`selectionBound, this`cursorMovedEmissions
      ensures Valid()
      ensures (text, cont) == ReplaceWordsFrom(old(text), s, rep, 0, entireWord, isWord)
      ensures cursorMovedEmissions == old(cursorMovedEmissions)
    {
      ghost var final := ReplaceWordsFrom(text, s, rep, 0, entireWord, isWord);
      cont := 0;
      var iter: nat := 0;
      var found := true;
      while found
        invariant Valid() && iter <= |text| + |s|
        invariant stopCursorMovedEmission && cursorMovedEmissions == old(cursorMovedEmissions)
        invariant found ==> ReplaceWordsReached(final, s, rep, entireWord, isWord, text, iter, cont)
        invariant !found ==> (text, cont) == final
        decreases if found then |text| - iter + |s| + 1 else 0
      {
        found, iter, cont := ReplaceStep(final, s, rep, entireWord, isWord, iter, cont);
      }
    }

    /** One pass of that loop (lines 1470-1504): the next match from
        `iter`; none ends the loop, a match that is not a whole word when
        one is asked for is skipped, any other is replaced. */
    method ReplaceStep(ghost final: (string, nat), s: string, rep: string, entireWord: bool, isWord: (string, nat, nat) -> bool,
                       iter: nat, cont: nat) returns (found: bool, iter': nat, cont': nat)
      requires Valid() && |s| > 0 && stopCursorMovedEmission && iter <= |text| + |s|
      requires ReplaceWordsReached(final, s, rep, entireWord, isWord, text, iter, cont)
      modifies this`text, this`cursor, this`selectionBound, this`cursorMovedEmissions
      ensures Valid() && iter' <= |text| + |s| && cursorMovedEmissions == old(cursorMovedEmissions)
      ensures found ==> ReplaceWordsReached(final, s, rep, entireWord, isWord, text, iter', cont')
                        && |text| - iter' < old(|text|) - iter
      ensures !found ==> (text, cont') == final
    {
      var m := FindFrom(text, s, iter);
      if m.None? {
        ReplaceWordsDone(final, s, rep, entireWord, isWord, text, iter, cont);
        found, iter', cont' := false, iter, cont;
      } else if entireWord && !isWord(text, m.value, m.value + |s|) {
        found, iter', cont' := true, m.value + |s|, cont;
        ReplaceWordsSkipStep(final, s, rep, entireWord, isWord, text, iter, cont, m.value);
      } else {
        found := true;
        iter', cont' := ReplaceMatch(final, s, rep, entireWord, isWord, iter, cont, m.value);
      }
    }

    /** One replacement of the loop (lines 1486-1500): the match at `m` is
        replaced, the count goes up and the search resumes after the
        inserted text. */
    method ReplaceMatch(ghost final: (string, nat), s: string, rep: string, entireWord: bool, isWord: (string, nat, nat) -> bool,
                        iter: nat, cont: nat, m: nat) returns (iter': nat, cont': nat)
      requires Valid() && |s| > 0 && ReplaceWordsReached(final, s, rep, entireWord, isWord, text, iter, cont)
      requires FindFrom(text, s, iter) == Some(m) && !(entireWord && !isWord(text, m, m + |s|))
      requires stopCursorMovedEmission
      modifies this`text, this`cursor, this`selectionBound, this`cursorMovedEmissions
      ensures Valid() && ReplaceWordsReached(final, s, rep, entireWord, isWord, text, iter', cont')
      ensures iter' <= |text| + |s| && |text| - iter' < old(|text|) - iter
      ensures cursorMovedEmissions == old(cursorMovedEmissions)
    {
      cont', iter' := cont + 1, m + |rep|;
      ReplaceWordsReachedStep(final, s, rep, entireWord, isWord, text, iter, cont, m, Spliced(text, m, |s|, rep));
      DeleteAndInsert(m, |s|, rep);
    }

    /** `gtk_text_buffer_delete` then `gtk_text_buffer_insert` at `m`; each
        emits `changed`, whose handler is a cursor move (lines 336-342).
        Both selection marks have right gravity. */
    method DeleteAndInsert(m: nat, len: nat, rep: string)
      requires Valid() && m + len <= |text|
      modifies this`text, this`cursor, this`selectionBound, this`cursorMovedEmissions
      ensures Valid()
      ensures text == Spliced(old(text), m, len, rep)
      ensures cursor == ShiftMark(old(cursor), m, len, |rep|)
      ensures selectionBound == ShiftMark(old(selectionBound), m, len, |rep|)
      ensures cursorMovedEmissions == old(cursorMovedEmissions) + (if stopCursorMovedEmission then 0 else 2)
    {
      DeleteText(m, len);
      assert text[..m] == old(text)[..m] && text[m..] == old(text)[m + len..];
      InsertText(m, rep);
    }

    /** `gtk_text_buffer_delete` of `len` characters at `m`: marks inside
        the range end up at `m`, marks after it move back. */
    method DeleteText(m: nat, len: nat)
      requires Valid() && m + len <= |text|
      modifies this`text, this`cursor, this`selectionBound, this`cursorMovedEmissions
      ensures Valid()
      ensures text == old(text)[..m] + old(text)[m + len..]
      ensures cursor == if old(cursor) <= m then old(cursor) else if old(cursor) <= m + len then m else old(cursor) - len
      ensures selectionBound == if old(selectionBound) <= m then old(selectionBound)
        else if old(selectionBound) <= m + len then m else old(selectionBound) - len
      ensures cursorMovedEmissions == old(cursorMovedEmissions) + (if stopCursorMovedEmission then 0 else 1)
    {
      text := text[..m] + text[m + len..];
      cursor := if cursor <= m then cursor else if cursor <= m + len then m else cursor - len;
      selectionBound := if selectionBound <= m then selectionBound
        else if selectionBound <= m + len then m else selectionBound - len;
      EmitCursorMoved();
    }

    /** `gtk_text_buffer_insert` of `rep` at `m`: right-gravity marks at or
        after `m` move past the new text. */
    method InsertText(m: nat, rep: string)
      requires Valid() && m <= |text|
      modifies this`text, this`cursor, this`selectionBound, this`cursorMovedEmissions
      ensures Valid()
      ensures text == old(text)[..m] + rep + old(text)[m..]
      ensures cursor == if old(cursor) < m then old(cursor) else old(cursor) + |rep|
      ensures selectionBound == if old(selectionBound) < m then old(selectionBound) else old(selectionBound) + |rep|
      ensures cursorMovedEmissions == old(cursorMovedEmissions) + (if stopCursorMovedEmission then 0 else 1)
    {
      text := text[..m] + rep + text[m..];
      cursor := if cursor < m then cursor else cursor + |rep|;
      selectionBound := if selectionBound < m then selectionBound else selectionBound + |rep|;
      EmitCursorMoved();
    }
  }
}
