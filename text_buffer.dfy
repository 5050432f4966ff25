/** The document state of gedit/gedit-text-buffer.c: the buffer's text and
    cursor, its URI and untitled number, the search text, the cursor-moved
    suppression `replace_all` uses, and the encoding. */
module GeditTextBuffer {
  import opened Common
  import opened GtkText
  import GeditUtils
  import opened GeditUntitled

  // ---------------------------------------------------------------------
  // Column with tabs expanded

  /** The column after `c` when the cursor was at column `col`: a tab
      moves to the next multiple of `tabSize` (line 2168). */
  function StepColumn(col: nat, c: char, tabSize: nat): nat
    requires tabSize > 0
  {
    if c == '\t' then col + (tabSize - col % tabSize) else col + 1
  }

  /** The width of `s` with its tabs expanded. */
  function ExpandedWidth(s: string, tabSize: nat): nat
    requires tabSize > 0
  {
    if s == [] then 0 else StepColumn(ExpandedWidth(s[..|s| - 1], tabSize), s[|s| - 1], tabSize)
  }

  lemma StepColumnBounds(col: nat, c: char, tabSize: nat)
    requires tabSize > 0
    ensures col + 1 <= StepColumn(col, c, tabSize) <= col + tabSize
  {
  }

  /** Every character takes at least one column and at most a tab stop. */
  lemma {:induction false} ExpandedWidthBounds(s: string, tabSize: nat)
    requires tabSize > 0
    ensures |s| <= ExpandedWidth(s, tabSize) <= |s| * tabSize
  {
    if s != [] {
      var p := s[..|s| - 1];
      ExpandedWidthBounds(p, tabSize);
      StepColumnBounds(ExpandedWidth(p, tabSize), s[|s| - 1], tabSize);
      GtkText.MulSucc(|p|, tabSize);
    }
  }

  /** A text without tabs is as wide as it is long. */
  lemma {:induction false} ExpandedWidthNoTabs(s: string, tabSize: nat)
    requires tabSize > 0 && forall k :: 0 <= k < |s| ==> s[k] != '\t'
    ensures ExpandedWidth(s, tabSize) == |s|
  {
    if s != [] {
      ExpandedWidthNoTabs(s[..|s| - 1], tabSize);
    }
  }

  /** A tab moves to the next multiple of the tab size. */
  lemma ExpandedWidthTabStop(s: string, tabSize: nat)
    requires tabSize > 0 && s != [] && s[|s| - 1] == '\t'
    ensures ExpandedWidth(s, tabSize) == (ExpandedWidth(s[..|s| - 1], tabSize) / tabSize + 1) * tabSize
  {
    StepColumnTab(ExpandedWidth(s[..|s| - 1], tabSize), tabSize);
  }

  lemma StepColumnTab(col: nat, tabSize: nat)
    requires tabSize > 0
    ensures StepColumn(col, '\t', tabSize) == (col / tabSize + 1) * tabSize
  {
    assert col == (col / tabSize) * tabSize + col % tabSize;
  }

  // ---------------------------------------------------------------------
  // Jumping to a line

  /** What goto_line_impl (lines 740-768) reports and where it puts the
      cursor. */
  function GotoLineResult(t: string, line: int): (r: (bool, nat))
    ensures r.1 <= |t|
  {
    if 0 <= line < LineCount(t) then (true, LineStartOf(t, line)) else (false, |t|)
  }

  /** The cursor goes to the start of the line when the line exists, and
      to the end of the text, reporting failure, for a negative line or one
      past the last. */
  lemma GotoLineLands(t: string, line: int)
    ensures var r := GotoLineResult(t, line);
      && (r.0 <==> 0 <= line < LineCount(t))
      && (r.0 ==> LineAt(t, r.1) == line && (r.1 == 0 || t[r.1 - 1] == '\n'))
      && (!r.0 ==> r.1 == |t|)
  {
  }

  /** What goto_line_offset_impl (lines 770-796) reports and where it puts
      the cursor. */
  function GotoLineOffsetResult(t: string, line: int, offset: int): (r: (bool, nat))
    ensures r.1 <= |t|
  {
    var l := if 0 <= line < LineCount(t) then line else LineCount(t) - 1;
    if 0 <= offset <= CharsInLine(t, l) then (true, LineStartOf(t, l) + offset)
    else (false, IterAtLine(t, line))
  }

  /** GotoLineOffsetResult as the code computes it: the offset, compared
      unsigned, against the characters of the line it lands on. */
  lemma GotoLineOffsetUnsigned(t: string, line: int, offset: int)
    requires |t| < 0x7fff_ffff && -0x8000_0000 <= offset < 0x8000_0000
    ensures var l := if 0 <= line < LineCount(t) then line else LineCount(t) - 1;
      GotoLineOffsetResult(t, line, offset)
      == if AsGuint(offset) > CharsInLine(t, l) then (false, IterAtLine(t, line))
         else (true, IterAtLine(t, line) + offset)
  {
    AsGuintFacts(offset);
  }

  /** The cursor lands on the line, or on the last line when the line does
      not exist: at the offset when the line has that many characters, and
      at the line's start otherwise. */
  lemma GotoLineOffsetLands(t: string, line: int, offset: int)
    ensures var l := if 0 <= line < LineCount(t) then line else LineCount(t) - 1;
            var r := GotoLineOffsetResult(t, line, offset);
      && LineStartOf(t, l) <= r.1 <= LineStartOf(t, l) + CharsInLine(t, l)
      && (r.0 <==> 0 <= offset <= CharsInLine(t, l))
      && (r.0 ==> r.1 == LineStartOf(t, l) + offset)
      && (!r.0 ==> r.1 == LineStartOf(t, l))
  {
  }

  // ---------------------------------------------------------------------
  // URIs

  /** The encodings are static records compared by address; a record here. */
  datatype Encoding = Encoding(charset: string)

  /** What `replace_all` looks for: the given text unescaped, or else the
      stored search text. */
  function ReplacedText(find: Option<string>, searchText: Option<string>): string
    requires find.Some? || searchText.Some?
  {
    if find.None? then searchText.value else GeditUtils.Unescape(find.value)
  }

  class TextBuffer {
    var text: string
    var cursor: nat
    var uri: Option<string>
    var modified: bool
    var untitledNumber: int
    const numbers: UntitledNumbers

    var searchText: Option<string>
    var searchFlags: bv32
    /** How often the search highlighting was recomputed over the buffer. */
    var searchRegionUpdates: nat
    var canSearchAgainNotifies: nat

    var stopCursorMovedEmission: bool
    var cursorMovedEmissions: nat
    var bracketsHighlighting: bool
    var searchHighlighting: bool

    var encoding: Encoding
    var encodingNotifies: nat
    /** The (uri, charset) pairs written to the metadata store. */
    var metadataWrites: seq<(Option<string>, string)>

    /** Positions fit a `gint`; a titled buffer holds no untitled number and
        an untitled one holds a positive number. */
    predicate Valid()
      reads this`cursor, this`text, this`uri, this`untitledNumber
    {
      && cursor <= |text|
      && (uri.None? ==> untitledNumber > 0)
      && (uri.Some? ==> untitledNumber == 0)
    }

    /** Lines 1012-1024. */
    constructor(numbers: UntitledNumbers, encoding: Encoding)
      modifies numbers
      ensures Valid() && fresh(this)
      ensures this.numbers == numbers
      ensures untitledNumber == LeastFree(old(numbers.inUse))
      ensures numbers.inUse == old(numbers.inUse) + {untitledNumber}
      ensures text == [] && cursor == 0 && uri.None? && !modified
      ensures searchText.None? && searchFlags == 0 && !stopCursorMovedEmission
      ensures cursorMovedEmissions == 0 && canSearchAgainNotifies == 0 && searchRegionUpdates == 0
      ensures this.encoding == encoding && encodingNotifies == 0 && metadataWrites == []
    {
      var n := numbers.GetUntitledNumber();
      this.numbers := numbers;
      text := [];
      cursor := 0;
      uri := None;
      modified := false;
      untitledNumber := n;
      searchText := None;
      searchFlags := 0;
      searchRegionUpdates := 0;
      canSearchAgainNotifies := 0;
      stopCursorMovedEmission := false;
      cursorMovedEmissions := 0;
      bracketsHighlighting := true;
      searchHighlighting := false;
      this.encoding := encoding;
      encodingNotifies := 0;
      metadataWrites := [];
    }

    /** `is_untitled_impl`, lines 706-712. */
    predicate IsUntitled()
      reads this
      ensures Valid() ==> (IsUntitled() <==> untitledNumber > 0)
    {
      uri.None?
    }

    /** `is_untouched_impl`, lines 698-704. */
    predicate IsUntouched()
      reads this
      ensures IsUntouched() ==> IsUntitled()
    {
      uri.None? && !modified
    }

    /** The URI part of `set_uri` (lines 549-563): an invalid URI is
        refused, and the first URI releases the untitled number. */
    method SetUri(newUri: string)
      requires Valid()
      modifies this, numbers
      ensures Valid()
      ensures !GeditUtils.AcceptableUri(newUri) || old(uri) == Some(newUri) ==>
        uri == old(uri) && untitledNumber == old(untitledNumber) && numbers.inUse == old(numbers.inUse)
      ensures GeditUtils.AcceptableUri(newUri) && old(uri) != Some(newUri) ==>
        && uri == Some(newUri) && untitledNumber == 0
        && numbers.inUse == (if old(untitledNumber) > 0 then old(numbers.inUse) - {old(untitledNumber)} else old(numbers.inUse))
      ensures !IsUntitled() <==> (old(!IsUntitled()) || GeditUtils.AcceptableUri(newUri))
      ensures text == old(text) && cursor == old(cursor) && modified == old(modified)
      ensures searchText == old(searchText) && cursorMovedEmissions == old(cursorMovedEmissions)
      ensures unchanged(this`encoding, this`metadataWrites, this`searchFlags, this`stopCursorMovedEmission)
    {
      if !GeditUtils.AcceptableUri(newUri) {
        return;
      }
      if uri == Some(newUri) {
        return;
      }
      uri := Some(newUri);
      if untitledNumber > 0 {
        numbers.ReleaseUntitledNumber(untitledNumber);
        untitledNumber := 0;
      }
    }

    /** `emit_cursor_moved`, lines 340-349. */
    method EmitCursorMoved()
      modifies this`cursorMovedEmissions
      ensures cursorMovedEmissions == old(cursorMovedEmissions) + (if stopCursorMovedEmission then 0 else 1)
    {
      if !stopCursorMovedEmission {
        cursorMovedEmissions := cursorMovedEmissions + 1;
      }
    }

    /** `gtk_text_buffer_place_cursor`, which moves the insert mark and so
        runs `mark_set` (lines 352-366). */
    method PlaceCursor(pos: nat)
      requires Valid() && pos <= |text|
      modifies this`cursor, this`cursorMovedEmissions
      ensures Valid() && cursor == pos
      ensures cursorMovedEmissions == old(cursorMovedEmissions) + (if stopCursorMovedEmission then 0 else 1)
      ensures unchanged(this`text, this`uri, this`untitledNumber, this`stopCursorMovedEmission)
      ensures unchanged(this`searchText, this`searchFlags, this`modified, this`encoding)
    {
      cursor := pos;
      EmitCursorMoved();
    }

    /** `goto_line_impl`, lines 740-768: a line that does not exist puts
        the cursor at the end of the text. */
    method GotoLine(line: int) returns (ret: bool)
      requires Valid() && |text| < 0x7fff_ffff && -0x8000_0000 <= line < 0x8000_0000
      modifies this
      ensures Valid()
      ensures text == old(text) && uri == old(uri) && searchText == old(searchText)
      ensures ret <==> 0 <= line < LineCount(text)
      ensures ret ==> cursor == LineStartOf(text, line)
      ensures !ret ==> cursor == |text|
      ensures (ret, cursor) == GotoLineResult(text, line)
      ensures cursorMovedEmissions == old(cursorMovedEmissions) + (if stopCursorMovedEmission then 0 else 1)
    {
      AsGuintFacts(line);
      var lineCount := LineCount(text);
      var pos: nat;
      if AsGuint(line) >= lineCount {
        ret := false;
        pos := |text|;
      } else {
        ret := true;
        pos := IterAtLine(text, line);
      }
      PlaceCursor(pos);
    }

    /** `goto_line_offset_impl`, lines 770-796: an offset past the line's
        characters, or a negative one (compared as unsigned), leaves the
        cursor at the start of the line. */
    method GotoLineOffset(line: int, lineOffset: int) returns (ret: bool)
      requires Valid() && |text| < 0x7fff_ffff && -0x8000_0000 <= lineOffset < 0x8000_0000
      modifies this
      ensures Valid()
      ensures var l := if 0 <= line < LineCount(text) then line else LineCount(text) - 1;
        && (ret <==> 0 <= lineOffset <= CharsInLine(text, l))
        && (ret ==> cursor == LineStartOf(text, l) + lineOffset)
        && (!ret ==> cursor == LineStartOf(text, l))
      ensures (ret, cursor) == GotoLineOffsetResult(text, line, lineOffset)
      ensures text == old(text) && uri == old(uri) && searchText == old(searchText)
      ensures cursorMovedEmissions == old(cursorMovedEmissions) + (if stopCursorMovedEmission then 0 else 1)
    {
      var l := if 0 <= line < LineCount(text) then line else LineCount(text) - 1;
      var iter := IterAtLine(text, line);
      var offsetCount := CharsInLine(text, l);
      if AsGuint(lineOffset) > offsetCount {
        ret := false;
      } else {
        ret := true;
        iter := iter + lineOffset;
      }
      GotoLineOffsetUnsigned(text, line, lineOffset);
      assert (ret, iter) == GotoLineOffsetResult(text, line, lineOffset);
      PlaceCursor(iter);
      GotoLineOffsetLands(text, line, lineOffset);
    }

    /** `gedit_text_buffer_get_cursor_position`, lines 2146-2176. */
    method GetCursorPosition(tabSize: nat) returns (row: nat, col: nat)
      requires Valid() && tabSize > 0
      ensures row == LineAt(text, cursor)
      ensures col == ExpandedWidth(text[LineStartAt(text, cursor)..cursor], tabSize)
    {
      row := LineAt(text, cursor);
      var start := LineStartAt(text, cursor);
      col := 0;
      var i := start;
      while i < cursor
        invariant start <= i <= cursor
        invariant col == ExpandedWidth(text[start..i], tabSize)
      {
        assert text[start..i + 1][..i - start] == text[start..i];
        if text[i] == '\t' {
          col := col + (tabSize - col % tabSize);
        } else {
          col := col + 1;
        }
        i := i + 1;
      }
    }

    /** `get_can_search_again`, lines 1443-1450. */
    predicate CanSearchAgain()
      reads this
      ensures CanSearchAgain() ==> searchText.Some? && |searchText.value| > 0
      ensures searchText.Some? && !CanSearchAgain() ==> searchText.value == []
    {
      searchText.Some? && searchText.value != ""
    }

    /** Lines 1369-1429 (the line count of the search text is computed
        with Pango and is left out). */
    method SetSearchText(newText: Option<string>, flags: bv32)
      modifies this
      ensures newText.Some? && newText.value != "" ==> searchText == Some(GeditUtils.Unescape(newText.value))
      ensures newText == Some("") ==> searchText == Some("")
      ensures newText.None? ==> searchText == old(searchText)
      ensures searchFlags == if IsDontSetFlags(flags) then old(searchFlags) else flags
      ensures searchRegionUpdates == old(searchRegionUpdates)
        + (if newText.Some? || (!IsDontSetFlags(flags) && flags != old(searchFlags)) then 1 else 0)
      ensures canSearchAgainNotifies == old(canSearchAgainNotifies) + (if CanSearchAgain() != old(CanSearchAgain()) then 1 else 0)
      ensures unchanged(this`text, this`cursor, this`uri, this`untitledNumber, this`cursorMovedEmissions)
      ensures unchanged(this`modified, this`encoding, this`stopCursorMovedEmission)
    {
      var notify := false;
      var updateToSearchRegion := false;
      if newText.Some? {
        var converted: string;
        if newText.value != "" {
          converted := GeditUtils.Unescape(newText.value);
          GeditUtils.UnescapeNonEmpty(newText.value);
          notify := !CanSearchAgain();
        } else {
          converted := "";
          notify := CanSearchAgain();
        }
        searchText := Some(converted);
        updateToSearchRegion := true;
      }
      if !IsDontSetFlags(flags) {
        if searchFlags != flags {
          updateToSearchRegion := true;
        }
        searchFlags := flags;
      }
      if updateToSearchRegion {
        searchRegionUpdates := searchRegionUpdates + 1;
      }
      if notify {
        canSearchAgainNotifies := canSearchAgainNotifies + 1;
      }
    }

    /** Lines 1431-1441: the stored text escaped again, and the flags. */
    method GetSearchText() returns (r: Option<string>, flags: bv32)
      ensures searchText.None? ==> r.None?
      ensures searchText.Some? ==> r == Some(GeditUtils.Escape(searchText.value))
      ensures flags == searchFlags
    {
      r := GeditUtils.EscapeSearchText(searchText);
      flags := searchFlags;
    }

    /** `replace_all`, lines 1597-1699: every match from the start of the
        buffer is replaced (with GEDIT_SEARCH_ENTIRE_WORD set, a match
        `isWord` rejects is stepped over); `cursor-moved` is held back for
        the whole run and emitted once at the end, and the bracket and
        search highlighting are switched off and restored. `isWord (t, a, b)`
        stands for `gtk_text_iter_starts_word` at `a` and
        `gtk_text_iter_ends_word` at `b` (Pango's word boundaries). */
    method ReplaceAll(find: Option<string>, replace: string, flags: bv32,
                      isWord: (string, nat, nat) -> bool) returns (cont: nat)
      requires Valid()
      requires find.None? && searchText.Some? ==> searchText.value != ""
      // gtk_source_iter_forward_search is given an empty needle when the
      // unescaped text is empty; what it does then is gtksourceview's code,
      // which is not part of this model, so that call is not modelled.
      requires find.Some? ==> GeditUtils.Unescape(find.value) != ""
      modifies this`text, this`cursor, this`cursorMovedEmissions, this`stopCursorMovedEmission
      modifies this`bracketsHighlighting, this`searchHighlighting
      ensures Valid()
      ensures find.None? && old(searchText).None? ==> cont == 0 && text == old(text)
      ensures find.Some? || old(searchText).Some? ==>
        (text, cont) == ReplaceWordsFrom(old(text), ReplacedText(find, old(searchText)), GeditUtils.Unescape(replace), 0,
                                         IsEntireWord(flags), isWord)
      ensures find.Some? || old(searchText).Some? ==>
        !stopCursorMovedEmission && cursorMovedEmissions == old(cursorMovedEmissions) + 1
      ensures bracketsHighlighting == old(bracketsHighlighting) && searchHighlighting == old(searchHighlighting)
      ensures uri == old(uri) && searchText == old(searchText) && searchFlags == old(searchFlags)
    {
      if find.None? && searchText.None? {
        return 0;
      }
      var s := ReplacedText(find, searchText);
      var rep := GeditUtils.Unescape(replace);
      stopCursorMovedEmission := true;
      var brackets := bracketsHighlighting;
      bracketsHighlighting := false;
      var highlighting := searchHighlighting;
      searchHighlighting := false;
      cont := ReplaceMatches(s, rep, IsEntireWord(flags), isWord);
      stopCursorMovedEmission := false;
      EmitCursorMoved();
      bracketsHighlighting := brackets;
      searchHighlighting := highlighting;
    }

    /** The do-while loop of `replace_all` (lines 1649-1687): from the start
        of the buffer, a match that is not a word when entire-word matching
        is asked for is stepped over (the search resumes at its end); every
        other match is replaced and the search goes on after the
        replacement, while `cursor-moved` is held back. */
    method ReplaceMatches(s: string, rep: string, entireWord: bool, isWord: (string, nat, nat) -> bool)
      returns (cont: nat)
      requires Valid() && |s| > 0 && stopCursorMovedEmission
      modifies this`text, this`cursor, this`cursorMovedEmissions
      ensures Valid() && (text, cont) == ReplaceWordsFrom(old(text), s, rep, 0, entireWord, isWord)
      ensures cursorMovedEmissions == old(cursorMovedEmissions)
    {
      ghost var final := ReplaceWordsFrom(text, s, rep, 0, entireWord, isWord);
      cont := 0;
      var iter: nat := 0;
      var found := true;
      while found
        invariant Valid() && iter <= |text| + |s|
        invariant stopCursorMovedEmission && cursorMovedEmissions == old(cursorMovedEmissions)
        invariant found ==> ReplaceWordsReached(final, s, rep, entireWord, isWord, text, iter, cont)
        invariant !found ==> (text, cont) == final
        decreases if found then |text| - iter + |s| + 1 else 0
      {
        found, iter, cont := ReplaceStep(final, s, rep, entireWord, isWord, iter, cont);
      }
    }

    /** One pass of that loop (lines 1651-1685): the next match from
        `iter`; none ends the loop, a match that is not a word when
        entire-word matching is asked for is stepped over, any other is
        replaced. */
    method ReplaceStep(ghost final: (string, nat), s: string, rep: string, entireWord: bool, isWord: (string, nat, nat) -> bool,
                       iter: nat, cont: nat) returns (found: bool, iter': nat, cont': nat)
      requires Valid() && |s| > 0 && stopCursorMovedEmission && iter <= |text| + |s|
      requires ReplaceWordsReached(final, s, rep, entireWord, isWord, text, iter, cont)
      modifies this`text, this`cursor, this`cursorMovedEmissions
      ensures Valid() && iter' <= |text| + |s| && cursorMovedEmissions == old(cursorMovedEmissions)
      ensures found ==> ReplaceWordsReached(final, s, rep, entireWord, isWord, text, iter', cont')
                        && |text| - iter' < old(|text|) - iter
      ensures !found ==> (text, cont') == final
    {
      var m := FindFrom(text, s, iter);
      if m.None? {
        ReplaceWordsDone(final, s, rep, entireWord, isWord, text, iter, cont);
        found, iter', cont' := false, iter, cont;
      } else if entireWord && !isWord(text, m.value, m.value + |s|) {
        found, iter', cont' := true, m.value + |s|, cont;
        ReplaceWordsSkipStep(final, s, rep, entireWord, isWord, text, iter, cont, m.value);
      } else {
        found := true;
        iter', cont' := ReplaceMatch(final, s, rep, entireWord, isWord, iter, cont, m.value);
      }
    }

    /** One replacement of the loop (lines 1672-1685): the match at `m` is
        replaced, the count goes up and the search resumes after the
        inserted text. */
    method ReplaceMatch(ghost final: (string, nat), s: string, rep: string, entireWord: bool, isWord: (string, nat, nat) -> bool,
                        iter: nat, cont: nat, m: nat) returns (iter': nat, cont': nat)
      requires Valid() && |s| > 0 && ReplaceWordsReached(final, s, rep, entireWord, isWord, text, iter, cont)
      requires FindFrom(text, s, iter) == Some(m) && !(entireWord && !isWord(text, m, m + |s|))
      modifies this`text, this`cursor, this`cursorMovedEmissions
      ensures Valid() && ReplaceWordsReached(final, s, rep, entireWord, isWord, text, iter', cont')
      ensures iter' <= |text| + |s| && |text| - iter' < old(|text|) - iter
      ensures cursorMovedEmissions == old(cursorMovedEmissions) + (if stopCursorMovedEmission then 0 else 2)
    {
      cont', iter' := cont + 1, m + |rep|;
      ReplaceWordsReachedStep(final, s, rep, entireWord, isWord, text, iter, cont, m, Spliced(text, m, |s|, rep));
      DeleteAndInsert(m, |s|, rep);
    }

    /** `gtk_text_buffer_delete` of `[m, m + len)` then
        `gtk_text_buffer_insert` of `rep` at `m`; each emits `changed`,
        whose handler emits `cursor-moved` (lines 369-375). The insert mark
        has right gravity. */
    method DeleteAndInsert(m: nat, len: nat, rep: string)
      requires Valid() && m + len <= |text|
      modifies this`text, this`cursor, this`cursorMovedEmissions
      ensures Valid()
      ensures text == Spliced(old(text), m, len, rep)
      ensures cursor == ShiftMark(old(cursor), m, len, |rep|)
      ensures cursorMovedEmissions == old(cursorMovedEmissions) + (if stopCursorMovedEmission then 0 else 2)
    {
      ghost var t := text;
      text := text[..m] + text[m + len..];
      assert text[..m] == t[..m] && text[m..] == t[m + len..];
      cursor := if cursor <= m then cursor else if cursor <= m + len then m else cursor - len;
      EmitCursorMoved();
      text := text[..m] + rep + text[m..];
      cursor := if cursor < m then cursor else cursor + |rep|;
      EmitCursorMoved();
    }

    /** `set_encoding`, lines 952-978. */
    method SetEncoding(enc: Encoding, setByUser: bool)
      modifies this
      ensures enc == old(encoding) ==> encoding == old(encoding) && encodingNotifies == old(encodingNotifies) && metadataWrites == old(metadataWrites)
      ensures enc != old(encoding) ==> encoding == enc && encodingNotifies == old(encodingNotifies) + 1
      ensures enc != old(encoding) ==> metadataWrites == old(metadataWrites) + (if setByUser then [(uri, enc.charset)] else [])
      ensures unchanged(this`text, this`cursor, this`uri, this`searchText, this`cursorMovedEmissions)
    {
      if encoding == enc {
        return;
      }
      encoding := enc;
      if setByUser {
        metadataWrites := metadataWrites + [(uri, enc.charset)];
      }
      encodingNotifies := encodingNotifies + 1;
    }
  }
}
