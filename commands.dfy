/** The document commands of the old `src/commands.c`: the first change
    of a document marks it changed, "don't save" clears the mark before
    closing, Return copies the indentation of the line, a position is turned
    into a line number, and the search dialog either selects line N or
    selects the first match of a text. */
module GeditCommands {
  import opened Common
  import opened LegacyText
  import GeditSearch
  import GtkText

  // ---------------------------------------------------------------------
  // Lines

  /** The number of newlines at offsets 1 up to `p - 1`; an offset past
      the end reads as NUL. */
  function NewlinesFromOne(t: string, p: int): (n: nat)
    ensures n <= (if p > 1 then p - 1 else 0)
    decreases p
  {
    if p <= 1 then 0 else NewlinesFromOne(t, p - 1) + (if CharAt(t, p - 1) == '\n' then 1 else 0)
  }

  /** For a position inside the text, `point_to_line` is the line the
      position is on, counted from 0, except that a newline at offset 0 is
      not counted. */
  lemma {:induction false} NewlinesFromOneIsLine(t: string, p: nat)
    requires 1 <= p <= |t|
    ensures NewlinesFromOne(t, p) + (if t[0] == '\n' then 1 else 0) == GtkText.LineAt(t, p)
  {
    if p > 1 {
      NewlinesFromOneIsLine(t, p - 1);
    }
  }

  /** Where the line-number loop of `search_start` stops when it starts at
      offset `i`: the first offset inside the text whose line, counted from
      1, is `n`. */
  function LineBegin(t: string, n: int, i: nat): (r: Option<nat>)
    requires i <= |t|
    ensures r.Some? ==> i <= r.value < |t| && 1 + GtkText.LineAt(t, r.value) == n
    ensures r.Some? ==> forall j :: i <= j < r.value ==> 1 + GtkText.LineAt(t, j) != n
    ensures r.Some? && r.value > i ==> t[r.value - 1] == '\n'
    ensures r.None? ==> forall j :: i <= j < |t| ==> 1 + GtkText.LineAt(t, j) != n
    decreases |t| - i
  {
    if i >= |t| then None
    else if 1 + GtkText.LineAt(t, i) == n then Some(i)
    else LineBegin(t, n, i + 1)
  }

  /** A line number below 1, or past the number of newlines, selects
      nothing. */
  lemma LineBeginOutside(t: string, n: int)
    requires n < 1 || n > GtkText.LineAt(t, |t|) + 1
    ensures LineBegin(t, n, 0).None?
  {
    if LineBegin(t, n, 0).Some? {
      GtkText.LineAtMonotone(t, LineBegin(t, n, 0).value, |t|);
    }
  }

  /** The first newline at or after `i`, or the end of the text. */
  function LineEnd(t: string, i: nat): (r: nat)
    requires i <= |t|
    ensures i <= r <= |t| && (r == |t| || t[r] == '\n')
    ensures forall j :: i <= j < r ==> t[j] != '\n'
    decreases |t| - i
  {
    if i == |t| || t[i] == '\n' then i else LineEnd(t, i + 1)
  }

  /** Where `search_start` begins: the point when searching again, the
      cursor when "start at cursor" is set, else offset 0. */
  function StartPos(again: bool, atCursor: bool, point: nat, cursor: nat): nat
  {
    if again then point else if atCursor then cursor else 0
  }

  /** The toggles of the search dialog `search_start` reads; `again` is
      cleared when it is used. */
  class SearchDialog {
    var again: bool
    var atCursor: bool
    var caseSensitive: bool
    var lineMode: bool

    constructor (again: bool, atCursor: bool, caseSensitive: bool, lineMode: bool)
      ensures this.again == again && this.atCursor == atCursor
      ensures this.caseSensitive == caseSensitive && this.lineMode == lineMode
    {
      this.again := again;
      this.atCursor := atCursor;
      this.caseSensitive := caseSensitive;
      this.lineMode := lineMode;
    }
  }

  /** A document: its text widget, its `changed` flag, whether
      `document_changed_callback` is still connected to the widget's
      "changed" signal, and whether closing it has been asked for. */
  class Document {
    var widget: Widget
    var changed: bool
    var changedConnected: bool
    var closeRequested: bool

    /** The point and the cursor are inside the text. */
    ghost predicate Valid()
      reads this`widget
    {
      WidgetOk(widget) && widget.cursor <= |widget.text|
    }

    /** `document_changed_callback` (lines 28-36): mark the document
        changed and disconnect the handler. */
    method DocumentChanged()
      modifies this`changed, this`changedConnected
      ensures changed && !changedConnected
    {
      changed := true;
      changedConnected := false;
    }

    /** `save_no_sel` (lines 50-56): "don't save" clears the mark, then
        asks for the document to be closed. */
    method SaveNo()
      modifies this`changed, this`closeRequested
      ensures !changed && closeRequested
    {
      changed := false;
      closeRequested := true;
    }

    /** The widget's "changed" signal, which every editable insertion and
        deletion emits: the handler runs while it is connected. */
    method EmitChanged()
      modifies this`changed, this`changedConnected
      ensures changed == (old(changed) || old(changedConnected)) && !changedConnected
    {
      if changedConnected {
        DocumentChanged();
      }
    }

    /** `gtk_editable_insert_text`: insert at `position`, emit "changed",
        and hand back the offset after the new text. */
    method EditableInsert(s: string, position: nat) returns (after: nat)
      requires Valid() && position <= |widget.text|
      modifies this`widget, this`changed, this`changedConnected
      ensures Valid() && widget == Inserted(old(widget), position, s) && after == position + |s|
      ensures changed == (old(changed) || old(changedConnected)) && !changedConnected
    {
      widget := InsertAtPoint(SetPoint(widget, position), s);
      after := position + |s|;
      EmitChanged();
    }

    /** `gtk_editable_delete_text` on a range inside the text, then
        "changed". */
    method EditableDelete(a: nat, b: nat)
      requires WidgetOk(widget) && a < b <= |widget.text|
      modifies this`widget, this`changed, this`changedConnected
      ensures widget == Deleted(old(widget), a, b - a)
      ensures changed == (old(changed) || old(changedConnected)) && !changedConnected
    {
      widget := SetPoint(widget, a);
      widget := ForwardDelete(widget, b - a);
      EmitChanged();
    }

    /** `auto_indent_callback` (lines 231-287), a key handler: on Return,
        with more than one character of text and auto-indent on, the
        indentation found from the cursor is inserted at the cursor. */
    method AutoIndent(isReturn: bool, autoIndent: bool) returns (inserted: string)
      requires Valid()
      modifies this`widget, this`changed, this`changedConnected
      ensures Valid()
      ensures isReturn && |old(widget.text)| > 1 && autoIndent ==> inserted == Indentation(old(widget.text), old(widget.cursor))
      ensures !(isReturn && |old(widget.text)| > 1 && autoIndent) ==> inserted == []
      ensures inserted != [] ==>
        (widget == Inserted(old(widget), old(widget.cursor), inserted)
         && changed == (old(changed) || old(changedConnected)) && !changedConnected)
      ensures inserted == [] ==> widget == old(widget) && changed == old(changed) && changedConnected == old(changedConnected)
    {
      inserted := [];
      if !isReturn {
        return;
      }
      if |widget.text| <= 1 {
        return;
      }
      if !autoIndent {
        return;
      }
      inserted := ScanIndentation(widget.text, widget.cursor);
      if |inserted| > 0 {
        var _ := EditableInsert(inserted, widget.cursor);
      }
    }

    /** `point_to_line` (lines 608-624): count the newlines from offset
        `point - 1` down to offset 1. */
    method PointToLine(point: int) returns (lines: nat)
      ensures lines == NewlinesFromOne(widget.text, point)
    {
      lines := 0;
      var i := point;
      while i > 1
        invariant lines + NewlinesFromOne(widget.text, i) == NewlinesFromOne(widget.text, point)
      {
        if CharAt(widget.text, i - 1) == '\n' {
          lines := lines + 1;
        }
        i := i - 1;
      }
    }

    /** The line-number branch of `search_start` (lines 658-686) for line
        `target`: select from the first character of that line up to its
        newline, after inserting and deleting a space there to scroll the
        widget, with `changed` put back as it was. */
    method SearchLine(target: int)
      requires Valid()
      modifies this`widget, this`changed, this`changedConnected
      ensures Valid()
      ensures LineBegin(old(widget.text), target, 0).None? ==>
        widget == old(widget) && changed == old(changed) && changedConnected == old(changedConnected)
      ensures LineBegin(old(widget.text), target, 0).Some? ==>
        var b := LineBegin(old(widget.text), target, 0).value;
        (widget == Widget(old(widget.text), b, old(widget.cursor), b, LineEnd(old(widget.text), b))
         && changed == old(changed) && !changedConnected)
    {
      var t := widget.text;
      var i := 0;
      var curLine := 1;
      while i < |t|
        invariant i <= |t| && curLine == 1 + GtkText.LineAt(t, i)
        invariant LineBegin(t, target, 0) == LineBegin(t, target, i)
      {
        if curLine == target {
          break;
        }
        if t[i] == '\n' {
          curLine := curLine + 1;
        }
        i := i + 1;
      }
      if i >= |t| {
        return;
      }
      var endLine := i;
      while endLine < |t|
        invariant i <= endLine <= |t| && LineEnd(t, i) == LineEnd(t, endLine)
      {
        if t[endLine] == '\n' {
          break;
        }
        endLine := endLine + 1;
      }
      ScrollTo(i);
      SelectRegion(i, endLine);
    }

    /** How both search branches scroll to offset `a`: a space is inserted
        there and deleted again, and `changed` is put back as it was. The
        text is unchanged and the point is left at `a`. */
    method ScrollTo(a: nat)
      requires Valid() && a <= |widget.text|
      modifies this`widget, this`changed, this`changedConnected
      ensures Valid() && widget == Widget(old(widget.text), a, old(widget.cursor), old(widget.selStart), old(widget.selEnd))
      ensures changed == old(changed) && !changedConnected
    {
      var oldChanged := changed;
      var after := EditableInsert(" ", a);
      EditableDelete(after - 1, after);
      InsertThenDelete(old(widget), a, " ");
      changed := oldChanged;
    }

    /** `gtk_editable_select_region`: the selection bounds change, the
        point does not. */
    method SelectRegion(a: nat, b: nat)
      modifies this`widget
      ensures widget == Widget(old(widget.text), old(widget.point), old(widget.cursor), a, b)
    {
      widget := Widget(widget.text, widget.point, widget.cursor, a, b);
    }

    /** The text branch of `search_start` (lines 688-735) without
        replacing: the first offset from `startPos` on where `searchFor`
        matches, exactly or ignoring ASCII case, is selected. */
    method SearchText(searchFor: string, startPos: nat, caseSensitive: bool)
      requires Valid() && |searchFor| <= |widget.text|
      modifies this`widget, this`changed, this`changedConnected
      ensures Valid()
      ensures var m := GeditSearch.FirstMatch(old(widget.text), searchFor, startPos, |old(widget.text)| - |searchFor|, !caseSensitive);
        && (m == -1 ==> widget == old(widget) && changed == old(changed) && changedConnected == old(changedConnected))
        && (m != -1 ==> widget == Widget(old(widget.text), m + |searchFor|, old(widget.cursor), m, m + |searchFor|)
                        && changed == old(changed) && !changedConnected)
    {
      var t := widget.text;
      var last := |t| - |searchFor|;
      var i := startPos;
      while i <= last
        invariant i >= startPos
        invariant GeditSearch.FirstMatch(t, searchFor, startPos, last, !caseSensitive) == GeditSearch.FirstMatch(t, searchFor, i, last, !caseSensitive)
        decreases last - i + 1
      {
        if GeditSearch.MatchAt(t, searchFor, i, !caseSensitive) {
          ScrollTo(i);
          widget := SetPoint(widget, i + |searchFor|);
          SelectRegion(i, i + |searchFor|);
          return;
        }
        i := i + 1;
      }
    }

    /** `search_start` (lines 626-735) without replacing: pick the start,
        clear `again`, give up when the search text is longer than the
        document, then search by line number or by text. `target` is the
        number read from the search text in line mode. */
    method SearchStart(dialog: SearchDialog, searchFor: string, target: int)
      requires Valid()
      modifies dialog`again, this`widget, this`changed, this`changedConnected
      ensures Valid() && !dialog.again
      ensures |old(widget.text)| < |searchFor| ==>
        widget == old(widget) && changed == old(changed) && changedConnected == old(changedConnected)
      ensures |old(widget.text)| >= |searchFor| && dialog.lineMode ==>
        var line := LineBegin(old(widget.text), target, 0);
        (line.None? ==> widget == old(widget) && changed == old(changed) && changedConnected == old(changedConnected))
        && (line.Some? ==>
              widget == Widget(old(widget.text), line.value, old(widget.cursor), line.value, LineEnd(old(widget.text), line.value))
              && changed == old(changed) && !changedConnected)
      ensures |old(widget.text)| >= |searchFor| && !dialog.lineMode ==>
        var m := GeditSearch.FirstMatch(old(widget.text), searchFor,
                   StartPos(old(dialog.again), dialog.atCursor, old(widget.point), old(widget.cursor)),
                   |old(widget.text)| - |searchFor|, !dialog.caseSensitive);
        (m == -1 ==> widget == old(widget) && changed == old(changed) && changedConnected == old(changedConnected))
        && (m != -1 ==>
              widget == Widget(old(widget.text), m + |searchFor|, old(widget.cursor), m, m + |searchFor|)
              && changed == old(changed) && !changedConnected)
    {
      var startPos: nat;
      if dialog.again {
        startPos := widget.point;
        dialog.again := false;
      } else if dialog.atCursor {
        startPos := widget.cursor;
      } else {
        startPos := 0;
      }
      if |widget.text| < |searchFor| {
        return;
      }
      if dialog.lineMode {
        SearchLine(target);
        return;
      }
      SearchText(searchFor, startPos, dialog.caseSensitive);
    }
  }
}
