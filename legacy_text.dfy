/** What the two GTK1-era view implementations (`gedit/view.c`,
    `src/view.c`) and the old command module (`src/commands.c`) share: the
    GtkText widget state they drive, the auto-indentation scan written out
    three times in them, the selection normalisation and the undo/redo
    toolbar switches. */
module LegacyText {
  import opened Common

  // ---------------------------------------------------------------------
  // The GtkText widget

  /** A GtkText widget: its characters, the insertion point
      (`gtk_text_get_point`), the editable's cursor (`current_pos`) and the
      two ends of the selection as the user made it. */
  datatype Widget = Widget(text: string, point: nat, cursor: nat, selStart: nat, selEnd: nat)

  predicate WidgetOk(w: Widget)
  {
    w.point <= |w.text|
  }

  /** `gtk_text_set_point`: an index past the end is refused and the point
      stays where it was. */
  function SetPoint(w: Widget, index: nat): (r: Widget)
    ensures r.text == w.text && r.cursor == w.cursor && r.selStart == w.selStart && r.selEnd == w.selEnd
    ensures r.point == (if index <= |w.text| then index else w.point)
  {
    if index <= |w.text| then Widget(w.text, index, w.cursor, w.selStart, w.selEnd) else w
  }

  /** `gtk_text_insert` at the point, which ends up after the new text. */
  function InsertAtPoint(w: Widget, s: string): (r: Widget)
    requires WidgetOk(w)
    ensures WidgetOk(r) && |r.text| == |w.text| + |s| && r.point == w.point + |s|
    ensures r.cursor == w.cursor && r.selStart == w.selStart && r.selEnd == w.selEnd
    ensures r.text[..w.point] == w.text[..w.point] && r.text[w.point..r.point] == s && r.text[r.point..] == w.text[w.point..]
  {
    Widget(w.text[..w.point] + s + w.text[w.point..], w.point + |s|, w.cursor, w.selStart, w.selEnd)
  }

  /** `gtk_text_forward_delete`: nothing happens for a zero count or one
      that would run past the end. */
  function ForwardDelete(w: Widget, n: nat): (r: Widget)
    requires WidgetOk(w)
    ensures WidgetOk(r) && r.point == w.point
    ensures r.cursor == w.cursor && r.selStart == w.selStart && r.selEnd == w.selEnd
    ensures n > 0 && w.point + n <= |w.text| ==> r.text == w.text[..w.point] + w.text[w.point + n..]
    ensures n == 0 || w.point + n > |w.text| ==> r == w
  {
    if n == 0 || w.point + n > |w.text| then w
    else Widget(w.text[..w.point] + w.text[w.point + n..], w.point, w.cursor, w.selStart, w.selEnd)
  }

  /** `gedit_view_insert` in both view implementations: move the point to
      `position` and insert there. */
  function Inserted(w: Widget, position: nat, s: string): (r: Widget)
    requires WidgetOk(w)
    ensures WidgetOk(r) && r.cursor == w.cursor && r.selStart == w.selStart && r.selEnd == w.selEnd
    ensures position <= |w.text| ==> r.text == w.text[..position] + s + w.text[position..] && r.point == position + |s|
  {
    var r := InsertAtPoint(SetPoint(w, position), s);
    assert position <= |w.text| ==> r.text == r.text[..position] + r.text[position..r.point] + r.text[r.point..];
    r
  }

  /** `gedit_view_delete` in both view implementations: move the point to
      `position` and delete `n` characters forward. */
  function Deleted(w: Widget, position: nat, n: nat): (r: Widget)
    requires WidgetOk(w)
    ensures WidgetOk(r) && r.cursor == w.cursor && r.selStart == w.selStart && r.selEnd == w.selEnd
    ensures position + n <= |w.text| && n > 0 ==> r.text == w.text[..position] + w.text[position + n..] && r.point == position
  {
    ForwardDelete(SetPoint(w, position), n)
  }

  /** Mirroring an insertion and then the deletion of the same range gives
      every view back the text it had. */
  lemma InsertThenDelete(w: Widget, position: nat, s: string)
    requires WidgetOk(w) && position <= |w.text| && |s| > 0
    ensures Deleted(Inserted(w, position, s), position, |s|).text == w.text
  {
    var t := Inserted(w, position, s).text;
    assert t[..position] == w.text[..position];
    assert t[position + |s|..] == w.text[position..];
  }

  // ---------------------------------------------------------------------
  // Reading characters

  /** `gtk_editable_get_chars(text, k, k + 1)[0]`: a position past the end
      yields an empty string, whose first byte is NUL. */
  function CharAt(t: string, k: nat): (c: char)
    ensures k < |t| ==> c == t[k]
    ensures k >= |t| ==> c == '\0'
  {
    if k < |t| then t[k] else '\0'
  }

  /** A space (32) or a tab (9). */
  predicate IsBlank(c: char)
  {
    c == ' ' || c == '\t'
  }

  // ---------------------------------------------------------------------
  // Auto-indentation

  /** The offset just after the last newline among the first `k`
      characters, or 0 when there is none: where the line holding offset
      `k` starts. */
  function LineStartBefore(t: string, k: nat): (r: nat)
    requires k <= |t|
    ensures r <= k
    ensures r > 0 ==> t[r - 1] == '\n'
    ensures forall j :: r <= j < k ==> t[j] != '\n'
  {
    if k == 0 then 0 else if t[k - 1] == '\n' then k else LineStartBefore(t, k - 1)
  }

  /** Where the backward scan from `pos` stops: the line before the one
      `pos` is on when there is a newline before `pos`, else offset 0. */
  function ScanFrom(t: string, pos: nat): (r: nat)
    requires pos <= |t|
    ensures r <= LineStartBefore(t, pos)
  {
    var n1 := LineStartBefore(t, pos);
    if n1 == 0 then 0 else LineStartBefore(t, n1 - 1)
  }

  /** The spaces and tabs read forward from `from` while the offset is at
      most `limit`: the run stops at the first other character, at the end
      of the text (which reads as NUL) or past `limit`. */
  function BlankRun(t: string, from: nat, limit: nat): (r: string)
    ensures |r| > 0 ==> from + |r| <= |t| && r == t[from..from + |r|]
    ensures forall k :: 0 <= k < |r| ==> IsBlank(r[k])
    ensures from + |r| <= limit + 1 || |r| == 0
    ensures from + |r| > limit || from + |r| >= |t| || !IsBlank(t[from + |r|])
    decreases |t| - from
  {
    if from > limit || from >= |t| || !IsBlank(t[from]) then []
    else [t[from]] + BlankRun(t, from + 1, limit)
  }

  /** The whitespace the auto-indent handlers insert for cursor `pos`. */
  function Indentation(t: string, pos: nat): (r: string)
    requires pos <= |t|
  {
    BlankRun(t, ScanFrom(t, pos), LineStartBefore(t, pos))
  }

  /** The scan of gedit/view.c lines 346-384, repeated verbatim in
      src/commands.c lines 250-276: walk back from `pos` to the second
      newline before it, then collect spaces and tabs forward up to and
      including the offset just after the first one. */
  method ScanIndentation(t: string, pos: nat) returns (whitespace: string)
    requires pos <= |t|
    ensures whitespace == Indentation(t, pos)
  {
    var i, newline1 := ScanBack(t, pos);
    whitespace := CollectBlanks(t, i, newline1);
  }

  /** The backward loop: `newline1` is the offset after the first newline
      met, `i` where the walk stopped, just after the second one. */
  method ScanBack(t: string, pos: nat) returns (i: nat, newline1: nat)
    requires pos <= |t|
    ensures i == ScanFrom(t, pos) && newline1 == LineStartBefore(t, pos)
  {
    var seen := false;
    newline1 := 0;
    i := pos;
    while i > 0
      invariant i <= pos
      invariant !seen ==> newline1 == 0 && LineStartBefore(t, pos) == LineStartBefore(t, i)
      invariant seen ==> newline1 == LineStartBefore(t, pos) && 0 < newline1 && i < newline1
      invariant seen ==> LineStartBefore(t, newline1 - 1) == LineStartBefore(t, i)
    {
      if t[i - 1] == '\n' {
        if seen {
          return;
        }
        seen := true;
        newline1 := i;
      }
      i := i - 1;
    }
  }

  /** The forward loop: copy characters from `from` while they are spaces
      or tabs and the offset is at most `limit`. */
  method CollectBlanks(t: string, from: nat, limit: nat) returns (whitespace: string)
    ensures whitespace == BlankRun(t, from, limit)
  {
    whitespace := [];
    var i := from;
    while i <= limit
      invariant i == from || (from < i <= |t| && i <= limit + 1)
      invariant whitespace == if i == from then [] else t[from..i]
      invariant forall k :: from <= k < i ==> k < |t| && IsBlank(t[k])
      decreases limit + 1 - i
    {
      var c := CharAt(t, i);
      if !IsBlank(c) {
        break;
      }
      whitespace := whitespace + [c];
      i := i + 1;
    }
    BlankRunIs(t, from, limit, i);
  }

  /** A run of spaces and tabs from `from` to `end` that cannot be
      extended is the blank run at `from`. */
  lemma {:induction false} BlankRunIs(t: string, from: nat, limit: nat, end: nat)
    requires end == from || (from < end <= |t| && end <= limit + 1)
    requires forall k :: from <= k < end ==> k < |t| && IsBlank(t[k])
    requires end > limit || end >= |t| || !IsBlank(t[end])
    ensures BlankRun(t, from, limit) == (if end == from then [] else t[from..end])
    decreases end - from
  {
    if end > from {
      BlankRunIs(t, from + 1, limit, end);
      assert t[from..end] == [t[from]] + (if end == from + 1 then [] else t[from + 1..end]);
    }
  }

  /** The leading spaces and tabs of `line`, and no more. */
  predicate LeadingBlanks(line: string, r: string)
  {
    |r| <= |line| && r == line[..|r|]
    && (forall k :: 0 <= k < |r| ==> IsBlank(r[k]))
    && (|r| == |line| || !IsBlank(line[|r|]))
  }

  /** Right after a newline was typed (the character before `pos` is that
      newline), the indentation is exactly the leading run of spaces and
      tabs of the line in which it was typed. */
  lemma IndentationAfterNewline(t: string, pos: nat)
    requires 0 < pos <= |t| && t[pos - 1] == '\n'
    ensures var s := LineStartBefore(t, pos - 1);
      LeadingBlanks(t[s..pos - 1], Indentation(t, pos))
  {
    var s := LineStartBefore(t, pos - 1);
    assert ScanFrom(t, pos) == s;
  }

  /** Without any newline before `pos` the scan starts and ends at offset 0:
      at most the first character is copied. */
  lemma IndentationFirstLine(t: string, pos: nat)
    requires pos <= |t| && forall j :: 0 <= j < pos ==> t[j] != '\n'
    ensures |Indentation(t, pos)| <= 1
  {
  }

  // ---------------------------------------------------------------------
  // Selections

  /** The result of `gedit_view_get_selection`. */
  datatype Selection = Selection(start: nat, end: nat, active: bool)

  /** gedit/view.c lines 816-850 and src/view.c lines 264-294: the two ends
      in order, and whether a selection exists. */
  function SelectionOf(selStart: nat, selEnd: nat): (r: Selection)
    ensures r.start == Min(selStart, selEnd) && r.end == Max(selStart, selEnd)
    ensures r.active <==> selStart != selEnd
  {
    var s := if selEnd < selStart then selEnd else selStart;
    var e := if selEnd < selStart then selStart else selEnd;
    Selection(s, e, (s > 0 || e > 0) && s != e)
  }

  // ---------------------------------------------------------------------
  // Undo and redo toolbar switches

  /** The `undo_state`/`redo_state` arguments of `gedit_view_set_undo`; any
      other number only draws a warning. */
  datatype UndoState = StateTrue | StateFalse | StateUnchanged | StateRefresh | Unrecognized

  /** One of the two toolbar switches: the stored flag and the sensitivity
      of its toolbar button and of its menu item. */
  datatype Switch = Switch(flag: bool, button: bool, item: bool)

  /** Both widgets show the stored flag. */
  predicate InSync(s: Switch)
  {
    s.button == s.flag && s.item == s.flag
  }

  /** One `switch` of `gedit_view_set_undo` (gedit/view.c lines 1101-1160,
      src/view.c lines 1173-1228). */
  function Applied(s: Switch, state: UndoState): (r: Switch)
    ensures state == StateTrue ==> r.flag
    ensures state == StateFalse ==> !r.flag
    ensures state == StateUnchanged || state == Unrecognized ==> r == s
    ensures state == StateRefresh ==> r.flag == s.flag && InSync(r)
    ensures (state == StateTrue || state == StateFalse) && r.flag == s.flag ==> r == s
    ensures (state == StateTrue || state == StateFalse) && r.flag != s.flag ==> InSync(r)
  {
    match state
    case StateTrue => if !s.flag then Switch(true, true, true) else s
    case StateFalse => if s.flag then Switch(false, false, false) else s
    case StateUnchanged => s
    case StateRefresh => Switch(s.flag, s.flag, s.flag)
    case Unrecognized => s
  }

  /** Widgets that show their flag keep doing so whatever is applied. */
  lemma AppliedKeepsSync(s: Switch, state: UndoState)
    requires InSync(s)
    ensures InSync(Applied(s, state))
  {
  }

  /** Applying the same state twice is applying it once. */
  lemma AppliedIdempotent(s: Switch, state: UndoState)
    ensures Applied(Applied(s, state), state) == Applied(s, state)
  {
  }
}
