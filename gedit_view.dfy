/** The GTK1 document views of `gedit/view.c`: every view of a document
    holds its own GtkText widget, and each edit made in one view is
    mirrored into the others; the first edit marks the document changed;
    the toolbar keeps an undo and a redo switch; typing a newline copies
    the indentation of the line it ends. */
module GeditLegacyView {
  import opened Common
  import opened LegacyText
  import GeditSearch

  datatype UndoKind = UndoInsert | UndoDelete

  /** One call of `gedit_undo_add`: the text, the range it covers and the
      kind of action. */
  datatype UndoRecord = UndoRecord(text: string, start: nat, end: nat, kind: UndoKind)

  /** The document: the `changed` flag, its views in `doc->views` order,
      and the undo records it has been handed. */
  class Document {
    var changed: bool
    var views: seq<View>
    var undoRecords: seq<UndoRecord>

    /** The views are distinct, belong to this document and have their
        point inside their text. */
    ghost predicate Valid()
      reads this`views, views`widget
    {
      Distinct() && Owned() && WidgetsOk()
    }

    ghost predicate Distinct()
      reads this`views
    {
      forall a, b :: 0 <= a < b < |views| ==> views[a] != views[b]
    }

    ghost predicate Owned()
      reads this`views
    {
      forall k :: 0 <= k < |views| ==> views[k].doc == this
    }

    ghost predicate WidgetsOk()
      reads this`views, views`widget
    {
      forall k :: 0 <= k < |views| ==> WidgetOk(views[k].widget)
    }

    /** Every view shows the same text. */
    ghost predicate Mirrored()
      reads this`views, views`widget
    {
      forall k :: 0 <= k < |views| ==> views[k].widget.text == views[0].widget.text
    }

    /** `gedit_views_insert` (lines 185-209): the first edit of an unchanged
        document runs the first view's changed handler; then every view but
        the excluded one gets the text inserted at `position`. */
    method ViewsInsert(position: nat, s: string, exclude: View?)
      requires Valid()
      modifies this`changed, views`widget, views`changedConnected
      ensures Valid() && views == old(views)
      ensures changed == (old(changed) || |views| > 0)
      ensures forall k :: 0 <= k < |views| ==>
        views[k].widget == (if views[k] == exclude then old(views[k].widget) else Inserted(old(views[k].widget), position, s))
      ensures forall k :: 0 <= k < |views| ==>
        views[k].changedConnected == (old(views[k].changedConnected) && (k > 0 || old(changed)))
      ensures exclude == null && old(Mirrored()) && (|views| > 0 ==> position <= |old(views[0].widget.text)|) ==> Mirrored()
    {
      if !changed && |views| > 0 {
        views[0].TextChanged();
      }
      InsertIntoViews(position, s, exclude);
    }

    /** The loop of `gedit_views_insert`. */
    method InsertIntoViews(position: nat, s: string, exclude: View?)
      requires Valid()
      modifies views`widget
      ensures Valid()
      ensures forall k :: 0 <= k < |views| ==>
        views[k].widget == (if views[k] == exclude then old(views[k].widget) else Inserted(old(views[k].widget), position, s))
    {
      for i := 0 to |views|
        invariant Valid()
        invariant forall k :: 0 <= k < i ==>
          views[k].widget == (if views[k] == exclude then old(views[k].widget) else Inserted(old(views[k].widget), position, s))
        invariant forall k :: i <= k < |views| ==> views[k].widget == old(views[k].widget)
      {
        if views[i] != exclude {
          views[i].Insert(position, s);
        }
      }
    }

    /** `gedit_views_delete` (lines 222-244): refused unless
        `end > start`; every view but the excluded one loses the range. */
    method ViewsDelete(start: nat, end: nat, exclude: View?)
      requires Valid()
      modifies views`widget
      ensures Valid()
      ensures forall k :: 0 <= k < |views| ==>
        views[k].widget == (if views[k] == exclude || end <= start then old(views[k].widget) else Deleted(old(views[k].widget), start, end - start))
      ensures exclude == null && old(Mirrored()) && (|views| > 0 ==> end <= |old(views[0].widget.text)|) ==> Mirrored()
    {
      if end <= start {
        return;
      }
      DeleteFromViews(start, end - start, exclude);
    }

    /** The loop of `gedit_views_delete`. */
    method DeleteFromViews(start: nat, length: nat, exclude: View?)
      requires Valid()
      modifies views`widget
      ensures Valid()
      ensures forall k :: 0 <= k < |views| ==>
        views[k].widget == (if views[k] == exclude then old(views[k].widget) else Deleted(old(views[k].widget), start, length))
    {
      for n := 0 to |views|
        invariant Valid()
        invariant forall k :: 0 <= k < n ==>
          views[k].widget == (if views[k] == exclude then old(views[k].widget) else Deleted(old(views[k].widget), start, length))
        invariant forall k :: n <= k < |views| ==> views[k].widget == old(views[k].widget)
      {
        if views[n] != exclude {
          views[n].Delete(start, length);
        }
      }
    }

    /** `doc_insert_text_cb` (lines 258-285): record the insertion for undo
        when asked, ending at the position plus its length in bytes (the
        signal's `length`), then mirror it, leaving out the view it was typed in
        when asked. */
    method InsertText(inserted: string, position: nat, view: View, excludeThisView: bool, undo: bool)
      requires Valid()
      modifies this`changed, this`undoRecords, views`widget, views`changedConnected
      ensures Valid()
      ensures undoRecords == old(undoRecords) + (if undo then [UndoRecord(inserted, position, position + Utf8Len(inserted), UndoInsert)] else [])
      ensures changed == (old(changed) || |views| > 0)
      ensures forall k :: 0 <= k < |views| ==>
        views[k].widget == (if excludeThisView && views[k] == view then old(views[k].widget) else Inserted(old(views[k].widget), position, inserted))
    {
      if undo {
        undoRecords := undoRecords + [UndoRecord(inserted, position, position + Utf8Len(inserted), UndoInsert)];
      }
      ViewsInsert(position, inserted, if excludeThisView then view else null);
    }

    /** `doc_delete_text_cb` (lines 288-315): an empty range is ignored;
        otherwise the characters of the emitting editable are recorded for
        undo when asked and the deletion is mirrored. */
    method DeleteText(editable: string, start: nat, end: nat, view: View, excludeThisView: bool, undo: bool)
      requires Valid()
      modifies this`undoRecords, views`widget
      ensures Valid()
      ensures start == end ==> undoRecords == old(undoRecords)
      ensures start != end ==>
        undoRecords == old(undoRecords) + (if undo then [UndoRecord(GeditSearch.GetChars(editable, start, end), start, end, UndoDelete)] else [])
      ensures forall k :: 0 <= k < |views| ==>
        views[k].widget == (if (excludeThisView && views[k] == view) || end <= start then old(views[k].widget)
                            else Deleted(old(views[k].widget), start, end - start))
    {
      if start == end {
        return;
      }
      var deleted := GeditSearch.GetChars(editable, start, end);
      if undo {
        undoRecords := undoRecords + [UndoRecord(deleted, start, end, UndoDelete)];
      }
      ViewsDelete(start, end, if excludeThisView then view else null);
    }
  }

  /** A view: its document, its GtkText widget, whether its changed
      handler is still connected, and its toolbar's undo and redo
      switches. */
  class View {
    const doc: Document
    var widget: Widget
    var changedConnected: bool
    var undo: Switch
    var redo: Switch

    /** `gedit_view_new` (lines 629-645) with the widget set up by
        `gedit_view_init` (lines 434-501): the view joins the end of the
        document's views with an empty widget, its point at 0 and its changed
        handler connected; the buffer is inserted with a length of `FALSE`,
        which inserts nothing. The toolbar switches are those the view's
        toolbar starts with. */
    constructor (doc: Document, toolbarUndo: Switch, toolbarRedo: Switch)
      modifies doc`views
      ensures this.doc == doc && doc.views == old(doc.views) + [this]
      ensures widget == Widget([], 0, 0, 0, 0) && changedConnected
      ensures undo == toolbarUndo && redo == toolbarRedo
    {
      this.doc := doc;
      widget := Widget([], 0, 0, 0, 0);
      changedConnected := true;
      undo := toolbarUndo;
      redo := toolbarRedo;
      new;
      doc.views := doc.views + [this];
    }

    /** `gedit_view_text_changed_cb` (lines 127-148): the first change
        marks the document changed and disconnects the handler; later ones
        do nothing. */
    method TextChanged()
      modifies doc`changed, this`changedConnected
      ensures doc.changed
      ensures changedConnected == (old(changedConnected) && old(doc.changed))
    {
      if doc.changed {
        return;
      }
      doc.changed := true;
      changedConnected := false;
    }

    /** `gedit_view_insert` (lines 211-220). */
    method Insert(position: nat, s: string)
      requires WidgetOk(widget)
      modifies this`widget
      ensures widget == Inserted(old(widget), position, s)
    {
      widget := InsertAtPoint(SetPoint(widget, position), s);
    }

    /** `gedit_view_delete` (lines 246-256). */
    method Delete(position: nat, length: nat)
      requires WidgetOk(widget)
      modifies this`widget
      ensures widget == Deleted(old(widget), position, length)
    {
      widget := SetPoint(widget, position);
      widget := ForwardDelete(widget, length);
    }

    /** `gedit_view_get_position` (lines 755-767): the end of the selection
        when there is one, else the point. */
    method GetPosition() returns (p: nat)
      ensures widget.selStart != widget.selEnd ==> p == Max(widget.selStart, widget.selEnd)
      ensures widget.selStart == widget.selEnd ==> p == widget.point
    {
      var sel := GetSelection();
      if sel.active {
        return sel.end;
      }
      return widget.point;
    }

    /** `gedit_view_get_selection` (lines 816-850). */
    method GetSelection() returns (sel: Selection)
      ensures sel.start == Min(widget.selStart, widget.selEnd) && sel.end == Max(widget.selStart, widget.selEnd)
      ensures sel.active <==> widget.selStart != widget.selEnd
    {
      sel := SelectionOf(widget.selStart, widget.selEnd);
    }

    /** `gedit_view_set_undo` (lines 1074-1160). */
    method SetUndo(undoState: UndoState, redoState: UndoState)
      modifies this`undo, this`redo
      ensures undo == Applied(old(undo), undoState) && redo == Applied(old(redo), redoState)
    {
      undo := Applied(undo, undoState);
      redo := Applied(redo, redoState);
    }

    /** The toolbar part of `gedit_view_changed_cb` (lines 96-122): each
        switch is set from whether the document has actions to undo or to
        redo, then refreshed, so the flags and both widgets show exactly
        that. */
    method ShowUndoState(hasUndo: bool, hasRedo: bool)
      modifies this`undo, this`redo
      ensures undo == Switch(hasUndo, hasUndo, hasUndo) && redo == Switch(hasRedo, hasRedo, hasRedo)
    {
      SetUndo(if hasUndo then StateTrue else StateFalse, if hasRedo then StateTrue else StateFalse);
      SetUndo(StateRefresh, StateRefresh);
    }

    /** `auto_indent_cb` (lines 318-397), run after an insertion into the
        widget with `pos` the offset after it: when auto-indent is on,
        exactly a newline was inserted and the text has more than one
        character, the indentation is inserted at `pos`. */
    method AutoIndent(autoIndent: bool, inserted: string, pos: nat) returns (handled: bool)
      requires WidgetOk(widget) && pos <= |widget.text|
      modifies this`widget
      ensures handled <==> autoIndent && inserted == "\n" && |old(widget.text)| > 1
      ensures handled && Indentation(old(widget.text), pos) != [] ==>
        widget == Inserted(old(widget), pos, Indentation(old(widget.text), pos))
      ensures !handled || Indentation(old(widget.text), pos) == [] ==> widget == old(widget)
    {
      if !autoIndent {
        return false;
      }
      if |inserted| != 1 || inserted[0] != '\n' {
        return false;
      }
      if |widget.text| <= 1 {
        return false;
      }
      var whitespace := ScanIndentation(widget.text, pos);
      if |whitespace| > 0 {
        widget := InsertAtPoint(SetPoint(widget, pos), whitespace);
      }
      return true;
    }
  }
}
