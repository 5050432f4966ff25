/** The GTK1 document views of `src/view.c`, the cleaned-up successor of
    `gedit/view.c`: edits are mirrored into every view of a document
    (empty insertions are ignored, and a deletion visits the excluded view
    too, only skipping the deletion itself), the first edit marks the
    document changed, a new view is filled with the document's text when
    it is not the first, the toolbar keeps an undo and a redo switch, and
    tab stops are a fixed list of 50 equal widths. */
module GeditSrcView {
  import opened Common
  import opened LegacyText
  import GeditSearch

  datatype UndoKind = UndoInsert | UndoDelete

  /** One call of `gedit_undo_add`: the text, the range it covers and the
      kind of action. */
  datatype UndoRecord = UndoRecord(text: string, start: nat, end: nat, kind: UndoKind)

  /** The number of tab stops `gedit_view_set_tab_size` installs. */
  const TabStopCount: nat := 50

  /** The document: the `changed` flag, its views in `doc->views` order,
      and the undo records it has been handed. */
  class Document {
    var changed: bool
    var views: seq<View>
    var undoRecords: seq<UndoRecord>

    /** The views are distinct, belong to this document and have their
        point inside their text. */
    ghost predicate Valid()
      reads this`views, views`widget
    {
      Distinct() && Owned() && WidgetsOk()
    }

    ghost predicate Distinct()
      reads this`views
    {
      forall a, b :: 0 <= a < b < |views| ==> views[a] != views[b]
    }

    ghost predicate Owned()
      reads this`views
    {
      forall k :: 0 <= k < |views| ==> views[k].doc == this
    }

    ghost predicate WidgetsOk()
      reads this`views, views`widget
    {
      forall k :: 0 <= k < |views| ==> WidgetOk(views[k].widget)
    }

    /** Every view shows the same text. */
    ghost predicate Mirrored()
      reads this`views, views`widget
    {
      forall k :: 0 <= k < |views| ==> views[k].widget.text == views[0].widget.text
    }

    /** `gedit_views_insert` (lines 560-589): an empty insertion is
        ignored; otherwise the first edit of an unchanged document runs the
        first view's changed handler, then every view but the excluded one
        gets the text inserted at `position`. */
    method ViewsInsert(position: nat, s: string, exclude: View?)
      requires Valid()
      modifies this`changed, views`widget, views`changedConnected
      ensures Valid()
      ensures changed == (old(changed) || (|s| > 0 && |views| > 0))
      ensures forall k :: 0 <= k < |views| ==>
        views[k].widget == (if views[k] == exclude || |s| == 0 then old(views[k].widget) else Inserted(old(views[k].widget), position, s))
      ensures forall k :: 0 <= k < |views| ==>
        views[k].changedConnected == (old(views[k].changedConnected) && (k > 0 || old(changed) || |s| == 0))
      ensures exclude == null && old(Mirrored()) && (|views| > 0 ==> position <= |old(views[0].widget.text)|) ==> Mirrored()
    {
      if |s| < 1 {
        return;
      }
      if !changed && |views| > 0 {
        views[0].TextChanged();
      }
      InsertIntoViews(position, s, exclude);
    }

    /** The loop of `gedit_views_insert`. */
    method InsertIntoViews(position: nat, s: string, exclude: View?)
      requires Valid() && |s| > 0
      modifies views`widget
      ensures Valid()
      ensures forall k :: 0 <= k < |views| ==>
        views[k].widget == (if views[k] == exclude then old(views[k].widget) else Inserted(old(views[k].widget), position, s))
    {
      for i := 0 to |views|
        invariant Valid()
        invariant forall k :: 0 <= k < i ==>
          views[k].widget == (if views[k] == exclude then old(views[k].widget) else Inserted(old(views[k].widget), position, s))
        invariant forall k :: i <= k < |views| ==> views[k].widget == old(views[k].widget)
      {
        if views[i] != exclude {
          views[i].Insert(position, s);
        }
      }
    }

    /** `gedit_views_delete` (lines 665-682): refused unless
        `end > start`; every view is visited, and all but the excluded one
        lose the range. */
    method ViewsDelete(start: nat, end: nat, exclude: View?)
      requires Valid()
      modifies views`widget
      ensures Valid()
      ensures forall k :: 0 <= k < |views| ==>
        views[k].widget == (if views[k] == exclude || end <= start then old(views[k].widget) else Deleted(old(views[k].widget), start, end - start))
      ensures exclude == null && old(Mirrored()) && (|views| > 0 ==> end <= |old(views[0].widget.text)|) ==> Mirrored()
    {
      if end <= start {
        return;
      }
      DeleteFromViews(start, end - start, exclude);
    }

    /** The loop of `gedit_views_delete`: each view is told whether it is
        the excluded one. */
    method DeleteFromViews(start: nat, length: nat, exclude: View?)
      requires Valid()
      modifies views`widget
      ensures Valid()
      ensures forall k :: 0 <= k < |views| ==>
        views[k].widget == (if views[k] == exclude then old(views[k].widget) else Deleted(old(views[k].widget), start, length))
    {
      for n := 0 to |views|
        invariant Valid()
        invariant forall k :: 0 <= k < n ==>
          views[k].widget == (if views[k] == exclude then old(views[k].widget) else Deleted(old(views[k].widget), start, length))
        invariant forall k :: n <= k < |views| ==> views[k].widget == old(views[k].widget)
      {
        views[n].Delete(start, length, views[n] == exclude);
      }
    }

    /** `doc_insert_text_real_cb` (lines 591-615): record the insertion for
        undo when asked, ending at the position plus its length in bytes
        (the signal's `length`), then mirror it, leaving out the view it was typed
        in when asked. `doc_insert_text_cb` (lines 617-624) is this with
        both flags set. */
    method InsertText(inserted: string, position: nat, view: View, excludeThisView: bool, undo: bool)
      requires Valid()
      modifies this`changed, this`undoRecords, views`widget, views`changedConnected
      ensures Valid()
      ensures undoRecords == old(undoRecords) + (if undo then [UndoRecord(inserted, position, position + Utf8Len(inserted), UndoInsert)] else [])
      ensures changed == (old(changed) || (|inserted| > 0 && |views| > 0))
      ensures forall k :: 0 <= k < |views| ==>
        views[k].widget == (if (excludeThisView && views[k] == view) || |inserted| == 0 then old(views[k].widget)
                            else Inserted(old(views[k].widget), position, inserted))
    {
      if undo {
        undoRecords := undoRecords + [UndoRecord(inserted, position, position + Utf8Len(inserted), UndoInsert)];
      }
      ViewsInsert(position, inserted, if excludeThisView then view else null);
    }

    /** `doc_delete_text_real_cb` (lines 684-711): an empty range is
        ignored; otherwise the characters of the emitting editable are
        recorded for undo when asked and the deletion is mirrored.
        `doc_delete_text_cb` (lines 713-719) is this with both flags set. */
    method DeleteText(editable: string, start: nat, end: nat, view: View, excludeThisView: bool, undo: bool)
      requires Valid()
      modifies this`undoRecords, views`widget
      ensures Valid()
      ensures start == end ==> undoRecords == old(undoRecords)
      ensures start != end ==>
        undoRecords == old(undoRecords) + (if undo then [UndoRecord(GeditSearch.GetChars(editable, start, end), start, end, UndoDelete)] else [])
      ensures forall k :: 0 <= k < |views| ==>
        views[k].widget == (if (excludeThisView && views[k] == view) || end <= start then old(views[k].widget)
                            else Deleted(old(views[k].widget), start, end - start))
    {
      if start == end {
        return;
      }
      var deleted := GeditSearch.GetChars(editable, start, end);
      if undo {
        undoRecords := undoRecords + [UndoRecord(deleted, start, end, UndoDelete)];
      }
      if !excludeThisView {
        ViewsDelete(start, end, null);
      } else {
        ViewsDelete(start, end, view);
      }
    }
  }

  /** A view: its document, its GtkText widget (with its tab stops),
      whether its changed handler is still connected, and its toolbar's
      undo and redo switches. */
  class View {
    const doc: Document
    var widget: Widget
    var tabStops: seq<int>
    var changedConnected: bool
    var undo: Switch
    var redo: Switch

    /** `gedit_view_new` (lines 890-914) with the widget set up by
        `gedit_view_init` (lines 722-810): the view joins the end of the
        document's views with an empty widget, its point at 0 and its
        changed handler connected; when it is not the document's only view
        it is given the document's text (`buffer`) at offset 0. The toolbar
        switches and tab stops are those the widget starts with. */
    constructor (doc: Document, buffer: string, toolbarUndo: Switch, toolbarRedo: Switch, stops: seq<int>)
      modifies doc`views
      ensures this.doc == doc && doc.views == old(doc.views) + [this]
      ensures |old(doc.views)| == 0 || |buffer| == 0 ==> widget == Widget([], 0, 0, 0, 0)
      ensures |old(doc.views)| > 0 && |buffer| > 0 ==> widget == Widget(buffer, |buffer|, 0, 0, 0)
      ensures changedConnected && undo == toolbarUndo && redo == toolbarRedo && tabStops == stops
    {
      this.doc := doc;
      widget := Widget([], 0, 0, 0, 0);
      changedConnected := true;
      undo := toolbarUndo;
      redo := toolbarRedo;
      tabStops := stops;
      new;
      doc.views := doc.views + [this];
      if |doc.views| > 1 {
        Insert(0, buffer);
      }
    }

    /** `gedit_view_text_changed_cb` (lines 849-872): the first change
        marks the document changed and disconnects the handler; later ones
        do nothing. */
    method TextChanged()
      modifies doc`changed, this`changedConnected
      ensures doc.changed
      ensures changedConnected == (old(changedConnected) && old(doc.changed))
    {
      if doc.changed {
        return;
      }
      doc.changed := true;
      changedConnected := false;
    }

    /** `gedit_view_insert` (lines 540-558): an empty text is refused. */
    method Insert(position: nat, s: string)
      requires WidgetOk(widget)
      modifies this`widget
      ensures widget == if |s| == 0 then old(widget) else Inserted(old(widget), position, s)
    {
      if |s| == 0 {
        return;
      }
      widget := InsertAtPoint(SetPoint(widget, position), s);
    }

    /** `gedit_view_delete` (lines 636-662): the excluded view keeps its
        text. */
    method Delete(position: nat, length: nat, excludeThisView: bool)
      requires WidgetOk(widget)
      modifies this`widget
      ensures widget == if excludeThisView then old(widget) else Deleted(old(widget), position, length)
    {
      if !excludeThisView {
        widget := SetPoint(widget, position);
        widget := ForwardDelete(widget, length);
      }
    }

    /** `gedit_view_get_position` (lines 325-346): the end of the selection
        when there is one, else the editable's cursor. */
    method GetPosition() returns (p: nat)
      ensures widget.selStart != widget.selEnd ==> p == Max(widget.selStart, widget.selEnd)
      ensures widget.selStart == widget.selEnd ==> p == widget.cursor
    {
      var sel := GetSelection();
      if sel.active {
        return sel.end;
      }
      return widget.cursor;
    }

    /** `gedit_view_get_selection` (lines 264-294). */
    method GetSelection() returns (sel: Selection)
      ensures sel.start == Min(widget.selStart, widget.selEnd) && sel.end == Max(widget.selStart, widget.selEnd)
      ensures sel.active <==> widget.selStart != widget.selEnd
    {
      sel := SelectionOf(widget.selStart, widget.selEnd);
    }

    /** `gedit_view_set_undo` (lines 1134-1228). */
    method SetUndo(undoState: UndoState, redoState: UndoState)
      modifies this`undo, this`redo
      ensures undo == Applied(old(undo), undoState) && redo == Applied(old(redo), redoState)
    {
      undo := Applied(undo, undoState);
      redo := Applied(redo, redoState);
    }

    /** The toolbar part of `gedit_view_changed_cb` (lines 813-842): each
        switch is set from whether the document has actions to undo or to
        redo, then refreshed, so the flags and both widgets show exactly
        that. */
    method ShowUndoState(hasUndo: bool, hasRedo: bool)
      modifies this`undo, this`redo
      ensures undo == Switch(hasUndo, hasUndo, hasUndo) && redo == Switch(hasRedo, hasRedo, hasRedo)
    {
      SetUndo(if hasUndo then StateTrue else StateFalse, if hasRedo then StateTrue else StateFalse);
      SetUndo(StateRefresh, StateRefresh);
    }

    /** `gedit_view_set_tab_size` (lines 1238-1254): the old list is
        dropped and 50 stops of `tabSize` are prepended one by one. */
    method SetTabSize(tabSize: int)
      modifies this`tabStops
      ensures |tabStops| == TabStopCount
      ensures forall k :: 0 <= k < |tabStops| ==> tabStops[k] == tabSize
    {
      var l: seq<int> := [];
      for i := 0 to TabStopCount
        invariant |l| == i
        invariant forall k :: 0 <= k < |l| ==> l[k] == tabSize
      {
        l := [tabSize] + l;
      }
      tabStops := l;
    }
  }
}
