/** The tab notebook of gedit/gedit-notebook.c: its pages in order, the
    current page, the list of pages in the order they were last switched to
    (`focused_pages`), the tab-visibility rule, the smart page switch on
    closing, reordering with its drag protocol and the close-button
    sensitivity. Pages are identified by numbers. What the GTK notebook
    underneath does is written out where the model needs it:
    gtk_notebook_set_current_page takes a negative index as the last page
    and ignores one past the end; next_page stops at the last page;
    inserting into an empty notebook makes the new page current; removing
    the current page makes the following page current, or the preceding one
    when it was the last; each change of the current page runs the
    notebook's switch-page handler. */
module GeditNotebook {
  import opened Common
  import GeditViewContainer

  type PageId = nat
  type ContainerState = GeditViewContainer.ContainerState

  /** update_tabs_visibility (lines 675-689): the tabs show when the
      preference asks for it or there is more than one page, counting the
      page about to be inserted. */
  function TabsShown(alwaysShowTabs: bool, pageCount: nat, beforeInserting: bool): (r: bool)
    ensures beforeInserting ==> (r <==> alwaysShowTabs || pageCount >= 1)
    ensures !beforeInserting ==> (r <==> alwaysShowTabs || pageCount >= 2)
  {
    var num := pageCount + (if beforeInserting then 1 else 0);
    alwaysShowTabs || num > 1
  }

  /** The index gedit_notebook_change_current_page asks for (lines
      737-774): the current index moved by `offset`, wrapped around at both
      ends when the keyboard-navigation setting asks for it. */
  function StepTarget(current: nat, offset: int, n: nat, wrapAround: bool): (r: int)
    ensures !wrapAround ==> r == current + offset
    ensures wrapAround && current + offset < 0 ==> r == n - 1
    ensures wrapAround && current + offset >= n ==> r == 0
    ensures wrapAround && 0 <= current + offset < n ==> r == current + offset
  {
    var t := current + offset;
    if wrapAround then (if t < 0 then n - 1 else if t >= n then 0 else t) else t
  }

  /** With wrap-around, stepping back from the first page reaches the last,
      stepping on from the last reaches the first, and every step from a page
      lands on a page. */
  lemma StepTargetWraps(n: nat, c: nat, o: int)
    requires c < n
    ensures StepTarget(0, -1, n, true) == n - 1
    ensures StepTarget(n - 1, 1, n, true) == 0
    ensures 0 <= StepTarget(c, o, n, true) < n
  {
  }

  /** set_close_buttons_sensitivity (lines 1186-1209): a close button is
      sensitive when the notebook allows it and the page's container is
      neither closing, saving, printing, previewing a print nor showing a
      saving error. */
  predicate CloseButtonSensitive(allowed: bool, s: ContainerState)
  {
    && allowed
    && s != GeditViewContainer.Closing && s != GeditViewContainer.Saving
    && s != GeditViewContainer.ShowingPrintPreview && s != GeditViewContainer.Printing
    && s != GeditViewContainer.PrintPreviewing && s != GeditViewContainer.SavingError
  }

  /** A loading or reverting container, which closing never refuses, keeps
      the notebook's setting on its button; a container whose save failed,
      which closing always refuses, never has a sensitive button. */
  lemma CloseButtonAndCanClose(allowed: bool, s: ContainerState, modified: bool, deleted: bool)
    ensures GeditViewContainer.LoadFamily(s) ==>
              GeditViewContainer.CanClose(s, modified, deleted) && (CloseButtonSensitive(allowed, s) <==> allowed)
    ensures s == GeditViewContainer.SavingError ==>
              !GeditViewContainer.CanClose(s, modified, deleted) && !CloseButtonSensitive(allowed, s)
    ensures s == GeditViewContainer.Normal ==> (CloseButtonSensitive(allowed, s) <==> allowed)
  {
  }

  // ---------------------------------------------------------------------
  // Sequence helpers

  function MoveToEnd(s: seq<PageId>, p: PageId): seq<PageId>
  {
    RemoveFirst(s, p) + [p]
  }

  /** The switch-page handler's list update keeps `focused_pages` free of
      duplicates, ends it with the page switched to and keeps every other
      page it held. */
  lemma MoveToEndFacts(s: seq<PageId>, p: PageId)
    requires NoDuplicates(s)
    ensures NoDuplicates(MoveToEnd(s, p))
    ensures MoveToEnd(s, p)[|MoveToEnd(s, p)| - 1] == p
    ensures forall y :: y in MoveToEnd(s, p) <==> y == p || y in s
  {
    RemoveFirstNoDup(s, p);
  }

  function RemoveAt(s: seq<PageId>, i: nat): (r: seq<PageId>)
    requires i < |s|
    ensures |r| == |s| - 1
  {
    s[..i] + s[i + 1..]
  }

  lemma RemoveAtFacts(s: seq<PageId>, i: nat)
    requires i < |s| && NoDuplicates(s)
    ensures NoDuplicates(RemoveAt(s, i)) && s[i] !in RemoveAt(s, i)
    ensures forall y :: y != s[i] ==> (y in RemoveAt(s, i) <==> y in s)
    ensures forall j :: 0 <= j < i ==> RemoveAt(s, i)[j] == s[j]
    ensures forall j :: i <= j < |s| - 1 ==> RemoveAt(s, i)[j] == s[j + 1]
  {
    var r := RemoveAt(s, i);
    forall y | y in s && y != s[i] ensures y in r {
      var k :| 0 <= k < |s| && s[k] == y;
      if k < i { assert r[k] == y; } else { assert r[k - 1] == y; }
    }
  }

  function InsertAt(s: seq<PageId>, i: nat, x: PageId): (r: seq<PageId>)
    requires i <= |s|
    ensures |r| == |s| + 1 && r[i] == x
  {
    s[..i] + [x] + s[i..]
  }

  lemma InsertAtFacts(s: seq<PageId>, i: nat, x: PageId)
    requires i <= |s| && NoDuplicates(s) && x !in s
    ensures NoDuplicates(InsertAt(s, i, x))
    ensures forall y :: y in InsertAt(s, i, x) <==> y == x || y in s
    ensures forall j :: 0 <= j < i ==> InsertAt(s, i, x)[j] == s[j]
    ensures forall j :: i <= j < |s| ==> InsertAt(s, i, x)[j + 1] == s[j]
  {
    var r := InsertAt(s, i, x);
    forall y | y in s ensures y in r {
      var k :| 0 <= k < |s| && s[k] == y;
      if k < i { assert r[k] == y; } else { assert r[k + 1] == y; }
    }
  }

  function PageIndex(s: seq<PageId>, p: PageId): (i: nat)
    requires p in s
    ensures i < |s| && s[i] == p
  {
    IndexOf(s, p)
  }

  lemma PageIndexUnique(s: seq<PageId>, p: PageId, i: nat)
    requires NoDuplicates(s) && i < |s| && s[i] == p
    ensures PageIndex(s, p) == i
  {
  }

  // ---------------------------------------------------------------------
  // remove_all_pages as written

  /** The focused-page list remove_all_pages leaves (lines 1173-1184): the
      list is freed first, then the pages are removed from the front; every
      time the current page goes, GTK switches to the next one and the
      switch-page handler appends it to the list again. */
  function RemoveAllFocusedAsWritten(pages: seq<PageId>, current: int, focused: seq<PageId>): seq<PageId>
    decreases |pages|
  {
    if pages == [] then focused
    else if current == 0 && |pages| > 1 then
      RemoveAllFocusedAsWritten(pages[1..], 0, MoveToEnd(focused, pages[1]))
    else RemoveAllFocusedAsWritten(pages[1..], current - 1, focused)
  }

  /** With two pages and the first one current, removing all pages leaves
      the second, removed page in `focused_pages`; the list then points at
      a page the notebook no longer holds. */
  lemma RemoveAllPagesAsWrittenKeepsRemovedPage()
    ensures RemoveAllFocusedAsWritten([1, 2], 0, []) == [2]
  {
    assert [1, 2][1..] == [2];
    assert MoveToEnd([], 2) == [2];
  }

  // ---------------------------------------------------------------------
  // the signed one-bit close_buttons_sensitive field

  /** What a `gint` bit-field of width one reads back after `v` is stored
      in it, with GCC's signed plain-int bit-fields: 0 or -1. */
  function StoredSignedBit(v: int): int
  {
    if v % 2 == 0 then 0 else -1
  }

  /** The early return of gedit_notebook_set_close_buttons_sensitive as
      written (lines 1219-1234): the normalised argument (0 or 1) is
      compared with the field's value. */
  predicate SetCloseButtonsNoOpAsWritten(storedField: int, sensitive: bool)
  {
    (if sensitive then 1 else 0) == storedField
  }

  /** The field set to TRUE (by gedit_notebook_init) reads back as -1, so
      setting TRUE again is not recognised as unchanged. */
  lemma SetCloseButtonsAsWrittenRewalks()
    ensures !SetCloseButtonsNoOpAsWritten(StoredSignedBit(1), true)
    ensures SetCloseButtonsNoOpAsWritten(StoredSignedBit(0), false)
  {
  }

  // ---------------------------------------------------------------------
  // The notebook

  class Notebook {
    var pages: seq<PageId>
    /** gtk_notebook_get_current_page: -1 exactly when there is no page. */
    var current: int
    var focusedPages: seq<PageId>
    /** Pages whose "jump_to" data is set. */
    var jumpTo: set<PageId>
    var alwaysShowTabs: bool
    var showTabs: bool
    var closeButtonsSensitive: bool
    /** How often the close buttons were re-evaluated. */
    var closeButtonRefreshes: nat
    var dragInProgress: bool
    var reorderedEmissions: nat
    var bells: nat

    /** Pages are distinct and the current index is -1 exactly when there
        are none; `focused_pages` holds distinct pages of the notebook; once
        there is a page the tabs follow the visibility rule. */
    predicate Valid()
      reads this
    {
      && PagesValid()
      && (pages != [] ==> showTabs == TabsShown(alwaysShowTabs, |pages|, false))
    }

    predicate PagesValid()
      reads this
    {
      && NoDuplicates(pages)
      && -1 <= current < |pages|
      && (current == -1 <==> pages == [])
      && NoDuplicates(focusedPages)
      && (forall p :: p in focusedPages ==> p in pages)
    }

    /** gedit_notebook_init (lines 691-720): close buttons sensitive, tabs
        hidden until a page comes, always_show_tabs set. */
    constructor()
      ensures Valid() && pages == [] && current == -1 && focusedPages == []
      ensures alwaysShowTabs && !showTabs && closeButtonsSensitive && !dragInProgress
      ensures jumpTo == {} && reorderedEmissions == 0 && bells == 0 && closeButtonRefreshes == 0
    {
      pages := [];
      current := -1;
      focusedPages := [];
      jumpTo := {};
      alwaysShowTabs := true;
      showTabs := false;
      closeButtonsSensitive := true;
      closeButtonRefreshes := 0;
      dragInProgress := false;
      reorderedEmissions := 0;
      bells := 0;
    }

    /** gedit_notebook_switch_page_cb (lines 641-669): the page switched to
        moves to the end of `focused_pages`. */
    method SwitchPageCb(page: PageId)
      requires NoDuplicates(focusedPages)
      modifies this`focusedPages
      ensures focusedPages == MoveToEnd(old(focusedPages), page)
      ensures NoDuplicates(focusedPages) && focusedPages[|focusedPages| - 1] == page
    {
      MoveToEndFacts(focusedPages, page);
      focusedPages := RemoveFirst(focusedPages, page) + [page];
    }

    /** gtk_notebook_set_current_page, with the handler run when the page
        changes. */
    method SetCurrentPage(p: int)
      requires Valid()
      modifies this`current, this`focusedPages
      ensures Valid()
      ensures 0 <= p < |pages| ==> current == p
      ensures p < 0 && pages != [] ==> current == |pages| - 1
      ensures p >= |pages| || pages == [] ==> current == old(current) && focusedPages == old(focusedPages)
      ensures current != old(current) ==> focusedPages == MoveToEnd(old(focusedPages), pages[current])
      ensures current == old(current) ==> focusedPages == old(focusedPages)
    {
      if pages == [] || p >= |pages| {
        return;
      }
      var target := if p < 0 then |pages| - 1 else p;
      if target != current {
        current := target;
        MoveToEndFacts(focusedPages, pages[current]);
        SwitchPageCb(pages[current]);
      }
    }

    /** gedit_notebook_change_current_page (lines 737-774): with no current
        page only the bell rings; otherwise the page moves by `offset`,
        wrapping around when the setting asks for it. */
    method ChangeCurrentPage(offset: int, wrapAround: bool) returns (handled: bool)
      requires Valid()
      modifies this`current, this`focusedPages, this`bells
      ensures Valid() && handled
      ensures old(current) == -1 ==> bells == old(bells) + 1 && current == -1 && focusedPages == old(focusedPages)
      ensures old(current) != -1 ==> bells == old(bells)
      ensures old(current) != -1 ==>
                var t := StepTarget(old(current), offset, |pages|, wrapAround);
                && (0 <= t < |pages| ==> current == t)
                && (t < 0 ==> current == |pages| - 1)
                && (t >= |pages| ==> current == old(current))
    {
      handled := true;
      if current != -1 {
        var t := StepTarget(current, offset, |pages|, wrapAround);
        SetCurrentPage(t);
      } else {
        bells := bells + 1;
      }
    }

    /** gtk_notebook_next_page: the following page, nothing on the last. */
    method NextPage()
      requires Valid()
      modifies this`current, this`focusedPages
      ensures Valid()
      ensures 0 <= old(current) < |pages| - 1 ==> current == old(current) + 1
      ensures old(current) == |pages| - 1 ==> current == old(current)
      ensures current == old(current) ==> focusedPages == old(focusedPages)
      ensures current != old(current) ==> focusedPages == MoveToEnd(old(focusedPages), pages[current])
    {
      if current != -1 && current + 1 < |pages| {
        SetCurrentPage(current + 1);
      }
    }

    /** gedit_notebook_set_always_show_tabs (lines 991-1000). */
    method SetAlwaysShowTabs(show: bool)
      requires Valid()
      modifies this`alwaysShowTabs, this`showTabs
      ensures Valid() && alwaysShowTabs == show
      ensures showTabs == TabsShown(show, |pages|, false)
    {
      alwaysShowTabs := show;
      showTabs := TabsShown(alwaysShowTabs, |pages|, false);
    }

    /** gtk_notebook_insert_page at index `i`: the current page stays
        current, except that the first page of an empty notebook becomes
        current and the switch-page handler records it. */
    method InsertPage(page: PageId, i: nat)
      requires PagesValid() && page !in pages && i <= |pages|
      modifies this`pages, this`current, this`focusedPages
      ensures PagesValid()
      ensures pages == InsertAt(old(pages), i, page)
      ensures old(pages) == [] ==> current == 0 && focusedPages == [page]
      ensures old(pages) != [] ==> pages[current] == old(pages[current]) && current != i
                                   && focusedPages == old(focusedPages)
    {
      InsertAtFacts(pages, i, page);
      var wasEmpty := pages == [];
      ghost var before := pages;
      pages := InsertAt(pages, i, page);
      if wasEmpty {
        current := 0;
        SwitchPageCb(page);
      } else if i <= current {
        current := current + 1;
        assert pages[current] == before[current - 1];
      } else {
        assert pages[current] == before[current];
      }
    }

    /** gedit_notebook_add_page (lines 1011-1075): the tabs are updated for
        the page about to come, the page is inserted at `position` (at the
        end for a negative or too large one) and, with `jump_to`, becomes
        current and remembers that it was jumped to. */
    method AddPage(page: PageId, position: int, jump: bool)
      requires Valid() && page !in pages
      modifies this`pages, this`current, this`focusedPages, this`jumpTo, this`showTabs
      ensures Valid() && pages != []
      ensures var i := if 0 <= position <= |old(pages)| then position else |old(pages)|;
              pages == InsertAt(old(pages), i, page)
      ensures showTabs == TabsShown(alwaysShowTabs, |old(pages)|, true)
      ensures jump ==> pages[current] == page && focusedPages != [] && focusedPages[|focusedPages| - 1] == page
      ensures !jump && old(pages) != [] ==> pages[current] == old(pages[current])
      ensures old(pages) == [] ==> current == 0
      ensures jumpTo == if jump then old(jumpTo) + {page} else old(jumpTo)
    {
      showTabs := TabsShown(alwaysShowTabs, |pages|, true);
      var i: nat := if 0 <= position <= |pages| then position else |pages|;
      InsertPage(page, i);
      if jump {
        SetCurrentPage(i);
        jumpTo := jumpTo + {page};
      }
    }

    /** smart_page_switching_on_closure (lines 1077-1104): a current page
        that was added with `jump_to` hands over to the page focused last;
        otherwise the next page becomes current. */
    method SmartPageSwitchingOnClosure(page: PageId)
      requires Valid() && pages != [] && pages[current] == page && page !in focusedPages
      modifies this`current, this`focusedPages
      ensures Valid() && pages != [] && page !in focusedPages
      ensures page in jumpTo && old(focusedPages) != [] ==>
                pages[current] == old(focusedPages)[|old(focusedPages)| - 1]
      ensures !(page in jumpTo && old(focusedPages) != []) ==>
                current == if old(current) < |pages| - 1 then old(current) + 1 else old(current)
      ensures focusedPages == if current == old(current) then old(focusedPages)
                              else MoveToEnd(old(focusedPages), pages[current])
    {
      if page !in jumpTo || focusedPages == [] {
        if current + 1 < |pages| {
          MoveToEndFacts(focusedPages, pages[current + 1]);
        }
        NextPage();
      } else {
        var last := focusedPages[|focusedPages| - 1];
        MoveToEndFacts(focusedPages, last);
        var n := PageIndex(pages, last);
        if n != current {
          SetCurrentPage(n);
        }
      }
    }

    /** remove_page (lines 1106-1134) over gtk_notebook_remove_page: the
        page goes; when it was still current the following page, or the
        preceding one, becomes current; the tabs are updated. */
    method RemovePageAt(position: nat)
      requires PagesValid() && position < |pages| && pages[position] !in focusedPages
      modifies this`pages, this`current, this`focusedPages, this`showTabs
      ensures Valid()
      ensures pages == RemoveAt(old(pages), position)
      ensures showTabs == TabsShown(alwaysShowTabs, |pages|, false)
      ensures old(current) != position ==> focusedPages == old(focusedPages)
      ensures old(current) < position ==> current == old(current)
      ensures old(current) > position ==> current == old(current) - 1
      ensures old(current) == position && position < |pages| ==>
                current == position && focusedPages == MoveToEnd(old(focusedPages), pages[position])
      ensures old(current) == position && position == |pages| && position > 0 ==>
                current == position - 1 && focusedPages == MoveToEnd(old(focusedPages), pages[position - 1])
    {
      RemoveAtFacts(pages, position);
      var wasCurrent := position == current;
      pages := RemoveAt(pages, position);
      if current > position {
        current := current - 1;
      } else if wasCurrent {
        if position < |pages| {
          current := position;
          SwitchPageCb(pages[current]);
        } else if position > 0 {
          current := position - 1;
          SwitchPageCb(pages[current]);
        } else {
          current := -1;
        }
      }
      showTabs := TabsShown(alwaysShowTabs, |pages|, false);
    }

    /** gedit_notebook_remove_page (lines 1143-1165): the page leaves
        `focused_pages` first; when it is current the smart switch picks its
        successor before GTK removes it. */
    method RemovePage(page: PageId)
      requires Valid() && page in pages
      modifies this`pages, this`current, this`focusedPages, this`showTabs
      ensures Valid() && page !in pages && page !in focusedPages
      ensures pages == RemoveAt(old(pages), PageIndex(old(pages), page))
      ensures old(pages[current]) != page ==> pages != [] && pages[current] == old(pages[current])
      ensures old(pages[current]) == page && page in jumpTo && RemoveFirst(old(focusedPages), page) != [] ==>
                var f := RemoveFirst(old(focusedPages), page);
                pages != [] && pages[current] == f[|f| - 1]
      ensures old(pages[current]) == page && !(page in jumpTo && RemoveFirst(old(focusedPages), page) != []) ==>
                && (old(current) < |old(pages)| - 1 ==> pages != [] && pages[current] == old(pages)[old(current) + 1])
                && (0 < old(current) == |old(pages)| - 1 ==> pages != [] && pages[current] == old(pages)[old(current) - 1])
    {
      RemoveFirstNoDup(focusedPages, page);
      focusedPages := RemoveFirst(focusedPages, page);
      var position := PageIndex(pages, page);
      ghost var before := pages;
      ghost var oldCurrent := current;
      PageIndexUnique(pages, page, position);
      if position == current {
        SmartPageSwitchingOnClosure(page);
      }
      ghost var c := current;
      RemoveAtFacts(pages, position);
      RemovePageAt(position);
      if c < position {
        assert pages[c] == before[c];
      } else if c > position {
        assert pages[c - 1] == before[c];
      }
    }
    /** gedit_notebook_remove_all_pages with the list emptied after the
        pages are gone, so that the pages made current while removing are
        not left in it. */
    method RemoveAllPages()
      requires Valid()
      modifies this`pages, this`current, this`focusedPages, this`showTabs
      ensures Valid() && pages == [] && current == -1 && focusedPages == []
      ensures showTabs == alwaysShowTabs
    {
      focusedPages := [];
      while pages != []
        invariant Valid()
        decreases |pages|
      {
        var p := pages[0];
        if p in focusedPages {
          RemoveFirstNoDup(focusedPages, p);
          focusedPages := RemoveFirst(focusedPages, p);
        }
        RemovePageAt(0);
      }
      focusedPages := [];
      showTabs := TabsShown(alwaysShowTabs, 0, false);
    }

    /** gedit_notebook_reorder_page (lines 349-375): reordering to the
        page's own index does nothing; otherwise the page moves to
        `dest` (to the end for a negative or too large one) and
        PAGES_REORDERED is emitted unless a drag is in progress. */
    method ReorderPage(page: PageId, dest: int)
      requires Valid() && page in pages
      modifies this`pages, this`current, this`reorderedEmissions
      ensures Valid()
      ensures dest == PageIndex(old(pages), page) ==> pages == old(pages) && reorderedEmissions == old(reorderedEmissions)
      ensures dest != PageIndex(old(pages), page) ==>
                var i := if 0 <= dest < |old(pages)| then dest else |old(pages)| - 1;
                && pages == InsertAt(RemoveAt(old(pages), PageIndex(old(pages), page)), i, page)
                && pages[current] == old(pages[current])
                && reorderedEmissions == old(reorderedEmissions) + (if dragInProgress then 0 else 1)
      ensures forall p :: p in pages <==> p in old(pages)
    {
      var oldPosition := PageIndex(pages, page);
      if oldPosition == dest {
        return;
      }
      var i: nat := if 0 <= dest < |pages| then dest else |pages| - 1;
      var cur := pages[current];
      RemoveAtFacts(pages, oldPosition);
      var rest := RemoveAt(pages, oldPosition);
      InsertAtFacts(rest, i, page);
      pages := InsertAt(rest, i, page);
      current := PageIndex(pages, cur);
      if !dragInProgress {
        reorderedEmissions := reorderedEmissions + 1;
      }
    }

    /** drag_start (lines 377-401). */
    method DragStart()
      modifies this`dragInProgress
      ensures dragInProgress
    {
      dragInProgress := true;
    }

    /** drag_stop (lines 403-420): the reordering done during a drag is
        announced once, when it ends. */
    method DragStop()
      modifies this`dragInProgress, this`reorderedEmissions
      ensures !dragInProgress
      ensures reorderedEmissions == old(reorderedEmissions) + (if old(dragInProgress) then 1 else 0)
    {
      if dragInProgress {
        reorderedEmissions := reorderedEmissions + 1;
      }
      dragInProgress := false;
    }

    /** move_current_page (lines 425-444): during a drag the current page
        is reordered to `dest` unless it is there already. */
    method MoveCurrentPage(dest: int)
      requires Valid() && pages != []
      modifies this`pages, this`current, this`reorderedEmissions
      ensures Valid() && pages != [] && pages[current] == old(pages[current])
      ensures dest == old(current) ==> pages == old(pages) && reorderedEmissions == old(reorderedEmissions)
      ensures dragInProgress ==> reorderedEmissions == old(reorderedEmissions)
    {
      if dest != current {
        var page := pages[current];
        PageIndexUnique(pages, page, current);
        ReorderPage(page, dest);
      }
    }

    /** gedit_notebook_set_close_buttons_sensitive with the comparison the
        early return means: an unchanged value does nothing, a changed one
        re-evaluates every close button. */
    method SetCloseButtonsSensitive(sensitive: bool) returns (refreshed: bool)
      modifies this`closeButtonsSensitive, this`closeButtonRefreshes
      ensures closeButtonsSensitive == sensitive
      ensures refreshed <==> sensitive != old(closeButtonsSensitive)
      ensures closeButtonRefreshes == old(closeButtonRefreshes) + (if refreshed then 1 else 0)
    {
      if sensitive == closeButtonsSensitive {
        return false;
      }
      closeButtonsSensitive := sensitive;
      closeButtonRefreshes := closeButtonRefreshes + 1;
      return true;
    }
  }

  /** gedit_notebook_move_page (lines 320-336): the page leaves `src` and
      joins `dest` at `position`, becoming its current page. */
  method MovePage(src: Notebook, dest: Notebook, page: PageId, position: int)
    requires src != dest && src.Valid() && dest.Valid()
    requires page in src.pages && page !in dest.pages
    modifies src, dest
    ensures src.Valid() && dest.Valid()
    ensures page !in src.pages && page in dest.pages && dest.pages[dest.current] == page
    ensures forall p :: p != page ==> (p in src.pages <==> p in old(src.pages))
    ensures forall p :: p != page ==> (p in dest.pages <==> p in old(dest.pages))
  {
    src.RemovePage(page);
    InsertAtFacts(dest.pages, if 0 <= position <= |dest.pages| then position else |dest.pages|, page);
    dest.AddPage(page, position, true);
  }
}
