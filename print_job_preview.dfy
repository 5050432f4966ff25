/** The page navigation of the print preview in
    gedit/gedit-print-job-preview.c: the current page and its entry, the
    sensitivity of the previous/next buttons, the arithmetic of the
    navigation commands, the array of page slots laid out nx by ny and the
    page each slot shows. The canvas, zoom and rendering are left out; what
    a slot records is whether it is shown, its grid cell and the last page
    rendered into it. Unsigned arithmetic is 64-bit (`gulong`), `gint` is
    32-bit. */
module GeditPrintJobPreview {
  import opened Common
  import GeditSearchEntry

  /** One canvas group of the page array: its grid cell, whether it is
      shown, and the page last rendered into it. */
  datatype Slot = Slot(col: nat, row: nat, shown: bool, rendered: Option<nat>)

  datatype NavKey = PageUpKey | PageDownKey | HomeKey | EndKey

  const ULongModulus: int := 0x1_0000_0000_0000_0000
  const UIntModulus: int := 0x1_0000_0000

  /** The property range of nx and ny (lines 1094-1101). */
  const MaxGridSize: nat := 0xffff

  /** The text `%d` prints for `n`. */
  function IntString(n: int): (r: string)
    ensures r != []
  {
    if n < 0 then "-" + GeditSearchEntry.DecimalString(0 - n) else GeditSearchEntry.DecimalString(n)
  }

  /** atoi reads a page number back from the text the entry is given. */
  lemma IntStringRead(n: nat)
    ensures GeditSearchEntry.Atoi(IntString(n)) == n
  {
    GeditSearchEntry.AtoiDecimal(n, []);
    assert GeditSearchEntry.DecimalString(n) + [] == GeditSearchEntry.DecimalString(n);
  }

  /** CLAMP from GLib. */
  function Clamp(x: int, low: int, high: int): (r: int)
    ensures low <= high ==> low <= r <= high
    ensures low <= x <= high ==> r == x
  {
    if x > high then high else if x < low then low else x
  }

  /** The page change_page_cmd asks for (lines 157-170): the entry's number
      clamped to the pages, counted from zero. */
  function EntryTarget(text: string, pageCount: int): (r: int)
    requires pageCount >= 1
    ensures 0 <= r < pageCount
    ensures 1 <= GeditSearchEntry.Atoi(text) <= pageCount ==> r == GeditSearchEntry.Atoi(text) - 1
  {
    Clamp(GeditSearchEntry.Atoi(text), 1, pageCount) - 1
  }

  /** The entry text goto_page writes for a page is read back by
      change_page_cmd as that same page. */
  lemma EntryTargetRoundTrip(page: nat, pageCount: int)
    requires page < pageCount
    ensures EntryTarget(IntString(page + 1), pageCount) == page
  {
    GeditSearchEntry.AtoiDecimal(page + 1, []);
    assert GeditSearchEntry.DecimalString(page + 1) + [] == GeditSearchEntry.DecimalString(page + 1);
  }

  /** The target of "next page" without Shift (lines 343-357): a whole
      screen of pages on, stopping at the last page. */
  function NextTarget(current: nat, perScreen: nat, pageCount: int): (r: int)
    requires pageCount >= 1 && current < pageCount
    ensures current <= r < pageCount
    ensures r == current <==> current == pageCount - 1 || perScreen == 0
  {
    Min(current + perScreen, pageCount - 1)
  }

  /** `(gint) (current_page - nx * ny)` as written in
      preview_prev_page_cmd (lines 359-373): the difference is taken in
      64-bit unsigned arithmetic and truncated to a 32-bit signed int. */
  function PrevDifferenceAsWritten(current: nat, perScreen: nat): int
  {
    var u := (current - perScreen) % ULongModulus;
    var low := u % UIntModulus;
    if low >= UIntModulus / 2 then low - UIntModulus else low
  }

  function PrevTargetAsWritten(current: nat, perScreen: nat): int
  {
    Max(PrevDifferenceAsWritten(current, perScreen), 0)
  }

  /** With the largest grid the properties accept, "previous page" from the
      first page asks for page 131071 instead of page 0. */
  lemma PrevTargetAsWrittenOverflows()
    ensures PrevTargetAsWritten(0, MaxGridSize * MaxGridSize) == 131071
  {
  }

  /** The target "previous page" means: a screen of pages back, stopping at
      the first page. */
  function PrevTarget(current: nat, perScreen: nat): (r: nat)
    ensures r <= current
    ensures r == 0 <==> current <= perScreen
    ensures current > perScreen ==> r == current - perScreen
  {
    Max(current - perScreen, 0)
  }

  /** As written, the unsigned difference gives the intended target as long
      as a screen holds at most 2^31 pages and the page fits in a `gint`. */
  lemma PrevTargetAsWrittenAgrees(current: nat, perScreen: nat)
    requires current < UIntModulus / 2 && perScreen <= UIntModulus / 2
    ensures PrevTargetAsWritten(current, perScreen) == PrevTarget(current, perScreen)
  {
    if current >= perScreen {
      assert (current - perScreen) % ULongModulus == current - perScreen;
      assert (current - perScreen) % UIntModulus == current - perScreen;
    } else {
      var k := perScreen - current;
      assert (current - perScreen) % ULongModulus == ULongModulus - k;
      assert (ULongModulus - k) % UIntModulus == UIntModulus - k;
    }
  }

  /** The page slot `i` shows in gedit_print_job_preview_update (lines
      991-1027): the first page of the screen holding the current page,
      plus `i`. */
  function SlotPage(current: nat, perScreen: nat, i: nat): (r: nat)
    requires perScreen > 0
    ensures current - current % perScreen + i == r
  {
    (current / perScreen) * perScreen + i
  }

  /** The slots show consecutive pages, and the slot at the current page's
      place in its screen shows the current page. */
  lemma SlotPagesCoverCurrent(current: nat, perScreen: nat, i: nat, j: nat)
    requires perScreen > 0
    ensures SlotPage(current, perScreen, current % perScreen) == current
    ensures SlotPage(current, perScreen, 0) <= current < SlotPage(current, perScreen, 0) + perScreen
    ensures i < j ==> SlotPage(current, perScreen, i) < SlotPage(current, perScreen, j)
  {
  }

  /** entry_insert_text_cb (lines 559-582): an insertion into the page
      entry is let through only when every character is a digit of some
      script (g_unichar_isdigit). */
  method EntryInsertFilter(text: string) returns (accepted: bool)
    ensures accepted <==> forall i :: 0 <= i < |text| ==> GeditSearchEntry.IsUnicodeDigit(text[i])
  {
    var p := 0;
    while p != |text|
      invariant 0 <= p <= |text|
      invariant forall i :: 0 <= i < p ==> GeditSearchEntry.IsUnicodeDigit(text[i])
      decreases |text| - p
    {
      if !GeditSearchEntry.IsUnicodeDigit(text[p]) {
        return false;
      }
      p := p + 1;
    }
    return true;
  }

  class PrintJobPreview {
    var currentPage: int
    var pageCount: int
    var nx: nat
    var ny: nat
    var pageEntryText: string
    var prevSensitive: bool
    var nextSensitive: bool
    var slots: seq<Slot>
    /** The idle update is scheduled (`update_func_id != 0`). */
    var updatePending: bool

    /** The grid is non-empty and each slot sits at its cell. */
    predicate Shape()
      reads this
    {
      && nx > 0 && ny > 0
      && (forall i :: 0 <= i < |slots| ==> slots[i].col == i % nx && slots[i].row == i / nx)
    }

    /** After construction: at least one page, the current page is one of
        them, the buttons are sensitive exactly when there is a page to go
        to, and there are as many slots as pages fit on a screen. */
    predicate Valid()
      reads this
    {
      && Shape()
      && pageCount >= 1
      && 0 <= currentPage < pageCount
      && (prevSensitive <==> currentPage > 0)
      && (nextSensitive <==> currentPage < pageCount - 1)
      && |slots| == Min(nx * ny, pageCount)
    }

    /** gedit_print_job_preview_new (lines 1130-1171) for a job of
        `jobPages` pages: page 0 is gone to, a job with no page counts as
        one page, and the grid is set to one by one. */
    constructor(jobPages: nat)
      ensures Valid()
      ensures pageCount == if jobPages == 0 then 1 else jobPages
      ensures currentPage == 0 && nx == 1 && ny == 1 && |slots| == 1
      ensures pageEntryText == "1" && !prevSensitive && (nextSensitive <==> jobPages > 1)
      ensures updatePending
    {
      currentPage := -1;
      pageCount := jobPages;
      nx := 1;
      ny := 1;
      pageEntryText := "";
      prevSensitive := false;
      nextSensitive := false;
      slots := [];
      updatePending := false;
      new;
      var ok := GotoPage(0);
      if pageCount == 0 {
        pageCount := 1;
      }
      SetNxAndNy(1, 1);
    }

    /** goto_page (lines 129-155): a page outside the job is refused with
        nothing changed; otherwise the entry shows the page counted from
        one, "previous" is sensitive off the first page and "next" off the
        last, and a new page is shown. */
    method GotoPage(page: nat) returns (ok: bool)
      requires Shape() && currentPage >= -1 && pageCount >= 0
      modifies this`pageEntryText, this`prevSensitive, this`nextSensitive, this`currentPage, this`slots
      ensures Shape() && |slots| == old(|slots|)
      ensures ok <==> pageCount == 0 || page < pageCount
      ensures !ok ==> currentPage == old(currentPage) && pageEntryText == old(pageEntryText)
                      && prevSensitive == old(prevSensitive) && nextSensitive == old(nextSensitive)
                      && slots == old(slots)
      ensures ok ==> currentPage == page && pageEntryText == IntString(page + 1)
      ensures ok ==> (prevSensitive <==> page > 0 && pageCount > 1)
      ensures ok ==> (nextSensitive <==> page != pageCount - 1 && pageCount > 1)
      ensures ok && page != old(currentPage) && pageCount > 0 ==> SlotsShowScreen(old(slots))
      ensures !(ok && page != old(currentPage) && pageCount > 0) ==> slots == old(slots)
    {
      if !(pageCount == 0 || page < pageCount) {
        return false;
      }
      pageEntryText := IntString(page + 1);
      prevSensitive := page > 0 && pageCount > 1;
      nextSensitive := page != pageCount - 1 && pageCount > 1;
      if page != currentPage {
        currentPage := page;
        if pageCount > 0 {
          Update();
        }
      }
      return true;
    }

    /** What gedit_print_job_preview_update leaves in the slots: each one
        is shown exactly when its page exists, and a shown one holds that
        page; a hidden one keeps what it held. */
    predicate SlotsShowScreen(before: seq<Slot>)
      requires nx > 0 && ny > 0 && currentPage >= 0
      reads this
    {
      && |slots| == |before|
      && forall i :: 0 <= i < |slots| ==>
           var p := SlotPage(currentPage, nx * ny, i);
           && slots[i].col == before[i].col && slots[i].row == before[i].row
           && (slots[i].shown <==> p < pageCount)
           && slots[i].rendered == (if p < pageCount then Some(p) else before[i].rendered)
    }

    /** gedit_print_job_preview_update (lines 991-1027). */
    method Update()
      requires Shape() && currentPage >= 0
      modifies this`slots
      ensures Shape() && SlotsShowScreen(old(slots))
    {
      var i := 0;
      ghost var before := slots;
      while i < |slots|
        invariant 0 <= i <= |slots| == |before|
        invariant forall j :: i <= j < |slots| ==> slots[j] == before[j]
        invariant forall j :: 0 <= j < i ==>
                    var p := SlotPage(currentPage, nx * ny, j);
                    && slots[j].col == before[j].col && slots[j].row == before[j].row
                    && (slots[j].shown <==> p < pageCount)
                    && slots[j].rendered == (if p < pageCount then Some(p) else before[j].rendered)
      {
        var page := (currentPage / (nx * ny)) * (nx * ny) + i;
        if page < pageCount {
          slots := slots[i := slots[i].(shown := true, rendered := Some(page))];
        } else {
          slots := slots[i := slots[i].(shown := false)];
        }
        i := i + 1;
      }
    }

    /** update_func (lines 892-901): the scheduled update runs once. */
    method UpdateIdle()
      requires Shape() && currentPage >= 0
      modifies this`slots, this`updatePending
      ensures Shape() && !updatePending && SlotsShowScreen(old(slots))
    {
      Update();
      updatePending := false;
    }

    /** gedit_print_job_preview_set_nx_and_ny (lines 903-989): the slot
        array is cut down or grown to as many slots as pages fit on the
        screen, but no more than there are pages; the kept slots keep what
        they show, new ones are shown and empty; every slot is placed at
        column i mod nx, row i div nx; an update is scheduled. */
    method SetNxAndNy(newNx: nat, newNy: nat)
      requires newNx > 0 && newNy > 0 && pageCount >= 1
      modifies this`nx, this`ny, this`slots, this`updatePending
      ensures nx == newNx && ny == newNy && Shape() && updatePending
      ensures |slots| == Min(nx * ny, pageCount)
      ensures forall i :: 0 <= i < |slots| && i < |old(slots)| ==>
                slots[i].shown == old(slots)[i].shown && slots[i].rendered == old(slots)[i].rendered
      ensures forall i :: |old(slots)| <= i < |slots| ==> slots[i].shown && slots[i].rendered == None
    {
      nx := newNx;
      ny := newNy;
      var target := Min(nx * ny, pageCount);
      ghost var before := slots;
      while |slots| > target
        invariant nx == newNx && ny == newNy
        invariant |slots| <= |before| && slots == before[..|slots|]
        invariant |slots| < |before| ==> |slots| >= target
        decreases |slots|
      {
        slots := slots[..|slots| - 1];
      }
      while |slots| < target
        invariant nx == newNx && ny == newNy
        invariant |slots| <= target
        invariant |slots| < |before| ==> |slots| == target
        invariant forall i :: 0 <= i < |slots| && i < |before| ==> slots[i] == before[i]
        invariant forall i :: |before| <= i < |slots| ==> slots[i].shown && slots[i].rendered == None
        decreases target - |slots|
      {
        slots := slots + [Slot(0, 0, true, None)];
      }
      var i := 0;
      ghost var sized := slots;
      while i < |slots|
        invariant nx == newNx && ny == newNy
        invariant 0 <= i <= |slots| == |sized|
        invariant forall j :: 0 <= j < |slots| ==> slots[j].shown == sized[j].shown && slots[j].rendered == sized[j].rendered
        invariant forall j :: 0 <= j < i ==> slots[j].col == j % nx && slots[j].row == j / nx
      {
        slots := slots[i := slots[i].(col := i % nx, row := i / nx)];
        i := i + 1;
      }
      updatePending := true;
    }

    /** change_page_cmd (lines 157-170). */
    method ChangePageCmd() returns (ok: bool)
      requires Valid()
      modifies this`pageEntryText, this`prevSensitive, this`nextSensitive, this`currentPage, this`slots
      ensures Valid() && ok
      ensures currentPage == EntryTarget(old(pageEntryText), pageCount)
      ensures pageEntryText == IntString(currentPage + 1)
    {
      var page := Clamp(GeditSearchEntry.Atoi(pageEntryText), 1, pageCount) - 1;
      ok := GotoPage(page);
    }

    /** preview_next_page_cmd (lines 343-357): with Shift the last page,
        otherwise a screen on. */
    method NextPageCmd(shift: bool)
      requires Valid()
      modifies this`pageEntryText, this`prevSensitive, this`nextSensitive, this`currentPage, this`slots
      ensures Valid()
      ensures currentPage == if shift then pageCount - 1 else NextTarget(old(currentPage), nx * ny, pageCount)
    {
      var ok;
      if shift {
        ok := GotoPage(pageCount - 1);
      } else {
        ok := GotoPage(Min(currentPage + nx * ny, pageCount - 1));
      }
    }

    /** preview_prev_page_cmd (lines 359-373) with the intended arithmetic:
        with Shift the first page, otherwise a screen back. */
    method PrevPageCmd(shift: bool)
      requires Valid()
      modifies this`pageEntryText, this`prevSensitive, this`nextSensitive, this`currentPage, this`slots
      ensures Valid()
      ensures currentPage == if shift then 0 else PrevTarget(old(currentPage), nx * ny)
    {
      var ok;
      if shift {
        ok := GotoPage(0);
      } else {
        ok := GotoPage(PrevTarget(currentPage, nx * ny));
      }
    }

    /** The page keys of the canvas (lines 458-500): Page Up at the top of
        the page, and Page Down at its bottom, step one page when there is
        one; Home and End go to the first and the last page. Scrolling
        within a page is left out. */
    method NavigateKey(key: NavKey, atTop: bool, atBottom: bool)
      requires Valid()
      modifies this`pageEntryText, this`prevSensitive, this`nextSensitive, this`currentPage, this`slots
      ensures Valid()
      ensures key == PageUpKey ==>
                currentPage == if atTop && old(currentPage) > 0 then old(currentPage) - 1 else old(currentPage)
      ensures key == PageDownKey ==>
                currentPage == if atBottom && old(currentPage) < pageCount - 1 then old(currentPage) + 1 else old(currentPage)
      ensures key == HomeKey ==> currentPage == 0
      ensures key == EndKey ==> currentPage == pageCount - 1
    {
      var ok;
      match key {
        case PageUpKey =>
          if atTop && currentPage > 0 {
            ok := GotoPage(currentPage - 1);
          }
        case PageDownKey =>
          if atBottom && currentPage < pageCount - 1 {
            ok := GotoPage(currentPage + 1);
          }
        case HomeKey =>
          ok := GotoPage(0);
        case EndKey =>
          ok := GotoPage(pageCount - 1);
      }
    }

    /** entry_focus_out_event_cb (lines 584-603): an entry that does not
        name the current page is reset to it. */
    method EntryFocusOut()
      requires Valid()
      modifies this`pageEntryText
      ensures GeditSearchEntry.Atoi(pageEntryText) - 1 == currentPage
      ensures GeditSearchEntry.Atoi(old(pageEntryText)) - 1 == currentPage ==> pageEntryText == old(pageEntryText)
    {
      var page := GeditSearchEntry.Atoi(pageEntryText) - 1;
      if page != currentPage {
        pageEntryText := IntString(currentPage + 1);
        IntStringRead(currentPage + 1);
      }
    }
  }
}
