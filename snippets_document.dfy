/** The snippet controller of plugins/snippets/snippets/Document.py: Tab
    and Shift-Tab navigation between the placeholders of the active
    snippets (with the rule for placeholders that "hug" each other), moving
    to a placeholder, the buffer callbacks that queue content updates and
    cursor jumps for an idle callback, deactivating a snippet, and the path
    arithmetic behind relative_filename. The cursor is an offset; where each
    placeholder lies is given at every call by a `Bounds` function. */
module SnippetsDocument {
  import opened Common
  import opened SnippetsCommon

  // ---------------------------------------------------------------------
  // current_placeholder

  /** The `found` list current_placeholder builds: the placeholders whose
      range holds the cursor, in list order. */
  function Containing(ps: seq<Placeholder>, b: Bounds, cursor: int): (r: seq<Placeholder>)
    ensures forall p :: p in r <==> p in ps && Contains(b(p), cursor)
  {
    if ps == [] then []
    else Containing(ps[..|ps| - 1], b, cursor) + (if Contains(b(ps[|ps| - 1]), cursor) then [ps[|ps| - 1]] else [])
  }

  /** The index of the first placeholder holding the cursor. */
  function FirstContainingIndex(ps: seq<Placeholder>, b: Bounds, cursor: int): (r: Option<nat>)
    ensures r.Some? ==> r.value < |ps|
  {
    if ps == [] then None
    else match FirstContainingIndex(ps[..|ps| - 1], b, cursor)
         case Some(k) => Some(k)
         case None => if Contains(b(ps[|ps| - 1]), cursor) then Some(|ps| - 1) else None
  }

  /** The scan finds the first placeholder holding the cursor, and none
      exactly when no placeholder holds it. */
  lemma {:induction false} FirstContainingSpec(ps: seq<Placeholder>, b: Bounds, cursor: int)
    ensures FirstContainingIndex(ps, b, cursor).None? <==>
              forall i :: 0 <= i < |ps| ==> !Contains(b(ps[i]), cursor)
    ensures FirstContainingIndex(ps, b, cursor).Some? ==>
              var k := FirstContainingIndex(ps, b, cursor).value;
              Contains(b(ps[k]), cursor) && forall j :: 0 <= j < k ==> !Contains(b(ps[j]), cursor)
  {
    if ps != [] {
      var init := ps[..|ps| - 1];
      FirstContainingSpec(init, b, cursor);
      assert forall i :: 0 <= i < |init| ==> init[i] == ps[i];
    }
  }

  /** The head of the `found` list is the placeholder the scan finds. */
  lemma {:induction false} ContainingHead(ps: seq<Placeholder>, b: Bounds, cursor: int)
    ensures Containing(ps, b, cursor) != [] <==> FirstContainingIndex(ps, b, cursor).Some?
    ensures Containing(ps, b, cursor) != [] ==>
              Containing(ps, b, cursor)[0] == ps[FirstContainingIndex(ps, b, cursor).value]
  {
    if ps != [] {
      var init := ps[..|ps| - 1];
      ContainingHead(init, b, cursor);
      assert forall i :: 0 <= i < |init| ==> init[i] == ps[i];
    }
  }

  /** current_placeholder (lines 194-212): the active placeholder when it
      holds the cursor, else the first placeholder holding it, else None. */
  function CurrentOf(ps: seq<Placeholder>, active: Option<Placeholder>, b: Bounds, cursor: int): Option<Placeholder>
  {
    var found := Containing(ps, b, cursor);
    if active.Some? && active.value in found then active
    else if |found| > 0 then Some(found[0])
    else None
  }

  lemma CurrentOfSpec(ps: seq<Placeholder>, active: Option<Placeholder>, b: Bounds, cursor: int)
    ensures CurrentOf(ps, active, b, cursor).None? <==> forall i :: 0 <= i < |ps| ==> !Contains(b(ps[i]), cursor)
    ensures CurrentOf(ps, active, b, cursor).Some? ==>
              CurrentOf(ps, active, b, cursor).value in ps
              && Contains(b(CurrentOf(ps, active, b, cursor).value), cursor)
    ensures active.Some? && active.value in ps && Contains(b(active.value), cursor) ==>
              CurrentOf(ps, active, b, cursor) == active
    ensures !(active.Some? && active.value in ps && Contains(b(active.value), cursor))
            && CurrentOf(ps, active, b, cursor).Some? ==>
              && FirstContainingIndex(ps, b, cursor).Some?
              && var k := FirstContainingIndex(ps, b, cursor).value;
              CurrentOf(ps, active, b, cursor) == Some(ps[k])
              && forall j :: 0 <= j < k ==> !Contains(b(ps[j]), cursor)
  {
    FirstContainingSpec(ps, b, cursor);
    ContainingHead(ps, b, cursor);
    if forall i :: 0 <= i < |ps| ==> !Contains(b(ps[i]), cursor) {
      assert Containing(ps, b, cursor) == [];
    }
  }

  // ---------------------------------------------------------------------
  // advance_placeholder

  /** The `nearest` test of advance_placeholder (lines 232-239): forward, a
      begin at or after the cursor that is before the begin found so far;
      backward, a begin at or before the cursor that is not before it. */
  predicate Nearest(forward: bool, cursor: int, begin: int, found: Option<int>)
  {
    if forward then cursor <= begin && (found.None? || begin < found.value)
    else cursor >= begin && (found.None? || begin >= found.value)
  }

  /** The index `found` holds after the scan (lines 241-252). */
  function FoundIn(ps: seq<Placeholder>, b: Bounds, cursor: int, forward: bool): (r: Option<nat>)
    ensures r.Some? ==> r.value < |ps|
  {
    if ps == [] then None
    else
      var f := FoundIn(ps[..|ps| - 1], b, cursor, forward);
      var fb := if f.Some? then Some(b(ps[f.value]).begin) else None;
      if Nearest(forward, cursor, b(ps[|ps| - 1]).begin, fb) then Some(|ps| - 1) else f
  }

  /** Forward, `found` is the placeholder with the smallest begin at or
      after the cursor, the earliest one on ties; None when every
      placeholder begins before the cursor. */
  lemma {:induction false} FoundForward(ps: seq<Placeholder>, b: Bounds, cursor: int)
    ensures FoundIn(ps, b, cursor, true).None? <==> forall i :: 0 <= i < |ps| ==> b(ps[i]).begin < cursor
    ensures FoundIn(ps, b, cursor, true).Some? ==>
              var k := FoundIn(ps, b, cursor, true).value;
              && cursor <= b(ps[k]).begin
              && (forall i :: 0 <= i < |ps| && cursor <= b(ps[i]).begin ==> b(ps[k]).begin <= b(ps[i]).begin)
              && (forall i :: 0 <= i < k && cursor <= b(ps[i]).begin ==> b(ps[k]).begin < b(ps[i]).begin)
  {
    if ps != [] {
      var init := ps[..|ps| - 1];
      FoundForward(init, b, cursor);
      assert forall i :: 0 <= i < |init| ==> init[i] == ps[i];
    }
  }

  /** Backward, `found` is the placeholder with the largest begin at or
      before the cursor, the latest one on ties; None when every
      placeholder begins after the cursor. */
  lemma {:induction false} FoundBackward(ps: seq<Placeholder>, b: Bounds, cursor: int)
    ensures FoundIn(ps, b, cursor, false).None? <==> forall i :: 0 <= i < |ps| ==> b(ps[i]).begin > cursor
    ensures FoundIn(ps, b, cursor, false).Some? ==>
              var k := FoundIn(ps, b, cursor, false).value;
              && b(ps[k]).begin <= cursor
              && (forall i :: 0 <= i < |ps| && b(ps[i]).begin <= cursor ==> b(ps[i]).begin <= b(ps[k]).begin)
              && (forall i :: k < i < |ps| && b(ps[i]).begin <= cursor ==> b(ps[i]).begin < b(ps[k]).begin)
  {
    if ps != [] {
      var init := ps[..|ps| - 1];
      FoundBackward(init, b, cursor);
      assert forall i :: 0 <= i < |init| ==> init[i] == ps[i];
    }
  }

  /** What advance_placeholder answers: the current and the next
      placeholder, or the exception it raises. */
  datatype Outcome =
    | Advanced(current: Option<Placeholder>, next: Option<Placeholder>)
      /** `placeholders.index(...)` of an active placeholder that is no
          longer listed: ValueError. */
    | ActiveNotListed
      /** The hugging test reads `found.begin_iter()` with `found` None:
          AttributeError. */
    | FoundIsNone

  predicate ActiveHolds(active: Option<Placeholder>, b: Bounds, cursor: int)
  {
    active.Some? && Contains(b(active.value), cursor)
  }

  /** The index `current` starts the choice with: the active placeholder's
      when it holds the cursor, else the first placeholder holding it. */
  function CurrentIndex(ps: seq<Placeholder>, active: Option<Placeholder>, b: Bounds, cursor: int): (r: Option<nat>)
    requires ActiveHolds(active, b, cursor) ==> active.value in ps
    ensures r.Some? ==> r.value < |ps|
  {
    if ActiveHolds(active, b, cursor) then Some(IndexOf(ps, active.value))
    else FirstContainingIndex(ps, b, cursor)
  }

  /** The hugging test of lines 260-263, once `found` is known to exist:
      current and found are different, found begins where current begins
      or ends, and current begins where the active placeholder begins. */
  predicate Hugging(ps: seq<Placeholder>, active: Option<Placeholder>, b: Bounds, cur: Option<nat>, found: Option<nat>)
    requires cur.Some? ==> cur.value < |ps|
    requires found.Some? ==> found.value < |ps|
  {
    && cur.Some? && found.Some? && ps[cur.value] != ps[found.value]
    && (b(ps[cur.value]).begin == b(ps[found.value]).begin || b(ps[cur.value]).end == b(ps[found.value]).begin)
    && active.Some? && b(ps[cur.value]).begin == b(active.value).begin
  }

  /** The choice of lines 260-280 from `current` and `found`. */
  function Choose(ps: seq<Placeholder>, active: Option<Placeholder>, b: Bounds,
                  cur: Option<nat>, found: Option<nat>, forward: bool): Outcome
    requires cur.Some? ==> cur.value < |ps|
    requires found.Some? ==> found.value < |ps|
  {
    var hug := Hugging(ps, active, b, cur, found);
    if hug && active.value !in ps then ActiveNotListed
    else
      var c := if hug then Some(IndexOf(ps, active.value)) else cur;
      var f := if hug then c else found;
      var next :=
        if c.Some? && f.Some? && ps[c.value] == ps[f.value] then
          (if forward && c.value < |ps| - 1 then Some(ps[c.value + 1])
           else if !forward && c.value > 0 then Some(ps[c.value - 1])
           else None)
        else if f.Some? then Some(ps[f.value])
        else if |ps| > 0 then Some(ps[0])
        else None;
      Advanced(if c.Some? then Some(ps[c.value]) else None, next)
  }

  /** advance_placeholder as written (lines 214-282): when a placeholder
      holds the cursor but no placeholder lies ahead of it, the hugging
      test dereferences the missing `found`. */
  function AdvanceAsWritten(ps: seq<Placeholder>, active: Option<Placeholder>, b: Bounds,
                            cursor: int, forward: bool): Outcome
  {
    if ActiveHolds(active, b, cursor) && active.value !in ps then ActiveNotListed
    else
      var cur := CurrentIndex(ps, active, b, cursor);
      var found := FoundIn(ps, b, cursor, forward);
      if cur.Some? && found.None? then FoundIsNone
      else Choose(ps, active, b, cur, found, forward)
  }

  /** advance_placeholder with the hugging test guarded by `found`, as the
      rest of the model uses it: with nothing ahead of the cursor it falls
      through to the first placeholder. */
  function Advance(ps: seq<Placeholder>, active: Option<Placeholder>, b: Bounds,
                   cursor: int, forward: bool): Outcome
  {
    if ActiveHolds(active, b, cursor) && active.value !in ps then ActiveNotListed
    else Choose(ps, active, b, CurrentIndex(ps, active, b, cursor), FoundIn(ps, b, cursor, forward), forward)
  }

  /** The two agree wherever the written code does not raise, and it raises
      exactly when, moving forward, a placeholder holds the cursor and none
      begins at or after it. */
  lemma AdvanceAsWrittenAgrees(ps: seq<Placeholder>, active: Option<Placeholder>, b: Bounds, cursor: int, forward: bool)
    requires !(ActiveHolds(active, b, cursor) && active.value !in ps)
    ensures AdvanceAsWritten(ps, active, b, cursor, forward) != FoundIsNone ==>
              AdvanceAsWritten(ps, active, b, cursor, forward) == Advance(ps, active, b, cursor, forward)
    ensures AdvanceAsWritten(ps, active, b, cursor, forward) == FoundIsNone <==>
              && forward
              && (exists i :: 0 <= i < |ps| && Contains(b(ps[i]), cursor))
              && (forall i :: 0 <= i < |ps| ==> b(ps[i]).begin < cursor)
    ensures Advance(ps, active, b, cursor, forward) != FoundIsNone
  {
    FirstContainingSpec(ps, b, cursor);
    FoundForward(ps, b, cursor);
    FoundBackward(ps, b, cursor);
    if ActiveHolds(active, b, cursor) {
      assert ps[IndexOf(ps, active.value)] == active.value;
    }
  }

  /** `$0${1:foo}` with the cursor inside `foo`, Tab: the written code
      raises, the guarded one moves to the End placeholder. */
  lemma AdvanceAsWrittenRaises()
    ensures var e := Placeholder(0, true);
            var p := Placeholder(1, false);
            var b := (x: Placeholder) => if x == e then Range(0, 0) else Range(0, 3);
            && AdvanceAsWritten([e, p], None, b, 2, true) == FoundIsNone
            && Advance([e, p], None, b, 2, true) == Advanced(Some(p), Some(e))
  {
    var e := Placeholder(0, true);
    var p := Placeholder(1, false);
    var b := (x: Placeholder) => if x == e then Range(0, 0) else Range(0, 3);
    assert [e, p][..1] == [e];
    assert [e][..0] == [];
  }

  /** What Tab and Shift-Tab promise: the current placeholder is a listed
      one and exists exactly when some placeholder holds the cursor (or the
      active one does); the next placeholder is a listed one, and there is
      none only when the list is empty or the current placeholder is the
      last one in the direction of travel; outside every placeholder the
      next one is the nearest one ahead, or the first. */
  lemma AdvanceSpec(ps: seq<Placeholder>, active: Option<Placeholder>, b: Bounds, cursor: int, forward: bool)
    requires NoDuplicates(ps)
    requires Advance(ps, active, b, cursor, forward).Advanced?
    ensures var r := Advance(ps, active, b, cursor, forward);
            && (r.current.Some? ==> r.current.value in ps)
            && (r.current.Some? <==> ActiveHolds(active, b, cursor) || exists i :: 0 <= i < |ps| && Contains(b(ps[i]), cursor))
            && (r.next.Some? ==> r.next.value in ps)
            && (r.next.None? ==> ps == [] || (r.current.Some? && (forward ==> r.current.value == ps[|ps| - 1])
                                                              && (!forward ==> r.current.value == ps[0])))
            && (r.current.None? && FoundIn(ps, b, cursor, forward).Some? ==>
                  r.next == Some(ps[FoundIn(ps, b, cursor, forward).value]))
            && (r.current.None? && FoundIn(ps, b, cursor, forward).None? && ps != [] ==> r.next == Some(ps[0]))
  {
    FirstContainingSpec(ps, b, cursor);
    var cur := CurrentIndex(ps, active, b, cursor);
    var found := FoundIn(ps, b, cursor, forward);
    if Hugging(ps, active, b, cur, found) {
      assert ps[IndexOf(ps, active.value)] == active.value;
    }
    if cur.Some? && found.Some? && ps[cur.value] == ps[found.value] {
      assert cur.value == found.value;
    }
  }

  // ---------------------------------------------------------------------
  // on_buffer_changed, on_buffer_cursor_moved, snippet insertion

  /** on_buffer_changed (lines 659-668): the current placeholder is queued
      for a content update unless already queued, and an idle flush is
      scheduled unless one is pending. */
  function Changed(st: State, b: Bounds, cursor: int): State
  {
    var current := CurrentOf(st.placeholders, st.active, b, cursor);
    if current.None? then st
    else
      var st1 := if current.value in st.updateQueue then st else st.(updateQueue := st.updateQueue + [current.value]);
      if st1.timeoutId == 0 then Schedule(st1) else st1
  }

  /** A changed buffer keeps the invariants; the queue gains at most the
      current placeholder, once; a pending flush is kept, and a flush is
      scheduled only when none was pending. */
  lemma ChangedFacts(st: State, b: Bounds, cursor: int)
    requires Coherent(st) && QueueClean(st)
    ensures Coherent(Changed(st, b, cursor)) && QueueClean(Changed(st, b, cursor))
    ensures var c := CurrentOf(st.placeholders, st.active, b, cursor);
            && (c.None? ==> Changed(st, b, cursor) == st)
            && (c.Some? ==> forall p :: p in Changed(st, b, cursor).updateQueue <==> p in st.updateQueue || p == c.value)
            && (c.Some? ==> Changed(st, b, cursor).timeoutId != 0)
    ensures st.timeoutId != 0 ==> Changed(st, b, cursor).timeoutId == st.timeoutId
  {
    var c := CurrentOf(st.placeholders, st.active, b, cursor);
    CurrentOfSpec(st.placeholders, st.active, b, cursor);
    if c.Some? && c.value !in st.updateQueue {
      NoDupSnoc(st.updateQueue, c.value);
    }
  }

  /** on_buffer_cursor_moved (lines 632-657), with the snippets whose marks
      were deleted deactivated by deactivate_snippet: every active snippet
      outside the cursor is deactivated; then, when the current placeholder
      differs from the active one, a jump from the active one is queued
      (and a flush scheduled unless pending) when there is an active one,
      and the current placeholder becomes the active one. */
  function CursorMoved(st: State, marks: Instance -> Option<Range>, b: Bounds, cursor: int): State
  {
    var st1 := DeactivateOutside(st, st.snippets, marks, cursor);
    Activated(st1, CurrentOf(st1.placeholders, st1.active, b, cursor))
  }

  /** The end of on_buffer_cursor_moved (lines 647-657): a different
      current placeholder becomes the active one, after a jump from the
      previously active one is queued and a flush scheduled unless one is
      pending. */
  function Activated(st1: State, current: Option<Placeholder>): State
  {
    if current == st1.active then st1
    else if st1.active.None? then st1.(active := current)
    else
      var st2 := st1.(jumpQueue := st1.jumpQueue + [Jump(st1.active.value, current)]);
      (if st2.timeoutId == 0 then Schedule(st2) else st2).(active := current)
  }

  /** After a cursor move the invariants hold, every snippet still active
      was active before and encloses the cursor with live marks, the active
      placeholder is the current one, and a jump was queued exactly when
      the active placeholder changed from a placeholder. */
  lemma CursorMovedFacts(st: State, marks: Instance -> Option<Range>, b: Bounds, cursor: int)
    requires Coherent(st) && QueueClean(st)
    ensures Coherent(CursorMoved(st, marks, b, cursor)) && QueueClean(CursorMoved(st, marks, b, cursor))
    ensures forall s :: s in CursorMoved(st, marks, b, cursor).snippets <==>
                          s in st.snippets && marks(s).Some? && Contains(marks(s).value, cursor)
    ensures var st1 := DeactivateOutside(st, st.snippets, marks, cursor);
            && CursorMoved(st, marks, b, cursor).active == CurrentOf(st1.placeholders, st1.active, b, cursor)
            && (CursorMoved(st, marks, b, cursor).jumpQueue ==
                  if CurrentOf(st1.placeholders, st1.active, b, cursor) != st1.active && st1.active.Some?
                  then st.jumpQueue + [Jump(st1.active.value, CurrentOf(st1.placeholders, st1.active, b, cursor))]
                  else st.jumpQueue)
  {
    DeactivateOutsideFacts(st, st.snippets, marks, cursor);
  }

  /** apply_snippet (lines 381-432) from the check for an End placeholder
      on: when the cursor is in an End placeholder it is left (which ends
      its snippet), the new snippet is registered, and the cursor moves
      from the active placeholder into `first`, the placeholder of the
      first positive tab stop in the snippet's table (None when it has
      none). */
  function AfterInsert(st: State, current: Option<Placeholder>, sn: Instance, first: Option<Placeholder>): State
  {
    var st1 := if current.Some? && current.value.isEnd then Goto(st, current, None) else st;
    var st2 := Inserted(st1, sn);
    if first.Some? then Goto(st2, st2.active, first) else st2
  }

  lemma AfterInsertFacts(st: State, current: Option<Placeholder>, sn: Instance, first: Option<Placeholder>)
    requires Coherent(st) && QueueClean(st)
    requires sn !in st.snippets && NoDuplicates(sn.members) && forall p :: p in sn.members ==> p !in st.placeholders
    ensures Coherent(AfterInsert(st, current, sn, first)) && QueueClean(AfterInsert(st, current, sn, first))
  {
    var st1 := if current.Some? && current.value.isEnd then Goto(st, current, None) else st;
    if current.Some? && current.value.isEnd {
      GotoFacts(st, current, None);
    }
    InsertedFacts(st1, sn);
    var st2 := Inserted(st1, sn);
    if first.Some? {
      GotoFacts(st2, st2.active, first);
    }
  }

  lemma InsertedListed(st: State, current: Option<Placeholder>, sn: Instance)
    requires Coherent(st) && QueueClean(st)
    requires sn !in st.snippets && NoDuplicates(sn.members) && forall p :: p in sn.members ==> p !in st.placeholders
    ensures Listed(Inserted(if current.Some? && current.value.isEnd then Goto(st, current, None) else st, sn))
  {
    var st1 := if current.Some? && current.value.isEnd then Goto(st, current, None) else st;
    if current.Some? && current.value.isEnd {
      GotoFacts(st, current, None);
    }
    InsertedFacts(st1, sn);
  }

  // ---------------------------------------------------------------------
  // The controller

  class Document {
    var placeholders: seq<Placeholder>
    var activeSnippets: seq<Instance>
    var activePlaceholder: Option<Placeholder>
    var updatePlaceholders: seq<Placeholder>
    var jumpPlaceholders: seq<Jump>
    var timeoutUpdateId: nat
    /** The last source id gobject.timeout_add handed out. */
    var lastSourceId: nat
    /** Whether 'changed', 'cursor-moved' and 'insert-text' are connected. */
    var bufferSignals: bool
    var effects: seq<Effect>

    ghost function State(): State
      reads this
    {
      SnippetsCommon.State(placeholders, activeSnippets, activePlaceholder, updatePlaceholders,
                           jumpPlaceholders, timeoutUpdateId, lastSourceId, bufferSignals, effects)
    }

    ghost predicate Valid()
      reads this
    {
      Coherent(State()) && QueueClean(State())
    }

    /** The controller before any snippet is inserted. */
    constructor()
      ensures Valid() && placeholders == [] && activeSnippets == [] && activePlaceholder.None?
      ensures updatePlaceholders == [] && jumpPlaceholders == [] && timeoutUpdateId == 0 && effects == []
    {
      placeholders := [];
      activeSnippets := [];
      activePlaceholder := None;
      updatePlaceholders := [];
      jumpPlaceholders := [];
      timeoutUpdateId := 0;
      lastSourceId := 0;
      bufferSignals := false;
      effects := [];
    }

    /** current_placeholder (lines 194-212): collects the placeholders
        holding the cursor, then prefers the active one. */
    method CurrentPlaceholder(b: Bounds, cursor: int) returns (r: Option<Placeholder>)
      ensures r == CurrentOf(placeholders, activePlaceholder, b, cursor)
    {
      var found: seq<Placeholder> := [];
      for i := 0 to |placeholders|
        invariant found == Containing(placeholders[..i], b, cursor)
      {
        assert placeholders[..i + 1][..i] == placeholders[..i];
        if Contains(b(placeholders[i]), cursor) {
          found := found + [placeholders[i]];
        }
      }
      assert placeholders[..|placeholders|] == placeholders;
      if activePlaceholder.Some? && activePlaceholder.value in found {
        r := activePlaceholder;
      } else if |found| > 0 {
        r := Some(found[0]);
      } else {
        r := None;
      }
    }

    /** advance_placeholder (lines 214-282) with the hugging test guarded:
        one scan keeps the nearest placeholder in the direction of travel
        and the first one holding the cursor. */
    method AdvancePlaceholder(b: Bounds, cursor: int, forward: bool) returns (r: Outcome)
      ensures r == Advance(placeholders, activePlaceholder, b, cursor, forward)
      ensures r != FoundIsNone
    {
      var found: Option<nat> := None;
      var current: Option<nat> := None;
      var fromActive := false;
      if activePlaceholder.Some? && Contains(b(activePlaceholder.value), cursor) {
        if activePlaceholder.value !in placeholders {
          return ActiveNotListed;
        }
        current := Some(IndexOf(placeholders, activePlaceholder.value));
        fromActive := true;
      }
      for i := 0 to |placeholders|
        invariant found == FoundIn(placeholders[..i], b, cursor, forward)
        invariant fromActive <==> ActiveHolds(activePlaceholder, b, cursor)
        invariant fromActive ==> current == Some(IndexOf(placeholders, activePlaceholder.value))
        invariant !fromActive ==> current == FirstContainingIndex(placeholders[..i], b, cursor)
      {
        var init := placeholders[..i + 1][..i];
        assert init == placeholders[..i];
        var fb := if found.Some? then Some(b(placeholders[found.value]).begin) else None;
        if Nearest(forward, cursor, b(placeholders[i]).begin, fb) {
          found := Some(i);
        }
        if Contains(b(placeholders[i]), cursor) && current.None? {
          current := Some(i);
        }
      }
      assert placeholders[..|placeholders|] == placeholders;
      r := Choose(placeholders, activePlaceholder, b, current, found, forward);
    }

    /** skip_to_next_placeholder and skip_to_previous_placeholder (lines
        324-330): advance, then move; an exception leaves everything as it
        was. */
    method SkipToPlaceholder(b: Bounds, cursor: int, forward: bool) returns (r: Outcome, moved: bool)
      requires Valid()
      modifies this
      ensures Valid()
      ensures r == Advance(old(placeholders), old(activePlaceholder), b, cursor, forward)
      ensures r.Advanced? ==> State() == Goto(old(State()), r.current, r.next) && (moved <==> r.next.Some?)
      ensures !r.Advanced? ==> State() == old(State()) && !moved
    {
      r := AdvancePlaceholder(b, cursor, forward);
      moved := false;
      if r.Advanced? {
        GotoFacts(State(), r.current, r.next);
        moved := GotoPlaceholder(r.current, r.next);
      }
    }

    /** update_snippet_contents (lines 603-615), the idle callback: the
        pending id is cleared, every queued placeholder updates its
        contents, every queued jump is replayed, both queues are emptied,
        and the callback asks not to run again. */
    method UpdateSnippetContents() returns (again: bool)
      requires Valid()
      modifies this
      ensures Valid()
      ensures State() == Flush(old(State()))
      ensures !again
    {
      timeoutUpdateId := 0;
      ApplyUpdates();
      ghost var st1 := State();
      assert st1 == old(State()).(timeoutId := 0, effects := old(effects) + UpdateEffects(old(updatePlaceholders)));
      var jumps := jumpPlaceholders;
      for j := 0 to |jumps|
        invariant Listed(State())
        invariant GotoAll(State(), jumps[j..]) == GotoAll(st1, jumps)
      {
        assert jumps[j..][0] == jumps[j] && jumps[j..][1..] == jumps[j + 1..];
        GotoFacts(State(), Some(jumps[j].from), jumps[j].to);
        var _ := GotoPlaceholder(Some(jumps[j].from), jumps[j].to);
      }
      assert GotoAll(State(), jumps[|jumps|..]) == State();
      updatePlaceholders := [];
      jumpPlaceholders := [];
      again := false;
      FlushFacts(old(State()));
    }

    /** The first loop of update_snippet_contents (lines 606-607). */
    method ApplyUpdates()
      modifies this`effects
      ensures effects == old(effects) + UpdateEffects(updatePlaceholders)
    {
      for i := 0 to |updatePlaceholders|
        invariant effects == old(effects) + UpdateEffects(updatePlaceholders[..i])
      {
        assert updatePlaceholders[..i + 1] == updatePlaceholders[..i] + [updatePlaceholders[i]];
        UpdateEffectsSnoc(updatePlaceholders[..i], updatePlaceholders[i]);
        effects := effects + [UpdateContents(updatePlaceholders[i])];
      }
      assert updatePlaceholders[..|updatePlaceholders|] == updatePlaceholders;
    }

    /** on_buffer_changed (lines 659-668). */
    method OnBufferChanged(b: Bounds, cursor: int)
      requires Valid()
      modifies this`updatePlaceholders, this`timeoutUpdateId, this`lastSourceId
      ensures Valid()
      ensures State() == Changed(old(State()), b, cursor)
    {
      var current := CurrentPlaceholder(b, cursor);
      ChangedFacts(State(), b, cursor);
      if current.Some? {
        if current.value !in updatePlaceholders {
          updatePlaceholders := updatePlaceholders + [current.value];
        }
        if timeoutUpdateId == 0 {
          lastSourceId := lastSourceId + 1;
          timeoutUpdateId := lastSourceId;
        }
      }
    }

    /** on_buffer_cursor_moved (lines 632-657), with a snippet whose marks
        were deleted deactivated like one the cursor left. */
    method OnBufferCursorMoved(marks: Instance -> Option<Range>, b: Bounds, cursor: int)
      requires Valid()
      modifies this
      ensures Valid()
      ensures State() == CursorMoved(old(State()), marks, b, cursor)
    {
      DeactivateOutsideFacts(State(), activeSnippets, marks, cursor);
      CursorMovedFacts(State(), marks, b, cursor);
      DeactivateLeft(marks, cursor);
      var current := CurrentPlaceholder(b, cursor);
      Activate(current);
    }

    /** The end of on_buffer_cursor_moved, as Activated states it. */
    method Activate(current: Option<Placeholder>)
      modifies this`activePlaceholder, this`jumpPlaceholders, this`timeoutUpdateId, this`lastSourceId
      ensures State() == Activated(old(State()), current)
    {
      if current != activePlaceholder {
        if activePlaceholder.Some? {
          jumpPlaceholders := jumpPlaceholders + [Jump(activePlaceholder.value, current)];
          if timeoutUpdateId == 0 {
            lastSourceId := lastSourceId + 1;
            timeoutUpdateId := lastSourceId;
          }
        }
        activePlaceholder := current;
      }
    }

    /** The first loop of on_buffer_cursor_moved (lines 636-645), over a
        copy of the active snippets. */
    method DeactivateLeft(marks: Instance -> Option<Range>, cursor: int)
      requires Listed(State())
      modifies this`placeholders, this`activeSnippets, this`activePlaceholder, this`updatePlaceholders,
               this`bufferSignals, this`effects
      ensures State() == DeactivateOutside(old(State()), old(activeSnippets), marks, cursor)
    {
      var snaps := activeSnippets;
      for k := 0 to |snaps|
        invariant Listed(State())
        invariant forall j :: k <= j < |snaps| ==> snaps[j] in activeSnippets
        invariant DeactivateOutside(State(), snaps[k..], marks, cursor) == DeactivateOutside(old(State()), snaps, marks, cursor)
      {
        var s := snaps[k];
        assert snaps[k..][0] == s && snaps[k..][1..] == snaps[k + 1..];
        if marks(s).None? || cursor < marks(s).value.begin || cursor > marks(s).value.end {
          DeactivatedFacts(State(), s, false);
          forall j | k < j < |snaps| ensures snaps[j] in Deactivated(State(), s, false).snippets {
            assert snaps[j] != s by {
              assert NoDuplicates(snaps);
            }
          }
          DeactivateSnippet(s, false);
        }
      }
      assert DeactivateOutside(State(), snaps[|snaps|..], marks, cursor) == State();
    }

    /** apply_snippet (lines 381-432) around the unseen Snippet.insert_into,
        which is taken to produce `sn` with fresh placeholders appended to
        the list; `first` is the placeholder of the first positive tab stop
        of its table and `b` where the placeholders lie before the
        insertion. An invalid snippet is refused (None); an exception from
        advance_placeholder leaves everything as it was. */
    method ApplySnippet(valid: bool, sn: Instance, first: Option<Placeholder>, b: Bounds, cursor: int)
      returns (r: Option<Outcome>)
      requires Valid()
      requires sn !in activeSnippets && NoDuplicates(sn.members)
      requires forall p :: p in sn.members ==> p !in placeholders
      modifies this`placeholders, this`activeSnippets, this`activePlaceholder, this`updatePlaceholders
      modifies this`bufferSignals, this`effects
      ensures Valid()
      ensures r.None? <==> !valid
      ensures r.Some? ==> r.value == Advance(old(placeholders), old(activePlaceholder), b, cursor, true)
      ensures r.Some? && r.value.Advanced? ==> State() == AfterInsert(old(State()), r.value.current, sn, first)
      ensures r.None? || !r.value.Advanced? ==> State() == old(State())
    {
      if !valid {
        return None;
      }
      var o := AdvancePlaceholder(b, cursor, true);
      r := Some(o);
      if !o.Advanced? {
        return;
      }
      InsertInstance(o.current, sn, first);
    }

    /** The insertion part of apply_snippet (lines 405-429), once the
        placeholders have advanced: an End placeholder left behind is
        gone to, the snippet's placeholders join the list and its first
        placeholder is entered. */
    method InsertInstance(current: Option<Placeholder>, sn: Instance, first: Option<Placeholder>)
      requires Valid()
      requires sn !in activeSnippets && NoDuplicates(sn.members)
      requires forall p :: p in sn.members ==> p !in placeholders
      modifies this`placeholders, this`activeSnippets, this`activePlaceholder, this`updatePlaceholders
      modifies this`bufferSignals, this`effects
      ensures Valid()
      ensures State() == AfterInsert(old(State()), current, sn, first)
    {
      AfterInsertFacts(State(), current, sn, first);
      if current.Some? && current.value.isEnd {
        GotoFacts(State(), current, None);
        var _ := GotoPlaceholder(current, None);
      }
      if |activeSnippets| == 0 {
        bufferSignals := true;
      }
      placeholders := placeholders + sn.members;
      activeSnippets := activeSnippets + [sn];
      if first.Some? {
        InsertedListed(old(State()), current, sn);
        var _ := GotoPlaceholder(activePlaceholder, first);
      }
    }

    /** goto_placeholder (lines 295-322): `current` is left, `next` becomes
        active and is entered, the first snippet ended by an End
        placeholder among them is deactivated, and the view scrolls to the
        cursor; the answer says whether there was a `next`. */
    method GotoPlaceholder(current: Option<Placeholder>, next: Option<Placeholder>) returns (moved: bool)
      requires Listed(State())
      modifies this`placeholders, this`activeSnippets, this`activePlaceholder, this`updatePlaceholders
      modifies this`bufferSignals, this`effects
      ensures State() == Goto(old(State()), current, next)
      ensures moved <==> next.Some?
    {
      var last: Option<Placeholder> := None;
      if current.Some? {
        effects := effects + [Leave(current.value)];
        if current.value.isEnd {
          last := current;
        }
      }
      activePlaceholder := next;
      if next.Some? {
        effects := effects + [Enter(next.value)];
        if next.value.isEnd {
          last := next;
        }
      }
      assert last == LastEnd(current, next);
      assert effects == old(effects) + LeaveOf(current) + EnterOf(next);
      if last.Some? {
        var snaps := activeSnippets;
        var k := FindEndOwner(snaps, last.value);
        if k < |snaps| {
          DeactivateSnippet(snaps[k], false);
        }
      }
      effects := effects + [ScrolledToCursor];
      moved := next.Some?;
    }

    /** deactivate_snippet (lines 486-520): the snippet's placeholders still
        in use are collected, flushing and dequeuing their queued content
        updates; then each is removed (clearing the active placeholder when
        it is the one), the snippet is deactivated and dropped, and the
        buffer signals are disconnected when no snippet remains. */
    method DeactivateSnippet(s: Instance, force: bool)
      requires s in activeSnippets && NoDuplicates(s.members)
      modifies this`placeholders, this`activeSnippets, this`activePlaceholder, this`updatePlaceholders
      modifies this`bufferSignals, this`effects
      ensures State() == Deactivated(old(State()), s, force)
    {
      ghost var st0 := SnippetsCommon.State(placeholders, activeSnippets, activePlaceholder, updatePlaceholders,
                                            jumpPlaceholders, timeoutUpdateId, lastSourceId, bufferSignals, effects);
      var remove := CollectListed(s);
      ghost var e1 := effects;
      ghost var q1 := updatePlaceholders;
      RemoveListed(remove, force);
      FinishDeactivation(s, force, st0, remove, e1, q1);
    }

    /** The end of deactivate_snippet: the snippet is announced as
        deactivated and dropped from the active list, and the buffer's
        signals are released with the last one. */
    method FinishDeactivation(s: Instance, force: bool, ghost st0: State, ghost remove: seq<Placeholder>,
                              ghost e1: seq<Effect>, ghost q1: seq<Placeholder>)
      requires remove == FilterIn(s.members, st0.placeholders)
      requires e1 == st0.effects + UpdateEffects(FilterIn(remove, st0.updateQueue))
      requires q1 == RemoveEach(st0.updateQueue, FilterIn(remove, st0.updateQueue))
      requires updatePlaceholders == q1 && effects == e1 + RemovedEffects(remove, force)
      requires placeholders == RemoveEach(st0.placeholders, remove) && activeSnippets == st0.snippets
      requires activePlaceholder == if st0.active.Some? && st0.active.value in remove then None else st0.active
      requires jumpPlaceholders == st0.jumpQueue && timeoutUpdateId == st0.timeoutId && lastSourceId == st0.lastSourceId
      requires bufferSignals == st0.bufferSignals
      modifies this`effects, this`activeSnippets, this`bufferSignals
      ensures State() == Deactivated(st0, s, force)
    {
      effects := effects + [SnippetDeactivated(s.uid)];
      activeSnippets := RemoveFirst(activeSnippets, s);
      if |activeSnippets| == 0 {
        bufferSignals := false;
      }
      DeactivatedIs(st0, s, force, remove, e1, q1,
        SnippetsCommon.State(placeholders, activeSnippets, activePlaceholder, updatePlaceholders,
                             jumpPlaceholders, timeoutUpdateId, lastSourceId, bufferSignals, effects));
    }

    /** The first loop of deactivate_snippet (lines 490-504): the snippet's
        placeholders still in use, each queued one updated and dequeued. */
    method CollectListed(s: Instance) returns (remove: seq<Placeholder>)
      requires NoDuplicates(s.members)
      modifies this`updatePlaceholders, this`effects
      ensures remove == FilterIn(s.members, placeholders)
      ensures updatePlaceholders == RemoveEach(old(updatePlaceholders), FilterIn(remove, old(updatePlaceholders)))
      ensures effects == old(effects) + UpdateEffects(FilterIn(remove, old(updatePlaceholders)))
    {
      ghost var q0 := updatePlaceholders;
      ghost var queued: seq<Placeholder> := [];
      remove := [];
      for i := 0 to |s.members|
        invariant remove == FilterIn(s.members[..i], placeholders)
        invariant queued == FilterIn(remove, q0)
        invariant updatePlaceholders == RemoveEach(q0, queued)
        invariant effects == old(effects) + UpdateEffects(queued)
      {
        var p := s.members[i];
        MembersStep(s.members, i, placeholders);
        if p in placeholders {
          CollectStep(q0, remove, p);
          if p in updatePlaceholders {
            ConcatAssoc(old(effects), UpdateEffects(queued), [UpdateContents(p)]);
            effects := effects + [UpdateContents(p)];
            updatePlaceholders := RemoveFirst(updatePlaceholders, p);
            queued := queued + [p];
          }
          remove := remove + [p];
        }
      }
      assert s.members[..|s.members|] == s.members;
    }

    /** The second loop of deactivate_snippet (lines 506-513). */
    method RemoveListed(remove: seq<Placeholder>, force: bool)
      modifies this`placeholders, this`activePlaceholder, this`effects
      ensures placeholders == RemoveEach(old(placeholders), remove)
      ensures activePlaceholder ==
                if old(activePlaceholder).Some? && old(activePlaceholder).value in remove
                then None else old(activePlaceholder)
      ensures effects == old(effects) + RemovedEffects(remove, force)
    {
      for j := 0 to |remove|
        invariant placeholders == RemoveEach(old(placeholders), remove[..j])
        invariant activePlaceholder ==
                    if old(activePlaceholder).Some? && old(activePlaceholder).value in remove[..j]
                    then None else old(activePlaceholder)
        invariant effects == old(effects) + RemovedEffects(remove[..j], force)
      {
        var p := remove[j];
        assert remove[..j + 1] == remove[..j] + [p];
        RemoveEachSnoc(old(placeholders), remove[..j], p);
        RemovedEffectsSnoc(remove[..j], p, force);
        ConcatAssoc(old(effects), RemovedEffects(remove[..j], force), [Removed(p, force)]);
        RemovePlaceholder(p, force);
      }
      assert remove[..|remove|] == remove;
    }

    /** One pass of that loop: `p` leaves the list, the active placeholder
        is cleared when it is `p`, and `p` is removed from the buffer. */
    method RemovePlaceholder(p: Placeholder, force: bool)
      modifies this`placeholders, this`activePlaceholder, this`effects
      ensures placeholders == RemoveFirst(old(placeholders), p)
      ensures activePlaceholder == if old(activePlaceholder) == Some(p) then None else old(activePlaceholder)
      ensures effects == old(effects) + [Removed(p, force)]
    {
      if activePlaceholder == Some(p) {
        activePlaceholder := None;
      }
      placeholders := RemoveFirst(placeholders, p);
      effects := effects + [Removed(p, force)];
    }
  }
}
