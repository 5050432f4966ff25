/** The older snippet controller, plugins/snippets/snippets/SnippetController.py:
    navigation that prefers the last placeholder holding the cursor and a
    `prev` scan over placeholder ends, a content-update queue that takes
    every change (duplicates included), and an idle flush that every change
    or jump cancels and schedules anew. Deactivation, goto_placeholder and
    the flush itself are those of SnippetsCommon. */
module SnippetsController {
  import opened Common
  import opened SnippetsCommon

  // ---------------------------------------------------------------------
  // current_placeholder

  /** The index of the last placeholder holding the cursor. */
  function LastContaining(ps: seq<Placeholder>, b: Bounds, cursor: int): (r: Option<nat>)
    ensures r.Some? ==> r.value < |ps| && Contains(b(ps[r.value]), cursor)
                        && forall j :: r.value < j < |ps| ==> !Contains(b(ps[j]), cursor)
    ensures r.None? ==> forall j :: 0 <= j < |ps| ==> !Contains(b(ps[j]), cursor)
  {
    if ps == [] then None
    else if Contains(b(ps[|ps| - 1]), cursor) then Some(|ps| - 1)
    else LastContaining(ps[..|ps| - 1], b, cursor)
  }

  /** current_placeholder (lines 167-181): the last placeholder in list
      order whose range holds the cursor. */
  function CurrentLast(ps: seq<Placeholder>, b: Bounds, cursor: int): Option<Placeholder>
  {
    var i := LastContaining(ps, b, cursor);
    if i.Some? then Some(ps[i.value]) else None
  }

  // ---------------------------------------------------------------------
  // advance_placeholder

  /** The `nearest` lambda of advance_placeholder (lines 191-198), given
      the placeholder's range and that of the placeholder kept so far:
      forward, one ending at or before the cursor and no earlier than the
      kept one ends; backward, one beginning at or after the cursor and no
      later than the kept one ends. */
  predicate NearestOld(forward: bool, cursor: int, r: Range, prev: Option<Range>)
  {
    if forward then cursor >= r.end && (prev.None? || r.end >= prev.value.end)
    else cursor <= r.begin && (prev.None? || r.begin <= prev.value.end)
  }

  /** The index `prev` holds after the scan of lines 200-209. */
  function PrevIn(ps: seq<Placeholder>, b: Bounds, cursor: int, forward: bool): (r: Option<nat>)
    ensures r.Some? ==> r.value < |ps|
  {
    if ps == [] then None
    else
      var p := PrevIn(ps[..|ps| - 1], b, cursor, forward);
      var pr := if p.Some? then Some(b(ps[p.value])) else None;
      if NearestOld(forward, cursor, b(ps[|ps| - 1]), pr) then Some(|ps| - 1) else p
  }

  /** Forward, `prev` is the placeholder with the largest end at or before
      the cursor, the later one on ties; there is none exactly when no
      placeholder ends at or before the cursor. */
  lemma {:induction false} PrevForward(ps: seq<Placeholder>, b: Bounds, cursor: int)
    ensures var r := PrevIn(ps, b, cursor, true);
            && (r.None? <==> forall j :: 0 <= j < |ps| ==> b(ps[j]).end > cursor)
            && (r.Some? ==> && b(ps[r.value]).end <= cursor
                            && (forall j :: 0 <= j < |ps| && b(ps[j]).end <= cursor ==> b(ps[j]).end <= b(ps[r.value]).end)
                            && (forall j :: r.value < j < |ps| && b(ps[j]).end <= cursor ==> b(ps[j]).end < b(ps[r.value]).end))
  {
    if ps != [] {
      var init := ps[..|ps| - 1];
      PrevForward(init, b, cursor);
      forall j | 0 <= j < |ps| - 1 ensures ps[j] == init[j] { }
    }
  }

  /** Backward, `prev` begins at or after the cursor, there is none exactly
      when no placeholder does, and no later placeholder at or after the
      cursor begins at or before its end. */
  lemma {:induction false} PrevBackward(ps: seq<Placeholder>, b: Bounds, cursor: int)
    ensures var r := PrevIn(ps, b, cursor, false);
            && (r.None? <==> forall j :: 0 <= j < |ps| ==> b(ps[j]).begin < cursor)
            && (r.Some? ==> && cursor <= b(ps[r.value]).begin
                            && forall j :: r.value < j < |ps| && cursor <= b(ps[j]).begin ==> b(ps[j]).begin > b(ps[r.value]).end)
  {
    if ps != [] {
      var init := ps[..|ps| - 1];
      PrevBackward(init, b, cursor);
      forall j | 0 <= j < |ps| - 1 ensures ps[j] == init[j] { }
    }
  }

  /** The placeholder one step from index `i` in the direction of travel,
      when there is one (the `indexer` lambdas, lines 193 and 197). */
  function Step(ps: seq<Placeholder>, i: nat, forward: bool): (r: Option<Placeholder>)
    requires i < |ps|
    ensures r.Some? <==> (if forward then i + 1 < |ps| else i > 0)
    ensures r.Some? ==> r.value == if forward then ps[i + 1] else ps[i - 1]
  {
    if forward && i < |ps| - 1 then Some(ps[i + 1])
    else if !forward && i > 0 then Some(ps[i - 1])
    else None
  }

  /** advance_placeholder (lines 183-225): the current placeholder and the
      one to move to, the neighbour of the current one, else of `prev`,
      else the first placeholder. */
  function AdvanceOld(ps: seq<Placeholder>, b: Bounds, cursor: int, forward: bool): (Option<Placeholder>, Option<Placeholder>)
  {
    var cur := LastContaining(ps, b, cursor);
    var prev := PrevIn(ps, b, cursor, forward);
    if cur.Some? then (Some(ps[cur.value]), Step(ps, cur.value, forward))
    else if prev.Some? then (None, Step(ps, prev.value, forward))
    else if |ps| > 0 then (None, Some(ps[0]))
    else (None, None)
  }

  /** What Tab and Shift-Tab promise in this controller: the current
      placeholder is current_placeholder's; the next one is listed, and is
      the list neighbour of the current one when there is a current one;
      with no placeholder at all there is neither. */
  lemma AdvanceOldSpec(ps: seq<Placeholder>, b: Bounds, cursor: int, forward: bool)
    ensures AdvanceOld(ps, b, cursor, forward).0 == CurrentLast(ps, b, cursor)
    ensures AdvanceOld(ps, b, cursor, forward).1.Some? ==> AdvanceOld(ps, b, cursor, forward).1.value in ps
    ensures var c := LastContaining(ps, b, cursor);
            c.Some? ==> AdvanceOld(ps, b, cursor, forward).1 == Step(ps, c.value, forward)
    ensures ps == [] ==> AdvanceOld(ps, b, cursor, forward) == (None, None)
    ensures ps != [] && LastContaining(ps, b, cursor).None? && PrevIn(ps, b, cursor, forward).None? ==>
              AdvanceOld(ps, b, cursor, forward).1 == Some(ps[0])
  {
  }

  // ---------------------------------------------------------------------
  // on_buffer_changed and on_buffer_cursor_moved

  /** on_buffer_changed (lines 607-617): the current placeholder is queued
      on every change, and the pending flush is cancelled and scheduled
      anew. */
  function ChangedRestart(st: State, b: Bounds, cursor: int): State
  {
    var current := CurrentLast(st.placeholders, b, cursor);
    if current.None? then st
    else Schedule(st.(updateQueue := st.updateQueue + [current.value]))
  }

  /** A change inside a placeholder queues it once more and replaces the
      pending flush by a fresh one; outside every placeholder nothing
      happens. The invariants are kept. */
  lemma ChangedRestartFacts(st: State, b: Bounds, cursor: int)
    requires Coherent(st)
    ensures Coherent(ChangedRestart(st, b, cursor))
    ensures var c := CurrentLast(st.placeholders, b, cursor);
            && (c.None? ==> ChangedRestart(st, b, cursor) == st)
            && (c.Some? ==> ChangedRestart(st, b, cursor).updateQueue == st.updateQueue + [c.value])
            && (c.Some? ==> ChangedRestart(st, b, cursor).timeoutId != 0
                            && ChangedRestart(st, b, cursor).timeoutId != st.timeoutId)
  {
  }

  /** Two changes in the same placeholder queue it twice. */
  lemma ChangedTwiceQueuesTwice(st: State, b: Bounds, cursor: int)
    requires CurrentLast(st.placeholders, b, cursor).Some?
    ensures var c := CurrentLast(st.placeholders, b, cursor).value;
            ChangedRestart(ChangedRestart(st, b, cursor), b, cursor).updateQueue == st.updateQueue + [c, c]
  {
  }

  /** on_buffer_cursor_moved (lines 578-605), with a snippet whose marks
      were deleted deactivated like one the cursor left: every active
      snippet outside the cursor is deactivated; then, when the current
      placeholder differs from the active one, a jump from the active one
      is queued (cancelling and scheduling the flush anew) when there is an
      active one, and the current placeholder becomes the active one. */
  function CursorMovedRestart(st: State, marks: Instance -> Option<Range>, b: Bounds, cursor: int): State
  {
    var st1 := DeactivateOutside(st, st.snippets, marks, cursor);
    var current := CurrentLast(st1.placeholders, b, cursor);
    if current == st1.active then st1
    else if st1.active.None? then st1.(active := current)
    else Schedule(st1.(jumpQueue := st1.jumpQueue + [Jump(st1.active.value, current)])).(active := current)
  }

  lemma CursorMovedRestartFacts(st: State, marks: Instance -> Option<Range>, b: Bounds, cursor: int)
    requires Coherent(st)
    ensures Coherent(CursorMovedRestart(st, marks, b, cursor))
    ensures forall s :: s in CursorMovedRestart(st, marks, b, cursor).snippets <==>
                          s in st.snippets && marks(s).Some? && Contains(marks(s).value, cursor)
    ensures var st1 := DeactivateOutside(st, st.snippets, marks, cursor);
            var c := CurrentLast(st1.placeholders, b, cursor);
            && CursorMovedRestart(st, marks, b, cursor).active == c
            && (CursorMovedRestart(st, marks, b, cursor).jumpQueue ==
                  if c != st1.active && st1.active.Some? then st.jumpQueue + [Jump(st1.active.value, c)] else st.jumpQueue)
            && (c != st1.active && st1.active.Some? ==> CursorMovedRestart(st, marks, b, cursor).timeoutId != st.timeoutId)
  {
    DeactivateOutsideFacts(st, st.snippets, marks, cursor);
  }

  // ---------------------------------------------------------------------
  // deactivate_snippet leaves duplicates queued

  /** A placeholder queued twice keeps one queued update after its snippet
      is deactivated, though it is no longer in use: the flush then updates
      a removed placeholder. */
  lemma StaleUpdateAfterDeactivation()
    ensures var p := Placeholder(1, false);
            var e := Placeholder(0, true);
            var s := Instance(7, e, [e, p]);
            var st := State([e, p], [s], Some(p), [p, p], [], 1, 1, true, []);
            && Coherent(st)
            && var r := Deactivated(st, s, false);
               p in r.updateQueue && p !in r.placeholders && Coherent(r)
  {
    var p := Placeholder(1, false);
    var e := Placeholder(0, true);
    var s := Instance(7, e, [e, p]);
    var st := State([e, p], [s], Some(p), [p, p], [], 1, 1, true, []);
    assert FilterIn([e, p], [e, p]) == [e, p] by {
      assert [e, p][1..] == [p];
    }
    assert FilterIn([e, p], [p, p]) == [p] by {
      assert [e, p][1..] == [p];
    }
    assert RemoveFirst([p, p], p) == [p];
    assert RemoveEach([p, p], [p]) == [p] by {
      assert [p][1..] == [];
    }
    DeactivatedFacts(st, s, false);
  }

  // ---------------------------------------------------------------------
  // apply_snippet

  /** The new snippet is registered without touching the buffer signals:
      this controller connects them only after the first jump. */
  function Registered(st: State, sn: Instance): State
  {
    st.(placeholders := st.placeholders + sn.members, snippets := st.snippets + [sn])
  }

  /** apply_snippet (lines 323-377) from the first advance on: when the
      cursor is in an End placeholder it is left (ending its snippet); the
      snippet is registered; the cursor, now at `cursor2` with the
      placeholders at `b2`, moves into the current placeholder when that
      is not the active one, else into the next one; then the buffer
      signals are connected when exactly one snippet is active. */
  function AfterInsertOld(st: State, b: Bounds, cursor: int, sn: Instance, b2: Bounds, cursor2: int): State
  {
    var current := AdvanceOld(st.placeholders, b, cursor, true).0;
    var st1 := if current.Some? && current.value.isEnd then Goto(st, current, None) else st;
    Connected(FirstJump(Registered(st1, sn), b2, cursor2))
  }

  /** The jump of apply_snippet (lines 364-369), from the registered state:
      into the current placeholder when it is not the active one, else
      into the next one. */
  function FirstJump(mid: State, b2: Bounds, cursor2: int): State
  {
    var (c2, n2) := AdvanceOld(mid.placeholders, b2, cursor2, true);
    if c2.Some? && c2 != mid.active then Goto(mid, None, c2)
    else if n2.Some? then Goto(mid, None, n2)
    else mid
  }

  /** first_snippet_inserted (lines 374-375) when exactly one snippet is
      active. */
  function Connected(st: State): State
  {
    if |st.snippets| == 1 then st.(bufferSignals := true) else st
  }

  /** goto_placeholder does not look at the buffer signals, and leaves
      disconnected signals disconnected. */
  lemma GotoQuiet(st: State, current: Option<Placeholder>, next: Option<Placeholder>)
    ensures Goto(st.(bufferSignals := false), current, next) == Goto(st, current, next).(bufferSignals := false)
  {
  }

  lemma FirstJumpQuiet(st: State, b2: Bounds, cursor2: int)
    ensures FirstJump(st.(bufferSignals := false), b2, cursor2) == FirstJump(st, b2, cursor2).(bufferSignals := false)
  {
    var (c2, n2) := AdvanceOld(st.placeholders, b2, cursor2, true);
    if c2.Some? && c2 != st.active {
      GotoQuiet(st, None, c2);
    } else if n2.Some? {
      GotoQuiet(st, None, n2);
    }
  }

  lemma FirstJumpFacts(st: State, b2: Bounds, cursor2: int)
    requires Coherent(st)
    ensures Coherent(FirstJump(st, b2, cursor2))
    ensures forall t :: t in FirstJump(st, b2, cursor2).snippets ==> t in st.snippets
    ensures forall p :: p in FirstJump(st, b2, cursor2).placeholders ==> p in st.placeholders
  {
    var (c2, n2) := AdvanceOld(st.placeholders, b2, cursor2, true);
    if c2.Some? && c2 != st.active {
      GotoFacts(st, None, c2);
    } else if n2.Some? {
      GotoFacts(st, None, n2);
    }
  }

  /** Connecting the buffer signals after the first jump keeps the
      invariants: inserting a snippet leaves the controller coherent, with
      the signals connected exactly while a snippet is active, and brings in
      no placeholder but the snippet's own. */
  lemma AfterInsertOldFacts(st: State, b: Bounds, cursor: int, sn: Instance, b2: Bounds, cursor2: int)
    requires Coherent(st)
    requires sn !in st.snippets && NoDuplicates(sn.members) && forall p :: p in sn.members ==> p !in st.placeholders
    ensures Coherent(AfterInsertOld(st, b, cursor, sn, b2, cursor2))
    ensures forall p :: p in AfterInsertOld(st, b, cursor, sn, b2, cursor2).placeholders ==> p in st.placeholders || p in sn.members
  {
    var current := AdvanceOld(st.placeholders, b, cursor, true).0;
    var st1 := if current.Some? && current.value.isEnd then Goto(st, current, None) else st;
    if current.Some? && current.value.isEnd {
      GotoFacts(st, current, None);
    }
    InsertedFacts(st1, sn);
    var ins := Inserted(st1, sn);
    FirstJumpFacts(ins, b2, cursor2);
    var g := FirstJump(ins, b2, cursor2);
    if st1.bufferSignals {
      assert Registered(st1, sn) == ins;
    } else {
      assert Registered(st1, sn) == ins.(bufferSignals := false);
      FirstJumpQuiet(ins, b2, cursor2);
      OnlySnippet(g.snippets, sn);
      assert Connected(g.(bufferSignals := false)) == g;
    }
  }

  lemma OnlySnippet(ss: seq<Instance>, sn: Instance)
    requires NoDuplicates(ss) && forall t :: t in ss ==> t == sn
    ensures |ss| <= 1
  {
    FirstTwoIn(ss);
  }

  lemma FirstTwoIn(ss: seq<Instance>)
    ensures |ss| >= 2 ==> ss[0] in ss && ss[1] in ss
  {
  }

  // ---------------------------------------------------------------------
  // The controller

  class SnippetController {
    var placeholders: seq<Placeholder>
    var activeSnippets: seq<Instance>
    var activePlaceholder: Option<Placeholder>
    var updatePlaceholders: seq<Placeholder>
    var jumpPlaceholders: seq<Jump>
    var timeoutUpdateId: nat
    /** The last source id gobject.timeout_add handed out. */
    var lastSourceId: nat
    /** Whether 'changed' and 'cursor-moved' are connected (`signal_ids`). */
    var bufferSignals: bool
    var effects: seq<Effect>

    ghost function State(): State
      reads this
    {
      SnippetsCommon.State(placeholders, activeSnippets, activePlaceholder, updatePlaceholders,
                           jumpPlaceholders, timeoutUpdateId, lastSourceId, bufferSignals, effects)
    }

    ghost predicate Valid()
      reads this
    {
      Coherent(State())
    }

    /** The fields __init__ sets (lines 31-45). */
    constructor()
      ensures Valid() && placeholders == [] && activeSnippets == [] && activePlaceholder.None?
      ensures updatePlaceholders == [] && jumpPlaceholders == [] && timeoutUpdateId == 0 && effects == []
    {
      placeholders := [];
      activeSnippets := [];
      activePlaceholder := None;
      updatePlaceholders := [];
      jumpPlaceholders := [];
      timeoutUpdateId := 0;
      lastSourceId := 0;
      bufferSignals := false;
      effects := [];
    }

    /** current_placeholder (lines 167-181): the loop keeps the last
        placeholder holding the cursor. */
    method CurrentPlaceholder(b: Bounds, cursor: int) returns (r: Option<Placeholder>)
      ensures r == CurrentLast(placeholders, b, cursor)
    {
      r := None;
      ghost var idx: Option<nat> := None;
      for i := 0 to |placeholders|
        invariant idx == LastContaining(placeholders[..i], b, cursor)
        invariant r == if idx.Some? then Some(placeholders[idx.value]) else None
      {
        assert placeholders[..i + 1][..i] == placeholders[..i];
        if Contains(b(placeholders[i]), cursor) {
          r := Some(placeholders[i]);
          idx := Some(i);
        }
      }
      assert placeholders[..|placeholders|] == placeholders;
    }

    /** advance_placeholder (lines 183-225): one scan keeps `prev` and the
        last placeholder holding the cursor, with their indices. */
    method AdvancePlaceholder(b: Bounds, cursor: int, forward: bool) returns (current: Option<Placeholder>, next: Option<Placeholder>)
      ensures (current, next) == AdvanceOld(placeholders, b, cursor, forward)
    {
      var prevIndex: Option<nat> := None;
      var currentIndex: Option<nat> := None;
      var length := |placeholders|;
      for index := 0 to length
        invariant prevIndex == PrevIn(placeholders[..index], b, cursor, forward)
        invariant currentIndex == LastContaining(placeholders[..index], b, cursor)
      {
        assert placeholders[..index + 1][..index] == placeholders[..index];
        var prev := if prevIndex.Some? then Some(b(placeholders[prevIndex.value])) else None;
        if NearestOld(forward, cursor, b(placeholders[index]), prev) {
          prevIndex := Some(index);
        }
        if Contains(b(placeholders[index]), cursor) {
          currentIndex := Some(index);
        }
      }
      assert placeholders[..length] == placeholders;
      current, next := None, None;
      if currentIndex.Some? {
        current := Some(placeholders[currentIndex.value]);
        if forward && currentIndex.value < length - 1 {
          next := Some(placeholders[currentIndex.value + 1]);
        } else if !forward && currentIndex.value > 0 {
          next := Some(placeholders[currentIndex.value - 1]);
        }
      } else if prevIndex.Some? {
        if forward && prevIndex.value < length - 1 {
          next := Some(placeholders[prevIndex.value + 1]);
        } else if !forward && prevIndex.value > 0 {
          next := Some(placeholders[prevIndex.value - 1]);
        }
      } else if length > 0 {
        next := Some(placeholders[0]);
      }
    }

    /** skip_to_next_placeholder and skip_to_previous_placeholder (lines
        266-272): advance, then move. */
    method SkipToPlaceholder(b: Bounds, cursor: int, forward: bool) returns (moved: bool)
      requires Valid()
      modifies this
      ensures Valid()
      ensures var (c, n) := AdvanceOld(old(placeholders), b, cursor, forward);
              State() == Goto(old(State()), c, n) && (moved <==> n.Some?)
    {
      var c, n := AdvancePlaceholder(b, cursor, forward);
      GotoFacts(State(), c, n);
      moved := GotoPlaceholder(c, n);
    }

    /** goto_placeholder (lines 237-264): `current` is left, `next` becomes
        active and is entered, the first snippet ended by an End
        placeholder among them is deactivated, and the view scrolls to the
        cursor; the answer says whether there was a `next`. */
    method GotoPlaceholder(current: Option<Placeholder>, next: Option<Placeholder>) returns (moved: bool)
      requires forall s :: s in activeSnippets ==> NoDuplicates(s.members)
      modifies this`placeholders, this`activeSnippets, this`activePlaceholder, this`updatePlaceholders
      modifies this`bufferSignals, this`effects
      ensures State() == Goto(old(State()), current, next)
      ensures moved <==> next.Some?
    {
      var last: Option<Placeholder> := None;
      if current.Some? {
        effects := effects + [Leave(current.value)];
        if current.value.isEnd {
          last := current;
        }
      }
      activePlaceholder := next;
      if next.Some? {
        effects := effects + [Enter(next.value)];
        if next.value.isEnd {
          last := next;
        }
      }
      assert last == LastEnd(current, next);
      assert effects == old(effects) + LeaveOf(current) + EnterOf(next);
      if last.Some? {
        var snaps := activeSnippets;
        var k := FindEndOwner(snaps, last.value);
        if k < |snaps| {
          DeactivateSnippet(snaps[k], false);
        }
      }
      effects := effects + [ScrolledToCursor];
      moved := next.Some?;
    }

    /** deactivate_snippet (lines 431-466): the snippet's placeholders still
        in use are collected, flushing and dequeuing (once) their queued
        content updates; then each is removed (clearing the active
        placeholder when it is the one), the snippet's three marks are
        deleted, it is dropped, and the buffer signals are disconnected
        when no snippet remains. */
    method DeactivateSnippet(s: Instance, force: bool)
      requires s in activeSnippets && NoDuplicates(s.members)
      modifies this`placeholders, this`activeSnippets, this`activePlaceholder, this`updatePlaceholders
      modifies this`bufferSignals, this`effects
      ensures State() == Deactivated(old(State()), s, force)
    {
      ghost var st0 := SnippetsCommon.State(placeholders, activeSnippets, activePlaceholder, updatePlaceholders,
                                            jumpPlaceholders, timeoutUpdateId, lastSourceId, bufferSignals, effects);
      var remove := CollectListed(s);
      ghost var e1 := effects;
      ghost var q1 := updatePlaceholders;
      RemoveListed(remove, force);
      FinishDeactivation(s, force, st0, remove, e1, q1);
    }

    /** The end of deactivate_snippet: the snippet is announced as
        deactivated and dropped from the active list, and the buffer's
        signals are released with the last one. */
    method FinishDeactivation(s: Instance, force: bool, ghost st0: State, ghost remove: seq<Placeholder>,
                              ghost e1: seq<Effect>, ghost q1: seq<Placeholder>)
      requires remove == FilterIn(s.members, st0.placeholders)
      requires e1 == st0.effects + UpdateEffects(FilterIn(remove, st0.updateQueue))
      requires q1 == RemoveEach(st0.updateQueue, FilterIn(remove, st0.updateQueue))
      requires updatePlaceholders == q1 && effects == e1 + RemovedEffects(remove, force)
      requires placeholders == RemoveEach(st0.placeholders, remove) && activeSnippets == st0.snippets
      requires activePlaceholder == if st0.active.Some? && st0.active.value in remove then None else st0.active
      requires jumpPlaceholders == st0.jumpQueue && timeoutUpdateId == st0.timeoutId && lastSourceId == st0.lastSourceId
      requires bufferSignals == st0.bufferSignals
      modifies this`effects, this`activeSnippets, this`bufferSignals
      ensures State() == Deactivated(st0, s, force)
    {
      effects := effects + [SnippetDeactivated(s.uid)];
      activeSnippets := RemoveFirst(activeSnippets, s);
      if |activeSnippets| == 0 {
        bufferSignals := false;
      }
      DeactivatedIs(st0, s, force, remove, e1, q1,
        SnippetsCommon.State(placeholders, activeSnippets, activePlaceholder, updatePlaceholders,
                             jumpPlaceholders, timeoutUpdateId, lastSourceId, bufferSignals, effects));
    }

    /** The first loop of deactivate_snippet (lines 435-449). */
    method CollectListed(s: Instance) returns (remove: seq<Placeholder>)
      requires NoDuplicates(s.members)
      modifies this`updatePlaceholders, this`effects
      ensures remove == FilterIn(s.members, placeholders)
      ensures updatePlaceholders == RemoveEach(old(updatePlaceholders), FilterIn(remove, old(updatePlaceholders)))
      ensures effects == old(effects) + UpdateEffects(FilterIn(remove, old(updatePlaceholders)))
    {
      ghost var q0 := updatePlaceholders;
      ghost var queued: seq<Placeholder> := [];
      remove := [];
      for i := 0 to |s.members|
        invariant remove == FilterIn(s.members[..i], placeholders)
        invariant queued == FilterIn(remove, q0)
        invariant updatePlaceholders == RemoveEach(q0, queued)
        invariant effects == old(effects) + UpdateEffects(queued)
      {
        var p := s.members[i];
        MembersStep(s.members, i, placeholders);
        if p in placeholders {
          CollectStep(q0, remove, p);
          if p in updatePlaceholders {
            ConcatAssoc(old(effects), UpdateEffects(queued), [UpdateContents(p)]);
            effects := effects + [UpdateContents(p)];
            updatePlaceholders := RemoveFirst(updatePlaceholders, p);
            queued := queued + [p];
          }
          remove := remove + [p];
        }
      }
      assert s.members[..|s.members|] == s.members;
    }

    /** The second loop of deactivate_snippet (lines 451-456). */
    method RemoveListed(remove: seq<Placeholder>, force: bool)
      modifies this`placeholders, this`activePlaceholder, this`effects
      ensures placeholders == RemoveEach(old(placeholders), remove)
      ensures activePlaceholder ==
                if old(activePlaceholder).Some? && old(activePlaceholder).value in remove
                then None else old(activePlaceholder)
      ensures effects == old(effects) + RemovedEffects(remove, force)
    {
      for j := 0 to |remove|
        invariant placeholders == RemoveEach(old(placeholders), remove[..j])
        invariant activePlaceholder ==
                    if old(activePlaceholder).Some? && old(activePlaceholder).value in remove[..j]
                    then None else old(activePlaceholder)
        invariant effects == old(effects) + RemovedEffects(remove[..j], force)
      {
        var p := remove[j];
        assert remove[..j + 1] == remove[..j] + [p];
        RemoveEachSnoc(old(placeholders), remove[..j], p);
        RemovedEffectsSnoc(remove[..j], p, force);
        ConcatAssoc(old(effects), RemovedEffects(remove[..j], force), [Removed(p, force)]);
        RemovePlaceholder(p, force);
      }
      assert remove[..|remove|] == remove;
    }

    /** One pass of that loop: `p` leaves the list, the active placeholder
        is cleared when it is `p`, and `p` is removed from the buffer. */
    method RemovePlaceholder(p: Placeholder, force: bool)
      modifies this`placeholders, this`activePlaceholder, this`effects
      ensures placeholders == RemoveFirst(old(placeholders), p)
      ensures activePlaceholder == if old(activePlaceholder) == Some(p) then None else old(activePlaceholder)
      ensures effects == old(effects) + [Removed(p, force)]
    {
      if activePlaceholder == Some(p) {
        activePlaceholder := None;
      }
      placeholders := RemoveFirst(placeholders, p);
      effects := effects + [Removed(p, force)];
    }

    /** update_snippet_contents (lines 549-561), the idle callback. */
    method UpdateSnippetContents() returns (again: bool)
      requires Valid()
      modifies this
      ensures Valid()
      ensures State() == Flush(old(State()))
      ensures !again
    {
      timeoutUpdateId := 0;
      ApplyUpdates();
      ghost var st1 := State();
      assert st1 == old(State()).(timeoutId := 0, effects := old(effects) + UpdateEffects(old(updatePlaceholders)));
      var jumps := jumpPlaceholders;
      for j := 0 to |jumps|
        invariant Listed(State())
        invariant GotoAll(State(), jumps[j..]) == GotoAll(st1, jumps)
      {
        assert jumps[j..][0] == jumps[j] && jumps[j..][1..] == jumps[j + 1..];
        GotoFacts(State(), Some(jumps[j].from), jumps[j].to);
        var _ := GotoPlaceholder(Some(jumps[j].from), jumps[j].to);
      }
      assert GotoAll(State(), jumps[|jumps|..]) == State();
      updatePlaceholders := [];
      jumpPlaceholders := [];
      again := false;
      FlushFacts(old(State()));
    }

    /** The first loop of update_snippet_contents (lines 552-553). */
    method ApplyUpdates()
      modifies this`effects
      ensures effects == old(effects) + UpdateEffects(updatePlaceholders)
    {
      for i := 0 to |updatePlaceholders|
        invariant effects == old(effects) + UpdateEffects(updatePlaceholders[..i])
      {
        assert updatePlaceholders[..i + 1] == updatePlaceholders[..i] + [updatePlaceholders[i]];
        UpdateEffectsSnoc(updatePlaceholders[..i], updatePlaceholders[i]);
        effects := effects + [UpdateContents(updatePlaceholders[i])];
      }
      assert updatePlaceholders[..|updatePlaceholders|] == updatePlaceholders;
    }

    /** on_buffer_changed (lines 607-617). */
    method OnBufferChanged(b: Bounds, cursor: int)
      requires Valid()
      modifies this`updatePlaceholders, this`timeoutUpdateId, this`lastSourceId
      ensures Valid()
      ensures State() == ChangedRestart(old(State()), b, cursor)
    {
      var current := CurrentPlaceholder(b, cursor);
      ChangedRestartFacts(State(), b, cursor);
      if current.Some? {
        updatePlaceholders := updatePlaceholders + [current.value];
        lastSourceId := lastSourceId + 1;
        timeoutUpdateId := lastSourceId;
      }
    }

    /** on_buffer_cursor_moved (lines 578-605), with a snippet whose marks
        were deleted deactivated like one the cursor left. */
    method OnBufferCursorMoved(marks: Instance -> Option<Range>, b: Bounds, cursor: int)
      requires Valid()
      modifies this
      ensures Valid()
      ensures State() == CursorMovedRestart(old(State()), marks, b, cursor)
    {
      DeactivateOutsideFacts(State(), activeSnippets, marks, cursor);
      CursorMovedRestartFacts(State(), marks, b, cursor);
      DeactivateLeft(marks, cursor);
      var current := CurrentPlaceholder(b, cursor);
      if current != activePlaceholder {
        if activePlaceholder.Some? {
          jumpPlaceholders := jumpPlaceholders + [Jump(activePlaceholder.value, current)];
          lastSourceId := lastSourceId + 1;
          timeoutUpdateId := lastSourceId;
        }
        activePlaceholder := current;
      }
    }

    /** The first loop of on_buffer_cursor_moved (lines 581-592), over a
        copy of the active snippets. */
    method DeactivateLeft(marks: Instance -> Option<Range>, cursor: int)
      requires Listed(State())
      modifies this`placeholders, this`activeSnippets, this`activePlaceholder, this`updatePlaceholders,
               this`bufferSignals, this`effects
      ensures State() == DeactivateOutside(old(State()), old(activeSnippets), marks, cursor)
    {
      var snaps := activeSnippets;
      for k := 0 to |snaps|
        invariant Listed(State())
        invariant forall j :: k <= j < |snaps| ==> snaps[j] in activeSnippets
        invariant DeactivateOutside(State(), snaps[k..], marks, cursor) == DeactivateOutside(old(State()), snaps, marks, cursor)
      {
        var s := snaps[k];
        assert snaps[k..][0] == s && snaps[k..][1..] == snaps[k + 1..];
        if marks(s).None? || cursor < marks(s).value.begin || cursor > marks(s).value.end {
          DeactivatedFacts(State(), s, false);
          forall j | k < j < |snaps| ensures snaps[j] in Deactivated(State(), s, false).snippets {
            assert snaps[j] != s by {
              assert NoDuplicates(snaps);
            }
          }
          DeactivateSnippet(s, false);
        }
      }
      assert DeactivateOutside(State(), snaps[|snaps|..], marks, cursor) == State();
    }

    /** apply_snippet (lines 323-377) around the unseen Snippet.insert_into,
        taken to produce `sn` with fresh placeholders appended to the list;
        `b` and `cursor` are where the placeholders and the cursor lie
        before the insertion, `b2` and `cursor2` after it. An invalid
        snippet is refused. */
    method ApplySnippet(valid: bool, sn: Instance, b: Bounds, cursor: int, b2: Bounds, cursor2: int) returns (applied: bool)
      requires Valid()
      requires sn !in activeSnippets && NoDuplicates(sn.members)
      requires forall p :: p in sn.members ==> p !in placeholders
      modifies this`placeholders, this`activeSnippets, this`activePlaceholder, this`updatePlaceholders
      modifies this`bufferSignals, this`effects
      ensures Valid()
      ensures applied == valid
      ensures valid ==> State() == AfterInsertOld(old(State()), b, cursor, sn, b2, cursor2)
      ensures !valid ==> State() == old(State())
    {
      if !valid {
        return false;
      }
      AfterInsertOldFacts(State(), b, cursor, sn, b2, cursor2);
      var current, _ := AdvancePlaceholder(b, cursor, true);
      if current.Some? && current.value.isEnd {
        GotoFacts(State(), current, None);
        var _ := GotoPlaceholder(current, None);
      }
      RegisterAndJump(sn, b2, cursor2);
      applied := true;
    }

    /** apply_snippet from the registration of the inserted snippet on
        (lines 356-375): the first jump, then the buffer signals when this
        is the only active snippet. */
    method RegisterAndJump(sn: Instance, b2: Bounds, cursor2: int)
      requires forall s :: s in activeSnippets ==> NoDuplicates(s.members)
      requires NoDuplicates(sn.members)
      modifies this`placeholders, this`activeSnippets, this`activePlaceholder, this`updatePlaceholders
      modifies this`bufferSignals, this`effects
      ensures State() == Connected(FirstJump(Registered(old(State()), sn), b2, cursor2))
    {
      RegisterSnippet(sn);
      var c2, n2 := AdvancePlaceholder(b2, cursor2, true);
      if c2.Some? && c2 != activePlaceholder {
        var _ := GotoPlaceholder(None, c2);
      } else if n2.Some? {
        var _ := GotoPlaceholder(None, n2);
      }
      if |activeSnippets| == 1 {
        bufferSignals := true;
      }
    }

    /** Registering the inserted snippet (lines 356-358). */
    method RegisterSnippet(sn: Instance)
      requires forall s :: s in activeSnippets ==> NoDuplicates(s.members)
      requires NoDuplicates(sn.members)
      modifies this`placeholders, this`activeSnippets
      ensures State() == Registered(old(State()), sn)
      ensures forall s :: s in activeSnippets ==> NoDuplicates(s.members)
    {
      placeholders := placeholders + sn.members;
      activeSnippets := activeSnippets + [sn];
    }
  }
}
